/** The extractor's session state: the two sets `font_names` and `characters`
    that every processed file adds to, and the batch loop that feeds files to
    `process_file`. */
module Session {
  import opened Text
  import opened AssScan
  import opened AssLines

  /** `self.font_names` and `self.characters`. */
  datatype State = State(fontNames: set<string>, characters: set<char>)

  /** Both sets start empty. */
  const Init: State := State({}, {})

  /** What every reachable state satisfies: no name holds a comma or a line
      feed, and no collected character is a line feed. */
  predicate Valid(st: State)
  {
    (forall n :: n in st.fontNames ==> ',' !in n && '\n' !in n) &&
    '\n' !in st.characters
  }

  /** The font names one file declares, as a set. */
  function Names(content: string): set<string>
  {
    set n | n in ExtractStyles(content)
  }

  /** `set(' '.join(dialogues))`: the characters of the captures, plus the
      space the join puts between two of them. */
  function Glyphs(dialogues: seq<string>): (g: set<char>)
    ensures forall c :: c in g <==>
              (exists k :: 0 <= k < |dialogues| && c in dialogues[k]) ||
              (|dialogues| >= 2 && c == ' ')
  {
    GlyphsMembers(dialogues);
    CharsOf(Join(" ", dialogues))
  }

  lemma GlyphsMembers(dialogues: seq<string>)
    ensures forall c :: c in CharsOf(Join(" ", dialogues)) <==>
              (exists k :: 0 <= k < |dialogues| && c in dialogues[k]) ||
              (|dialogues| >= 2 && c == ' ')
  {
    forall c {
      JoinMembers(" ", dialogues, c);
    }
  }

  /** The characters one file contributes. */
  function FileGlyphs(content: string): set<char>
  {
    Glyphs(ExtractDialogues(content))
  }

  /** The contribution of a file is free of line feeds, and its names of
      commas and line feeds. */
  lemma FileClean(content: string)
    ensures forall n :: n in Names(content) ==> ',' !in n && '\n' !in n
    ensures '\n' !in FileGlyphs(content)
  {
  }

  /** `process_file` on already decoded content: plain, case-sensitive union
      of the file's names and characters into the session sets. */
  function Step(st: State, content: string): (r: State)
    ensures st.fontNames <= r.fontNames && st.characters <= r.characters
    ensures forall n :: n in r.fontNames <==> n in st.fontNames || n in ExtractStyles(content)
    ensures var d := ExtractDialogues(content);
            forall c :: c in r.characters <==>
              c in st.characters ||
              (exists k :: 0 <= k < |d| && c in d[k]) ||
              (|d| >= 2 && c == ' ')
    ensures Valid(st) ==> Valid(r)
  {
    FileClean(content);
    State(st.fontNames + Names(content), st.characters + FileGlyphs(content))
  }

  /** Processing the files `docs` in order, starting from `st`. */
  function Run(st: State, docs: seq<string>): (r: State)
    ensures st.fontNames <= r.fontNames && st.characters <= r.characters
    ensures Valid(st) ==> Valid(r)
    decreases |docs|
  {
    if |docs| == 0 then st else Run(Step(st, docs[0]), docs[1..])
  }

  /** Every name any of `docs` declares, whatever the order of the files. */
  function AllNames(docs: seq<string>): set<string>
  {
    set d, n | d in docs && n in Names(d) :: n
  }

  /** Every character any of `docs` contributes. */
  function AllGlyphs(docs: seq<string>): set<char>
  {
    set d, c | d in docs && c in FileGlyphs(d) :: c
  }

  /** Processing one more file is one more step. */
  lemma {:induction false} RunSnoc(st: State, docs: seq<string>, d: string)
    ensures Run(st, docs + [d]) == Step(Run(st, docs), d)
    decreases |docs|
  {
    if |docs| == 0 {
      assert (docs + [d])[1..] == [];
    } else {
      assert (docs + [d])[1..] == docs[1..] + [d];
      RunSnoc(Step(st, docs[0]), docs[1..], d);
    }
  }

  /** A run adds exactly the union of what every file contributes. */
  lemma {:induction false} RunUnion(st: State, docs: seq<string>)
    ensures Run(st, docs) ==
              State(st.fontNames + AllNames(docs), st.characters + AllGlyphs(docs))
    decreases |docs|
  {
    if |docs| > 0 {
      var rest := docs[1..];
      RunUnion(Step(st, docs[0]), rest);
      AllFirst(docs);
    }
  }

  /** The contributions of a list are those of its first file and the rest. */
  lemma AllFirst(docs: seq<string>)
    requires |docs| > 0
    ensures AllNames(docs) == Names(docs[0]) + AllNames(docs[1..])
    ensures AllGlyphs(docs) == FileGlyphs(docs[0]) + AllGlyphs(docs[1..])
  {
  }

  /** Aggregation forgets order and repetition: two runs over the same set of
      files end in the same state. */
  lemma RunOrderFree(st: State, docs: seq<string>, others: seq<string>)
    requires forall d :: d in docs <==> d in others
    ensures Run(st, docs) == Run(st, others)
  {
    RunUnion(st, docs);
    RunUnion(st, others);
  }

  /** Processing the same file twice is processing it once. */
  lemma StepIdempotent(st: State, content: string)
    ensures Step(Step(st, content), content) == Step(st, content)
  {
  }

  /** Processing A then B is processing B then A. */
  lemma StepCommutes(st: State, a: string, b: string)
    ensures Step(Step(st, a), b) == Step(Step(st, b), a)
  {
  }

  /** A file of two style lines declares the two names. */
  lemma TwoStyleLines(f1: string, n1: string, f2: string, n2: string)
    requires ',' !in f1 && '\n' !in f1 && ',' !in n1 && '\n' !in n1
    requires ',' !in f2 && '\n' !in f2 && ',' !in n2 && '\n' !in n2
    ensures Step(Init, StyleLineText(f1, n1) + StyleLineText(f2, n2)).fontNames == {n1, n2}
  {
    StyleLine(f1, n1);
    StyleLine(f2, n2);
    ExtractByLines(StyleLineText(f1, n1), StyleLineText(f2, n2));
  }

  /** Names are merged by exact string equality: names that differ only in
      letter case both stay. */
  lemma CaseKept()
    ensures |Step(Init, StyleLineText("Default", "Arial") + StyleLineText("Alt", "arial")).fontNames| == 2
  {
    TwoStyleLines("Default", "Arial", "Alt", "arial");
    assert "Arial" != "arial" by {
      assert "Arial"[0] != "arial"[0];
    }
  }

  /** Every state the extractor can reach is valid. */
  lemma Reachable(docs: seq<string>)
    ensures Valid(Run(Init, docs))
  {
  }

  /** The text `process_file` sees for each file of a prefix that opened and
      decoded: the decoded characters after newline translation. */
  function Decoded(files: seq<Option<string>>): (docs: seq<string>)
    requires forall i :: 0 <= i < |files| ==> files[i].Some?
    ensures |docs| == |files|
    ensures forall i :: 0 <= i < |files| ==> '\r' !in docs[i]
  {
    seq(|files|, i requires 0 <= i < |files| => Newlines(files[i].value))
  }

  lemma DecodedSnoc(files: seq<Option<string>>, n: nat)
    requires n < |files| && forall i :: 0 <= i <= n ==> files[i].Some?
    ensures Decoded(files[..n + 1]) == Decoded(files[..n]) + [Newlines(files[n].value)]
  {
  }

  /** `load_files`: each selected file is opened as UTF-8 text and processed in
      turn. `Some(raw)` holds a file's decoded characters before newline
      translation; `None` stands for a file that fails to open or to decode:
      the error escapes the loop, so that file and every later one leave the
      state as it was. */
  method LoadFiles(st: State, files: seq<Option<string>>) returns (r: State, loaded: nat)
    ensures loaded <= |files|
    ensures forall i :: 0 <= i < loaded ==> files[i].Some?
    ensures loaded < |files| ==> files[loaded].None?
    ensures r == Run(st, Decoded(files[..loaded]))
  {
    r := st;
    loaded := 0;
    while loaded < |files| && files[loaded].Some?
      invariant loaded <= |files|
      invariant forall i :: 0 <= i < loaded ==> files[i].Some?
      invariant r == Run(st, Decoded(files[..loaded]))
      decreases |files| - loaded
    {
      var content := Newlines(files[loaded].value);
      DecodedSnoc(files, loaded);
      RunSnoc(st, Decoded(files[..loaded]), content);
      r := Step(r, content);
      loaded := loaded + 1;
    }
  }
}
