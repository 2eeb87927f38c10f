/** `export_results`: the text file written from the session sets, and a reader
    for it that recovers the sets. */
module Report {
  import opened Text
  import opened Session

  /** `xs` lists every element of `s` exactly once, in some order; Python's
      iteration order over a set is left open. */
  predicate Enumerates<T>(xs: seq<T>, s: set<T>)
  {
    multiset(xs) == multiset(s)
  }

  /** The exported text for one enumeration of each set: the names joined by
      line feeds, a blank line, then every character with no separator. */
  function Export(st: State, names: seq<string>, glyphs: seq<char>): (text: string)
    requires Enumerates(names, st.fontNames) && Enumerates(glyphs, st.characters)
    ensures |text| >= |st.characters| + 2
    ensures var body := |text| - |st.characters|;
            text[body - 2..body] == "\n\n" &&
            multiset(text[body..]) == multiset(st.characters)
    ensures Valid(st) ==> '\n' !in text[|text| - |st.characters|..]
  {
    assert |multiset(glyphs)| == |multiset(st.characters)|;
    var text := Join("\n", names) + "\n\n" + glyphs;
    assert text[|text| - |glyphs|..] == glyphs;
    assert forall c :: c in glyphs ==> c in multiset(glyphs);
    text
  }

  /** No two consecutive line feeds. */
  predicate NoBlankLine(s: string)
  {
    forall p :: 0 <= p < |s| - 1 ==> !(s[p] == '\n' && s[p + 1] == '\n')
  }

  /** Index of the first `"\n\n"` at or after `i`. */
  function FirstBlank(s: string, i: nat): (r: Option<nat>)
    requires i <= |s|
    ensures r.Some? ==> i <= r.value && TagAt(s, r.value, "\n\n")
    decreases |s| - i
  {
    if i + 2 > |s| then None
    else if s[i] == '\n' && s[i + 1] == '\n' then Some(i)
    else FirstBlank(s, i + 1)
  }

  /** The names listed one per line in `head`; an empty head lists none. */
  function NameLines(head: string): set<string>
  {
    if head == "" then {} else set n | n in Split(head, '\n')
  }

  /** Reading an exported file back: split at the first blank line; the part
      before it lists the names one per line (nothing at all when it is
      empty), the part after it holds the characters. */
  function ParseExport(text: string): Option<State>
  {
    match FirstBlank(text, 0)
    case None => None
    case Some(p) =>
      Some(State(NameLines(text[..p]), CharsOf(text[p + 2..])))
  }

  // ---------------------------------------------------------------------------
  // The round trip

  /** Non-empty, line-feed-free names joined by line feeds leave no blank line,
      and neither start nor end with a line feed. */
  lemma {:induction false} JoinNoBlank(parts: seq<string>)
    requires forall k :: 0 <= k < |parts| ==> parts[k] != "" && '\n' !in parts[k]
    ensures NoBlankLine(Join("\n", parts))
    ensures |parts| > 0 ==>
              var j := Join("\n", parts);
              |j| > 0 && j[0] != '\n' && j[|j| - 1] != '\n'
    decreases |parts|
  {
    if |parts| == 1 {
      assert parts[0][|parts[0]| - 1] in parts[0];
      assert parts[0][0] in parts[0];
    } else if |parts| > 1 {
      var rest := Join("\n", parts[1..]);
      JoinNoBlank(parts[1..]);
      assert parts[1..][0] == parts[1];
      LinkNoBlank(parts[0], rest);
    }
  }

  /** Joining two blank-free pieces with one line feed, when neither touches it
      with a line feed of its own, leaves no blank line. */
  lemma LinkNoBlank(x: string, y: string)
    requires x != "" && '\n' !in x
    requires y != "" && NoBlankLine(y) && y[0] != '\n' && y[|y| - 1] != '\n'
    ensures var j := x + "\n" + y;
            NoBlankLine(j) && j[0] != '\n' && j[|j| - 1] != '\n'
  {
  }

  /** The first blank line is at `q` when none starts earlier. */
  lemma {:induction false} FirstBlankAt(s: string, i: nat, q: nat)
    requires i <= q && TagAt(s, q, "\n\n")
    requires forall p :: i <= p < q ==> !(s[p] == '\n' && s[p + 1] == '\n')
    ensures FirstBlank(s, i) == Some(q)
    decreases q - i
  {
    assert s[q] == s[q..q + 2][0] && s[q + 1] == s[q..q + 2][1];
    if i < q {
      FirstBlankAt(s, i + 1, q);
    }
  }

  /** In an export, the first blank line is the one after the names. */
  lemma ExportBlank(names: seq<string>, glyphs: seq<char>)
    requires forall k :: 0 <= k < |names| ==> names[k] != "" && '\n' !in names[k]
    ensures var j := Join("\n", names);
            FirstBlank(j + "\n\n" + glyphs, 0) == Some(|j|)
  {
    var j := Join("\n", names);
    var s := j + "\n\n" + glyphs;
    JoinNoBlank(names);
    assert s[|j|..|j| + 2] == "\n\n";
    forall p | 0 <= p < |j|
      ensures !(s[p] == '\n' && s[p + 1] == '\n')
    {
      assert s[p] == j[p];
      if p + 1 < |j| {
        assert s[p + 1] == j[p + 1];
      }
    }
    FirstBlankAt(s, 0, |j|);
  }

  /** Reading back an export recovers the session, provided no collected name
      is empty: an empty name would leave no trace between the line feeds. */
  lemma ExportRoundTrip(st: State, names: seq<string>, glyphs: seq<char>)
    requires Enumerates(names, st.fontNames) && Enumerates(glyphs, st.characters)
    requires Valid(st) && "" !in st.fontNames
    ensures ParseExport(Export(st, names, glyphs)) == Some(st)
  {
    forall k | 0 <= k < |names|
      ensures names[k] != "" && '\n' !in names[k]
    {
      assert names[k] in multiset(names);
    }
    var j := Join("\n", names);
    var text := Export(st, names, glyphs);
    assert text == j + "\n\n" + glyphs;
    ExportBlank(names, glyphs);
    assert text[..|j|] == j;
    assert text[|j| + 2..] == glyphs;
    GlyphsRecovered(glyphs, st.characters);
    NamesRecovered(names, st.fontNames);
  }

  /** The characters of an enumeration are the enumerated set. */
  lemma GlyphsRecovered(glyphs: seq<char>, chars: set<char>)
    requires Enumerates(glyphs, chars)
    ensures CharsOf(glyphs) == chars
  {
    forall c
      ensures c in glyphs <==> c in chars
    {
      assert c in glyphs <==> c in multiset(glyphs);
    }
  }

  /** The lines of the joined names are the enumerated names. */
  lemma NamesRecovered(names: seq<string>, fontNames: set<string>)
    requires Enumerates(names, fontNames)
    requires forall k :: 0 <= k < |names| ==> names[k] != "" && '\n' !in names[k]
    ensures NameLines(Join("\n", names)) == fontNames
  {
    JoinNoBlank(names);
    if |names| > 0 {
      SplitJoin(names, '\n');
    }
    forall n
      ensures n in names <==> n in fontNames
    {
      assert n in names <==> n in multiset(names);
    }
  }

  /** The proviso is needed: a session whose only name is empty (from a line
      such as `Style:x,,`) exports as a bare blank line and reads back with no
      names. */
  lemma EmptyNameLost()
    ensures var st := State({""}, {});
            Enumerates([""], st.fontNames) && Enumerates([], st.characters) &&
            ParseExport(Export(st, [""], [])) == Some(State({}, {}))
  {
    var st := State({""}, {});
    var text := Export(st, [""], []);
    assert text == "\n\n";
    assert FirstBlank(text, 0) == Some(0);
    assert text[..0] == "";
    assert CharsOf(text[2..]) == {};
  }
}
