/** The two extractions of `process_file`, as explicit scanners over the decoded
    text of one `.ass` file. The patterns are `Style:.*?,(.*?),` and
    `Dialogue:` followed by nine `.*?,` and `(.*?)\n`, each run through
    `re.findall`.

    Because `.` never crosses a line feed and every `.*?` is lazy, a style
    capture is the text between the first and second comma after `Style:` on
    the same line, and a dialogue capture is the rest of the line after the
    ninth comma following `Dialogue:`, provided that line ends in a line feed.
    `ScanIsFindAll` proves the scanners equal `Regex.FindAll` over the two
    patterns. */
module AssScan {
  import opened Text
  import opened Regex

  /** The two kinds of record the extractor looks for. */
  datatype Record = StyleRecord | DialogueRecord

  const StyleTag: string := "Style:"
  const DialogueTag: string := "Dialogue:"

  /** Comma-terminated fields that precede a dialogue line's text. */
  const DialogueFieldCount: nat := 9

  /** Index of the line feed that ends the line containing `i`, or `|s|` when
      that line is the last and has none. */
  function LineEnd(s: string, i: nat): (e: nat)
    requires i <= |s|
    ensures i <= e <= |s|
    ensures forall k :: i <= k < e ==> s[k] != '\n'
    ensures e < |s| ==> s[e] == '\n'
    decreases |s| - i
  {
    if i == |s| || s[i] == '\n' then i else LineEnd(s, i + 1)
  }

  /** Number of commas from `i` to the end of its line. */
  function CommasOnLine(s: string, i: nat): nat
    requires i <= |s|
  {
    multiset(s[i..LineEnd(s, i)])[',']
  }

  /** The index just past the `n`-th comma at or after `i`, if that many commas
      come before the end of the line: where `n` lazy `.*?,` steps stop. */
  function NthComma(s: string, i: nat, n: nat): (r: Option<nat>)
    requires i <= |s|
    ensures r.Some? ==> i <= r.value <= |s|
    ensures r.Some? && n > 0 ==> i < r.value
    decreases |s| - i
  {
    if n == 0 then Some(i)
    else if i == |s| || s[i] == '\n' then None
    else if s[i] == ',' then NthComma(s, i + 1, n - 1)
    else NthComma(s, i + 1, n)
  }

  /** The `n`-th comma is found without crossing a line feed, the match stops
      right after a comma, and the first comma has none before it. */
  lemma {:induction false} NthCommaFacts(s: string, i: nat, n: nat)
    requires i <= |s|
    ensures NthComma(s, i, n).Some? ==>
              forall k :: i <= k < NthComma(s, i, n).value ==> s[k] != '\n'
    ensures NthComma(s, i, n).Some? && n > 0 ==> s[NthComma(s, i, n).value - 1] == ','
    ensures NthComma(s, i, n).Some? && n == 1 ==>
              forall k :: i <= k < NthComma(s, i, n).value - 1 ==> s[k] != ','
    decreases |s| - i
  {
    if n > 0 && i < |s| && s[i] != '\n' {
      if s[i] == ',' {
        NthCommaFacts(s, i + 1, n - 1);
      } else {
        NthCommaFacts(s, i + 1, n);
      }
    }
  }

  /** The rest of a style record after its tag: the group is the text between
      the first and the second comma, the match ends after the second. */
  function StyleFields(s: string, j: nat): (r: Option<Hit>)
    requires j <= |s|
    ensures r.Some? ==> j < r.value.end <= |s|
  {
    match NthComma(s, j, 1)
    case None => None
    case Some(a) =>
      match NthComma(s, a, 1)
      case None => None
      case Some(b) => Some(Hit(b, s[a..b - 1]))
  }

  /** The rest of a record after its tag when `n` fields precede its text: the
      group runs from just past the `n`-th comma to the line feed, and the
      match ends after the line feed. */
  function TextAfterFields(s: string, j: nat, n: nat): (r: Option<Hit>)
    requires j <= |s|
    ensures r.Some? ==> j < r.value.end <= |s|
  {
    match NthComma(s, j, n)
    case None => None
    case Some(a) =>
      var e := LineEnd(s, a);
      if e < |s| then Some(Hit(e + 1, s[a..e])) else None
  }

  /** The match of record kind `k` that starts exactly at index `i`, if any. */
  function MatchAt(k: Record, s: string, i: nat): (r: Option<Hit>)
    requires i <= |s|
    ensures r.Some? ==> i < r.value.end <= |s|
  {
    match k
    case StyleRecord =>
      if TagAt(s, i, StyleTag) then StyleFields(s, i + |StyleTag|) else None
    case DialogueRecord =>
      if TagAt(s, i, DialogueTag) then TextAfterFields(s, i + |DialogueTag|, DialogueFieldCount)
      else None
  }

  /** Leftmost, non-overlapping scan from `i`: the captures of every match, in
      order, resuming after each match. */
  function Scan(k: Record, s: string, i: nat): (r: seq<string>)
    requires i <= |s|
    decreases |s| - i
  {
    match MatchAt(k, s, i)
    case Some(h) => [h.group] + Scan(k, s, h.end)
    case None => if i == |s| then [] else Scan(k, s, i + 1)
  }

  /** The declared font names of one file, in order of appearance. */
  function ExtractStyles(content: string): (names: seq<string>)
    ensures forall c :: 0 <= c < |names| ==> ',' !in names[c] && '\n' !in names[c]
  {
    ScanClean(StyleRecord, content, 0);
    Scan(StyleRecord, content, 0)
  }

  /** The dialogue texts of one file, in order of appearance. */
  function ExtractDialogues(content: string): (texts: seq<string>)
    ensures forall c :: 0 <= c < |texts| ==> '\n' !in texts[c]
  {
    ScanClean(DialogueRecord, content, 0);
    Scan(DialogueRecord, content, 0)
  }

  // ---------------------------------------------------------------------------
  // What a capture can hold

  /** A style capture lies between two commas of one line. */
  lemma StyleFieldsClean(s: string, j: nat)
    requires j <= |s|
    ensures StyleFields(s, j).Some? ==>
              ',' !in StyleFields(s, j).value.group && '\n' !in StyleFields(s, j).value.group
  {
    if StyleFields(s, j).Some? {
      var a := NthComma(s, j, 1).value;
      var b := NthComma(s, a, 1).value;
      NthCommaFacts(s, j, 1);
      NthCommaFacts(s, a, 1);
      var g := s[a..b - 1];
      assert forall k :: 0 <= k < |g| ==> g[k] == s[a + k];
    }
  }

  /** A dialogue capture lies within one line. */
  lemma TextAfterFieldsClean(s: string, j: nat, n: nat)
    requires j <= |s|
    ensures TextAfterFields(s, j, n).Some? ==> '\n' !in TextAfterFields(s, j, n).value.group
  {
  }

  /** Every capture of a scan lies within one line, and a style capture holds
      no comma. */
  lemma {:induction false} ScanClean(k: Record, s: string, i: nat)
    requires i <= |s|
    ensures forall c :: 0 <= c < |Scan(k, s, i)| ==> '\n' !in Scan(k, s, i)[c]
    ensures k == StyleRecord ==> forall c :: 0 <= c < |Scan(k, s, i)| ==> ',' !in Scan(k, s, i)[c]
    decreases |s| - i
  {
    match MatchAt(k, s, i)
    case Some(h) =>
      if k == StyleRecord {
        StyleFieldsClean(s, i + |StyleTag|);
      } else {
        TextAfterFieldsClean(s, i + |DialogueTag|, DialogueFieldCount);
      }
      ScanClean(k, s, h.end);
    case None =>
      if i < |s| {
        ScanClean(k, s, i + 1);
      }
  }

  // ---------------------------------------------------------------------------
  // The extractor's two patterns, in the regex model

  /** `n` copies of `.*?,`. */
  function Fields(n: nat): seq<Atom>
  {
    if n == 0 then [] else [LazyAny, Char(',')] + Fields(n - 1)
  }

  /** `.*?,(.*?),` */
  const StyleTail: seq<Atom> := [LazyAny, Char(','), Open, LazyAny, Close, Char(',')]

  /** `(.*?)\n` */
  const TextTail: seq<Atom> := [Open, LazyAny, Close, Char('\n')]

  /** The regular expression `process_file` uses for each record kind. */
  function PatternOf(k: Record): seq<Atom>
  {
    match k
    case StyleRecord => Literal(StyleTag) + StyleTail
    case DialogueRecord => Literal(DialogueTag) + (Fields(DialogueFieldCount) + TextTail)
  }

  // ---------------------------------------------------------------------------
  // Comma and line bookkeeping

  /** Within one line, the end of the line does not depend on where one starts. */
  lemma LineEndSame(s: string, j: nat, a: nat)
    requires j <= a <= |s|
    requires forall k :: j <= k < a ==> s[k] != '\n'
    ensures LineEnd(s, a) == LineEnd(s, j)
  {
  }

  /** A line feed at `e` with none between `a` and `e` is the end of `a`'s line. */
  lemma LineEndAt(s: string, a: nat, e: nat)
    requires a <= e < |s| && s[e] == '\n'
    requires forall k :: a <= k < e ==> s[k] != '\n'
    ensures LineEnd(s, a) == e
  {
  }

  /** `n` commas are found on the line exactly when the line has at least `n`. */
  lemma {:induction false} NthCommaCount(s: string, j: nat, n: nat)
    requires j <= |s|
    ensures NthComma(s, j, n).Some? <==> CommasOnLine(s, j) >= n
    decreases |s| - j
  {
    if n > 0 && j < |s| && s[j] != '\n' {
      var e := LineEnd(s, j);
      assert e == LineEnd(s, j + 1);
      assert s[j..e] == [s[j]] + s[j + 1..e];
      if s[j] == ',' {
        NthCommaCount(s, j + 1, n - 1);
      } else {
        NthCommaCount(s, j + 1, n);
      }
    }
  }

  /** Finding `n + 1` commas is finding one, then `n` more after it. */
  lemma {:induction false} NthCommaStep(s: string, j: nat, n: nat)
    requires j <= |s|
    ensures NthComma(s, j, n + 1) ==
      match NthComma(s, j, 1)
      case None => None
      case Some(a) => NthComma(s, a, n)
    decreases |s| - j
  {
    if j < |s| && s[j] != '\n' && s[j] != ',' {
      NthCommaStep(s, j + 1, n);
    }
  }

  /** When the text at `j` is a piece with `n` commas and no line feed,
      followed by a comma, the `n + 1`-th comma is the one after the piece. */
  lemma {:induction false} CommasThenComma(s: string, j: nat, piece: string, n: nat)
    requires TagAt(s, j, piece) && j + |piece| < |s| && s[j + |piece|] == ','
    requires '\n' !in piece && multiset(piece)[','] == n
    ensures NthComma(s, j, n + 1) == Some(j + |piece| + 1)
    decreases |piece|
  {
    if |piece| > 0 {
      assert piece == [piece[0]] + piece[1..];
      assert multiset(piece) == multiset([piece[0]]) + multiset(piece[1..]);
      assert s[j] == piece[0];
      TagSplit(s, j, [piece[0]], piece[1..]);
      if piece[0] == ',' {
        CommasThenComma(s, j + 1, piece[1..], n - 1);
      } else {
        CommasThenComma(s, j + 1, piece[1..], n);
      }
    }
  }

  /** If a line lacks the text that follows `n` fields, it lacks it after `n + 1`. */
  lemma TextAfterMoreFields(s: string, j: nat, n: nat)
    requires j <= |s|
    ensures TextAfterFields(s, j, n + 1).Some? ==> TextAfterFields(s, j, n).Some?
  {
    if TextAfterFields(s, j, n + 1).Some? {
      var a' := NthComma(s, j, n + 1).value;
      NthCommaCount(s, j, n + 1);
      NthCommaCount(s, j, n);
      var a := NthComma(s, j, n).value;
      NthCommaFacts(s, j, n + 1);
      NthCommaFacts(s, j, n);
      LineEndSame(s, j, a);
      LineEndSame(s, j, a');
    }
  }

  // ---------------------------------------------------------------------------
  // The scanners agree with Python's `re`

  /** `(.*?),` with the group opened at `st`: it closes at the next comma. */
  lemma {:induction false} StyleNameMatch(s: string, j: nat, st: nat, g: string)
    requires st <= j <= |s|
    ensures Match([LazyAny, Close, Char(',')], s, j, st, g) ==
      match NthComma(s, j, 1)
      case None => None
      case Some(b) => Some(Hit(b, s[st..b - 1]))
    decreases |s| - j
  {
    assert [LazyAny, Close, Char(',')] == [LazyAny] + [Close, Char(',')];
    assert [Close, Char(',')] == [Close] + [Char(',')];
    assert [Char(',')] == [Char(',')] + [];
    MatchLazy([Close, Char(',')], s, j, st, g);
    MatchClose([Char(',')], s, j, st, g);
    MatchChar(',', [], s, j, st, s[st..j]);
    if j < |s| && s[j] != '\n' && s[j] != ',' {
      StyleNameMatch(s, j + 1, st, g);
    }
  }

  /** `.*?,(.*?),` after the tag behaves as `StyleFields`. */
  lemma {:induction false} StyleTailMatch(s: string, j: nat, st: nat, g: string)
    requires st <= j <= |s|
    ensures Match(StyleTail, s, j, st, g) == StyleFields(s, j)
    decreases |s| - j
  {
    var name := [LazyAny, Close, Char(',')];
    var afterComma := [Char(',')] + ([Open] + name);
    assert StyleTail == [LazyAny] + afterComma;
    MatchLazy(afterComma, s, j, st, g);
    MatchChar(',', [Open] + name, s, j, st, g);
    if j < |s| && s[j] == ',' {
      MatchOpen(name, s, j + 1, st, g);
      StyleNameMatch(s, j + 1, j + 1, g);
      assert NthComma(s, j, 1) == Some(j + 1);
      if NthComma(s, j + 1, 1).None? {
        StyleTailMatch(s, j + 1, st, g);
      }
    } else if j < |s| && s[j] != '\n' {
      StyleTailMatch(s, j + 1, st, g);
    }
  }

  /** `.*?` then the group's close then a line feed: it stops at the line's end. */
  lemma {:induction false} LineTextMatch(s: string, j: nat, st: nat, g: string)
    requires st <= j <= |s|
    ensures Match([LazyAny, Close, Char('\n')], s, j, st, g) ==
      var e := LineEnd(s, j);
      if e < |s| then Some(Hit(e + 1, s[st..e])) else None
    decreases |s| - j
  {
    assert [LazyAny, Close, Char('\n')] == [LazyAny] + [Close, Char('\n')];
    assert [Close, Char('\n')] == [Close] + [Char('\n')];
    assert [Char('\n')] == [Char('\n')] + [];
    MatchLazy([Close, Char('\n')], s, j, st, g);
    MatchClose([Char('\n')], s, j, st, g);
    MatchChar('\n', [], s, j, st, s[st..j]);
    if j < |s| && s[j] != '\n' {
      LineTextMatch(s, j + 1, st, g);
    }
  }

  /** The pattern after the tag, peeled one field at a time. */
  lemma FieldsPeel(n: nat)
    ensures Fields(n + 1) + TextTail == [LazyAny] + ([Char(',')] + (Fields(n) + TextTail))
  {
  }

  /** With the current character a comma, either the remaining fields and text
      match right after it, or the lazy step moves past it. */
  lemma TextTailComma(n: nat, s: string, j: nat, st: nat, g: string)
    requires st <= j < |s| && s[j] == ','
    requires Match(Fields(n) + TextTail, s, j + 1, st, g) == TextAfterFields(s, j + 1, n)
    requires Match(Fields(n + 1) + TextTail, s, j + 1, st, g) == TextAfterFields(s, j + 1, n + 1)
    ensures Match(Fields(n + 1) + TextTail, s, j, st, g) == TextAfterFields(s, j, n + 1)
  {
    var rest := Fields(n) + TextTail;
    FieldsPeel(n);
    MatchLazy([Char(',')] + rest, s, j, st, g);
    MatchChar(',', rest, s, j, st, g);
    TextAfterMoreFields(s, j + 1, n);
  }

  /** With the current character neither a comma nor a line feed, the lazy
      step moves past it. */
  lemma TextTailOther(n: nat, s: string, j: nat, st: nat, g: string)
    requires st <= j < |s| && s[j] != ',' && s[j] != '\n'
    requires Match(Fields(n + 1) + TextTail, s, j + 1, st, g) == TextAfterFields(s, j + 1, n + 1)
    ensures Match(Fields(n + 1) + TextTail, s, j, st, g) == TextAfterFields(s, j, n + 1)
  {
  }

  /** At a line feed or the end of the text no further field can be found. */
  lemma TextTailStop(n: nat, s: string, j: nat, st: nat, g: string)
    requires st <= j <= |s| && (j == |s| || s[j] == '\n')
    ensures Match(Fields(n + 1) + TextTail, s, j, st, g) == TextAfterFields(s, j, n + 1)
  {
  }

  /** With no fields left, the group takes the rest of the line. */
  lemma TextTailZero(s: string, j: nat, st: nat, g: string)
    requires st <= j <= |s|
    ensures Match(Fields(0) + TextTail, s, j, st, g) == TextAfterFields(s, j, 0)
  {
    var text := [LazyAny, Close, Char('\n')];
    assert Fields(0) + TextTail == [Open] + text;
    MatchOpen(text, s, j, st, g);
    LineTextMatch(s, j, j, g);
  }

  /** `n` copies of `.*?,` then `(.*?)\n` behave as `TextAfterFields`. */
  lemma {:induction false} TextTailMatch(n: nat, s: string, j: nat, st: nat, g: string)
    requires st <= j <= |s|
    ensures Match(Fields(n) + TextTail, s, j, st, g) == TextAfterFields(s, j, n)
    decreases n, |s| - j
  {
    if n == 0 {
      TextTailZero(s, j, st, g);
    } else if j == |s| || s[j] == '\n' {
      TextTailStop(n - 1, s, j, st, g);
    } else if s[j] == ',' {
      TextTailMatch(n - 1, s, j + 1, st, g);
      TextTailMatch(n, s, j + 1, st, g);
      TextTailComma(n - 1, s, j, st, g);
    } else {
      TextTailMatch(n, s, j + 1, st, g);
      TextTailOther(n - 1, s, j, st, g);
    }
  }

  /** At every index the scanner's match is the match of the extractor's regex. */
  lemma MatchAtIsRegex(k: Record, s: string, i: nat)
    requires i <= |s|
    ensures MatchAt(k, s, i) == Match(PatternOf(k), s, i, i, "")
  {
    match k
    case StyleRecord =>
      MatchLiteral(StyleTag, StyleTail, s, i, i, "");
      if TagAt(s, i, StyleTag) {
        StyleTailMatch(s, i + |StyleTag|, i, "");
      }
    case DialogueRecord =>
      MatchLiteral(DialogueTag, Fields(DialogueFieldCount) + TextTail, s, i, i, "");
      if TagAt(s, i, DialogueTag) {
        TextTailMatch(DialogueFieldCount, s, i + |DialogueTag|, i, "");
      }
  }

  /** The scanners compute exactly `re.findall` of the extractor's two patterns. */
  lemma {:induction false} ScanIsFindAll(k: Record, s: string, i: nat)
    requires i <= |s|
    ensures PatternOf(k)[0].Char?
    ensures Scan(k, s, i) == FindAll(PatternOf(k), s, i)
    decreases |s| - i
  {
    MatchAtIsRegex(k, s, i);
    match MatchAt(k, s, i)
    case Some(h) => ScanIsFindAll(k, s, h.end);
    case None => if i < |s| { ScanIsFindAll(k, s, i + 1); }
  }

  // ---------------------------------------------------------------------------
  // What one occurrence contributes

  /** A `Style:` occurrence yields a name exactly when at least two commas
      follow it on its line. */
  lemma StyleOccurrence(s: string, i: nat)
    requires i <= |s|
    ensures MatchAt(StyleRecord, s, i).Some? <==>
              TagAt(s, i, StyleTag) && CommasOnLine(s, i + |StyleTag|) >= 2
  {
    if TagAt(s, i, StyleTag) {
      var j := i + |StyleTag|;
      NthCommaStep(s, j, 1);
      NthCommaCount(s, j, 2);
    }
  }

  /** On a line `Style:<field>,<name>,...` whose first field and name hold no
      comma and no line feed, the capture is `<name>` untrimmed, and scanning
      resumes just after its closing comma. */
  lemma StyleCapture(s: string, i: nat, field: string, name: string)
    requires TagAt(s, i, StyleTag + field + "," + name + ",")
    requires ',' !in field && '\n' !in field
    requires ',' !in name && '\n' !in name
    ensures MatchAt(StyleRecord, s, i) ==
              Some(Hit(i + |StyleTag + field + "," + name + ","|, name))
  {
    assert StyleTag + field + "," + name + "," == StyleTag + (field + "," + name + ",");
    TagSplit(s, i, StyleTag, field + "," + name + ",");
    StyleFieldsCapture(s, i + |StyleTag|, field, name);
  }

  /** After the tag: `<field>,<name>,` yields `<name>`. */
  lemma StyleFieldsCapture(s: string, j: nat, field: string, name: string)
    requires TagAt(s, j, field + "," + name + ",")
    requires ',' !in field && '\n' !in field
    requires ',' !in name && '\n' !in name
    ensures StyleFields(s, j) == Some(Hit(j + |field| + |name| + 2, name))
  {
    assert field + "," + name + "," == (field + ",") + (name + ",");
    TagSplit(s, j, field + ",", name + ",");
    StyleFieldsPieces(s, j, field, name);
  }

  lemma StyleFieldsPieces(s: string, j: nat, field: string, name: string)
    requires TagAt(s, j, field + ",") && TagAt(s, j + |field| + 1, name + ",")
    requires ',' !in field && '\n' !in field
    requires ',' !in name && '\n' !in name
    ensures StyleFields(s, j) == Some(Hit(j + |field| + |name| + 2, name))
  {
    var a := j + |field| + 1;
    TagSplit(s, a, name, ",");
    FirstComma(s, j, field);
    FirstComma(s, a, name);
    StyleFieldsAt(s, j, a, a + |name| + 1);
  }

  /** `StyleFields` fails when either comma is missing. */
  lemma StyleFieldsNone(s: string, j: nat)
    requires j <= |s|
    ensures StyleFields(s, j).None? <==>
              NthComma(s, j, 1).None? || NthComma(s, NthComma(s, j, 1).value, 1).None?
  {
  }

  /** `StyleFields` read off the positions of the two commas. */
  lemma StyleFieldsAt(s: string, j: nat, a: nat, b: nat)
    requires j <= |s|
    requires NthComma(s, j, 1) == Some(a) && NthComma(s, a, 1) == Some(b)
    ensures StyleFields(s, j) == Some(Hit(b, s[a..b - 1]))
  {
  }

  /** A comma-free, newline-free piece followed by a comma: the first comma is
      the one right after the piece. */
  lemma {:induction false} FirstComma(s: string, j: nat, piece: string)
    requires TagAt(s, j, piece + ",")
    requires ',' !in piece && '\n' !in piece
    ensures NthComma(s, j, 1) == Some(j + |piece| + 1)
    decreases |piece|
  {
    assert s[j] == (piece + ",")[0];
    if |piece| > 0 {
      assert piece + "," == [piece[0]] + (piece[1..] + ",");
      TagSplit(s, j, [piece[0]], piece[1..] + ",");
      FirstComma(s, j + 1, piece[1..]);
    }
  }

  /** A `Dialogue:` occurrence yields a text exactly when at least nine commas
      follow it on its line and that line ends in a line feed. */
  lemma DialogueOccurrence(s: string, i: nat)
    requires i <= |s|
    ensures MatchAt(DialogueRecord, s, i).Some? <==>
              TagAt(s, i, DialogueTag) &&
              CommasOnLine(s, i + |DialogueTag|) >= DialogueFieldCount &&
              LineEnd(s, i + |DialogueTag|) < |s|
  {
    if TagAt(s, i, DialogueTag) {
      var j := i + |DialogueTag|;
      NthCommaCount(s, j, DialogueFieldCount);
      if NthComma(s, j, DialogueFieldCount).Some? {
        NthCommaFacts(s, j, DialogueFieldCount);
        LineEndSame(s, j, NthComma(s, j, DialogueFieldCount).value);
      }
    }
  }

  /** On a line `Dialogue:<head>,<text>\n` whose head has exactly eight commas,
      the capture is all of `<text>`, commas included. */
  lemma DialogueCapture(s: string, i: nat, head: string, text: string)
    requires TagAt(s, i, DialogueTag + head + "," + text + "\n")
    requires '\n' !in head && multiset(head)[','] == DialogueFieldCount - 1
    requires '\n' !in text
    ensures MatchAt(DialogueRecord, s, i) ==
              Some(Hit(i + |DialogueTag + head + "," + text + "\n"|, text))
  {
    assert DialogueTag + head + "," + text + "\n" == DialogueTag + (head + "," + text + "\n");
    TagSplit(s, i, DialogueTag, head + "," + text + "\n");
    DialogueTextCapture(s, i + |DialogueTag|, head, text);
  }

  /** After the tag: `<head>,<text>\n` with eight commas in `<head>` yields
      `<text>`. */
  lemma DialogueTextCapture(s: string, j: nat, head: string, text: string)
    requires TagAt(s, j, head + "," + text + "\n")
    requires '\n' !in head && multiset(head)[','] == DialogueFieldCount - 1
    requires '\n' !in text
    ensures TextAfterFields(s, j, DialogueFieldCount) ==
              Some(Hit(j + |head| + |text| + 2, text))
  {
    var a := j + |head| + 1;
    var e := a + |text|;
    assert head + "," + text + "\n" == (head + ",") + (text + "\n");
    TagSplit(s, j, head + ",", text + "\n");
    TagSplit(s, j, head, ",");
    TagSplit(s, a, text, "\n");
    assert s[j + |head|] == s[j + |head|..a][0];
    assert s[e] == s[e..e + 1][0];
    CommasThenComma(s, j, head, DialogueFieldCount - 1);
    LineEndAt(s, a, e);
  }
}
