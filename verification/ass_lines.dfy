/** Both patterns live inside single lines: `.` never crosses a line feed, and a
    dialogue match ends on the line feed it consumes. So a file's captures are
    those of its lines, in order, and a last line without a line feed gives no
    dialogue text. */
module AssLines {
  import opened Text
  import opened Regex
  import opened AssScan

  /** `a` is empty or ends a line, so `a + b` starts `b` on a fresh line. */
  predicate EndsLine(a: string)
  {
    |a| == 0 || a[|a| - 1] == '\n'
  }

  /** A match found inside `b`, seen from `a + b`. */
  function Shift(h: Option<Hit>, d: nat): Option<Hit>
  {
    match h
    case None => None
    case Some(x) => Some(Hit(x.end + d, x.group))
  }

  // ---------------------------------------------------------------------------
  // Reading `b` inside `a + b`

  lemma SliceShift(a: string, b: string, x: nat, y: nat)
    requires x <= y <= |b|
    ensures (a + b)[|a| + x..|a| + y] == b[x..y]
  {
  }

  lemma TagAtShift(a: string, b: string, j: nat, t: string)
    requires j <= |b|
    ensures TagAt(a + b, |a| + j, t) == TagAt(b, j, t)
  {
  }

  lemma {:induction false} LineEndShift(a: string, b: string, j: nat)
    requires j <= |b|
    ensures LineEnd(a + b, |a| + j) == |a| + LineEnd(b, j)
    decreases |b| - j
  {
    if j < |b| {
      assert (a + b)[|a| + j] == b[j];
      LineEndShift(a, b, j + 1);
    }
  }

  lemma {:induction false} NthCommaShift(a: string, b: string, j: nat, n: nat)
    requires j <= |b|
    ensures NthComma(a + b, |a| + j, n) ==
      match NthComma(b, j, n)
      case None => None
      case Some(x) => Some(|a| + x)
    decreases |b| - j
  {
    if n > 0 && j < |b| {
      assert (a + b)[|a| + j] == b[j];
      if b[j] != '\n' {
        if b[j] == ',' {
          NthCommaShift(a, b, j + 1, n - 1);
        } else {
          NthCommaShift(a, b, j + 1, n);
        }
      }
    }
  }

  lemma StyleFieldsShift(a: string, b: string, p: nat)
    requires p <= |b|
    ensures StyleFields(a + b, |a| + p) == Shift(StyleFields(b, p), |a|)
  {
    NthCommaShift(a, b, p, 1);
    if NthComma(b, p, 1).Some? {
      var x := NthComma(b, p, 1).value;
      NthCommaShift(a, b, x, 1);
      if NthComma(b, x, 1).Some? {
        StyleFieldsFound(a, b, p, x, NthComma(b, x, 1).value);
      } else {
        StyleFieldsNone(b, p);
        StyleFieldsNone(a + b, |a| + p);
      }
    } else {
      StyleFieldsNone(b, p);
      StyleFieldsNone(a + b, |a| + p);
    }
  }

  lemma StyleFieldsFound(a: string, b: string, p: nat, x: nat, y: nat)
    requires p <= |b|
    requires NthComma(b, p, 1) == Some(x) && NthComma(b, x, 1) == Some(y)
    requires NthComma(a + b, |a| + p, 1) == Some(|a| + x)
    requires NthComma(a + b, |a| + x, 1) == Some(|a| + y)
    ensures StyleFields(a + b, |a| + p) == Shift(StyleFields(b, p), |a|)
  {
    var g := b[x..y - 1];
    StyleFieldsAt(b, p, x, y);
    StyleFieldsAt(a + b, |a| + p, |a| + x, |a| + y);
    SliceShift(a, b, x, y - 1);
    assert (a + b)[|a| + x..|a| + y - 1] == g;
  }

  lemma TextAfterFieldsShift(a: string, b: string, p: nat, n: nat)
    requires p <= |b|
    ensures TextAfterFields(a + b, |a| + p, n) == Shift(TextAfterFields(b, p, n), |a|)
  {
    NthCommaShift(a, b, p, n);
    if NthComma(b, p, n).Some? {
      var x := NthComma(b, p, n).value;
      LineEndShift(a, b, x);
      var e := LineEnd(b, x);
      SliceShift(a, b, x, e);
    }
  }

  lemma MatchAtShift(k: Record, a: string, b: string, j: nat)
    requires j <= |b|
    ensures MatchAt(k, a + b, |a| + j) == Shift(MatchAt(k, b, j), |a|)
  {
    match k
    case StyleRecord =>
      TagAtShift(a, b, j, StyleTag);
      if TagAt(b, j, StyleTag) {
        StyleFieldsShift(a, b, j + |StyleTag|);
      }
    case DialogueRecord =>
      TagAtShift(a, b, j, DialogueTag);
      if TagAt(b, j, DialogueTag) {
        TextAfterFieldsShift(a, b, j + |DialogueTag|, DialogueFieldCount);
      }
  }

  lemma {:induction false} ScanShift(k: Record, a: string, b: string, j: nat)
    requires j <= |b|
    ensures Scan(k, a + b, |a| + j) == Scan(k, b, j)
    decreases |b| - j
  {
    MatchAtShift(k, a, b, j);
    match MatchAt(k, b, j)
    case Some(h) => ScanShift(k, a, b, h.end);
    case None => if j < |b| { ScanShift(k, a, b, j + 1); }
  }

  // ---------------------------------------------------------------------------
  // Reading `a` inside `a + b` when `a` ends a line

  lemma SliceLocal(a: string, b: string, x: nat, y: nat)
    requires x <= y <= |a|
    ensures (a + b)[x..y] == a[x..y]
  {
  }

  lemma {:induction false} LineEndLocal(a: string, b: string, j: nat)
    requires EndsLine(a) && j < |a|
    ensures LineEnd(a + b, j) == LineEnd(a, j)
    decreases |a| - j
  {
    assert (a + b)[j] == a[j];
    if a[j] != '\n' {
      LineEndLocal(a, b, j + 1);
    }
  }

  lemma {:induction false} NthCommaLocal(a: string, b: string, j: nat, n: nat)
    requires EndsLine(a) && j < |a|
    ensures NthComma(a + b, j, n) == NthComma(a, j, n)
    ensures NthComma(a, j, n).Some? ==> NthComma(a, j, n).value < |a|
    decreases |a| - j
  {
    assert (a + b)[j] == a[j];
    if n > 0 && a[j] != '\n' {
      if a[j] == ',' {
        NthCommaLocal(a, b, j + 1, n - 1);
      } else {
        NthCommaLocal(a, b, j + 1, n);
      }
    }
  }

  lemma TagAtLocal(a: string, b: string, j: nat, t: string)
    requires EndsLine(a) && j < |a| && '\n' !in t
    ensures TagAt(a + b, j, t) == TagAt(a, j, t)
    ensures TagAt(a, j, t) ==> j + |t| < |a|
  {
    if j + |t| <= |a| {
      assert (a + b)[j..j + |t|] == a[j..j + |t|];
      if j + |t| == |a| && |t| > 0 {
        assert a[j..j + |t|][|t| - 1] == '\n';
      }
    } else if j + |t| <= |a + b| {
      assert (a + b)[j..j + |t|][|a| - 1 - j] == '\n';
    }
  }

  lemma StyleFieldsLocal(a: string, b: string, p: nat)
    requires EndsLine(a) && p < |a|
    ensures StyleFields(a + b, p) == StyleFields(a, p)
  {
    NthCommaLocal(a, b, p, 1);
    if NthComma(a, p, 1).Some? {
      var x := NthComma(a, p, 1).value;
      NthCommaLocal(a, b, x, 1);
      if NthComma(a, x, 1).Some? {
        var y := NthComma(a, x, 1).value;
        StyleFieldsAt(a, p, x, y);
        StyleFieldsAt(a + b, p, x, y);
        SliceLocal(a, b, x, y - 1);
      }
    }
  }

  lemma TextAfterFieldsLocal(a: string, b: string, p: nat, n: nat)
    requires EndsLine(a) && p < |a|
    ensures TextAfterFields(a + b, p, n) == TextAfterFields(a, p, n)
  {
    NthCommaLocal(a, b, p, n);
    if NthComma(a, p, n).Some? {
      var x := NthComma(a, p, n).value;
      LineEndLocal(a, b, x);
      var e := LineEnd(a, x);
      SliceLocal(a, b, x, e);
    }
  }

  lemma MatchAtLocal(k: Record, a: string, b: string, j: nat)
    requires EndsLine(a) && j < |a|
    ensures MatchAt(k, a + b, j) == MatchAt(k, a, j)
  {
    match k
    case StyleRecord =>
      TagAtLocal(a, b, j, StyleTag);
      if TagAt(a, j, StyleTag) {
        StyleFieldsLocal(a, b, j + |StyleTag|);
      }
    case DialogueRecord =>
      TagAtLocal(a, b, j, DialogueTag);
      if TagAt(a, j, DialogueTag) {
        TextAfterFieldsLocal(a, b, j + |DialogueTag|, DialogueFieldCount);
      }
  }

  lemma {:induction false} ScanConcat(k: Record, a: string, b: string, j: nat)
    requires EndsLine(a) && j <= |a|
    ensures Scan(k, a + b, j) == Scan(k, a, j) + Scan(k, b, 0)
    decreases |a| - j
  {
    if j == |a| {
      ScanShift(k, a, b, 0);
    } else {
      MatchAtLocal(k, a, b, j);
      match MatchAt(k, a, j)
      case Some(h) =>
        ScanConcat(k, a, b, h.end);
      case None =>
        ScanConcat(k, a, b, j + 1);
    }
  }

  // ---------------------------------------------------------------------------
  // Consequences

  /** Extraction distributes over line boundaries: the captures of `a + b`,
      with `a` ending a line, are those of `a` followed by those of `b`. */
  lemma ExtractByLines(a: string, b: string)
    requires EndsLine(a)
    ensures ExtractStyles(a + b) == ExtractStyles(a) + ExtractStyles(b)
    ensures ExtractDialogues(a + b) == ExtractDialogues(a) + ExtractDialogues(b)
  {
    ScanConcat(StyleRecord, a, b, 0);
    ScanConcat(DialogueRecord, a, b, 0);
  }

  /** The line `Style:<field>,<name>,` and its line feed. */
  function StyleLineText(field: string, name: string): string
  {
    StyleTag + field + "," + name + ",\n"
  }

  /** A file that is one style line declares exactly the name in its second
      field. */
  lemma StyleLine(field: string, name: string)
    requires ',' !in field && '\n' !in field
    requires ',' !in name && '\n' !in name
    ensures ExtractStyles(StyleLineText(field, name)) == [name]
  {
    var line := StyleTag + field + "," + name + ",";
    var s := line + "\n";
    assert s == StyleTag + field + "," + name + ",\n";
    assert TagAt(s, 0, line);
    StyleCapture(s, 0, field, name);
    assert !TagAt(s, |line|, StyleTag);
    assert MatchAt(StyleRecord, s, |s|) == None;
    assert Scan(StyleRecord, s, |line|) == Scan(StyleRecord, s, |s|) == [];
  }

  /** A file that is one dialogue line, `Dialogue:<head>,<text>` and a line
      feed, with eight commas in `<head>`, contributes exactly `<text>`. */
  lemma DialogueLine(head: string, text: string)
    requires '\n' !in head && multiset(head)[','] == DialogueFieldCount - 1
    requires '\n' !in text
    ensures ExtractDialogues(DialogueTag + head + "," + text + "\n") == [text]
  {
    var s := DialogueTag + head + "," + text + "\n";
    assert TagAt(s, 0, s);
    DialogueCapture(s, 0, head, text);
    assert MatchAt(DialogueRecord, s, 0) == Some(Hit(|s|, text));
    assert Scan(DialogueRecord, s, |s|) == [];
  }

  /** Read in text mode, a dialogue line ended by `"\r\n"` contributes its text
      without the carriage return. */
  lemma DialogueCrlfLine(head: string, text: string)
    requires '\n' !in head && '\r' !in head && multiset(head)[','] == DialogueFieldCount - 1
    requires '\n' !in text && '\r' !in text
    ensures ExtractDialogues(Newlines(DialogueTag + head + "," + text + "\r\n")) == [text]
  {
    var line := DialogueTag + head + "," + text;
    assert '\r' !in line;
    LineEnding(line, "");
    assert line + "\r\n" + "" == DialogueTag + head + "," + text + "\r\n";
    assert line + "\n" + "" == DialogueTag + head + "," + text + "\n";
    DialogueLine(head, text);
  }

  /** The line `Dialogue:<head>,<text>`, without its line ending. */
  function DialogueLineText(head: string, text: string): string
  {
    DialogueTag + head + "," + text
  }

  /** Read in text mode, a file of two dialogue lines, each ended by `"\r\n"`,
      contributes both texts in order: the carriage return ending the first
      line is a line break too. */
  lemma DialogueCrlfLines(h1: string, t1: string, h2: string, t2: string)
    requires '\n' !in h1 && '\r' !in h1 && multiset(h1)[','] == DialogueFieldCount - 1
    requires '\n' !in t1 && '\r' !in t1
    requires '\n' !in h2 && '\r' !in h2 && multiset(h2)[','] == DialogueFieldCount - 1
    requires '\n' !in t2 && '\r' !in t2
    ensures ExtractDialogues(Newlines(DialogueLineText(h1, t1) + "\r\n" +
                                      DialogueLineText(h2, t2) + "\r\n")) == [t1, t2]
  {
    var l1 := DialogueLineText(h1, t1);
    var l2 := DialogueLineText(h2, t2);
    CrlfPair(l1, l2);
    ExtractByLines(l1 + "\n", l2 + "\n");
    DialogueLine(h1, t1);
    DialogueLine(h2, t2);
  }

  /** Two carriage-return-free lines, each ended by `"\r\n"`, read as the same
      two lines ended by line feeds. */
  lemma CrlfPair(l1: string, l2: string)
    requires '\r' !in l1 && '\r' !in l2
    ensures Newlines(l1 + "\r\n" + l2 + "\r\n") == (l1 + "\n") + (l2 + "\n")
  {
    LineEnding(l1, l2 + "\r\n");
    LineEnding(l2, "");
    assert l1 + "\r\n" + l2 + "\r\n" == l1 + "\r\n" + (l2 + "\r\n");
    assert l2 + "\r\n" + "" == l2 + "\r\n";
    assert l2 + "\n" + "" == l2 + "\n";
  }

  /** Text without a line feed holds no complete dialogue record. */
  lemma {:induction false} NoLineFeedNoDialogue(t: string, j: nat)
    requires j <= |t| && '\n' !in t
    ensures Scan(DialogueRecord, t, j) == []
    decreases |t| - j
  {
    var p := j + |DialogueTag|;
    if TagAt(t, j, DialogueTag) && NthComma(t, p, DialogueFieldCount).Some? {
      assert LineEnd(t, NthComma(t, p, DialogueFieldCount).value) == |t|;
    }
    assert MatchAt(DialogueRecord, t, j).None?;
    if j < |t| {
      NoLineFeedNoDialogue(t, j + 1);
    }
  }

  /** A last line with no line feed contributes no dialogue text, however many
      commas it has. */
  lemma FinalLineDropped(a: string, t: string)
    requires EndsLine(a) && '\n' !in t
    ensures ExtractDialogues(a + t) == ExtractDialogues(a)
  {
    ExtractByLines(a, t);
    NoLineFeedNoDialogue(t, 0);
  }
}
