/** Small string helpers shared by the scanners, the session and the export
    format: an Option type, literal matching at an index, and Python's
    `str.join` and one-character `str.split`. */
module Text {

  datatype Option<+T> = None | Some(value: T)

  /** The literal `t` occurs in `s` starting at index `i`. */
  predicate TagAt(s: string, i: nat, t: string)
  {
    i + |t| <= |s| && s[i..i + |t|] == t
  }

  /** A literal found at `i` lines up with the text piece by piece. */
  lemma TagSlice(s: string, i: nat, t: string, x: nat, y: nat)
    requires TagAt(s, i, t)
    requires x <= y <= |t|
    ensures s[i + x..i + y] == t[x..y]
  {
    forall k | 0 <= k < y - x
      ensures s[i + x..i + y][k] == t[x..y][k]
    {
      assert s[i + x + k] == s[i..i + |t|][x + k];
    }
  }

  /** A concatenation found at `i` is its first part at `i` followed by its
      second part. */
  lemma TagSplit(s: string, i: nat, x: string, y: string)
    requires TagAt(s, i, x + y)
    ensures TagAt(s, i, x) && TagAt(s, i + |x|, y)
  {
    TagSlice(s, i, x + y, 0, |x|);
    TagSlice(s, i, x + y, |x|, |x + y|);
    assert (x + y)[..|x|] == x;
    assert (x + y)[|x|..] == y;
  }

  /** Reading a file in text mode with universal newlines: `"\r\n"` and a lone
      `'\r'` both become `'\n'`. */
  function Newlines(raw: string): (t: string)
    ensures '\r' !in t
    ensures |t| <= |raw|
  {
    if |raw| == 0 then ""
    else if raw[0] == '\r' then
      if |raw| > 1 && raw[1] == '\n' then "\n" + Newlines(raw[2..]) else "\n" + Newlines(raw[1..])
    else [raw[0]] + Newlines(raw[1..])
  }

  /** Text without carriage returns passes through unchanged, so translating
      twice is translating once. */
  lemma {:induction false} NewlinesPlain(x: string, y: string)
    requires '\r' !in x
    ensures Newlines(x + y) == x + Newlines(y)
    decreases |x|
  {
    if |x| > 0 {
      assert (x + y)[0] == x[0];
      assert (x + y)[1..] == x[1..] + y;
      NewlinesPlain(x[1..], y);
      assert x == [x[0]] + x[1..];
    } else {
      assert x + y == y;
    }
  }

  /** Translated text has no carriage return left, so translating again changes
      nothing. */
  lemma NewlinesIdempotent(raw: string)
    ensures Newlines(Newlines(raw)) == Newlines(raw)
  {
  }

  /** A line ended by `"\r\n"`, or by a lone `'\r'` that no line feed follows,
      reads as the line ended by `'\n'`, and the translation goes on with the
      text after it: so every line of a CRLF or CR file reads as a line feed
      ended line, not only the last. */
  lemma LineEnding(x: string, y: string)
    requires '\r' !in x
    ensures Newlines(x + "\r\n" + y) == x + "\n" + Newlines(y)
    ensures (|y| == 0 || y[0] != '\n') ==> Newlines(x + "\r" + y) == x + "\n" + Newlines(y)
  {
    BreakAfter(x, "\r\n", y);
    if |y| == 0 || y[0] != '\n' {
      BreakAfter(x, "\r", y);
    }
  }

  /** A carriage-return-free stretch followed by the line break `b`. */
  lemma BreakAfter(x: string, b: string, y: string)
    requires '\r' !in x
    requires b == "\r\n" || (b == "\r" && (|y| == 0 || y[0] != '\n'))
    ensures Newlines(x + b + y) == x + "\n" + Newlines(y)
  {
    LineBreak(y);
    assert x + b + y == x + (b + y);
    NewlinesPlain(x, b + y);
  }

  /** The translation of a text that starts with a line break. */
  lemma LineBreak(y: string)
    ensures Newlines("\r\n" + y) == "\n" + Newlines(y)
    ensures (|y| == 0 || y[0] != '\n') ==> Newlines("\r" + y) == "\n" + Newlines(y)
  {
  }

  /** The characters of a string, as a set (Python's `set(text)`). */
  function CharsOf(s: string): set<char>
  {
    set c | c in s
  }

  /** Python's `sep.join(parts)`. */
  function Join(sep: string, parts: seq<string>): string
  {
    if |parts| == 0 then ""
    else if |parts| == 1 then parts[0]
    else parts[0] + sep + Join(sep, parts[1..])
  }

  /** Python's `s.split(sep)` for a one-character separator: the pieces between
      consecutive separators, always at least one piece. */
  function Split(s: string, sep: char): (r: seq<string>)
    ensures |r| > 0
    ensures forall k :: 0 <= k < |r| ==> sep !in r[k]
  {
    if |s| == 0 then [""]
    else
      var rest := Split(s[1..], sep);
      assert s == [s[0]] + s[1..];
      if s[0] == sep then [""] + rest
      else [[s[0]] + rest[0]] + rest[1..]
  }

  /** A character occurs in a join exactly when it occurs in one of the parts,
      or it belongs to the separator and there are at least two parts. */
  lemma {:induction false} JoinMembers(sep: string, parts: seq<string>, c: char)
    ensures c in Join(sep, parts) <==>
              (exists k :: 0 <= k < |parts| && c in parts[k]) || (|parts| >= 2 && c in sep)
    decreases |parts|
  {
    if |parts| >= 2 {
      JoinMembers(sep, parts[1..], c);
      assert forall k :: 1 <= k < |parts| ==> parts[k] == parts[1..][k - 1];
      if c in parts[0] + sep + Join(sep, parts[1..]) {
        if c !in parts[0] && c !in sep {
          assert c in Join(sep, parts[1..]);
          var k :| 0 <= k < |parts[1..]| && c in parts[1..][k];
          assert c in parts[k + 1];
        }
      }
    }
  }

  /** A piece free of the separator splits to itself. */
  lemma {:induction false} SplitPlain(x: string, sep: char)
    requires sep !in x
    ensures Split(x, sep) == [x]
    decreases |x|
  {
    if |x| > 0 {
      assert x == [x[0]] + x[1..];
      SplitPlain(x[1..], sep);
    }
  }

  /** A separator-free piece followed by the separator splits off as one piece. */
  lemma {:induction false} SplitPiece(x: string, sep: char, t: string)
    requires sep !in x
    ensures Split(x + [sep] + t, sep) == [x] + Split(t, sep)
    decreases |x|
  {
    var s := x + [sep] + t;
    if |x| == 0 {
      assert s[1..] == t;
    } else {
      assert x == [x[0]] + x[1..];
      assert s[1..] == x[1..] + [sep] + t;
      SplitPiece(x[1..], sep, t);
    }
  }

  /** Splitting a join of separator-free parts gives back the parts. */
  lemma {:induction false} SplitJoin(parts: seq<string>, sep: char)
    requires |parts| > 0
    requires forall k :: 0 <= k < |parts| ==> sep !in parts[k]
    ensures Split(Join([sep], parts), sep) == parts
    decreases |parts|
  {
    if |parts| == 1 {
      SplitPlain(parts[0], sep);
    } else {
      SplitJoin(parts[1..], sep);
      SplitPiece(parts[0], sep, Join([sep], parts[1..]));
      assert parts == [parts[0]] + parts[1..];
    }
  }
}
