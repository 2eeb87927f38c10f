/** The fragment of Python's `re` module that the subtitle extractor relies on,
    as a backtracking matcher: literal characters, the lazy `.*?` (with no
    flags, `.` is any character except a line feed), and one capturing group.
    `Match` explores alternatives in the order Python's engine does, so its
    first success is the match `re` reports; `FindAll` is `re.findall` for a
    pattern with exactly one group. */
module Regex {
  import opened Text

  datatype Atom =
    | Char(c: char)  // a literal character
    | LazyAny        // `.*?`: a run of non-newline characters, shortest first
    | Open           // `(`: the group starts here
    | Close          // `)`: the group ends here

  /** A successful match: where it ends and what the group captured. */
  datatype Hit = Hit(end: nat, group: string)

  /** The pattern that matches the literal text `t`. */
  function Literal(t: string): (p: seq<Atom>)
  {
    seq(|t|, k requires 0 <= k < |t| => Char(t[k]))
  }

  /** The first match, in backtracking order, of pattern `p` against `s` at
      index `i`; `start` is where the group opened and `group` what it captured
      so far. */
  function Match(p: seq<Atom>, s: string, i: nat, start: nat, group: string): (r: Option<Hit>)
    requires start <= i <= |s|
    ensures r.Some? ==> i <= r.value.end <= |s|
    decreases |s| - i, |p|
  {
    if |p| == 0 then Some(Hit(i, group))
    else match p[0]
      case Char(c) =>
        if i < |s| && s[i] == c then Match(p[1..], s, i + 1, start, group) else None
      case Open => Match(p[1..], s, i, i, group)
      case Close => Match(p[1..], s, i, start, s[start..i])
      case LazyAny =>
        var shortest := Match(p[1..], s, i, start, group);
        if shortest.Some? then shortest
        else if i < |s| && s[i] != '\n' then Match(p, s, i + 1, start, group)
        else None
  }

  /** `re.findall(p, s[i..])` for a one-group pattern that begins with a
      literal character: scan left to right, and after each match resume at its
      end. */
  function FindAll(p: seq<Atom>, s: string, i: nat): (r: seq<string>)
    requires i <= |s|
    requires |p| > 0 && p[0].Char?
    decreases |s| - i
  {
    match Match(p, s, i, i, "")
    case Some(h) =>
      assert h.end > i;
      [h.group] + FindAll(p, s, h.end)
    case None => if i == |s| then [] else FindAll(p, s, i + 1)
  }

  /** A literal character consumes one matching character of the text. */
  lemma MatchChar(c: char, q: seq<Atom>, s: string, i: nat, start: nat, group: string)
    requires start <= i <= |s|
    ensures Match([Char(c)] + q, s, i, start, group) ==
      if i < |s| && s[i] == c then Match(q, s, i + 1, start, group) else None
  {
  }

  /** Opening the group records where it starts. */
  lemma MatchOpen(q: seq<Atom>, s: string, i: nat, start: nat, group: string)
    requires start <= i <= |s|
    ensures Match([Open] + q, s, i, start, group) == Match(q, s, i, i, group)
  {
  }

  /** Closing the group captures the text since it opened. */
  lemma MatchClose(q: seq<Atom>, s: string, i: nat, start: nat, group: string)
    requires start <= i <= |s|
    ensures Match([Close] + q, s, i, start, group) == Match(q, s, i, start, s[start..i])
  {
  }

  /** `.*?` first tries the rest of the pattern here, and only when that fails
      swallows one more non-newline character. */
  lemma MatchLazy(q: seq<Atom>, s: string, i: nat, start: nat, group: string)
    requires start <= i <= |s|
    ensures Match([LazyAny] + q, s, i, start, group) ==
      if Match(q, s, i, start, group).Some? then Match(q, s, i, start, group)
      else if i < |s| && s[i] != '\n' then Match([LazyAny] + q, s, i + 1, start, group)
      else None
  {
  }

  /** A literal prefix matches exactly when the text carries it at `i`. */
  lemma {:induction false} MatchLiteral(t: string, q: seq<Atom>, s: string, i: nat, start: nat, group: string)
    requires start <= i <= |s|
    ensures Match(Literal(t) + q, s, i, start, group) ==
      if TagAt(s, i, t) then Match(q, s, i + |t|, start, group) else None
    decreases |t|
  {
    if |t| > 0 {
      assert Literal(t) + q == [Char(t[0])] + (Literal(t[1..]) + q);
      MatchChar(t[0], Literal(t[1..]) + q, s, i, start, group);
      if i < |s| && s[i] == t[0] {
        MatchLiteral(t[1..], q, s, i + 1, start, group);
        if i + |t| <= |s| {
          assert s[i..i + |t|] == [s[i]] + s[i + 1..i + |t|];
          assert t == [t[0]] + t[1..];
        }
      }
    } else {
      assert Literal(t) + q == q;
    }
  }
}
