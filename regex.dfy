/**
 * The part of Java's `String.replaceAll` that the normalisation rules use.
 *
 * A rule's regular expression is written as a sequence of atoms. The rules
 * use only three kinds of atom: a literal character (a plain one, or one
 * escaped with a backslash such as `\.`), the unescaped `.` and a greedy
 * `c?`. Matching tries the optional character first and falls back to
 * skipping it, which is the order in which `java.util.regex` backtracks.
 * Characters are Unicode code points, the unit `.` consumes in Java.
 */
module Regex {
  import opened Wrappers

  datatype Atom =
    | Text(t: string)    // literal characters, plain or escaped with a backslash
    | AnyChar            // `.`: any character except a line terminator
    | Optional(c: char)  // `c?`: one `c` if possible, otherwise nothing

  type Pattern = seq<Atom>

  /** The line terminators that `.` does not match (no DOTALL flag). */
  predicate IsLineTerminator(ch: char) {
    ch == '\n' || ch == '\r' || ch == '\U{0085}' || ch == '\U{2028}' || ch == '\U{2029}'
  }

  /** The length of the shortest text a pattern can match. */
  function MinLen(p: Pattern): nat {
    if p == [] then 0
    else
      match p[0]
      case Text(t) => |t| + MinLen(p[1..])
      case AnyChar => 1 + MinLen(p[1..])
      case Optional(_) => MinLen(p[1..])
  }

  function Shift(k: nat, r: Option<nat>): Option<nat> {
    match r
    case None => None
    case Some(n) => Some(n + k)
  }

  /**
   * The length of the match of `p` that starts at the beginning of `s`, as
   * `java.util.regex` finds it, or None if no match starts there.
   */
  function MatchLen(p: Pattern, s: string): (r: Option<nat>)
    ensures r.Some? ==> MinLen(p) <= r.value <= |s|
    decreases |p|
  {
    if p == [] then Some(0)
    else
      match p[0]
      case Text(t) =>
        if t <= s then Shift(|t|, MatchLen(p[1..], s[|t|..])) else None
      case AnyChar =>
        if s != [] && !IsLineTerminator(s[0]) then Shift(1, MatchLen(p[1..], s[1..])) else None
      case Optional(c) =>
        var taken := if s != [] && s[0] == c then Shift(1, MatchLen(p[1..], s[1..])) else None;
        if taken.Some? then taken else MatchLen(p[1..], s)
  }

  /**
   * `s.replaceAll(p, rep)` for a replacement without `$` or `\`: scan left to
   * right, replace each leftmost match and continue after it. After an empty
   * match Java copies one character before it searches again, and an empty
   * match at the very end is replaced too.
   */
  function ReplaceAll(s: string, p: Pattern, rep: string): string
    decreases |s|
  {
    match MatchLen(p, s)
    case Some(n) =>
      if n == 0 then rep + (if s == [] then [] else [s[0]] + ReplaceAll(s[1..], p, rep))
      else rep + ReplaceAll(s[n..], p, rep)
    case None =>
      if s == [] then [] else [s[0]] + ReplaceAll(s[1..], p, rep)
  }

  /** A text that starts with a literal pattern's text matches it there. */
  lemma TextMatchesItself(t: string, s: string)
    ensures MatchLen([Text(t)], t + s) == Some(|t|)
  {
    assert t <= t + s;
    assert [Text(t)][1..] == [];
  }

  lemma {:induction false} MinLenAppend(p: Pattern, q: Pattern)
    ensures MinLen(p + q) == MinLen(p) + MinLen(q)
    decreases |p|
  {
    if p == [] {
      assert p + q == q;
    } else {
      assert (p + q)[0] == p[0];
      assert (p + q)[1..] == p[1..] + q;
      MinLenAppend(p[1..], q);
    }
  }

  /** A text in which the pattern matches nowhere comes back unchanged. */
  lemma {:induction false} ReplaceAllNoMatch(s: string, p: Pattern, rep: string)
    requires forall i :: 0 <= i <= |s| ==> MatchLen(p, s[i..]).None?
    ensures ReplaceAll(s, p, rep) == s
    decreases |s|
  {
    assert s[0..] == s;
    if s != [] {
      forall i | 0 <= i <= |s[1..]| ensures MatchLen(p, s[1..][i..]).None? {
        assert s[1..][i..] == s[i + 1..];
      }
      ReplaceAllNoMatch(s[1..], p, rep);
    }
  }

  /** A text shorter than every match is left alone. */
  lemma ReplaceAllTooShort(s: string, p: Pattern, rep: string)
    requires |s| < MinLen(p)
    ensures ReplaceAll(s, p, rep) == s
  {
    ReplaceAllNoMatch(s, p, rep);
  }

  /** A replacement no longer than the shortest match never makes the text longer. */
  lemma {:induction false} ReplaceAllShrinks(s: string, p: Pattern, rep: string)
    requires |rep| <= MinLen(p)
    ensures |ReplaceAll(s, p, rep)| <= |s|
    decreases |s|
  {
    match MatchLen(p, s)
    case Some(n) =>
      if n == 0 {
        if s != [] { ReplaceAllShrinks(s[1..], p, rep); }
      } else {
        ReplaceAllShrinks(s[n..], p, rep);
      }
    case None =>
      if s != [] { ReplaceAllShrinks(s[1..], p, rep); }
  }

  /** The empty text stays empty under a pattern that cannot match emptily. */
  lemma ReplaceAllEmpty(p: Pattern, rep: string)
    requires MinLen(p) > 0
    ensures ReplaceAll([], p, rep) == []
  {
  }

  /**
   * Text in which the first character of the pattern's leading literal does
   * not occur is copied unchanged.
   */
  lemma {:induction false} ReplaceAllSkip(a: string, b: string, t: string, q: Pattern, rep: string)
    requires t != [] && t[0] !in a
    ensures ReplaceAll(a + b, [Text(t)] + q, rep) == a + ReplaceAll(b, [Text(t)] + q, rep)
    decreases |a|
  {
    var p := [Text(t)] + q;
    if a == [] {
      assert a + b == b;
    } else {
      var s := a + b;
      assert s[0] == a[0] && s[0] != t[0];
      assert p[0] == Text(t);
      assert !(t <= s);
      assert MatchLen(p, s) == None;
      assert s[1..] == a[1..] + b;
      calc {
        ReplaceAll(s, p, rep);
        [s[0]] + ReplaceAll(s[1..], p, rep);
        { ReplaceAllSkip(a[1..], b, t, q, rep); }
        [a[0]] + (a[1..] + ReplaceAll(b, p, rep));
      }
      assert [a[0]] + a[1..] == a;
    }
  }

  /** A literal pattern standing at the front of the text is replaced. */
  lemma ReplaceAllTextFront(t: string, s: string, rep: string)
    requires t != []
    ensures ReplaceAll(t + s, [Text(t)], rep) == rep + ReplaceAll(s, [Text(t)], rep)
  {
    TextMatchesItself(t, s);
    assert (t + s)[|t|..] == s;
  }

  /** One step of the scan where no match starts. */
  lemma ReplaceAllStep(s: string, p: Pattern, rep: string)
    requires s != [] && MatchLen(p, s) == None
    ensures ReplaceAll(s, p, rep) == [s[0]] + ReplaceAll(s[1..], p, rep)
  {
  }

  /** No match at the front and none in the rest: the text is left alone. */
  lemma ReplaceAllUnchangedFrom1(s: string, p: Pattern, rep: string)
    requires s != [] && MatchLen(p, s) == None && ReplaceAll(s[1..], p, rep) == s[1..]
    ensures ReplaceAll(s, p, rep) == s
  {
    assert [s[0]] + s[1..] == s;
  }

  /** A text whose first three characters begin no match and whose rest is too short is left alone. */
  lemma ReplaceAllFirstThree(s: string, p: Pattern)
    requires |s| >= 3 && |s| - 3 < MinLen(p)
    requires MatchLen(p, s) == None && MatchLen(p, s[1..]) == None && MatchLen(p, s[2..]) == None
    ensures ReplaceAll(s, p, "") == s
  {
    ReplaceAllTooShort(s[3..], p, "");
    ReplaceAllStep(s, p, "");
    ReplaceAllStep(s[1..], p, "");
    assert s[1..][1..] == s[2..];
    ReplaceAllStep(s[2..], p, "");
    assert s[2..][1..] == s[3..];
    assert s == [s[0]] + [s[1]] + [s[2]] + s[3..];
  }

  /** A single occurrence of a literal, with its first character nowhere else, is deleted. */
  lemma DeleteLoneOccurrence(a: string, t: string, b: string)
    requires t != [] && t[0] !in a && t[0] !in b
    ensures ReplaceAll(a + t + b, [Text(t)], "") == a + b
  {
    var p := [Text(t)];
    assert [Text(t)] + [] == p;
    ReplaceAllSkip(a, t + b, t, [], "");
    ReplaceAllTextFront(t, b, "");
    ReplaceAllSkip(b, [], t, [], "");
    ReplaceAllEmpty(p, "");
    calc {
      ReplaceAll(a + t + b, p, "");
      { assert a + t + b == a + (t + b); }
      ReplaceAll(a + (t + b), p, "");
      a + ReplaceAll(t + b, p, "");
      { assert "" + ReplaceAll(b, p, "") == ReplaceAll(b, p, ""); }
      a + ReplaceAll(b, p, "");
      { assert b + [] == b; }
      a + (b + ReplaceAll([], p, ""));
      { assert b + [] == b; }
      a + b;
    }
  }
}
