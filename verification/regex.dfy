/** A small fragment of JavaScript regular expressions (character classes,
    concatenation, alternation and counted repetition) with its language
    semantics: `Matches(r, s)` holds when the whole string `s` is in the
    language of `r`. For an anchored pattern (`^…$`) without back-references
    or look-around, a backtracking `RegExp.prototype.test` succeeds exactly
    when the input is in that language. Characters are code points, as with
    the `u` flag. */
module Regex {
  import opened Wrappers

  /** One range `lo-hi` of a character class, bounds included; a single
      character `x` is the range `x-x`. */
  datatype Range = Range(lo: char, hi: char)

  datatype Regex =
    | Class(ranges: seq<Range>)                        // [ ... ]
    | Cat(left: Regex, right: Regex)                    // left right
    | Alt(left: Regex, right: Regex)                    // left|right
    | Repeat(body: Regex, min: nat, max: Option<nat>)   // body{min,max} or body{min,}

  /** `x{1}` */
  function Once(r: Regex): Regex { Repeat(r, 1, Some(1)) }

  /** `x{n,}` */
  function AtLeast(r: Regex, n: nat): Regex { Repeat(r, n, None) }

  predicate InClass(c: char, ranges: seq<Range>)
    decreases |ranges|
  {
    |ranges| > 0 && (ranges[0].lo <= c <= ranges[0].hi || InClass(c, ranges[1..]))
  }

  ghost predicate Matches(r: Regex, s: string)
    decreases r, 0, 0
  {
    match r
    case Class(ranges) => |s| == 1 && InClass(s[0], ranges)
    case Cat(a, b) => exists k :: 0 <= k <= |s| && Matches(a, s[..k]) && Matches(b, s[k..])
    case Alt(a, b) => Matches(a, s) || Matches(b, s)
    case Repeat(body, min, max) => MatchesRepeat(body, min, max, s)
  }

  function Decrement(max: Option<nat>): Option<nat>
  {
    match max
    case None => None
    case Some(n) => Some(if n == 0 then 0 else n - 1)
  }

  /** `s` is a run of between `min` and `max` (no limit when `None`) matches
      of `body`. Once the minimum is reached an iteration must consume at
      least one character, as the ECMAScript RepeatMatcher demands. */
  ghost predicate MatchesRepeat(body: Regex, min: nat, max: Option<nat>, s: string)
    decreases body, 1, |s| + min
  {
    if max.Some? && max.value < min then false
    else if min > 0 then
      exists k :: 0 <= k <= |s| && Matches(body, s[..k]) && MatchesRepeat(body, min - 1, Decrement(max), s[k..])
    else if s == [] then true
    else if max == Some(0) then false
    else
      exists k :: 0 < k <= |s| && Matches(body, s[..k]) && MatchesRepeat(body, 0, Decrement(max), s[k..])
  }

  /** `x{1}` matches what `x` matches. */
  lemma OnceMatches(r: Regex, s: string)
    ensures Matches(Once(r), s) <==> Matches(r, s)
  {
    if Matches(r, s) {
      assert s[..|s|] == s && s[|s|..] == [];
      assert MatchesRepeat(r, 0, Some(0), s[|s|..]);
    }
    assert Matches(Once(r), s) == MatchesRepeat(r, 1, Some(1), s);
    if Matches(Once(r), s) {
      var k :| 0 <= k <= |s| && Matches(r, s[..k]) && MatchesRepeat(r, 0, Some(0), s[k..]);
      assert s[k..] == [];
      assert s[..k] == s;
    }
  }

  /** `[…]{n,}` matches exactly the strings of at least `n` characters, each
      in the class. */
  lemma {:induction false} AtLeastClassMatches(ranges: seq<Range>, n: nat, s: string)
    ensures Matches(AtLeast(Class(ranges), n), s)
        <==> |s| >= n && forall i :: 0 <= i < |s| ==> InClass(s[i], ranges)
    decreases |s| + n
  {
    if s == [] {
      if n > 0 {
        assert !Matches(AtLeast(Class(ranges), n), s) by {
          assert forall k :: 0 <= k <= |s| ==> !Matches(Class(ranges), s[..k]);
        }
      }
    } else {
      var rest := s[1..];
      var next: nat := if n > 0 then n - 1 else 0;
      AtLeastClassMatches(ranges, next, rest);
      assert s[..1] == [s[0]] && s[1..] == rest;
      assert Matches(AtLeast(Class(ranges), n), s) == MatchesRepeat(Class(ranges), n, None, s);
      assert Matches(AtLeast(Class(ranges), next), rest) == MatchesRepeat(Class(ranges), next, None, rest);
      assert forall k :: 0 <= k <= |s| && Matches(Class(ranges), s[..k]) ==> k == 1;
      assert (forall i :: 0 <= i < |s| ==> InClass(s[i], ranges))
        <==> InClass(s[0], ranges) && forall i :: 0 <= i < |rest| ==> InClass(rest[i], ranges);
      if |s| >= n && forall i :: 0 <= i < |s| ==> InClass(s[i], ranges) {
        assert Matches(Class(ranges), s[..1]);
        assert MatchesRepeat(Class(ranges), next, None, s[1..]);
        assert MatchesRepeat(Class(ranges), n, None, s);
      }
      if MatchesRepeat(Class(ranges), n, None, s) {
        var k :| 0 <= k <= |s| && Matches(Class(ranges), s[..k]) && MatchesRepeat(Class(ranges), next, None, s[k..]);
        assert k == 1;
      }
    }
  }

  /** After one iteration of `x{1,2}`, what is left matches `x{0,1}`:
      nothing, or one non-empty match of `x`. */
  lemma AtMostOnceMatches(r: Regex, t: string)
    ensures MatchesRepeat(r, 0, Some(1), t) <==> t == [] || Matches(r, t)
  {
    if t != [] && Matches(r, t) {
      assert t[..|t|] == t && t[|t|..] == [];
      assert MatchesRepeat(r, 0, Some(0), t[|t|..]);
    }
    if t != [] && MatchesRepeat(r, 0, Some(1), t) {
      var j :| 0 < j <= |t| && Matches(r, t[..j]) && MatchesRepeat(r, 0, Some(0), t[j..]);
      assert t[j..] == [];
      assert t[..j] == t;
    }
  }

  /** A match of `x{1,2}` is one match of `x` (`twice` false), or a match
      of `x` up to `k` followed by another one (`twice` true). */
  lemma OnceOrTwiceSplit(r: Regex, s: string) returns (twice: bool, k: nat)
    requires Matches(Repeat(r, 1, Some(2)), s)
    ensures !twice ==> Matches(r, s)
    ensures twice ==> k <= |s| && Matches(r, s[..k]) && Matches(r, s[k..])
  {
    k :| 0 <= k <= |s| && Matches(r, s[..k]) && MatchesRepeat(r, 0, Some(1), s[k..]);
    AtMostOnceMatches(r, s[k..]);
    twice := k < |s|;
    if !twice {
      assert s[..k] == s;
    }
  }

  /** One match of `x`, or two in a row, is a match of `x{1,2}`. */
  lemma OnceOrTwiceIntro(r: Regex, s: string, k: nat)
    requires Matches(r, s) || (k < |s| && Matches(r, s[..k]) && Matches(r, s[k..]))
    ensures Matches(Repeat(r, 1, Some(2)), s)
  {
    if Matches(r, s) {
      assert s[..|s|] == s && s[|s|..] == [];
      AtMostOnceMatches(r, s[|s|..]);
      assert MatchesRepeat(r, 1, Some(2), s);
    } else {
      AtMostOnceMatches(r, s[k..]);
      assert MatchesRepeat(r, 1, Some(2), s);
    }
  }

  /** A match of `a b` splits into a match of `a` and a match of `b`; `k`
      is where the split falls. */
  lemma CatSplit(a: Regex, b: Regex, s: string) returns (k: nat)
    requires Matches(Cat(a, b), s)
    ensures k <= |s| && Matches(a, s[..k]) && Matches(b, s[k..])
  {
    k :| 0 <= k <= |s| && Matches(a, s[..k]) && Matches(b, s[k..]);
  }

  /** A match of `a` up to `k` and of `b` after it is a match of `a b`. */
  lemma CatMatchesAt(a: Regex, b: Regex, s: string, k: nat)
    requires k <= |s| && Matches(a, s[..k]) && Matches(b, s[k..])
    ensures Matches(Cat(a, b), s)
  {
  }

  /** A match of `a` followed by a match of `b` is a match of `a b`. */
  lemma CatMatches(a: Regex, b: Regex, s: string, t: string)
    requires Matches(a, s) && Matches(b, t)
    ensures Matches(Cat(a, b), s + t)
  {
    assert (s + t)[..|s|] == s && (s + t)[|s|..] == t;
  }
}
