/** Splitting a string on a one-character separator, as `String.prototype.split`
    does in JavaScript, and joining the pieces back together. */
module Split {

  /** The pieces joined with `c` between each two neighbours. */
  function Join(ps: seq<string>, c: char): string
    requires |ps| > 0
  {
    if |ps| == 1 then ps[0] else ps[0] + [c] + Join(ps[1..], c)
  }

  /** The maximal runs of `s` that do not contain `c`, in order: joining them
      with `c` gives `s` back. An occurrence of `c` at either end, or two
      adjacent ones, yields an empty piece. */
  function SplitOn(s: string, c: char): (ps: seq<string>)
    ensures |ps| > 0
    ensures forall i :: 0 <= i < |ps| ==> c !in ps[i]
    ensures Join(ps, c) == s
  {
    if s == [] then [[]]
    else
      var rest := SplitOn(s[1..], c);
      assert s == [s[0]] + s[1..];
      if s[0] == c then
        assert ([[]] + rest)[1..] == rest;
        [[]] + rest
      else
        var ps := [[s[0]] + rest[0]] + rest[1..];
        assert ps[1..] == rest[1..];
        ps
  }

  /** Splitting a string that begins with a `c`-free prefix `a` glues `a`
      onto the first piece of the rest. */
  lemma {:induction false} SplitOnPrefix(a: string, t: string, c: char)
    requires c !in a
    ensures SplitOn(a + t, c) == [a + SplitOn(t, c)[0]] + SplitOn(t, c)[1..]
    decreases |a|
  {
    var st := SplitOn(t, c);
    if a == [] {
      assert a + t == t && a + st[0] == st[0];
      assert [st[0]] + st[1..] == st;
    } else {
      assert (a + t)[0] == a[0] && (a + t)[1..] == a[1..] + t;
      SplitOnPrefix(a[1..], t, c);
      var r := SplitOn(a[1..] + t, c);
      assert r[0] == a[1..] + st[0] && r[1..] == st[1..];
      assert [a[0]] + (a[1..] + st[0]) == a + st[0];
    }
  }

  /** Joining pieces free of `c` and splitting the result on `c` gives the
      pieces back: `SplitOn` is the inverse of `Join`. */
  lemma {:induction false} SplitOnJoin(ps: seq<string>, c: char)
    requires |ps| > 0
    requires forall i :: 0 <= i < |ps| ==> c !in ps[i]
    ensures SplitOn(Join(ps, c), c) == ps
    decreases |ps|
  {
    if |ps| == 1 {
      SplitOnPrefix(ps[0], [], c);
      assert ps[0] + [] == ps[0];
      assert ps == [ps[0]];
    } else {
      var rest := Join(ps[1..], c);
      SplitOnJoin(ps[1..], c);
      assert SplitOn([c] + rest, c) == [[]] + SplitOn(rest, c) by {
        assert ([c] + rest)[1..] == rest;
      }
      assert Join(ps, c) == ps[0] + ([c] + rest);
      SplitOnPrefix(ps[0], [c] + rest, c);
      var st := SplitOn([c] + rest, c);
      assert st[0] == [] && st[1..] == ps[1..];
      assert ps[0] + st[0] == ps[0];
      assert ps == [ps[0]] + ps[1..];
    }
  }

  /** Joining two pieces puts one `c` between them. */
  lemma JoinPair(a: string, b: string, c: char)
    ensures Join([a, b], c) == (a + [c]) + b
  {
    assert [a, b][1..] == [b];
  }

  /** Every character of a join is the separator or a character of one of
      the pieces. */
  lemma {:induction false} JoinChars(ps: seq<string>, c: char)
    requires |ps| > 0
    ensures forall x :: x in Join(ps, c) ==> x == c || exists j :: 0 <= j < |ps| && x in ps[j]
    decreases |ps|
  {
    if |ps| > 1 {
      JoinChars(ps[1..], c);
      forall x | x in Join(ps, c)
        ensures x == c || exists j :: 0 <= j < |ps| && x in ps[j]
      {
        if x in Join(ps[1..], c) && x != c {
          var j :| 0 <= j < |ps[1..]| && x in ps[1..][j];
          assert x in ps[j + 1];
        }
      }
    }
  }
}
