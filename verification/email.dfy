/** The e-mail format check of the contact form (`emailValidation`,
    src/App.js line 5) as a structural predicate over the string, with its
    general properties. Module `EmailPattern` proves it equal to the regular
    expression itself. */
module Email {
  import opened Split

  // ---------------------------------------------------------------------
  // Character classes, by code point

  predicate IsDigit(c: char) { '0' <= c <= '9' }

  predicate IsLatinLetter(c: char) { 'A' <= c <= 'Z' || 'a' <= c <= 'z' }

  /** `[0-9A-Za-z]`: first and last character of a Latin local part. */
  predicate IsLatinAlnum(c: char) { IsDigit(c) || IsLatinLetter(c) }

  /** `[-0-9A-z\.]`: inner character of a Latin local part. The range `A-z`
      (65..122) also holds `[`, `\`, `]`, `^`, `_` and the backtick. */
  predicate IsLatinInner(c: char) { c == '-' || c == '.' || IsDigit(c) || 'A' <= c <= 'z' }

  /** `А-Я` and `а-я` together: U+0410..U+044F, which leaves out Ё (U+0401)
      and ё (U+0451). */
  predicate IsCyrillicLetter(c: char) { '\U{0410}' <= c <= '\U{044F}' }

  /** `[0-9А-Яа-я]`: first and last character of a Cyrillic local part. */
  predicate IsCyrillicAlnum(c: char) { IsDigit(c) || IsCyrillicLetter(c) }

  /** `[-0-9А-я\.]`: inner character of a Cyrillic local part. */
  predicate IsCyrillicInner(c: char) { c == '-' || c == '.' || IsDigit(c) || IsCyrillicLetter(c) }

  /** `[-A-Za-z]`: character of a domain label; no digits. */
  predicate IsDomainChar(c: char) { c == '-' || IsLatinLetter(c) }

  // ---------------------------------------------------------------------
  // The structural predicate

  /** At least three characters, Latin alphanumerics at both ends. */
  predicate IsLatinLocal(l: string)
  {
    |l| >= 3 && IsLatinAlnum(l[0]) && IsLatinAlnum(l[|l| - 1])
    && forall i :: 0 < i < |l| - 1 ==> IsLatinInner(l[i])
  }

  /** At least three characters, Cyrillic alphanumerics at both ends. */
  predicate IsCyrillicLocal(l: string)
  {
    |l| >= 3 && IsCyrillicAlnum(l[0]) && IsCyrillicAlnum(l[|l| - 1])
    && forall i :: 0 < i < |l| - 1 ==> IsCyrillicInner(l[i])
  }

  /** The part before `@`: one script or the other, never a mix. */
  predicate IsLocal(l: string) { IsLatinLocal(l) || IsCyrillicLocal(l) }

  predicate IsLabel(p: string)
  {
    |p| >= 1 && forall i :: 0 <= i < |p| ==> IsDomainChar(p[i])
  }

  /** The part after `@`: two or three dot-separated labels, the last one of
      at least two characters. */
  predicate IsDomain(d: string)
  {
    var ps := SplitOn(d, '.');
    2 <= |ps| <= 3 && (forall i :: 0 <= i < |ps| ==> IsLabel(ps[i])) && |ps[|ps| - 1]| >= 2
  }

  /** Exactly one `@`, a valid local part before it and a valid domain after. */
  predicate IsEmail(s: string)
  {
    var ps := SplitOn(s, '@');
    |ps| == 2 && IsLocal(ps[0]) && IsDomain(ps[1])
  }

  // ---------------------------------------------------------------------
  // Properties

  /** Three labels, the last one final. */
  lemma JoinThree(p1: string, p2: string, f: string)
    ensures Join([p1, p2, f], '.') == ((p1 + ['.']) + (p2 + ['.'])) + f
  {
    assert [p1, p2, f][1..] == [p2, f];
    JoinPair(p2, f, '.');
  }

  /** Joining `.`-free pieces with dots makes a domain exactly when there
      are two or three of them, all labels, the last one of length at least 2. */
  lemma LabelsDomain(ps: seq<string>)
    requires |ps| > 0 && forall i :: 0 <= i < |ps| ==> '.' !in ps[i]
    ensures IsDomain(Join(ps, '.'))
        <==> 2 <= |ps| <= 3 && (forall i :: 0 <= i < |ps| ==> IsLabel(ps[i])) && |ps[|ps| - 1]| >= 2
  {
    SplitOnJoin(ps, '.');
  }

  /** Labels followed by a final label: the shape `IsDomain` asks for. */
  lemma DomainOfLabels(ps: seq<string>)
    requires 2 <= |ps| <= 3 && forall i :: 0 <= i < |ps| ==> IsLabel(ps[i])
    requires |ps[|ps| - 1]| >= 2
    ensures IsDomain(Join(ps, '.'))
  {
    LabelsDomain(ps);
  }

  /** A domain is made of dots and domain characters only: in particular
      it holds no `@`, no digit and no Cyrillic letter. */
  lemma DomainAlphabet(d: string)
    requires IsDomain(d)
    ensures forall i :: 0 <= i < |d| ==> d[i] == '.' || IsDomainChar(d[i])
  {
    var ps := SplitOn(d, '.');
    JoinChars(ps, '.');
    forall i | 0 <= i < |d|
      ensures d[i] == '.' || IsDomainChar(d[i])
    {
      assert d[i] in Join(ps, '.');
      if d[i] != '.' {
        var j :| 0 <= j < |ps| && d[i] in ps[j];
        assert IsLabel(ps[j]);
      }
    }
  }

  /** With no other `@` on either side, `l@d` is an address exactly when `l`
      is a local part and `d` a domain: the `@` is the only one. */
  lemma PartsOfEmail(l: string, d: string)
    requires '@' !in l && '@' !in d
    ensures IsEmail((l + ['@']) + d) <==> IsLocal(l) && IsDomain(d)
  {
    JoinPair(l, d, '@');
    SplitOnJoin([l, d], '@');
  }

  /** A local part, one `@` and a domain make an address `IsEmail` accepts. */
  lemma EmailOfParts(l: string, d: string)
    requires IsLocal(l) && IsDomain(d)
    ensures IsEmail((l + ['@']) + d)
  {
    DomainAlphabet(d);
    assert '@' !in l && '@' !in d;
    PartsOfEmail(l, d);
  }

  /** An accepted address holds exactly one `@`. */
  lemma OneAt(s: string)
    requires IsEmail(s)
    ensures multiset(s)['@'] == 1
  {
    var ps := SplitOn(s, '@');
    assert ps == [ps[0], ps[1]];
    JoinPair(ps[0], ps[1], '@');
    assert multiset(s) == multiset(ps[0]) + multiset(['@']) + multiset(ps[1]);
  }

  /** A local part shorter than three characters is never accepted,
      whatever follows the `@`. */
  lemma ShortLocalRejected(l: string, d: string)
    requires '@' !in l && |l| < 3
    ensures !IsEmail((l + ['@']) + d)
  {
    SplitOnPrefix(l, ['@'] + d, '@');
    assert SplitOn(['@'] + d, '@') == [[]] + SplitOn(d, '@') by {
      assert (['@'] + d)[1..] == d;
    }
    assert (l + ['@']) + d == l + (['@'] + d);
    assert l + [] == l;
  }

  /** The two scripts never mix in a local part: no accepted local part
      holds both a Latin and a Cyrillic letter, wherever they stand. */
  lemma NoMixedScripts(l: string, i: int, j: int)
    requires IsLocal(l) && 0 <= i < |l| && 0 <= j < |l|
    ensures !(IsLatinLetter(l[i]) && IsCyrillicLetter(l[j]))
  {
  }

  /** In particular, a Latin letter at one end and a Cyrillic letter at the
      other is rejected. */
  lemma MixedEndsRejected(l: string)
    requires |l| > 0
    requires (IsLatinLetter(l[0]) && IsCyrillicLetter(l[|l| - 1]))
          || (IsCyrillicLetter(l[0]) && IsLatinLetter(l[|l| - 1]))
    ensures !IsLocal(l)
  {
    if IsLocal(l) {
      NoMixedScripts(l, 0, |l| - 1);
      NoMixedScripts(l, |l| - 1, 0);
    }
  }

  /** A domain never holds a Cyrillic letter (nor a digit): only the local
      part may be Cyrillic. */
  lemma DomainIsLatin(d: string)
    requires IsDomain(d)
    ensures forall i :: 0 <= i < |d| ==> !IsCyrillicLetter(d[i]) && !IsDigit(d[i])
  {
    DomainAlphabet(d);
  }

  /** Hence a string holding a Cyrillic letter is not a domain. */
  lemma CyrillicDomainRejected(d: string, i: nat)
    requires i < |d| && IsCyrillicLetter(d[i])
    ensures !IsDomain(d)
  {
    if IsDomain(d) {
      DomainIsLatin(d);
    }
  }
}
