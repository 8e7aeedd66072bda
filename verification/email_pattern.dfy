/** The regular expression `emailValidation` of src/App.js line 5, written
    out in the regex fragment of module `Regex`, and the proof that it
    accepts exactly the strings `Email.IsEmail` accepts. */
module EmailPattern {
  import opened Wrappers
  import opened Split
  import opened Regex
  import opened Email

  // The pattern, as in the source (flag u):
  //   ^((([0-9A-Za-z]{1}[-0-9A-z\.]{1,}[0-9A-Za-z]{1})
  //     |([0-9А-Яа-я]{1}[-0-9А-я\.]{1,}[0-9А-Яа-я]{1}))
  //    @([-A-Za-z]{1,}\.){1,2}[-A-Za-z]{2,})$

  const LatinAlnumClass: seq<Range> := [Range('0', '9'), Range('A', 'Z'), Range('a', 'z')]
  const LatinInnerClass: seq<Range> := [Range('-', '-'), Range('0', '9'), Range('A', 'z'), Range('.', '.')]
  const CyrillicAlnumClass: seq<Range> :=
    [Range('0', '9'), Range('\U{0410}', '\U{042F}'), Range('\U{0430}', '\U{044F}')]
  const CyrillicInnerClass: seq<Range> :=
    [Range('-', '-'), Range('0', '9'), Range('\U{0410}', '\U{044F}'), Range('.', '.')]
  const DomainClass: seq<Range> := [Range('-', '-'), Range('A', 'Z'), Range('a', 'z')]
  const DotClass: seq<Range> := [Range('.', '.')]
  const AtClass: seq<Range> := [Range('@', '@')]

  /** `[edge]{1}[inner]{1,}[edge]{1}` */
  function Framed(edge: seq<Range>, inner: seq<Range>): Regex
  {
    Cat(Once(Class(edge)), Cat(AtLeast(Class(inner), 1), Once(Class(edge))))
  }

  const LocalRegex: Regex :=
    Alt(Framed(LatinAlnumClass, LatinInnerClass), Framed(CyrillicAlnumClass, CyrillicInnerClass))

  /** `[-A-Za-z]{1,}\.` */
  const LabelDotRegex: Regex := Cat(AtLeast(Class(DomainClass), 1), Class(DotClass))

  /** `([-A-Za-z]{1,}\.){1,2}` */
  const LabelsRegex: Regex := Repeat(LabelDotRegex, 1, Some(2))

  /** `[-A-Za-z]{2,}` */
  const LastLabelRegex: Regex := AtLeast(Class(DomainClass), 2)

  const DomainRegex: Regex := Cat(LabelsRegex, LastLabelRegex)

  /** `@` followed by the domain. */
  const AtDomainRegex: Regex := Cat(Class(AtClass), DomainRegex)

  const EmailRegex: Regex := Cat(LocalRegex, AtDomainRegex)

  // ---------------------------------------------------------------------
  // Character classes

  lemma ClassesAgree(c: char)
    ensures InClass(c, LatinAlnumClass) <==> IsLatinAlnum(c)
    ensures InClass(c, LatinInnerClass) <==> IsLatinInner(c)
    ensures InClass(c, CyrillicAlnumClass) <==> IsCyrillicAlnum(c)
    ensures InClass(c, CyrillicInnerClass) <==> IsCyrillicInner(c)
    ensures InClass(c, DomainClass) <==> IsDomainChar(c)
    ensures InClass(c, DotClass) <==> c == '.'
    ensures InClass(c, AtClass) <==> c == '@'
  {
  }

  // ---------------------------------------------------------------------
  // Local part

  /** The shape `[edge]{1}[inner]{1,}[edge]{1}` describes. */
  predicate FramedShape(edge: seq<Range>, inner: seq<Range>, l: string)
  {
    |l| >= 3 && InClass(l[0], edge) && InClass(l[|l| - 1], edge)
    && forall i :: 0 < i < |l| - 1 ==> InClass(l[i], inner)
  }

  lemma FramedSound(edge: seq<Range>, inner: seq<Range>, l: string)
    requires Matches(Framed(edge, inner), l)
    ensures FramedShape(edge, inner, l)
  {
    var e, m := Class(edge), AtLeast(Class(inner), 1);
    var k := CatSplit(Once(e), Cat(m, Once(e)), l);
    OnceMatches(e, l[..k]);
    assert k == 1;
    var u := l[k..];
    var j := CatSplit(m, Once(e), u);
    OnceMatches(e, u[j..]);
    AtLeastClassMatches(inner, 1, u[..j]);
    assert |u[j..]| == 1 && |l| == j + 2;
    assert l[|l| - 1] == u[j..][0];
    forall i | 0 < i < |l| - 1
      ensures InClass(l[i], inner)
    {
      assert l[i] == u[..j][i - 1];
    }
  }

  lemma FramedComplete(edge: seq<Range>, inner: seq<Range>, l: string)
    requires FramedShape(edge, inner, l)
    ensures Matches(Framed(edge, inner), l)
  {
    var e, m := Class(edge), AtLeast(Class(inner), 1);
    var u := l[1..];
    var mid, last := u[..|u| - 1], u[|u| - 1..];
    assert Matches(e, l[..1]) && Matches(e, last);
    OnceMatches(e, l[..1]);
    OnceMatches(e, last);
    forall i | 0 <= i < |mid|
      ensures InClass(mid[i], inner)
    {
      assert mid[i] == l[i + 1];
    }
    AtLeastClassMatches(inner, 1, mid);
    CatMatchesAt(m, Once(e), u, |u| - 1);
    CatMatchesAt(Once(e), Cat(m, Once(e)), l, 1);
  }

  lemma LatinShape(l: string)
    ensures FramedShape(LatinAlnumClass, LatinInnerClass, l) <==> IsLatinLocal(l)
  {
    forall c: char
      ensures InClass(c, LatinAlnumClass) <==> IsLatinAlnum(c)
      ensures InClass(c, LatinInnerClass) <==> IsLatinInner(c)
    {
      ClassesAgree(c);
    }
  }

  lemma CyrillicShape(l: string)
    ensures FramedShape(CyrillicAlnumClass, CyrillicInnerClass, l) <==> IsCyrillicLocal(l)
  {
    forall c: char
      ensures InClass(c, CyrillicAlnumClass) <==> IsCyrillicAlnum(c)
      ensures InClass(c, CyrillicInnerClass) <==> IsCyrillicInner(c)
    {
      ClassesAgree(c);
    }
  }

  /** The local-part alternative matches exactly the local parts `IsLocal`
      accepts: one script or the other, at least three characters. */
  lemma LocalMatches(l: string)
    ensures Matches(LocalRegex, l) <==> IsLocal(l)
  {
    var latin := Framed(LatinAlnumClass, LatinInnerClass);
    var cyrillic := Framed(CyrillicAlnumClass, CyrillicInnerClass);
    LatinShape(l);
    CyrillicShape(l);
    if Matches(latin, l) { FramedSound(LatinAlnumClass, LatinInnerClass, l); }
    if Matches(cyrillic, l) { FramedSound(CyrillicAlnumClass, CyrillicInnerClass, l); }
    if IsLatinLocal(l) { FramedComplete(LatinAlnumClass, LatinInnerClass, l); }
    if IsCyrillicLocal(l) { FramedComplete(CyrillicAlnumClass, CyrillicInnerClass, l); }
    assert Matches(LocalRegex, l) <==> Matches(latin, l) || Matches(cyrillic, l);
  }

  // ---------------------------------------------------------------------
  // Domain

  /** `[-A-Za-z]{n,}` matches the strings of at least `n` domain characters. */
  lemma DomainRunMatches(n: nat, p: string)
    ensures Matches(AtLeast(Class(DomainClass), n), p)
        <==> |p| >= n && forall i :: 0 <= i < |p| ==> IsDomainChar(p[i])
  {
    AtLeastClassMatches(DomainClass, n, p);
    forall c: char
      ensures InClass(c, DomainClass) <==> IsDomainChar(c)
    {
      ClassesAgree(c);
    }
  }

  /** `[-A-Za-z]{1,}\.` matches a label followed by one dot. */
  lemma LabelDotMatches(t: string)
    ensures Matches(LabelDotRegex, t) <==> |t| >= 2 && t[|t| - 1] == '.' && IsLabel(t[..|t| - 1])
  {
    var run := AtLeast(Class(DomainClass), 1);
    if Matches(LabelDotRegex, t) {
      var k := CatSplit(run, Class(DotClass), t);
      DomainRunMatches(1, t[..k]);
      ClassesAgree(t[k]);
      assert k == |t| - 1;
    }
    if |t| >= 2 && t[|t| - 1] == '.' && IsLabel(t[..|t| - 1]) {
      DomainRunMatches(1, t[..|t| - 1]);
      ClassesAgree(t[|t| - 1]);
      assert Matches(Class(DotClass), t[|t| - 1..]);
      CatMatchesAt(run, Class(DotClass), t, |t| - 1);
    }
  }

  /** A match of `[-A-Za-z]{1,}\.` is a label with a dot appended. */
  lemma LabelOf(h: string) returns (p: string)
    requires Matches(LabelDotRegex, h)
    ensures h == p + ['.'] && IsLabel(p)
  {
    LabelDotMatches(h);
    p := h[..|h| - 1];
  }

  /** A match of `[-A-Za-z]{2,}` is a final label. */
  lemma LastLabelOf(f: string)
    requires Matches(LastLabelRegex, f)
    ensures IsLabel(f) && |f| >= 2
  {
    DomainRunMatches(2, f);
  }

  /** One label with its dot, then a final label: a domain. */
  lemma OneLabelDomain(h: string, f: string)
    requires Matches(LabelDotRegex, h) && Matches(LastLabelRegex, f)
    ensures IsDomain(h + f)
  {
    var p1 := LabelOf(h);
    LastLabelOf(f);
    JoinPair(p1, f, '.');
    DomainOfLabels([p1, f]);
  }

  /** Two labels with their dots, then a final label: a domain. */
  lemma TwoLabelDomain(h1: string, h2: string, f: string)
    requires Matches(LabelDotRegex, h1) && Matches(LabelDotRegex, h2)
    requires Matches(LastLabelRegex, f)
    ensures IsDomain((h1 + h2) + f)
  {
    var p1 := LabelOf(h1);
    var p2 := LabelOf(h2);
    LastLabelOf(f);
    JoinThree(p1, p2, f);
    DomainOfLabels([p1, p2, f]);
  }

  /** Every string the domain part of the pattern matches is a domain. */
  lemma DomainRegexSound(d: string)
    requires Matches(DomainRegex, d)
    ensures IsDomain(d)
  {
    var k := CatSplit(LabelsRegex, LastLabelRegex, d);
    var h, f := d[..k], d[k..];
    assert d == h + f;
    var twice, j := OnceOrTwiceSplit(LabelDotRegex, h);
    if !twice {
      OneLabelDomain(h, f);
    } else {
      assert h == h[..j] + h[j..];
      TwoLabelDomain(h[..j], h[j..], f);
    }
  }

  /** The domain part of the pattern matches every domain. */
  lemma DomainRegexComplete(d: string)
    requires IsDomain(d)
    ensures Matches(DomainRegex, d)
  {
    var ps := SplitOn(d, '.');
    var f := ps[|ps| - 1];
    DomainRunMatches(2, f);
    var h1 := ps[0] + ['.'];
    assert h1[..|ps[0]|] == ps[0];
    LabelDotMatches(h1);
    if |ps| == 2 {
      assert ps == [ps[0], f];
      JoinPair(ps[0], f, '.');
      OnceOrTwiceIntro(LabelDotRegex, h1, 0);
      CatMatches(LabelsRegex, LastLabelRegex, h1, f);
    } else {
      assert ps == [ps[0], ps[1], f];
      JoinThree(ps[0], ps[1], f);
      var h2 := ps[1] + ['.'];
      assert h2[..|ps[1]|] == ps[1];
      LabelDotMatches(h2);
      assert (h1 + h2)[..|h1|] == h1 && (h1 + h2)[|h1|..] == h2;
      OnceOrTwiceIntro(LabelDotRegex, h1 + h2, |h1|);
      CatMatches(LabelsRegex, LastLabelRegex, h1 + h2, f);
    }
  }

  /** The domain part of the pattern matches exactly the domains `IsDomain`
      accepts. */
  lemma DomainMatches(d: string)
    ensures Matches(DomainRegex, d) <==> IsDomain(d)
  {
    if Matches(DomainRegex, d) { DomainRegexSound(d); }
    if IsDomain(d) { DomainRegexComplete(d); }
  }

  // ---------------------------------------------------------------------
  // The whole address

  /** What `@` and the domain part match: an `@`, then a domain. */
  lemma AtDomainSound(t: string)
    requires Matches(AtDomainRegex, t)
    ensures |t| >= 1 && t[0] == '@' && IsDomain(t[1..])
  {
    var j := CatSplit(Class(AtClass), DomainRegex, t);
    assert j == 1;
    ClassesAgree(t[0]);
    DomainRegexSound(t[j..]);
  }

  /** A local part before position `k`, `@` at `k` and a domain after it. */
  lemma EmailAt(s: string, k: nat)
    requires k < |s| && s[k] == '@' && IsLocal(s[..k]) && IsDomain(s[k + 1..])
    ensures IsEmail(s)
  {
    assert s == (s[..k] + ['@']) + s[k + 1..];
    EmailOfParts(s[..k], s[k + 1..]);
  }

  /** Every string the pattern matches is accepted by `IsEmail`. */
  lemma EmailRegexSound(s: string)
    requires Matches(EmailRegex, s)
    ensures IsEmail(s)
  {
    var k := CatSplit(LocalRegex, AtDomainRegex, s);
    LocalMatches(s[..k]);
    AtDomainSound(s[k..]);
    assert s[k..][1..] == s[k + 1..];
    EmailAt(s, k);
  }

  /** The pattern matches every string `IsEmail` accepts. */
  lemma EmailRegexComplete(s: string)
    requires IsEmail(s)
    ensures Matches(EmailRegex, s)
  {
    var ps := SplitOn(s, '@');
    var l, d := ps[0], ps[1];
    assert ps == [l, d];
    JoinPair(l, d, '@');
    assert s[..|l|] == l && s[|l|..] == ['@'] + d;
    LocalMatches(l);
    DomainRegexComplete(d);
    ClassesAgree('@');
    assert Matches(Class(AtClass), ['@']);
    CatMatches(Class(AtClass), DomainRegex, ['@'], d);
    CatMatchesAt(LocalRegex, AtDomainRegex, s, |l|);
  }

  /** The structural predicate and the source's regular expression accept
      exactly the same strings. */
  lemma IsEmailMatchesRegex(s: string)
    ensures IsEmail(s) <==> Matches(EmailRegex, s)
  {
    if IsEmail(s) { EmailRegexComplete(s); }
    if Matches(EmailRegex, s) { EmailRegexSound(s); }
  }
}
