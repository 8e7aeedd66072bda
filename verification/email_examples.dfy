/** Concrete addresses the e-mail check of src/App.js line 5 accepts and
    rejects, and the general facts behind them. */
module EmailExamples {
  import opened Split
  import opened Email

  /** An address written as a local part, `@`, and dot-separated pieces is
      accepted exactly when the local part is valid and the pieces form a
      domain. */
  lemma AddressOfPieces(s: string, l: string, ps: seq<string>)
    requires |ps| > 0 && '@' !in l
    requires forall i :: 0 <= i < |ps| ==> '@' !in ps[i] && '.' !in ps[i]
    requires s == (l + ['@']) + Join(ps, '.')
    ensures IsEmail(s)
        <==> IsLocal(l) && 2 <= |ps| <= 3 && (forall i :: 0 <= i < |ps| ==> IsLabel(ps[i]))
             && |ps[|ps| - 1]| >= 2
  {
    JoinChars(ps, '.');
    assert '@' !in Join(ps, '.');
    PartsOfEmail(l, Join(ps, '.'));
    LabelsDomain(ps);
  }

  /** A valid local part and two or three labels, the last at least two
      long, make an accepted address. */
  lemma AcceptAddress(s: string, l: string, ps: seq<string>)
    requires IsLocal(l)
    requires 2 <= |ps| <= 3 && (forall i :: 0 <= i < |ps| ==> IsLabel(ps[i])) && |ps[|ps| - 1]| >= 2
    requires s == (l + ['@']) + Join(ps, '.')
    ensures IsEmail(s)
  {
    DomainOfLabels(ps);
    EmailOfParts(l, Join(ps, '.'));
  }

  // Each example takes the address as a parameter fixed by its requires,
  // so that the verifier works from the decomposition given in the body
  // rather than by evaluating the predicates on a long literal.

  /** A three-character local part with a dot in the middle is enough. */
  lemma AcceptsDottedLocal(s: string)
    requires s == "a.b@example.com"
    ensures IsEmail(s)
  {
    JoinPair("example", "com", '.');
    assert ("example" + ['.']) + "com" == "example.com";
    assert ("a.b" + ['@']) + "example.com" == s;
    AcceptAddress(s, "a.b", ["example", "com"]);
  }

  /** The range `A-z` of the inner class admits `_`. */
  lemma AcceptsUnderscore(s: string)
    requires s == "a_b@example.com"
    ensures IsEmail(s)
  {
    JoinPair("example", "com", '.');
    assert ("example" + ['.']) + "com" == "example.com";
    assert ("a_b" + ['@']) + "example.com" == s;
    AcceptAddress(s, "a_b", ["example", "com"]);
  }

  /** Two labels before the final one. */
  lemma AcceptsSubdomain(s: string)
    requires s == "user@sub.example.com"
    ensures IsEmail(s)
  {
    JoinPair("example", "com", '.');
    assert ["sub", "example", "com"][1..] == ["example", "com"];
    assert ("sub" + ['.']) + (("example" + ['.']) + "com") == "sub.example.com";
    assert ("user" + ['@']) + "sub.example.com" == s;
    AcceptAddress(s, "user", ["sub", "example", "com"]);
  }

  /** A Cyrillic local part with a Latin domain. */
  lemma AcceptsCyrillicLocal(s: string)
    requires s == "имя.я@pochta.ru"
    ensures IsEmail(s)
  {
    JoinPair("pochta", "ru", '.');
    assert ("pochta" + ['.']) + "ru" == "pochta.ru";
    assert ("имя.я" + ['@']) + "pochta.ru" == s;
    AcceptAddress(s, "имя.я", ["pochta", "ru"]);
  }

  /** A local part of two characters is too short. */
  lemma RejectsShortLocal(s: string)
    requires s == "ab@example.com"
    ensures !IsEmail(s)
  {
    JoinPair("example", "com", '.');
    assert ("example" + ['.']) + "com" == "example.com";
    assert ("ab" + ['@']) + "example.com" == s;
    AddressOfPieces(s, "ab", ["example", "com"]);
  }

  /** A domain without a dot. */
  lemma RejectsSingleLabel(s: string)
    requires s == "user@example"
    ensures !IsEmail(s)
  {
    assert ("user" + ['@']) + "example" == s;
    AddressOfPieces(s, "user", ["example"]);
  }

  /** An empty label before the dot. */
  lemma RejectsEmptyLabel(s: string)
    requires s == "user@.com"
    ensures !IsEmail(s)
  {
    JoinPair("", "com", '.');
    assert ("" + ['.']) + "com" == ".com";
    assert ("user" + ['@']) + ".com" == s;
    AddressOfPieces(s, "user", ["", "com"]);
  }

  /** Domain labels hold no digits. */
  lemma RejectsDigitInDomain(s: string)
    requires s == "user@mail1.com"
    ensures !IsEmail(s)
  {
    JoinPair("mail1", "com", '.');
    assert ("mail1" + ['.']) + "com" == "mail1.com";
    assert ("user" + ['@']) + "mail1.com" == s;
    assert !IsDomainChar("mail1"[4]);
    AddressOfPieces(s, "user", ["mail1", "com"]);
  }

  /** At most two labels before the final one. */
  lemma RejectsThreeSubdomains(s: string)
    requires s == "user@a.b.c.com"
    ensures !IsEmail(s)
  {
    JoinPair("c", "com", '.');
    assert ["b", "c", "com"][1..] == ["c", "com"];
    assert ["a", "b", "c", "com"][1..] == ["b", "c", "com"];
    assert ("a" + ['.']) + (("b" + ['.']) + (("c" + ['.']) + "com")) == "a.b.c.com";
    assert ("user" + ['@']) + "a.b.c.com" == s;
    AddressOfPieces(s, "user", ["a", "b", "c", "com"]);
  }

  /** A Cyrillic domain is rejected even with a Cyrillic local part. */
  lemma RejectsCyrillicDomain(s: string)
    requires s == "имя.я@почта.рф"
    ensures !IsEmail(s)
  {
    var l, d := "имя.я", "почта.рф";
    assert (l + ['@']) + d == s;
    assert '@' !in l && '@' !in d;
    PartsOfEmail(l, d);
    CyrillicDomainRejected(d, 0);
  }

  /** A Latin first character and a Cyrillic last one: the scripts are not mixed. */
  lemma RejectsMixedScripts(s: string)
    requires s == "aбв@example.com"
    ensures !IsEmail(s)
  {
    var l, d := "aбв", "example.com";
    assert (l + ['@']) + d == s;
    assert '@' !in l && '@' !in d;
    PartsOfEmail(l, d);
    MixedEndsRejected(l);
  }

  /** Ё/ё lie outside `А-Я` and `а-я`. */
  lemma RejectsYo(s: string)
    requires s == "ёжик@mail.ru"
    ensures !IsEmail(s)
  {
    var l, d := "ёжик", "mail.ru";
    assert (l + ['@']) + d == s;
    assert '@' !in l && '@' !in d;
    PartsOfEmail(l, d);
    assert !IsLatinAlnum(l[0]) && !IsCyrillicAlnum(l[0]);
  }

  /** A Cyrillic letter inside a Latin-framed local part is rejected too. */
  lemma RejectsCyrillicInside(s: string)
    requires s == "aбc@example.com"
    ensures !IsEmail(s)
  {
    var l, d := "aбc", "example.com";
    assert (l + ['@']) + d == s;
    assert '@' !in l && '@' !in d;
    PartsOfEmail(l, d);
    if IsLocal(l) {
      NoMixedScripts(l, 0, 1);
    }
  }
}
