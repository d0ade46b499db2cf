/** What GmailMatcher promises across calls: normalisation is idempotent and
    blind to dots, letter case and the choice of Gmail domain, keeps plus tags,
    and the verdict of match does not depend on the order of the addresses.
    The last lemmas pin the values the repository's tests expect. */
module GmailProperties {
  import opened AsciiStrings
  import opened PhpArrays
  import opened GmailMatching

  /** Normalising a normalised address gives it back unchanged. */
  lemma NormalizeIdempotent(m: GmailMatcher, a: string)
    ensures m.Normalize(m.Normalize(a)) == m.Normalize(a)
  {
    var r := m.Normalize(a);
    var local := BeforeFirstAt(r);
    var tail := "@" + m.normalizedDomain;
    assert r == local + tail;
    LowerAppend(local, tail);
    LowerOfLowerCase(local);
    RemoveDotsSpec(local);
    assert Lower(r) == local + Lower(tail);
    BeforeFirstAtAppend(local, Lower(tail));
    assert Lower(tail)[0] == '@';
    assert BeforeFirstAt(Lower(tail)) == [];
    assert BeforeFirstAt(Lower(r)) == local;
  }

  /** A dot inserted anywhere in the local part does not change the normal form. */
  lemma NormalizeIgnoresDot(m: GmailMatcher, u: string, v: string)
    requires '@' !in u
    ensures m.Normalize(u + "." + v) == m.Normalize(u + v)
  {
    var lu, lv := Lower(u), Lower(v);
    LowerKeepsNonLetter(u, '@');
    LowerWithDot(u, v);
    LowerAppend(u, v);
    var tail := BeforeFirstAt(lv);
    BeforeFirstAtWithDot(lu, lv);
    BeforeFirstAtAppend(lu, lv);
    RemoveDotsWithDot(lu, tail);
    RemoveDotsAppend(lu, tail);
  }

  /** Lower-casing keeps an inserted dot where it is. */
  lemma LowerWithDot(u: string, v: string)
    ensures Lower(u + "." + v) == Lower(u) + ("." + Lower(v))
  {
  }

  /** An inserted dot before any '@' stays in the first piece. */
  lemma BeforeFirstAtWithDot(a: string, b: string)
    requires '@' !in a
    ensures BeforeFirstAt(a + ("." + b)) == a + ("." + BeforeFirstAt(b))
  {
    BeforeFirstAtAppend(a, "." + b);
    BeforeFirstAtAppend(".", b);
  }

  /** Deleting dots removes an inserted dot. */
  lemma RemoveDotsWithDot(a: string, b: string)
    ensures RemoveDots(a + ("." + b)) == RemoveDots(a) + RemoveDots(b)
  {
    RemoveDotsAppend(a, "." + b);
    assert ("." + b)[0] == '.' && ("." + b)[1..] == b;
    assert RemoveDots("." + b) == RemoveDots(b);
  }

  /** Addresses that differ only in the case of their letters have the same normal form. */
  lemma NormalizeIgnoresCase(m: GmailMatcher, a: string, b: string)
    requires |a| == |b|
    requires forall i :: 0 <= i < |a| ==> LowerChar(a[i]) == LowerChar(b[i])
    ensures m.Normalize(a) == m.Normalize(b)
  {
    assert Lower(a) == Lower(b);
  }

  /** Whatever follows the first '@' is discarded: in particular gmail.com and
      googlemail.com addresses with the same local part normalise alike. */
  lemma NormalizeIgnoresDomain(m: GmailMatcher, local: string, tail1: string, tail2: string)
    requires |tail1| > 0 && tail1[0] == '@'
    requires |tail2| > 0 && tail2[0] == '@'
    ensures m.Normalize(local + tail1) == m.Normalize(local + tail2)
  {
    LowerAppend(local, tail1);
    LowerAppend(local, tail2);
    BeforeFirstAtAtTail(Lower(local), Lower(tail1));
    BeforeFirstAtAtTail(Lower(local), Lower(tail2));
    assert NormalizedLocalPart(local + tail1) == NormalizedLocalPart(local + tail2);
  }

  /** A string cut at its first '@' loses everything from an '@' on. */
  lemma BeforeFirstAtAtTail(s: string, tail: string)
    requires |tail| > 0 && tail[0] == '@'
    ensures BeforeFirstAt(s + tail) == BeforeFirstAt(s)
  {
    assert s + tail == s + ['@'] + tail[1..];
    BeforeFirstAtStops(s, tail[1..]);
  }

  /** A plus sign, and so a plus tag, in the local part survives normalisation. */
  lemma NormalizeKeepsPlus(m: GmailMatcher, a: string)
    ensures '+' in BeforeFirstAt(a) <==> '+' in BeforeFirstAt(m.Normalize(a))
  {
    var r := m.Normalize(a);
    var local := RemoveDots(BeforeFirstAt(Lower(a)));
    assert BeforeFirstAt(r) == local;
    BeforeFirstAtLower(a);
    LowerKeepsNonLetter(BeforeFirstAt(a), '+');
    RemoveDotsSpec(BeforeFirstAt(Lower(a)));
  }

  /** isGmailAddress reads nothing of the instance: the target domain does not affect it. */
  lemma GmailAddressIgnoresTarget(m: GmailMatcher, g: GmailMatcher, s: string)
    ensures m.IsGmailAddress(s) == g.IsGmailAddress(s)
  {
  }

  /** isGmailAddress never holds for a string without '@', the empty string included. */
  lemma GmailAddressNeedsAt(m: GmailMatcher, s: string)
    requires '@' !in s
    ensures !m.IsGmailAddress(s)
  {
  }

  /** The verdict of match, and whether it fails at all and with which kind of
      error, do not depend on the order in which the addresses are given. */
  lemma MatchPermutation(m: GmailMatcher, xs: seq<string>, ys: seq<string>, isEmail: string -> bool)
    requires multiset(xs) == multiset(ys)
    ensures m.Match(xs, isEmail).Ok? <==> m.Match(ys, isEmail).Ok?
    ensures m.Match(xs, isEmail).Ok? ==> m.Match(xs, isEmail) == m.Match(ys, isEmail)
    ensures m.Match(xs, isEmail) == Err(CountError) <==> m.Match(ys, isEmail) == Err(CountError)
    ensures m.Match(xs, isEmail) == Err(EmptyError) <==> m.Match(ys, isEmail) == Err(EmptyError)
    ensures m.Match(xs, isEmail).Err? && m.Match(xs, isEmail).error.InvalidEmail?
        <==> m.Match(ys, isEmail).Err? && m.Match(ys, isEmail).error.InvalidEmail?
    ensures m.Match(xs, isEmail).Err? && m.Match(xs, isEmail).error.InvalidGmail?
        <==> m.Match(ys, isEmail).Err? && m.Match(ys, isEmail).error.InvalidGmail?
  {
    assert |xs| == |multiset(xs)| == |ys|;
    AllOfPermutation(xs, ys, Truthy);
    AllOfPermutation(xs, ys, isEmail);
    AllOfPermutation(xs, ys, MatchesDomainPattern);
    forall x | x in xs ensures x in ys {
      assert x in multiset(xs);
    }
    forall y | y in ys ensures y in xs {
      assert y in multiset(ys);
    }
    if |xs| >= 2 {
      SameNormalForms(m, xs, ys);
      SameNormalForms(m, ys, xs);
    }
  }

  /** When every address of xs occurs in ys and all of ys normalise alike, so do all of xs. */
  lemma SameNormalForms(m: GmailMatcher, xs: seq<string>, ys: seq<string>)
    requires |xs| > 0 && |ys| > 0
    requires forall x :: x in xs ==> x in ys
    ensures m.AllNormalizeTo(ys, m.Normalize(ys[0])) ==> m.AllNormalizeTo(xs, m.Normalize(xs[0]))
  {
    if m.AllNormalizeTo(ys, m.Normalize(ys[0])) {
      forall i | 0 <= i < |xs| ensures m.Normalize(xs[i]) == m.Normalize(xs[0]) {
        assert xs[i] in ys && xs[0] in ys;
      }
    }
  }

  /** The constructor accepts no argument, gmail.com or googlemail.com, and rejects
      anything else, such as "INVALID" or a differently cased domain. */
  lemma ConstructionExamples()
    ensures ResolveNormalizedDomain(None) == Ok("gmail.com")
    ensures ResolveNormalizedDomain(Some("googlemail.com")) == Ok("googlemail.com")
    ensures ResolveNormalizedDomain(Some("INVALID")) == Err(BadConfig)
    ensures ResolveNormalizedDomain(Some("GMAIL.COM")) == Err(BadConfig)
  {
  }

  /** An address normalises to its lower-cased, dot-free local part at the target
      domain, whatever domain it was written with. */
  lemma NormalizeOfAddress(m: GmailMatcher, local: string, domain: string)
    requires '@' !in local
    ensures m.Normalize(local + "@" + domain) == RemoveDots(Lower(local)) + "@" + m.normalizedDomain
  {
    BeforeFirstAtLower(local + "@" + domain);
    assert local + "@" + domain == local + ['@'] + domain;
    BeforeFirstAtStops(local, domain);
    assert BeforeFirstAt(local) == local by {
      BeforeFirstAtAppend(local, []);
      assert local + [] == local;
    }
  }

  /** An address ending in @gmail.com or @googlemail.com, in any letter case, is a Gmail address. */
  lemma GmailAddressAt(m: GmailMatcher, local: string, tail: string)
    requires Lower(tail) == "@gmail.com" || Lower(tail) == "@googlemail.com"
    ensures m.IsGmailAddress(local + tail)
  {
    var s := local + tail;
    LowerAppend(local, tail);
    assert Lower(s)[|local|..] == Lower(tail);
    assert s[|local|..] == tail;
    EndsWithNoNewline(s, tail);
    GmailAddressBySuffix(m, s, Lower(tail));
  }

  /** The suffix characterisation of isGmailAddress, read from left to right. */
  lemma GmailAddressBySuffix(m: GmailMatcher, s: string, pattern: string)
    requires pattern == "@gmail.com" || pattern == "@googlemail.com"
    requires !EndsWith(s, "\n") && EndsWith(Lower(s), pattern)
    ensures m.IsGmailAddress(s)
  {
  }

  /** A string that ends with a word whose last character is a letter does not end with a newline. */
  lemma EndsWithNoNewline(s: string, word: string)
    requires EndsWith(s, word) && |word| > 0 && IsLetter(Lower(word)[|word| - 1])
    ensures !EndsWith(s, "\n")
  {
  }

  /** match of two addresses that pass validation answers whether they have the same normal form. */
  lemma MatchTwo(m: GmailMatcher, a: string, b: string, isEmail: string -> bool)
    requires Truthy(a) && isEmail(a) && m.IsGmailAddress(a)
    requires Truthy(b) && isEmail(b) && m.IsGmailAddress(b)
    ensures m.Match([a, b], isEmail) == Ok(m.Normalize(a) == m.Normalize(b))
  {
    var emails := [a, b];
    ValidateTwo(m, a, b, isEmail);
    assert m.AllNormalizeTo(emails, m.Normalize(a)) <==> m.Normalize(b) == m.Normalize(a) by {
      assert emails[0] == a && emails[1] == b;
    }
  }

  /** Two truthy, well-formed Gmail addresses pass validation. */
  lemma ValidateTwo(m: GmailMatcher, a: string, b: string, isEmail: string -> bool)
    requires Truthy(a) && isEmail(a) && m.IsGmailAddress(a)
    requires Truthy(b) && isEmail(b) && m.IsGmailAddress(b)
    ensures m.Validate([a, b], isEmail) == Pass
  {
    var emails := [a, b];
    assert AllOf(emails, Truthy) && AllOf(emails, isEmail);
    assert AllOf(emails, MatchesDomainPattern) by {
      assert MatchesDomainPattern(a) && MatchesDomainPattern(b);
    }
  }

  /** The same local part at gmail.com and at googlemail.com is one mailbox. */
  lemma MatchAcrossDomains(m: GmailMatcher, local: string, isEmail: string -> bool)
    requires '@' !in local
    requires isEmail(local + "@gmail.com") && isEmail(local + "@googlemail.com")
    ensures m.Match([local + "@gmail.com", local + "@googlemail.com"], isEmail) == Ok(true)
  {
    GmailAt(m, local);
    GoogleMailAt(m, local);
    NormalizeIgnoresDomain(m, local, "@gmail.com", "@googlemail.com");
    MatchTwo(m, local + "@gmail.com", local + "@googlemail.com", isEmail);
  }

  /** Any local part at gmail.com is a Gmail address and a truthy string. */
  lemma GmailAt(m: GmailMatcher, local: string)
    ensures m.IsGmailAddress(local + "@gmail.com")
    ensures Truthy(local + "@gmail.com")
  {
    assert Lower("@gmail.com") == "@gmail.com";
    GmailAddressAt(m, local, "@gmail.com");
  }

  /** Any local part at googlemail.com is a Gmail address and a truthy string. */
  lemma GoogleMailAt(m: GmailMatcher, local: string)
    ensures m.IsGmailAddress(local + "@googlemail.com")
    ensures Truthy(local + "@googlemail.com")
  {
    assert Lower("@googlemail.com") == "@googlemail.com";
    GmailAddressAt(m, local, "@googlemail.com");
  }

  /** A plus tag makes a different mailbox: local+tag and local do not match. */
  lemma MatchPlusTag(m: GmailMatcher, local: string, tag: string, isEmail: string -> bool)
    requires '@' !in local && '+' !in local && '@' !in tag
    requires isEmail(local + "+" + tag + "@gmail.com") && isEmail(local + "@gmail.com")
    ensures m.Match([local + "+" + tag + "@gmail.com", local + "@gmail.com"], isEmail) == Ok(false)
  {
    var tagged := local + "+" + tag;
    var a, b := tagged + "@gmail.com", local + "@gmail.com";
    GmailAt(m, tagged);
    GmailAt(m, local);
    LocalPartAtGmail(tagged);
    LocalPartAtGmail(local);
    NormalizeKeepsPlus(m, a);
    NormalizeKeepsPlus(m, b);
    assert '+' in tagged;
    MatchTwo(m, a, b, isEmail);
  }

  /** A local part without '@' is the first piece of local@gmail.com. */
  lemma LocalPartAtGmail(local: string)
    requires '@' !in local
    ensures BeforeFirstAt(local + "@gmail.com") == local
  {
    BeforeFirstAtAppend(local, "@gmail.com");
    assert BeforeFirstAt("@gmail.com") == [];
  }

  /** An address repeated, that fails the syntax filter, is reported as invalid. */
  lemma MatchRepeatedInvalid(m: GmailMatcher, a: string, isEmail: string -> bool)
    requires Truthy(a) && !isEmail(a)
    ensures m.Match([a, a], isEmail) == Err(InvalidEmail(a))
  {
  }

  /** An address repeated, that passes the syntax filter but is not at Gmail, is reported as not Gmail. */
  lemma MatchRepeatedNotGmail(m: GmailMatcher, a: string, isEmail: string -> bool)
    requires Truthy(a) && isEmail(a) && !m.IsGmailAddress(a)
    ensures m.Match([a, a], isEmail) == Err(InvalidGmail(a))
  {
  }

  /** The count guard rejects exactly one address, so the empty list is validated
      and answers false, and a single empty address is a count error. A falsy
      address anywhere among two or more is an empty-address error, "0" included. */
  lemma MatchEdgeCases(m: GmailMatcher, a: string, isEmail: string -> bool)
    ensures m.Match([], isEmail) == Ok(false)
    ensures m.Match([a], isEmail) == Err(CountError)
    ensures m.Match(["", a], isEmail) == Err(EmptyError)
    ensures m.Match([a, "0"], isEmail) == Err(EmptyError)
  {
    assert !Truthy([a, "0"][1]);
  }

  /** The normalisations the repository's tests expect, with each address
      written as local part, '@' and domain. */
  lemma NormalizeTestValues(m: GmailMatcher, g: GmailMatcher)
    requires m.normalizedDomain == "gmail.com" && g.normalizedDomain == "googlemail.com"
    ensures m.Normalize("f.o.o" + "@" + "gmail.com") == "foo" + "@" + "gmail.com"
    ensures m.Normalize("FOO" + "@" + "GMAIL.COM") == "foo" + "@" + "gmail.com"
    ensures m.Normalize("foo" + "@" + "googlemail.com") == "foo" + "@" + "gmail.com"
    ensures g.Normalize("foo" + "@" + "googlemail.com") == "foo" + "@" + "googlemail.com"
  {
    NormalizeDotted(m);
    assert Lower("FOO") == "foo" && Lower("foo") == "foo";
    NormalizeToFoo(m, "FOO", "GMAIL.COM");
    NormalizeToFoo(m, "foo", "googlemail.com");
    NormalizeToFoo(g, "foo", "googlemail.com");
  }

  /** f.o.o@gmail.com normalises to foo at the target domain. */
  lemma NormalizeDotted(m: GmailMatcher)
    ensures m.Normalize("f.o.o" + "@" + "gmail.com") == "foo" + "@" + m.normalizedDomain
  {
    NormalizeOfAddress(m, "f.o.o", "gmail.com");
    DottedLocalPart();
  }

  /** f.o.o lower-cased without dots is foo. */
  lemma DottedLocalPart()
    ensures RemoveDots(Lower("f.o.o")) == "foo"
  {
  }

  /** An address whose local part lower-cases to foo normalises to foo at the
      target domain, whatever its domain. */
  lemma NormalizeToFoo(m: GmailMatcher, local: string, domain: string)
    requires Lower(local) == "foo"
    ensures m.Normalize(local + "@" + domain) == "foo" + "@" + m.normalizedDomain
  {
    LowerKeepsNonLetter(local, '@');
    NormalizeOfAddress(m, local, domain);
    RemoveDotsSpec("foo");
  }

  /** isGmailAddress on an upper-case googlemail address, a non-Gmail address,
      the empty string, and a gmail.com address with a trailing newline, which
      PCRE's `$` lets through. */
  lemma IsGmailAddressTestValues(m: GmailMatcher)
    ensures m.IsGmailAddress("FOO" + "@GOOGLEMAIL.COM")
    ensures !m.IsGmailAddress("foo" + "@bar.com")
    ensures !m.IsGmailAddress("")
    ensures m.IsGmailAddress("foo" + "@gmail.com\n")
  {
    GmailAddressUpperCase(m, "FOO");
    NotGmailAddress(m);
    GmailAddressNewline(m, "foo");
  }

  /** An upper-case @GOOGLEMAIL.COM ending is accepted. */
  lemma GmailAddressUpperCase(m: GmailMatcher, local: string)
    ensures m.IsGmailAddress(local + "@GOOGLEMAIL.COM")
  {
    assert Lower("@GOOGLEMAIL.COM") == "@googlemail.com";
    GmailAddressAt(m, local, "@GOOGLEMAIL.COM");
  }

  /** foo@bar.com is not a Gmail address. */
  lemma NotGmailAddress(m: GmailMatcher)
    ensures !m.IsGmailAddress("foo" + "@bar.com")
  {
    var s := "foo" + "@bar.com";
    assert |s| == 11 && s[1] == 'o' && s[10] == 'm';
    assert !EndsWith(s, "\n");
    assert Lower(s)[1] == 'o';
    assert !EndsWith(Lower(s), "@gmail.com") by {
      assert Lower(s)[11 - 10..][0] == Lower(s)[1];
    }
  }

  /** A gmail.com address with a trailing newline is accepted. */
  lemma GmailAddressNewline(m: GmailMatcher, local: string)
    ensures m.IsGmailAddress(local + "@gmail.com\n")
  {
    var s := local + "@gmail.com";
    GmailAt(m, local);
    assert s[|s| - 1] == 'm';
    GmailAddressWithNewline(m, s);
    assert s + "\n" == local + "@gmail.com\n";
  }

  /** PCRE's `$` also matches before a final newline, and only before one: for
      a string that does not itself end in a newline, appending one newline
      neither gains nor loses acceptance. */
  lemma GmailAddressWithNewline(m: GmailMatcher, s: string)
    requires !EndsWith(s, "\n")
    ensures m.IsGmailAddress(s + "\n") <==> m.IsGmailAddress(s)
  {
    assert (s + "\n")[..|s|] == s;
  }

  /** The match verdicts the repository's tests expect, for an email syntax
      filter that accepts the well-formed addresses. */
  lemma MatchTestVerdicts(m: GmailMatcher, isEmail: string -> bool)
    requires isEmail("foo@gmail.com") && isEmail("foo@googlemail.com") && isEmail("bar@gmail.com")
    ensures m.Match(["foo@gmail.com", "foo@googlemail.com"], isEmail) == Ok(true)
    ensures m.Match(["foo@gmail.com", "bar@gmail.com"], isEmail) == Ok(false)
  {
    assert "foo" + "@gmail.com" == "foo@gmail.com";
    assert "foo" + "@googlemail.com" == "foo@googlemail.com";
    MatchAcrossDomains(m, "foo", isEmail);
    MatchFooBar(m, isEmail);
  }

  /** foo@gmail.com and bar@gmail.com are different mailboxes. */
  lemma MatchFooBar(m: GmailMatcher, isEmail: string -> bool)
    requires isEmail("foo@gmail.com") && isEmail("bar@gmail.com")
    ensures m.Match(["foo@gmail.com", "bar@gmail.com"], isEmail) == Ok(false)
  {
    assert "foo" + "@gmail.com" == "foo@gmail.com";
    assert "bar" + "@gmail.com" == "bar@gmail.com";
    FooBarDiffer();
    MatchDifferentLocalParts(m, "foo", "bar", isEmail);
  }

  /** foo and bar stay different after lower-casing and dot removal. */
  lemma FooBarDiffer()
    ensures RemoveDots(Lower("foo")) != RemoveDots(Lower("bar"))
  {
    assert Lower("foo") == "foo" && Lower("bar") == "bar";
    RemoveDotsSpec("foo");
    RemoveDotsSpec("bar");
  }

  /** The count and emptiness errors the repository's tests expect. */
  lemma MatchTestErrors(m: GmailMatcher, isEmail: string -> bool)
    ensures m.Match(["foo@gmail.com"], isEmail) == Err(CountError)
    ensures m.Match(["", ""], isEmail) == Err(EmptyError)
  {
  }

  /** The invalid-email error the repository's tests expect, for an email
      syntax filter that rejects "INVALID". */
  lemma MatchTestInvalidEmail(m: GmailMatcher, isEmail: string -> bool)
    requires !isEmail("INVALID")
    ensures m.Match(["INVALID", "INVALID"], isEmail) == Err(InvalidEmail("INVALID"))
  {
    MatchRepeatedInvalid(m, "INVALID", isEmail);
  }

  /** The invalid-Gmail error the repository's tests expect, for an email
      syntax filter that accepts "foo@bar.com". */
  lemma MatchTestInvalidGmail(m: GmailMatcher, isEmail: string -> bool)
    requires isEmail("foo@bar.com")
    ensures m.Match(["foo@bar.com", "foo@bar.com"], isEmail) == Err(InvalidGmail("foo@bar.com"))
  {
    var a := "foo" + "@bar.com";
    NotGmailAddress(m);
    assert a == "foo@bar.com";
    MatchRepeatedNotGmail(m, a, isEmail);
  }

  /** Two Gmail addresses whose local parts normalise differently do not match. */
  lemma MatchDifferentLocalParts(m: GmailMatcher, u: string, v: string, isEmail: string -> bool)
    requires '@' !in u && '@' !in v
    requires RemoveDots(Lower(u)) != RemoveDots(Lower(v))
    requires isEmail(u + "@gmail.com") && isEmail(v + "@gmail.com")
    ensures m.Match([u + "@gmail.com", v + "@gmail.com"], isEmail) == Ok(false)
  {
    var a, b := u + "@gmail.com", v + "@gmail.com";
    GmailAt(m, u);
    GmailAt(m, v);
    LocalPartOfNormalForm(m, u);
    LocalPartOfNormalForm(m, v);
    assert m.Normalize(a) != m.Normalize(b);
    MatchTwo(m, a, b, isEmail);
  }

  /** The local part of a Gmail address's normal form is its local part lower-cased without dots. */
  lemma LocalPartOfNormalForm(m: GmailMatcher, u: string)
    requires '@' !in u
    ensures BeforeFirstAt(m.Normalize(u + "@gmail.com")) == RemoveDots(Lower(u))
  {
    var local := RemoveDots(Lower(u));
    assert u + "@gmail.com" == u + "@" + "gmail.com";
    NormalizeOfAddress(m, u, "gmail.com");
    LowerKeepsNonLetter(u, '@');
    RemoveDotsSpec(Lower(u));
    assert local + "@" + m.normalizedDomain == local + ("@" + m.normalizedDomain);
    BeforeFirstAtAppend(local, "@" + m.normalizedDomain);
  }
}
