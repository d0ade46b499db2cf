/** GmailMatcher: decides whether email addresses denote the same Gmail mailbox.
    An instance fixes, once and for all at construction, the domain that
    normalisation rewrites every address to. */
module GmailMatching {
  import opened AsciiStrings
  import opened PhpArrays

  datatype Option<T> = None | Some(value: T)

  /** The exceptions the class throws, by kind; InvalidEmail and InvalidGmail
      carry the address that the message names. */
  datatype Error =
    | BadConfig                       // constructor given a domain outside the accepted pair
    | CountError                      // match given exactly one address
    | EmptyError                      // some address is falsy
    | InvalidEmail(address: string)   // some address fails the email syntax filter
    | InvalidGmail(address: string)   // some address is not at an accepted Gmail domain

  datatype Result<T> = Ok(value: T) | Err(error: Error)

  datatype Outcome = Pass | Fail(error: Error)

  /** The accepted domains; the first one is the default normalisation target. */
  const ValidNormalizedDomains: seq<string> := ["gmail.com", "googlemail.com"]

  /** The constructor together with setNormalizedDomain: no argument gives the
      default domain, an argument is accepted only when it is, character for
      character, one of the two accepted domains. */
  function ResolveNormalizedDomain(domain: Option<string>): (r: Result<string>)
    ensures r.Ok? <==> domain.None? || domain.value == "gmail.com" || domain.value == "googlemail.com"
    ensures r.Ok? && domain.None? ==> r.value == "gmail.com"
    ensures r.Ok? && domain.Some? ==> r.value == domain.value
    ensures r.Err? ==> r.error == BadConfig
  {
    match domain
    case None => Ok(ValidNormalizedDomains[0])
    case Some(d) => if d in ValidNormalizedDomains then Ok(d) else Err(BadConfig)
  }

  /** s ends with the lower-case pattern, letters of s compared the way the /i
      flag compares ASCII letters (the accepted domains are lower case). */
  predicate EndsWithIgnoringCase(s: string, pattern: string) {
    |pattern| <= |s| && Lower(s[|s| - |pattern|..]) == pattern
  }

  /** '@' followed by one of the accepted domains at the very end of s. */
  predicate EndsWithAcceptedDomain(s: string) {
    exists d :: d in ValidNormalizedDomains && EndsWithIgnoringCase(s, "@" + d)
  }

  /** preg_match of the pattern built by normalizedDomainsRegexString,
      '/@(gmail\.com|googlemail\.com)$/i'. Without the D modifier PCRE's `$`
      matches at the end of the subject and also just before a newline that is
      its last character. */
  predicate MatchesDomainPattern(s: string): (r: bool)
    ensures r <==> EndsWith(Lower(s), "@gmail.com") || EndsWith(Lower(s), "@googlemail.com")
                   || (|s| > 0 && s[|s| - 1] == '\n' &&
                       (EndsWith(Lower(s[..|s| - 1]), "@gmail.com") || EndsWith(Lower(s[..|s| - 1]), "@googlemail.com")))
  {
    AcceptedDomainIsSuffix(s);
    if |s| > 0 then
      AcceptedDomainIsSuffix(s[..|s| - 1]);
      EndsWithAcceptedDomain(s) || (s[|s| - 1] == '\n' && EndsWithAcceptedDomain(s[..|s| - 1]))
    else EndsWithAcceptedDomain(s)
  }

  /** The local part as normalize rewrites it: the address lower-cased, cut at
      its first '@', every dot removed. It has no dot, no '@' and no upper-case letter. */
  function NormalizedLocalPart(email: string): (r: string)
    ensures '.' !in r && '@' !in r && IsLowerCase(r)
  {
    var first := BeforeFirstAt(Lower(email));
    assert IsLowerCase(first) by {
      forall i | 0 <= i < |first| ensures !IsUpper(first[i]) {
        assert first[i] == Lower(email)[i];
      }
    }
    RemoveDotsLowerCase(first);
    RemoveDotsSpec(first);
    RemoveDots(first)
  }

  /** filter_var_array($emails, FILTER_VALIDATE_EMAIL): an address that passes
      the syntax filter comes back unchanged, one that fails becomes false (None). */
  function FilterVarArray(emails: seq<string>, isEmail: string -> bool): (r: seq<Option<string>>)
    ensures |r| == |emails|
    ensures forall i :: 0 <= i < |r| ==> (r[i] == Some(emails[i]) <==> isEmail(emails[i]))
    ensures forall i :: 0 <= i < |r| ==> (r[i] == None <==> !isEmail(emails[i]))
  {
    seq(|emails|, i requires 0 <= i < |emails| => if isEmail(emails[i]) then Some(emails[i]) else None)
  }

  /** The values of a filter_var_array result as array_diff compares them: false becomes "". */
  function AsStrings(vs: seq<Option<string>>): (r: seq<string>)
    ensures |r| == |vs|
    ensures forall i :: 0 <= i < |vs| && vs[i].Some? ==> r[i] == vs[i].value
    ensures forall i :: 0 <= i < |vs| && vs[i].None? ==> r[i] == ""
  {
    seq(|vs|, i requires 0 <= i < |vs| => if vs[i].Some? then vs[i].value else "")
  }

  /** $validatedEmails === $emails: nothing was rejected, and cast back the
      filtered values are the input. */
  predicate SameAsInput(vs: seq<Option<string>>, emails: seq<string>): (r: bool)
    ensures r ==> None !in vs
    ensures r ==> AsStrings(vs) == emails
  {
    |vs| == |emails| && forall i :: 0 <= i < |vs| ==> vs[i] == Some(emails[i])
  }

  /** The filtered list is identical to the input exactly when every address passes. */
  lemma FilterVarArraySame(emails: seq<string>, isEmail: string -> bool)
    ensures SameAsInput(FilterVarArray(emails, isEmail), emails) <==> AllOf(emails, isEmail)
  {
  }

  /** Once no address is falsy, an address's value occurs among the cast results
      exactly when it passes the syntax filter: a failing address became false,
      which casts to "", and no address is "". */
  lemma FilterVarArrayValues(emails: seq<string>, isEmail: string -> bool)
    requires AllOf(emails, Truthy)
    ensures forall x :: x in emails ==> (x in AsStrings(FilterVarArray(emails, isEmail)) <==> isEmail(x))
  {
    var cast := AsStrings(FilterVarArray(emails, isEmail));
    forall x | x in emails ensures x in cast <==> isEmail(x) {
      var i :| 0 <= i < |emails| && emails[i] == x;
      assert Truthy(emails[i]);
      if isEmail(x) {
        assert cast[i] == x;
      }
      if x in cast {
        var j :| 0 <= j < |cast| && cast[j] == x;
        assert x != "";
      }
    }
  }

  class GmailMatcher {
    /** The domain normalize() appends; fixed at construction. */
    const normalizedDomain: string

    /** The constructor for an already accepted domain; Create is the entry
        point that models the failing case. */
    constructor (domain: string)
      requires domain in ValidNormalizedDomains
      ensures normalizedDomain == domain
    {
      normalizedDomain := domain;
    }

    /** new GmailMatcher($normalizedDomain): either a fresh instance whose target
        domain is the resolved one, or BadConfig and no instance at all. */
    static method Create(domain: Option<string>) returns (r: Result<GmailMatcher>)
      ensures r.Ok? <==> ResolveNormalizedDomain(domain).Ok?
      ensures r.Ok? ==> fresh(r.value) && r.value.normalizedDomain == ResolveNormalizedDomain(domain).value
      ensures r.Ok? ==> r.value.normalizedDomain in ValidNormalizedDomains
      ensures r.Err? ==> r.error == BadConfig
    {
      match ResolveNormalizedDomain(domain)
      case Ok(d) =>
        var m := new GmailMatcher(d);
        r := Ok(m);
      case Err(e) =>
        r := Err(e);
    }

    /** isGmailAddress: a case-insensitive test for an accepted Gmail domain at
        the end of the address, independent of the target domain. */
    function IsGmailAddress(email: string): (r: bool)
      ensures r ==> '@' in email
      ensures !EndsWith(email, "\n") ==>
                (r <==> EndsWith(Lower(email), "@gmail.com") || EndsWith(Lower(email), "@googlemail.com"))
      ensures EndsWith(email, "\n") ==>
                (r <==> EndsWith(Lower(email[..|email| - 1]), "@gmail.com")
                        || EndsWith(Lower(email[..|email| - 1]), "@googlemail.com"))
    {
      AcceptedDomainNeedsAt(email);
      AcceptedDomainIsSuffix(email);
      if |email| > 0 then
        var init := email[..|email| - 1];
        AcceptedDomainNeedsAt(init);
        assert '@' in init ==> '@' in email;
        assert Lower(email)[|email| - 1] == LowerChar(email[|email| - 1]);
        MatchesDomainPattern(email)
      else MatchesDomainPattern(email)
    }

    /** validate: the emptiness check, then the syntax check, then the Gmail
        domain check, each stopping at its first failure and naming the first
        offending address in input order. */
    function Validate(emails: seq<string>, isEmail: string -> bool): (r: Outcome)
      ensures r == Fail(EmptyError) <==> !AllOf(emails, Truthy)
      ensures (r.Fail? && r.error.InvalidEmail?) <==> AllOf(emails, Truthy) && !AllOf(emails, isEmail)
      ensures (r.Fail? && r.error.InvalidGmail?) <==>
                AllOf(emails, Truthy) && AllOf(emails, isEmail) && !AllOf(emails, MatchesDomainPattern)
      ensures r == Pass <==>
                AllOf(emails, Truthy) && AllOf(emails, isEmail) && AllOf(emails, MatchesDomainPattern)
      ensures r.Fail? && r.error.InvalidEmail? ==> IsFirstOffender(emails, isEmail, r.error.address)
      ensures r.Fail? && r.error.InvalidGmail? ==> IsFirstOffender(emails, MatchesDomainPattern, r.error.address)
    {
      if Filter(Truthy, emails) != emails then Fail(EmptyError)
      else
        var validated := FilterVarArray(emails, isEmail);
        FilterVarArraySame(emails, isEmail);
        if !SameAsInput(validated, emails) then
          var cast := AsStrings(validated);
          FilterVarArrayValues(emails, isEmail);
          DiffHead(emails, cast, isEmail);
          Fail(InvalidEmail(Diff(emails, cast)[0]))
        else
          var matches := Filter(MatchesDomainPattern, emails);
          if matches != emails then
            DiffHead(emails, matches, MatchesDomainPattern);
            Fail(InvalidGmail(Diff(emails, matches)[0]))
          else Pass
    }

    /** normalize: the address lower-cased, cut at its first '@', with every dot
        removed, then '@' and the target domain. The result splits at its first
        '@' into a lower-case, dot-free local part and the target domain. */
    function Normalize(email: string): (r: string)
      ensures r == BeforeFirstAt(r) + "@" + normalizedDomain
      ensures BeforeFirstAt(r) == NormalizedLocalPart(email)
      ensures '.' !in BeforeFirstAt(r) && IsLowerCase(BeforeFirstAt(r))
    {
      var local := NormalizedLocalPart(email);
      BeforeFirstAtAppend(local, "@" + normalizedDomain);
      assert local + "@" + normalizedDomain == local + ("@" + normalizedDomain);
      local + "@" + normalizedDomain
    }

    /** match: exactly one address is a count error, checked first; then the
        addresses are validated; then the verdict is whether their normalised
        forms collapse to a single value. */
    function Match(emails: seq<string>, isEmail: string -> bool): (r: Result<bool>)
      ensures |emails| == 1 ==> r == Err(CountError)
      ensures |emails| != 1 ==> (r.Ok? <==> Validate(emails, isEmail) == Pass)
      ensures |emails| != 1 && r.Err? ==> Validate(emails, isEmail) == Fail(r.error)
      ensures r.Ok? ==> (r.value <==> (|emails| >= 2 && AllNormalizeTo(emails, Normalize(emails[0]))))
    {
      if |emails| == 1 then Err(CountError)
      else
        var outcome := Validate(emails, isEmail);
        if outcome.Fail? then Err(outcome.error)
        else
          var normalized := NormalizeAll(emails);
          NormalizedSingleton(emails);
          Ok(|Unique(normalized)| == 1)
    }

    /** array_map([$this, 'normalize'], $emails) */
    function NormalizeAll(emails: seq<string>): (r: seq<string>)
      ensures |r| == |emails|
      ensures forall i :: 0 <= i < |r| ==> r[i] == NormalizedLocalPart(emails[i]) + "@" + normalizedDomain
    {
      seq(|emails|, i requires 0 <= i < |emails| => Normalize(emails[i]))
    }

    /** array_unique of the normalised list keeps a single value iff the list is
        non-empty and every address normalises like the first. */
    lemma NormalizedSingleton(emails: seq<string>)
      ensures |Unique(NormalizeAll(emails))| == 1 <==> (|emails| > 0 && AllNormalizeTo(emails, Normalize(emails[0])))
    {
      var normalized := NormalizeAll(emails);
      UniqueSingleton(normalized);
      if |emails| > 0 {
        var first := normalized[0];
        if forall i :: 0 <= i < |normalized| ==> normalized[i] == first {
          forall i | 0 <= i < |emails| ensures Normalize(emails[i]) == first {
            assert normalized[i] == Normalize(emails[i]);
          }
        }
        if AllNormalizeTo(emails, first) {
          forall i | 0 <= i < |normalized| ensures normalized[i] == first {
            assert Normalize(emails[i]) == first;
          }
        }
      }
    }

    /** Every address in emails normalises to n. */
    predicate AllNormalizeTo(emails: seq<string>, n: string) {
      forall i :: 0 <= i < |emails| ==> Normalize(emails[i]) == n
    }
  }

  /** Matching the accepted-domain pattern at the end needs an '@' in the string. */
  lemma AcceptedDomainNeedsAt(s: string)
    ensures EndsWithAcceptedDomain(s) ==> '@' in s
  {
    if EndsWithAcceptedDomain(s) {
      var d :| d in ValidNormalizedDomains && EndsWithIgnoringCase(s, "@" + d);
      var k := |s| - |"@" + d|;
      assert Lower(s[k..])[0] == '@';
      assert s[k..][0] == s[k];
    }
  }

  /** Against a lower-case pattern, the case-insensitive suffix test is a suffix
      test on the lower-cased string. */
  lemma EndsWithIgnoringCaseLower(s: string, pattern: string)
    ensures EndsWithIgnoringCase(s, pattern) <==> EndsWith(Lower(s), pattern)
  {
  }

  /** For the two accepted domains, the case-insensitive suffix test is a suffix
      test on the lower-cased string. */
  lemma AcceptedDomainIsSuffix(s: string)
    ensures EndsWithAcceptedDomain(s) <==> EndsWith(Lower(s), "@gmail.com") || EndsWith(Lower(s), "@googlemail.com")
  {
    assert "@" + ValidNormalizedDomains[0] == "@gmail.com";
    assert "@" + ValidNormalizedDomains[1] == "@googlemail.com";
    EndsWithIgnoringCaseLower(s, "@gmail.com");
    EndsWithIgnoringCaseLower(s, "@googlemail.com");
  }
}
