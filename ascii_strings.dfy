/** The three string primitives that GmailMatcher::normalize is built from:
    strtolower (ASCII only), the first piece of explode('@', ...) and
    str_replace('.', '', ...). Strings are sequences of characters. */
module AsciiStrings {

  predicate IsUpper(c: char) { 'A' <= c <= 'Z' }

  predicate IsLetter(c: char) { IsUpper(c) || 'a' <= c <= 'z' }

  /** The position of a letter in the alphabet, 0 for 'a' and 'A' up to 25 for
      'z' and 'Z', whichever its case. */
  function AlphabetIndex(c: char): int {
    if IsUpper(c) then c as int - 'A' as int else c as int - 'a' as int
  }

  /** No character of s is an upper-case ASCII letter. */
  predicate IsLowerCase(s: string) {
    forall i :: 0 <= i < |s| ==> !IsUpper(s[i])
  }

  /** strtolower on one character: each of A-Z becomes the same letter of a-z,
      every other character is kept. */
  function LowerChar(c: char): (r: char)
    ensures !IsUpper(r)
    ensures IsLetter(r) <==> IsLetter(c)
    ensures IsLetter(c) ==> AlphabetIndex(r) == AlphabetIndex(c)
    ensures !IsLetter(c) ==> r == c
  {
    if IsUpper(c) then (c as int + 32) as char else c
  }

  /** strtolower: lower-cases every ASCII letter, leaves everything else alone.
      The result is lower case, as long as the input, has the same letter of
      the alphabet wherever the input has a letter, and agrees with it on
      every character that is not a letter. */
  function Lower(s: string): (r: string)
    ensures |r| == |s|
    ensures IsLowerCase(r)
    ensures forall i :: 0 <= i < |s| && IsLetter(s[i]) ==> IsLetter(r[i]) && AlphabetIndex(r[i]) == AlphabetIndex(s[i])
    ensures forall i :: 0 <= i < |s| && !IsLetter(s[i]) ==> r[i] == s[i]
  {
    seq(|s|, i requires 0 <= i < |s| => LowerChar(s[i]))
  }

  /** s ends with suffix. */
  predicate EndsWith(s: string, suffix: string) {
    |suffix| <= |s| && s[|s| - |suffix|..] == suffix
  }

  /** explode('@', s)[0]: the longest prefix of s that holds no '@'. A string
      without '@' is its own first piece. */
  function BeforeFirstAt(s: string): (r: string)
    ensures '@' !in r
    ensures r <= s
    ensures |r| < |s| ==> s[|r|] == '@'
  {
    if s == [] then []
    else if s[0] == '@' then []
    else [s[0]] + BeforeFirstAt(s[1..])
  }

  /** str_replace('.', '', s): s with every '.' deleted. The result holds no
      dot and is never longer than s; RemoveDotsSpec says which characters it keeps. */
  function RemoveDots(s: string): (r: string)
    ensures |r| <= |s|
  {
    if s == [] then []
    else (if s[0] == '.' then [] else [s[0]]) + RemoveDots(s[1..])
  }

  /** Deleting the dots keeps every other character and nothing else, never
      lengthens the string, and leaves a string without dots unchanged. */
  lemma {:induction false} RemoveDotsSpec(s: string)
    ensures |RemoveDots(s)| <= |s|
    ensures forall c :: c in RemoveDots(s) <==> c in s && c != '.'
    ensures '.' !in s ==> RemoveDots(s) == s
  {
    if s != [] {
      RemoveDotsSpec(s[1..]);
      assert s == [s[0]] + s[1..];
    }
  }

  /** Lower-casing a concatenation lower-cases each part. */
  lemma LowerAppend(a: string, b: string)
    ensures Lower(a + b) == Lower(a) + Lower(b)
  {
  }

  /** Lower-casing a string that is already lower case changes nothing. */
  lemma LowerOfLowerCase(s: string)
    requires IsLowerCase(s)
    ensures Lower(s) == s
  {
  }

  /** A character that is not a letter occurs in Lower(s) exactly where it occurs in s. */
  lemma LowerKeepsNonLetter(s: string, c: char)
    requires !IsLetter(c)
    ensures c in Lower(s) <==> c in s
  {
  }

  /** The first piece of a + b, when a has no '@', is a followed by the first piece of b. */
  lemma {:induction false} BeforeFirstAtAppend(a: string, b: string)
    requires '@' !in a
    ensures BeforeFirstAt(a + b) == a + BeforeFirstAt(b)
  {
    if a == [] {
      assert a + b == b;
    } else {
      assert a + b == [a[0]] + (a[1..] + b);
      BeforeFirstAtAppend(a[1..], b);
      assert a == [a[0]] + a[1..];
    }
  }

  /** Whatever follows an '@' never reaches the first piece. */
  lemma {:induction false} BeforeFirstAtStops(a: string, b: string)
    ensures BeforeFirstAt(a + ['@'] + b) == BeforeFirstAt(a)
  {
    if a != [] && a[0] != '@' {
      assert (a + ['@'] + b)[1..] == a[1..] + ['@'] + b;
      BeforeFirstAtStops(a[1..], b);
    }
  }

  /** Splitting and lower-casing commute, because lower-casing never makes or removes an '@'. */
  lemma {:induction false} BeforeFirstAtLower(s: string)
    ensures BeforeFirstAt(Lower(s)) == Lower(BeforeFirstAt(s))
  {
  }

  /** Deleting dots from a concatenation deletes them from each part. */
  lemma {:induction false} RemoveDotsAppend(a: string, b: string)
    ensures RemoveDots(a + b) == RemoveDots(a) + RemoveDots(b)
  {
    if a == [] {
      assert a + b == b;
    } else {
      var head := if a[0] == '.' then [] else [a[0]];
      assert (a + b)[0] == a[0] && (a + b)[1..] == a[1..] + b;
      RemoveDotsAppend(a[1..], b);
      assert RemoveDots(a + b) == head + (RemoveDots(a[1..]) + RemoveDots(b));
    }
  }

  /** Deleting dots keeps a string lower case. */
  lemma {:induction false} RemoveDotsLowerCase(s: string)
    requires IsLowerCase(s)
    ensures IsLowerCase(RemoveDots(s))
  {
    if s != [] {
      RemoveDotsLowerCase(s[1..]);
    }
  }
}
