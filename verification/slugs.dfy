/** The slug registry: `createSlug` and the `-1`, `-2`, … suffix search
    of `generateUniqueSlug` (functions/src/index.ts). */
module Slugs {

  predicate IsSlugChar(c: char) {
    'a' <= c <= 'z' || '0' <= c <= '9'
  }

  /** A normalised slug: lower-case ASCII letters and digits only. */
  predicate IsSlug(s: string) {
    forall i :: 0 <= i < |s| ==> IsSlugChar(s[i])
  }

  /** `String.prototype.toLowerCase` on one character, as far as it can reach
      `[a-z0-9]`: ASCII capitals, U+0130 (dotted capital I, which lowers to
      "i" followed by U+0307) and U+212A (Kelvin sign, which lowers to "k").
      Every other character either has no lower-case form or one outside
      ASCII, so it is kept unchanged here: the filter removes it either way. */
  function LowerChar(c: char): string {
    if 'A' <= c <= 'Z' then [(c as int + 32) as char]
    else if c == '\U{0130}' then ['i', '\U{0307}']
    else if c == '\U{212A}' then ['k']
    else [c]
  }

  function LowerCase(s: string): string {
    if s == [] then [] else LowerChar(s[0]) + LowerCase(s[1..])
  }

  /** `replace(/[^a-z0-9]/g, "")`. */
  function KeepSlugChars(s: string): (r: string)
    ensures IsSlug(r)
    ensures |r| <= |s|
    ensures IsSlug(s) ==> r == s
  {
    if s == [] then []
    else if IsSlugChar(s[0]) then [s[0]] + KeepSlugChars(s[1..])
    else KeepSlugChars(s[1..])
  }

  /** `createSlug(name)`: lower-case, then drop everything outside [a-z0-9]. */
  function CreateSlug(name: string): (r: string)
    ensures IsSlug(r)
  {
    KeepSlugChars(LowerCase(name))
  }

  /** What one input character contributes to a slug, stated directly. */
  function SlugOfChar(c: char): string {
    if IsSlugChar(c) then [c]
    else if 'A' <= c <= 'Z' then [(c as int + 32) as char]
    else if c == '\U{0130}' then ['i']
    else if c == '\U{212A}' then ['k']
    else []
  }

  /** Reference definition: concatenate every character's contribution. */
  function ReferenceSlug(s: string): string {
    if s == [] then [] else SlugOfChar(s[0]) + ReferenceSlug(s[1..])
  }

  lemma {:induction false} KeepSlugCharsAppend(a: string, b: string)
    ensures KeepSlugChars(a + b) == KeepSlugChars(a) + KeepSlugChars(b)
  {
    if a == [] {
      assert a + b == b;
    } else {
      assert (a + b)[0] == a[0];
      assert (a + b)[1..] == a[1..] + b;
      KeepSlugCharsAppend(a[1..], b);
    }
  }

  lemma KeepSlugCharsOfLowerChar(c: char)
    ensures KeepSlugChars(LowerChar(c)) == SlugOfChar(c)
  {
    if 'A' <= c <= 'Z' {
    } else if c == '\U{0130}' {
      assert KeepSlugChars(['\U{0307}']) == [];
      assert ['i', '\U{0307}'][1..] == ['\U{0307}'];
    } else if c == '\U{212A}' {
    } else {
    }
  }

  /** `createSlug` agrees with the character-by-character reference. */
  lemma {:induction false} CreateSlugMatchesReference(s: string)
    ensures CreateSlug(s) == ReferenceSlug(s)
  {
    if s != [] {
      calc {
        CreateSlug(s);
        KeepSlugChars(LowerChar(s[0]) + LowerCase(s[1..]));
        { KeepSlugCharsAppend(LowerChar(s[0]), LowerCase(s[1..])); }
        KeepSlugChars(LowerChar(s[0])) + CreateSlug(s[1..]);
        { KeepSlugCharsOfLowerChar(s[0]); CreateSlugMatchesReference(s[1..]); }
        SlugOfChar(s[0]) + ReferenceSlug(s[1..]);
      }
    }
  }

  /** Slugs are concatenation-homomorphic: each part is normalised on its own. */
  lemma CreateSlugAppend(a: string, b: string)
    ensures CreateSlug(a + b) == CreateSlug(a) + CreateSlug(b)
  {
    LowerCaseAppend(a, b);
    KeepSlugCharsAppend(LowerCase(a), LowerCase(b));
  }

  lemma {:induction false} LowerCaseAppend(a: string, b: string)
    ensures LowerCase(a + b) == LowerCase(a) + LowerCase(b)
  {
    if a == [] {
      assert a + b == b;
    } else {
      assert (a + b)[0] == a[0];
      assert (a + b)[1..] == a[1..] + b;
      LowerCaseAppend(a[1..], b);
    }
  }

  /** Lower-casing leaves an already normalised slug alone. */
  lemma {:induction false} LowerCaseOfSlug(s: string)
    requires IsSlug(s)
    ensures LowerCase(s) == s
  {
    if s != [] {
      assert IsSlug(s[1..]) by {
        forall i | 0 <= i < |s[1..]| ensures IsSlugChar(s[1..][i]) {
          assert s[1..][i] == s[i + 1];
        }
      }
      LowerCaseOfSlug(s[1..]);
      assert LowerChar(s[0]) == [s[0]] by { assert IsSlugChar(s[0]); }
      assert s == [s[0]] + s[1..];
    }
  }

  /** A slug is a fixed point of `createSlug`. */
  lemma CreateSlugFixesSlugs(s: string)
    requires IsSlug(s)
    ensures CreateSlug(s) == s
  {
    LowerCaseOfSlug(s);
  }

  /** Normalising twice is normalising once. */
  lemma CreateSlugIdempotent(name: string)
    ensures CreateSlug(CreateSlug(name)) == CreateSlug(name)
  {
    CreateSlugFixesSlugs(CreateSlug(name));
  }

  /** A slug exactly when `createSlug` leaves it unchanged. */
  lemma CreateSlugFixedPointIffSlug(s: string)
    ensures CreateSlug(s) == s <==> IsSlug(s)
  {
    if IsSlug(s) {
      CreateSlugFixesSlugs(s);
    }
  }

  // ---------------------------------------------------------------------
  // Decimal numerals and suffixed candidates
  // ---------------------------------------------------------------------

  function DigitChar(d: nat): (c: char)
    requires d < 10
    ensures '0' <= c <= '9'
  {
    ('0' as int + d) as char
  }

  /** The decimal numeral of `n`, as a template literal prints it. */
  function NatToString(n: nat): (r: string)
    ensures |r| >= 1
    ensures n >= 10 ==> |r| >= 2
    ensures forall i :: 0 <= i < |r| ==> '0' <= r[i] <= '9'
  {
    if n < 10 then [DigitChar(n)] else NatToString(n / 10) + [DigitChar(n % 10)]
  }

  /** Distinct numbers print differently. */
  lemma {:induction false} NatToStringInjective(a: nat, b: nat)
    requires NatToString(a) == NatToString(b)
    ensures a == b
  {
    if a < 10 && b < 10 {
      assert NatToString(a)[0] == NatToString(b)[0];
    } else if a >= 10 && b >= 10 {
      var sa, sb := NatToString(a), NatToString(b);
      assert sa[|sa| - 1] == DigitChar(a % 10);
      assert sb[|sb| - 1] == DigitChar(b % 10);
      assert sa[..|sa| - 1] == NatToString(a / 10);
      assert sb[..|sb| - 1] == NatToString(b / 10);
      NatToStringInjective(a / 10, b / 10);
    }
  }

  /** The k-th name tried: `base` itself, then `base-1`, `base-2`, … */
  function Candidate(base: string, k: nat): string {
    if k == 0 then base else base + "-" + NatToString(k)
  }

  /** Different counters give different candidates. */
  lemma CandidatesDistinct(base: string, j: nat, k: nat)
    requires j != k
    ensures Candidate(base, j) != Candidate(base, k)
  {
    if j != 0 && k != 0 && Candidate(base, j) == Candidate(base, k) {
      var n := |base| + 1;
      assert Candidate(base, j)[n..] == NatToString(j);
      assert Candidate(base, k)[n..] == NatToString(k);
      NatToStringInjective(j, k);
    }
  }

  /** `generateUniqueSlug`: probe `base`, `base-1`, `base-2`, … against the
      slugs already held and return the first free one. The loop ends
      because each probe that fails hits a distinct member of `taken`. */
  method GenerateUniqueSlug(taken: set<string>, name: string) returns (slug: string)
    ensures slug !in taken
    ensures exists k: nat :: slug == Candidate(CreateSlug(name), k)
              && forall j: nat :: j < k ==> Candidate(CreateSlug(name), j) in taken
  {
    var base := CreateSlug(name);
    slug := base;
    var counter: nat := 1;
    ghost var tried: set<string> := {};
    while slug in taken
      invariant slug == Candidate(base, counter - 1)
      invariant forall j: nat :: j < counter - 1 ==> Candidate(base, j) in taken
      invariant forall x :: x in tried ==> exists j: nat :: j < counter - 1 && x == Candidate(base, j)
      invariant tried <= taken
      decreases taken - tried
    {
      assert slug !in tried by {
        forall x | x in tried ensures x != slug {
          var j: nat :| j < counter - 1 && x == Candidate(base, j);
          CandidatesDistinct(base, j, counter - 1);
        }
      }
      tried := tried + {slug};
      slug := base + "-" + NatToString(counter);
      counter := counter + 1;
    }
  }
}
