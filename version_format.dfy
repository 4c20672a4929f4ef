/** `parseVersion`: a hand-written recogniser for the regular expression
    ^(\d{5,7})([a-z]+)$ that splits a tag into its date prefix and its suffix. */
module VersionFormat {
  import opened Outcomes
  import opened Decimal
  import opened SuffixCodec

  datatype Version = Version(prefix: string, suffix: string)

  /** The meaning of ^(\d{5,7})([a-z]+)$: five to seven ASCII digits followed
      by at least one lowercase letter, and nothing else. */
  ghost predicate MatchesVersionPattern(v: string)
  {
    exists k :: 5 <= k <= 7 && k < |v| && AllDigits(v[..k]) && IsSuffix(v[k..])
  }

  /** The length of the longest run of digits v starts with. */
  function LeadingDigits(v: string): (k: nat)
    ensures k <= |v| && AllDigits(v[..k])
    ensures k < |v| ==> !IsDigit(v[k])
  {
    if v == [] || !IsDigit(v[0]) then 0
    else
      var k := LeadingDigits(v[1..]);
      assert v[..k + 1] == [v[0]] + v[1..][..k];
      k + 1
  }

  /** Any digit run that is followed by a non-digit (or the end) is the
      longest one. */
  lemma {:induction false} LeadingDigitsAt(v: string, j: nat)
    requires j <= |v| && AllDigits(v[..j]) && (j < |v| ==> !IsDigit(v[j]))
    ensures LeadingDigits(v) == j
  {
    if j > 0 {
      assert v[0] == v[..j][0];
      assert v[1..][..j - 1] == v[..j][1..];
      LeadingDigitsAt(v[1..], j - 1);
    }
  }

  function ParseVersion(v: string): (r: Result<Version>)
    ensures r.Success? <==> MatchesVersionPattern(v)
    ensures r.Success? ==>
      && r.value.prefix + r.value.suffix == v
      && 5 <= |r.value.prefix| <= 7 && AllDigits(r.value.prefix)
      && r.value.suffix != [] && IsSuffix(r.value.suffix)
    ensures r.Failure? ==> r.error == InvalidVersionFormat(v)
  {
    var k := LeadingDigits(v);
    if 5 <= k <= 7 && k < |v| && IsSuffix(v[k..]) then
      assert v[..k] + v[k..] == v;
      Success(Version(v[..k], v[k..]))
    else
      assert !MatchesVersionPattern(v) by {
        forall j | 5 <= j <= 7 && j < |v| && AllDigits(v[..j]) && IsSuffix(v[j..])
          ensures false
        {
          assert v[j..][0] == v[j];
          LeadingDigitsAt(v, j);
        }
      }
      Failure(InvalidVersionFormat(v))
  }

  /** A well-formed prefix followed by a non-empty lowercase suffix parses
      back into exactly those two parts. */
  lemma ParseOfComposed(prefix: string, suffix: string)
    requires 5 <= |prefix| <= 7 && AllDigits(prefix)
    requires suffix != [] && IsSuffix(suffix)
    ensures ParseVersion(prefix + suffix) == Success(Version(prefix, suffix))
  {
    var v := prefix + suffix;
    assert v[..|prefix|] == prefix && v[|prefix|..] == suffix;
    assert v[|prefix|] == suffix[0];
    LeadingDigitsAt(v, |prefix|);
  }
}
