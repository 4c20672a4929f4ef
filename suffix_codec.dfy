/** The bijective base-26 numeral system of tag suffixes: 'a'..'z' are the
    digits 1..26, there is no zero digit, so every positive integer has exactly
    one lowercase spelling ('z' = 26 is followed by 'aa' = 27). */
module SuffixCodec {
  import opened Outcomes

  predicate IsLetter(c: char) { 'a' <= c <= 'z' }

  /** A string made only of 'a'..'z' (the empty string included). */
  predicate IsSuffix(s: string) { forall i :: 0 <= i < |s| ==> IsLetter(s[i]) }

  /** The digit a letter stands for: 'a' is 1, 'z' is 26 (char code minus 96). */
  function LetterValue(c: char): (v: nat)
    requires IsLetter(c)
    ensures 1 <= v <= 26
  {
    c as int - 96
  }

  /** The letter for remainder d: 0 is 'a', 25 is 'z' (char code d + 97). */
  function LetterFor(d: nat): (c: char)
    requires d < 26
    ensures IsLetter(c) && LetterValue(c) == d + 1
  {
    (d + 97) as char
  }

  /** The number a suffix denotes, folded left to right as value * 26 + digit. */
  function Value(s: string): (n: nat)
    requires IsSuffix(s)
    ensures (n == 0) == (s == [])
  {
    if s == [] then 0 else Value(s[..|s| - 1]) * 26 + LetterValue(s[|s| - 1])
  }

  /** The suffix spelling n: least significant letter last, taken from n - 1. */
  function Encode(n: nat): (s: string)
    ensures IsSuffix(s)
    ensures (s == []) == (n == 0)
  {
    if n == 0 then [] else Encode((n - 1) / 26) + [LetterFor((n - 1) % 26)]
  }

  /** A single letter denotes its own digit. */
  lemma OneLetter(c: char)
    requires IsLetter(c)
    ensures IsSuffix([c]) && Value([c]) == LetterValue(c)
  {
    assert [c][..0] == [];
  }

  /** 1..26 are spelled with a single letter. */
  lemma OneLetterEncode(n: nat)
    requires 1 <= n <= 26
    ensures Encode(n) == [LetterFor(n - 1)]
  {
    assert (n - 1) / 26 == 0;
  }

  /** The position of the first character that is not a lowercase letter. */
  function FirstInvalid(s: string): (i: nat)
    requires !IsSuffix(s)
    ensures i < |s| && !IsLetter(s[i]) && IsSuffix(s[..i])
  {
    if !IsLetter(s[0]) then 0
    else
      var j := FirstInvalid(s[1..]);
      assert s[..j + 1] == [s[0]] + s[1..][..j];
      j + 1
  }

  /** The first invalid position is the one a left-to-right scan stops at. */
  lemma {:induction false} FirstInvalidAt(s: string, i: nat)
    requires i < |s| && IsSuffix(s[..i]) && !IsLetter(s[i])
    ensures FirstInvalid(s) == i
  {
    if i > 0 {
      assert s[0] == s[..i][0];
      assert s[1..][..i - 1] == s[..i][1..];
      FirstInvalidAt(s[1..], i - 1);
    }
  }

  lemma DivModBy26(x: nat, q: nat, r: nat)
    requires r < 26 && x == q * 26 + r
    ensures x / 26 == q && x % 26 == r
  {
  }

  /** Appending a letter multiplies by 26 and adds the letter's digit. */
  lemma AppendLetter(n: nat, c: char)
    requires IsLetter(c)
    ensures Encode(n * 26 + LetterValue(c)) == Encode(n) + [c]
  {
    DivModBy26(n * 26 + LetterValue(c) - 1, n, LetterValue(c) - 1);
    assert LetterFor(LetterValue(c) - 1) == c;
  }

  /** Decoding an encoding gives the number back. */
  lemma {:induction false} ValueOfEncode(n: nat)
    ensures Value(Encode(n)) == n
  {
    if n > 0 {
      var q, d := (n - 1) / 26, (n - 1) % 26;
      ValueOfEncode(q);
      var s := Encode(n);
      assert s[..|s| - 1] == Encode(q);
      assert s[|s| - 1] == LetterFor(d);
    }
  }

  /** Encoding a decoded suffix gives the suffix back. */
  lemma {:induction false} EncodeOfValue(s: string)
    requires IsSuffix(s)
    ensures Encode(Value(s)) == s
  {
    if s != [] {
      var init, c := s[..|s| - 1], s[|s| - 1];
      EncodeOfValue(init);
      var n := Value(s);
      DivModBy26(n - 1, Value(init), LetterValue(c) - 1);
      assert LetterFor(LetterValue(c) - 1) == c;
      assert s == init + [c];
    }
  }

  /** Two suffixes that decode to the same number are the same suffix. */
  lemma ValueInjective(s: string, t: string)
    requires IsSuffix(s) && IsSuffix(t) && Value(s) == Value(t)
    ensures s == t
  {
    EncodeOfValue(s);
    EncodeOfValue(t);
  }

  /** Two numbers with the same encoding are the same number. */
  lemma EncodeInjective(m: nat, n: nat)
    requires Encode(m) == Encode(n)
    ensures m == n
  {
    ValueOfEncode(m);
    ValueOfEncode(n);
  }

  /** The smallest and the largest number spelled with k letters
      ("aa...a" and "zz...z"). */
  function MinOfLength(k: nat): nat { if k == 0 then 0 else MinOfLength(k - 1) * 26 + 1 }
  function MaxOfLength(k: nat): nat { if k == 0 then 0 else MaxOfLength(k - 1) * 26 + 26 }

  lemma {:induction false} ValueWithinLength(s: string)
    requires IsSuffix(s)
    ensures MinOfLength(|s|) <= Value(s) <= MaxOfLength(|s|)
  {
    if s != [] {
      ValueWithinLength(s[..|s| - 1]);
    }
  }

  lemma {:induction false} LengthsAdjoin(k: nat)
    ensures MinOfLength(k + 1) == MaxOfLength(k) + 1
  {
    if k > 0 {
      LengthsAdjoin(k - 1);
    }
  }

  lemma {:induction false} MaxOfLengthGrows(j: nat, k: nat)
    requires j <= k
    ensures MaxOfLength(j) <= MaxOfLength(k)
    decreases k - j
  {
    if j < k {
      MaxOfLengthGrows(j, k - 1);
    }
  }

  /** A shorter suffix always denotes a smaller number: ordering by decoded
      value puts every k-letter suffix before every (k+1)-letter one. */
  lemma ShorterIsSmaller(s: string, t: string)
    requires IsSuffix(s) && IsSuffix(t) && |s| < |t|
    ensures Value(s) < Value(t)
  {
    ValueWithinLength(s);
    ValueWithinLength(t);
    MaxOfLengthGrows(|s|, |t| - 1);
    LengthsAdjoin(|t| - 1);
  }

  /** String order, character by character: s is a proper prefix of t, or s
      has the smaller character at the first position where the two differ. */
  predicate LexBefore(s: string, t: string)
  {
    (|s| < |t| && s == t[..|s|]) ||
    exists i :: 0 <= i < |s| && i < |t| && s[..i] == t[..i] && s[i] < t[i]
  }

  /** Between suffixes of one length, coming first alphabetically means
      denoting the smaller number. */
  lemma {:induction false} LexBeforeSmaller(s: string, t: string, i: nat)
    requires IsSuffix(s) && IsSuffix(t) && |s| == |t|
    requires i < |s| && s[..i] == t[..i] && s[i] < t[i]
    ensures Value(s) < Value(t)
  {
    var n := |s| - 1;
    var si, ti := s[..n], t[..n];
    if i < n {
      assert si[..i] == s[..i] && ti[..i] == t[..i];
      assert si[i] == s[i] && ti[i] == t[i];
      LexBeforeSmaller(si, ti, i);
    } else {
      assert si == ti;
    }
  }

  /** Two different strings of one length differ first at some position. */
  lemma {:induction false} FirstDifference(s: string, t: string) returns (i: nat)
    requires |s| == |t| && s != t
    ensures i < |s| && s[..i] == t[..i] && s[i] != t[i]
  {
    var n := |s| - 1;
    if s[..n] == t[..n] {
      assert s == s[..n] + [s[n]] && t == t[..n] + [t[n]];
      i := n;
    } else {
      i := FirstDifference(s[..n], t[..n]);
      assert s[..i] == s[..n][..i] && t[..i] == t[..n][..i];
    }
  }

  /** Suffixes of one length sort alphabetically exactly as their numbers
      sort, so the tags of one day are ordered by their sequence numbers
      within each suffix length. */
  lemma SameLengthOrder(s: string, t: string)
    requires IsSuffix(s) && IsSuffix(t) && |s| == |t|
    ensures LexBefore(s, t) <==> Value(s) < Value(t)
  {
    if LexBefore(s, t) {
      var i :| 0 <= i < |s| && i < |t| && s[..i] == t[..i] && s[i] < t[i];
      LexBeforeSmaller(s, t, i);
    } else if Value(s) < Value(t) {
      var i := FirstDifference(s, t);
      assert t[..i] == s[..i] && t[i] < s[i];
      LexBeforeSmaller(t, s, i);
    }
  }

  /** `suffixToNumber`: decodes a suffix, or fails naming the first character
      outside 'a'..'z'. The empty suffix decodes to 0. */
  method SuffixToNumber(suffix: string) returns (r: Result<nat>)
    ensures IsSuffix(suffix) ==> r == Success(Value(suffix))
    ensures !IsSuffix(suffix) ==> r == Failure(InvalidSuffixCharacter(suffix[FirstInvalid(suffix)]))
  {
    var num := 0;
    var i := 0;
    while i < |suffix|
      invariant 0 <= i <= |suffix|
      invariant IsSuffix(suffix[..i]) && num == Value(suffix[..i])
    {
      var c := suffix[i];
      if c < 'a' || c > 'z' {
        FirstInvalidAt(suffix, i);
        return Failure(InvalidSuffixCharacter(c));
      }
      assert suffix[..i + 1][..i] == suffix[..i];
      num := num * 26 + (c as int - 96);
      i := i + 1;
    }
    assert suffix[..i] == suffix;
    return Success(num);
  }

  /** `numberToSuffix`: the empty string for num <= 0, otherwise the unique
      non-empty lowercase suffix that decodes to num. */
  method NumberToSuffix(num: int) returns (suffix: string)
    ensures num <= 0 ==> suffix == []
    ensures num > 0 ==> suffix != [] && IsSuffix(suffix) && Value(suffix) == num
  {
    suffix := [];
    var n := num;
    while n > 0
      invariant (num <= 0 && n == num && suffix == []) || (num > 0 && n >= 0 && Encode(num) == Encode(n) + suffix)
    {
      n := n - 1;
      var letter := ((n % 26) + 97) as char;
      assert letter == LetterFor(n % 26);
      assert Encode(n + 1) == Encode(n / 26) + [letter];
      suffix := [letter] + suffix;
      n := n / 26;
    }
    if num > 0 {
      assert Encode(num) == suffix;
      ValueOfEncode(num);
    }
  }
}
