/** The concrete cases the project's unit tests assert, stated about the model. */
module UnitExamples {
  import opened Outcomes
  import opened Decimal
  import opened SuffixCodec
  import opened VersionFormat
  import opened CalendarPrefix
  import opened TagSequencer

  /** pad adds leading zeros and never truncates. */
  lemma PadExamples()
    ensures Pad(1, 2) == "01" && Pad(12, 2) == "12" && Pad(1, 3) == "001" && Pad(123, 2) == "123"
  {
    assert DecimalString(1) == "1";
    assert DecimalString(12) == "12";
    assert DecimalString(123) == "123";
  }

  /** Decoding one-, two- and three-letter suffixes. */
  lemma SuffixToNumberExamples()
    ensures Value("a") == 1 && Value("b") == 2 && Value("c") == 3 && Value("z") == 26
    ensures Value("aa") == 27 && Value("ab") == 28 && Value("az") == 52 && Value("ba") == 53 && Value("zz") == 702
    ensures Value("aaa") == 703 && Value("abc") == 731 && Value("zzz") == 18278
  {
    OneLetterEncodings();
    TwoLetterEncodings();
    ThreeLetterEncodings();
    FourLetterBoundary();
    ValueOfEncode(1);
    ValueOfEncode(2);
    ValueOfEncode(3);
    ValueOfEncode(26);
    ValueOfEncode(27);
    ValueOfEncode(28);
    ValueOfEncode(52);
    ValueOfEncode(53);
    ValueOfEncode(702);
    ValueOfEncode(703);
    ValueOfEncode(731);
    ValueOfEncode(18278);
  }

  /** Upper-case letters and digits are rejected, naming the character. */
  lemma SuffixToNumberRejects()
    ensures !IsSuffix("A") && "A"[FirstInvalid("A")] == 'A'
    ensures !IsSuffix("1") && "1"[FirstInvalid("1")] == '1'
    ensures !IsSuffix("a1") && "a1"[FirstInvalid("a1")] == '1'
  {
    assert !IsLetter("A"[0]) && !IsLetter("1"[0]);
    assert !IsLetter("a1"[1]);
    assert "a1"[..1] == "a";
    FirstInvalidAt("a1", 1);
  }

  /** One-letter encodings, up to the z/aa boundary. */
  lemma OneLetterEncodings()
    ensures Encode(1) == "a" && Encode(2) == "b" && Encode(3) == "c" && Encode(26) == "z"
  {
    OneLetterEncode(1);
    OneLetterEncode(2);
    OneLetterEncode(3);
    OneLetterEncode(26);
  }

  /** Two-letter encodings, from the z/aa boundary to the zz/aaa boundary. */
  lemma TwoLetterEncodings()
    ensures Encode(27) == "aa" && Encode(28) == "ab" && Encode(52) == "az" && Encode(53) == "ba" && Encode(702) == "zz"
  {
    OneLetterEncodings();
    AppendLetter(1, 'a');
    AppendLetter(1, 'b');
    AppendLetter(1, 'z');
    AppendLetter(2, 'a');
    AppendLetter(26, 'z');
  }

  /** Three-letter encodings. */
  lemma ThreeLetterEncodings()
    ensures Encode(703) == "aaa" && Encode(731) == "abc"
  {
    TwoLetterEncodings();
    AppendLetter(27, 'a');
    AppendLetter(28, 'c');
  }

  /** The zzz/aaaa boundary. */
  lemma FourLetterBoundary()
    ensures Encode(18278) == "zzz" && Encode(18279) == "aaaa"
  {
    TwoLetterEncodings();
    AppendLetter(702, 'z');
    ThreeLetterEncodings();
    AppendLetter(703, 'a');
  }

  /** Decode-then-encode returns each listed suffix, and encode-then-decode
      returns 100000. */
  lemma RoundTripExamples()
    ensures forall s | s in ["a", "z", "aa", "ab", "az", "ba", "zz", "aaa", "abc", "zzz"] :: IsSuffix(s) && Encode(Value(s)) == s
    ensures Value(Encode(100000)) == 100000
  {
    forall s | s in ["a", "z", "aa", "ab", "az", "ba", "zz", "aaa", "abc", "zzz"]
      ensures IsSuffix(s) && Encode(Value(s)) == s
    {
      EncodeOfValue(s);
    }
    ValueOfEncode(100000);
  }

  /** A 5-digit prefix with a one-letter suffix. */
  lemma ParseAcceptsFiveDigits()
    ensures ParseVersion("25216a") == Success(Version("25216", "a"))
  {
    assert "25216" + "a" == "25216a";
    ParseOfComposed("25216", "a");
  }

  /** A 7-digit prefix (4-digit year format). */
  lemma ParseAcceptsSevenDigits()
    ensures ParseVersion("2025216z") == Success(Version("2025216", "z"))
  {
    assert "2025216" + "z" == "2025216z";
    ParseOfComposed("2025216", "z");
  }

  /** Multi-letter suffixes. */
  lemma ParseAcceptsLongSuffixes()
    ensures ParseVersion("24011aa") == Success(Version("24011", "aa"))
    ensures ParseVersion("25216abc") == Success(Version("25216", "abc"))
  {
    assert "24011" + "aa" == "24011aa";
    ParseOfComposed("24011", "aa");
    assert "25216" + "abc" == "25216abc";
    ParseOfComposed("25216", "abc");
  }

  /** A missing suffix, an upper-case letter and the empty string. */
  lemma ParseVersionRejects()
    ensures ParseVersion("25216") == Failure(InvalidVersionFormat("25216"))
    ensures ParseVersion("25216A") == Failure(InvalidVersionFormat("25216A"))
    ensures ParseVersion("") == Failure(InvalidVersionFormat(""))
  {
    RejectedAfterDigits("25216", 5, 0);
    RejectedAfterDigits("25216A", 5, 5);
    RejectedAfterDigits("", 0, 0);
  }

  /** A trailing digit and a leading letter. */
  lemma ParseVersionRejectsMixed()
    ensures ParseVersion("25216a1") == Failure(InvalidVersionFormat("25216a1"))
    ensures ParseVersion("abc216a") == Failure(InvalidVersionFormat("abc216a"))
  {
    RejectedAfterDigits("25216a1", 5, 6);
    RejectedAfterDigits("abc216a", 0, 0);
  }

  /** A version whose leading digit run has length k is rejected when k is
      outside 5..7, or nothing follows, or the character at bad, after the
      run, is not a lowercase letter. */
  lemma RejectedAfterDigits(v: string, k: nat, bad: nat)
    requires k <= |v| && AllDigits(v[..k]) && (k < |v| ==> !IsDigit(v[k]))
    requires !(5 <= k <= 7) || k == |v| || (k <= bad < |v| && !IsLetter(v[bad]))
    ensures ParseVersion(v) == Failure(InvalidVersionFormat(v))
  {
    LeadingDigitsAt(v, k);
    if 5 <= k <= 7 && k < |v| {
      assert v[k..][bad - k] == v[bad];
    }
  }

  /** Any date of ISO week 3 in a year ending in 25, in the 2-digit format. */
  lemma WeekThreeOf25(date: CalendarDate)
    requires date.year % 100 == 25 && date.isoWeek == 3 && 1 <= date.isoWeekday <= 7
    ensures DatePrefix(date, "2") == "2503" + [DigitChar(date.isoWeekday)]
  {
    TwoDigitYearPrefix(date, "2");
  }

  /** 2025-01-13..19 lie in ISO week 3 (their Thursday is 15 days after
      1 January); Monday..Saturday keep getUTCDay's 1..6 and Sunday's 0
      becomes 7, so the week's prefixes are "25031".."25037". */
  lemma WeekdaySweepExamples()
    ensures WeekOfThursday(15) == 3
    ensures IsoWeekday(0) == 7 && forall u :: 1 <= u < 7 ==> IsoWeekday(u) == u
    ensures forall d :: 1 <= d <= 7 ==> DatePrefix(CalendarDate(2025, 3, d), "2") == "2503" + [DigitChar(d)]
  {
    forall d | 1 <= d <= 7
      ensures DatePrefix(CalendarDate(2025, 3, d), "2") == "2503" + [DigitChar(d)]
    {
      WeekThreeOf25(CalendarDate(2025, 3, d));
    }
  }

  /** The 4-digit prefix of Monday 2025-01-13. */
  lemma FourDigitYearExample()
    ensures DatePrefix(CalendarDate(2025, 3, 1), "4") == "2025031"
  {
    PadOneDigit(3);
    PadOneDigit(1);
    assert DecimalString(2025) == DecimalString(202) + ['5'];
    assert DecimalString(202) == DecimalString(20) + ['2'];
    PadTwoDigits(20);
    assert YearText(2025, "4") == ['2', '0', '2', '5'];
  }

  /** Any date input stamped with a calendar year ending in 24, ISO week 1,
      in the 2-digit format. */
  lemma WeekOneOf24(date: CalendarDate)
    requires date.year % 100 == 24 && date.isoWeek == 1 && 1 <= date.isoWeekday <= 7
    ensures DatePrefix(date, "2") == "2401" + [DigitChar(date.isoWeekday)]
  {
    TwoDigitYearPrefix(date, "2");
  }

  /** Monday 2024-12-30 and Tuesday 2024-12-31 lie in ISO week 1 (of 2025)
      but carry the calendar year 2024: their prefixes are the five digits
      "24011" and "24012". The rest of that ISO week falls in calendar 2025
      and is stamped "2501" instead. */
  lemma YearBoundaryExample()
    ensures forall d :: 1 <= d <= 2 ==> DatePrefix(CalendarDate(2024, 1, d), "2") == "2401" + [DigitChar(d)]
    ensures forall d :: 1 <= d <= 2 ==> |DatePrefix(CalendarDate(2024, 1, d), "2")| == 5
  {
    forall d | 1 <= d <= 2
      ensures DatePrefix(CalendarDate(2024, 1, d), "2") == "2401" + [DigitChar(d)]
    {
      WeekOneOf24(CalendarDate(2024, 1, d));
    }
  }

  /** Same-day increment of an explicit current version. */
  lemma PriorSameDayExample()
    ensures NextAfterPrior("25216", "25216a") == Success("25216b")
  {
    ParseAcceptsFiveDigits();
    PriorSameDayTag("25216", "25216a", "a");
    OneLetter('a');
    OneLetterEncode(2);
    assert "25216" + "b" == "25216b";
  }

  /** Date rollover: a current version from another day restarts at "a". */
  lemma PriorRolloverExample()
    ensures NextAfterPrior("25216", "25210z") == Success("25216a")
  {
    assert "25210" + "z" == "25210z";
    ParseOfComposed("25210", "z");
    assert "25216" + "a" == "25216a";
  }

  /** A scan over an unordered listing with one unrelated name. */
  lemma ScanExample()
    ensures NextFromCandidates("25216", ["25216a", "25216c", "25216b", "unrelated"]) == "25216d"
  {
    var today := "25216";
    var names := [today + "a", today + "c", today + "b", "unrelated"];
    assert today + "a" == "25216a" && today + "c" == "25216c" && today + "b" == "25216b";
    OneLetter('a');
    OneLetter('b');
    OneLetter('c');
    ComposedTag(today, "a");
    ComposedTag(today, "c");
    ComposedTag(today, "b");
    assert !MatchesToday(today, names[3]) by {
      assert names[3][..5][0] == 'u';
    }
    MaxMatchingBound(today, names);
    MaxMatchingAttained(today, names);
    var m := MaxMatching(today, names);
    assert m >= 3 by {
      assert TagNumber(today, names[1]) == 3;
    }
    assert m == 3;
    OneLetterEncode(4);
    assert today + "d" == "25216d";
  }
}
