/** The policy that picks the next tag: from an explicitly supplied current
    version, or from the tag names listed by the first endpoint that answers,
    falling back to suffix "a" when none does. */
module TagSequencer {
  import opened Outcomes
  import opened Decimal
  import opened SuffixCodec
  import opened VersionFormat
  import opened CalendarPrefix

  /** `^<today>([a-z]+)$`: today's prefix followed by at least one lowercase
      letter. The prefix is made of digits, so it matches literally. */
  predicate MatchesToday(today: string, name: string)
  {
    |today| < |name| && name[..|today|] == today && IsSuffix(name[|today|..])
  }

  /** The number the suffix of a matching tag decodes to. */
  function TagNumber(today: string, name: string): nat
    requires MatchesToday(today, name)
  {
    Value(name[|today|..])
  }

  /** Today's prefix followed by a non-empty lowercase suffix is a tag of
      today's sequence, numbered by its suffix. */
  lemma ComposedTag(today: string, suffix: string)
    requires suffix != [] && IsSuffix(suffix)
    ensures MatchesToday(today, today + suffix) && TagNumber(today, today + suffix) == Value(suffix)
  {
    assert (today + suffix)[..|today|] == today && (today + suffix)[|today|..] == suffix;
  }

  /** Today's prefix followed by the encoding of n is the tag numbered n. */
  lemma EncodedTag(today: string, n: nat)
    requires n >= 1
    ensures MatchesToday(today, today + Encode(n)) && TagNumber(today, today + Encode(n)) == n
  {
    ComposedTag(today, Encode(n));
    ValueOfEncode(n);
  }

  /** For a prefix of five to seven digits, the scan's pattern and the
      version parser agree: a name is a tag of today's sequence exactly when
      it parses as a version whose prefix is today's. */
  lemma MatchesTodayIffParsed(today: string, name: string)
    requires 5 <= |today| <= 7 && AllDigits(today)
    ensures MatchesToday(today, name) <==> ParseVersion(name).Success? && ParseVersion(name).value.prefix == today
  {
    if MatchesToday(today, name) {
      var suffix := name[|today|..];
      assert name == today + suffix;
      ParseOfComposed(today, suffix);
    } else if ParseVersion(name).Success? && ParseVersion(name).value.prefix == today {
      var v := ParseVersion(name).value;
      ComposedTag(today, v.suffix);
    }
  }

  /** `maxNum`: the largest suffix number among the names that match today's
      pattern, or 0 when none does, folded over the listing in order. */
  function MaxMatching(today: string, names: seq<string>): (m: nat)
    ensures (m == 0) == (Matching(today, names) == [])
  {
    if names == [] then 0
    else
      var rest := MaxMatching(today, names[..|names| - 1]);
      var last := names[|names| - 1];
      if MatchesToday(today, last) && TagNumber(today, last) > rest then TagNumber(today, last) else rest
  }

  /** No matching name has a larger suffix number than the maximum. */
  lemma {:induction false} MaxMatchingBound(today: string, names: seq<string>)
    ensures forall i :: 0 <= i < |names| && MatchesToday(today, names[i]) ==>
      TagNumber(today, names[i]) <= MaxMatching(today, names)
  {
    if names != [] {
      var init := names[..|names| - 1];
      MaxMatchingBound(today, init);
      assert forall i :: 0 <= i < |init| ==> init[i] == names[i];
    }
  }

  /** The maximum is 0 or the suffix number of some matching name. */
  lemma {:induction false} MaxMatchingAttained(today: string, names: seq<string>)
    ensures MaxMatching(today, names) == 0 ||
      exists i :: 0 <= i < |names| && MatchesToday(today, names[i]) && TagNumber(today, names[i]) == MaxMatching(today, names)
  {
    if names != [] {
      var init := names[..|names| - 1];
      MaxMatchingAttained(today, init);
      if MaxMatching(today, names) != MaxMatching(today, init) {
        var j := |names| - 1;
        assert MatchesToday(today, names[j]) && TagNumber(today, names[j]) == MaxMatching(today, names);
      } else if MaxMatching(today, init) != 0 {
        var i :| 0 <= i < |init| && MatchesToday(today, init[i]) && TagNumber(today, init[i]) == MaxMatching(today, init);
        assert init[i] == names[i];
      }
    }
  }

  /** `matchingTags`: the names that match today's pattern, in listing order. */
  function Matching(today: string, names: seq<string>): (ms: seq<string>)
    ensures |ms| <= |names|
  {
    if names == [] then []
    else
      var rest := Matching(today, names[..|names| - 1]);
      var last := names[|names| - 1];
      if MatchesToday(today, last) then rest + [last] else rest
  }

  /** The matching names are exactly the listed names of today's sequence. */
  lemma {:induction false} MatchingMembers(today: string, names: seq<string>)
    ensures forall x :: x in Matching(today, names) <==> x in names && MatchesToday(today, x)
  {
    if names != [] {
      var last := names[|names| - 1];
      assert names == names[..|names| - 1] + [last];
      MatchingMembers(today, names[..|names| - 1]);
    }
  }

  /** The tag a candidate scan issues: today's prefix and the encoding of
      one more than the largest matching suffix number. */
  function NextFromCandidates(today: string, names: seq<string>): (tag: string)
    ensures MatchesToday(today, tag)
  {
    ComposedTag(today, Encode(MaxMatching(today, names) + 1));
    today + Encode(MaxMatching(today, names) + 1)
  }

  /** The scanned tag, which belongs to today's sequence, has a suffix that
      decodes to one more than the largest matching one. */
  lemma ScannedTagIsTodays(today: string, names: seq<string>)
    ensures TagNumber(today, NextFromCandidates(today, names)) == MaxMatching(today, names) + 1
  {
    EncodedTag(today, MaxMatching(today, names) + 1);
  }

  /** Hence the scanned tag is numbered above every matching name. */
  lemma NextExceedsEveryMatch(today: string, names: seq<string>)
    ensures forall i :: 0 <= i < |names| && MatchesToday(today, names[i]) ==>
      TagNumber(today, names[i]) < TagNumber(today, NextFromCandidates(today, names))
  {
    ScannedTagIsTodays(today, names);
    MaxMatchingBound(today, names);
  }

  /** Two listings with the same matching names give the same maximum,
      whatever their order and whatever else they hold. */
  lemma SameMatchesSameMax(today: string, a: seq<string>, b: seq<string>)
    requires forall x :: x in a && MatchesToday(today, x) ==> x in b
    requires forall x :: x in b && MatchesToday(today, x) ==> x in a
    ensures MaxMatching(today, a) == MaxMatching(today, b)
  {
    var ma, mb := MaxMatching(today, a), MaxMatching(today, b);
    MaxMatchingBound(today, a);
    MaxMatchingBound(today, b);
    MaxMatchingAttained(today, a);
    MaxMatchingAttained(today, b);
    if ma > 0 {
      var i :| 0 <= i < |a| && MatchesToday(today, a[i]) && TagNumber(today, a[i]) == ma;
      assert a[i] in b;
      var j :| 0 <= j < |b| && b[j] == a[i];
    }
    if mb > 0 {
      var i :| 0 <= i < |b| && MatchesToday(today, b[i]) && TagNumber(today, b[i]) == mb;
      assert b[i] in a;
      var j :| 0 <= j < |a| && a[j] == b[i];
    }
  }

  /** Names that do not match today's pattern do not affect the scanned tag. */
  lemma NonMatchingIgnored(today: string, names: seq<string>)
    ensures NextFromCandidates(today, Matching(today, names)) == NextFromCandidates(today, names)
  {
    MatchingMembers(today, names);
    SameMatchesSameMax(today, Matching(today, names), names);
  }

  /** The scanned tag depends on the set of listed names, not on their order
      or repetition. */
  lemma CandidateOrderIrrelevant(today: string, a: seq<string>, b: seq<string>)
    requires forall x :: x in a <==> x in b
    ensures NextFromCandidates(today, a) == NextFromCandidates(today, b)
  {
    SameMatchesSameMax(today, a, b);
  }

  /** With no matching name the scan starts today's sequence at "a". */
  lemma NoMatchStartsAtA(today: string, names: seq<string>)
    requires forall i :: 0 <= i < |names| ==> !MatchesToday(today, names[i])
    ensures NextFromCandidates(today, names) == today + "a"
  {
    SameMatchesSameMax(today, names, []);
  }

  /** Issuing the scanned tag and scanning again yields the next suffix. */
  lemma ScanSeesIssuedTag(today: string, names: seq<string>)
    ensures var t := NextFromCandidates(today, names);
      TagNumber(today, NextFromCandidates(today, names + [t])) == TagNumber(today, t) + 1
  {
    var t := NextFromCandidates(today, names);
    ScannedTagIsTodays(today, names);
    assert (names + [t])[..|names|] == names;
    ScannedTagIsTodays(today, names + [t]);
  }

  // ---- Explicit-prior mode ----

  /** The explicit-prior branch: a current version that does not parse fails
      with the wrapped format error; one with today's prefix gets its suffix
      incremented; one with any other prefix restarts at "a". */
  function NextAfterPrior(today: string, current: string): (r: Result<string>)
    ensures r.Failure? <==> !MatchesVersionPattern(current)
    ensures r.Failure? ==> r.error == FailedToParseCurrentVersion(InvalidVersionFormat(current))
    ensures r.Success? ==> MatchesToday(today, r.value)
  {
    ComposedTag(today, "a");
    match ParseVersion(current)
    case Failure(e) => Failure(FailedToParseCurrentVersion(e))
    case Success(v) =>
      if v.prefix == today then
        ComposedTag(today, Encode(Value(v.suffix) + 1));
        Success(today + Encode(Value(v.suffix) + 1))
      else Success(today + "a")
  }

  /** Same prefix: the new tag is today's prefix and the encoding of one
      more than the current suffix's number. */
  lemma PriorSameDayTag(today: string, current: string, suffix: string)
    requires ParseVersion(current) == Success(Version(today, suffix))
    ensures NextAfterPrior(today, current) == Success(today + Encode(Value(suffix) + 1))
  {
    match ParseVersion(current)
    case Success(v) =>
      assert v.prefix == today && v.suffix == suffix;
  }

  /** Hence it belongs to today's sequence and decodes to one more. */
  lemma PriorSameDay(today: string, current: string, suffix: string)
    requires ParseVersion(current) == Success(Version(today, suffix))
    ensures NextAfterPrior(today, current).Success?
    ensures MatchesToday(today, NextAfterPrior(today, current).value)
    ensures TagNumber(today, NextAfterPrior(today, current).value) == Value(suffix) + 1
  {
    PriorSameDayTag(today, current, suffix);
    var n := Value(suffix) + 1;
    ComposedTag(today, Encode(n));
    ValueOfEncode(n);
  }

  /** Different prefix: the sequence restarts at "a". */
  lemma PriorOtherDay(today: string, current: string)
    requires ParseVersion(current).Success? && ParseVersion(current).value.prefix != today
    ensures NextAfterPrior(today, current) == Success(today + "a")
  {
  }

  /** A current version outside ^(\d{5,7})([a-z]+)$ fails the run. */
  lemma PriorMalformed(today: string, current: string)
    requires !MatchesVersionPattern(current)
    ensures NextAfterPrior(today, current) == Failure(FailedToParseCurrentVersion(InvalidVersionFormat(current)))
  {
  }

  /** The explicit-prior branch as the action runs it. */
  method NextTagFromPrior(today: string, current: string) returns (r: Result<string>)
    ensures r == NextAfterPrior(today, current)
  {
    var parsed := ParseVersion(current);
    if parsed.Failure? {
      return Failure(FailedToParseCurrentVersion(parsed.error));
    }
    var version := parsed.value;
    if version.prefix == today {
      PriorSameDayTag(today, current, version.suffix);
      var currentNum := SuffixToNumber(version.suffix);
      assert currentNum == Success(Value(version.suffix));
      match currentNum
      case Failure(e) =>
        r := Failure(FailedToParseCurrentVersion(e));
      case Success(n) =>
        var nextSuffix := NumberToSuffix(n + 1);
        EncodeOfValue(nextSuffix);
        assert nextSuffix == Encode(n + 1);
        r := Success(today + nextSuffix);
    } else {
      r := Success(today + "a");
    }
  }

  // ---- Candidate-scan mode ----

  /** `.filter(item => item.name)`: drops the entries with an empty name. */
  function KeepNamed(names: seq<string>): (kept: seq<string>)
    ensures forall x :: x in kept <==> x in names && x != []
  {
    if names == [] then []
    else
      assert names == [names[0]] + names[1..];
      var rest := KeepNamed(names[1..]);
      if names[0] != [] then [names[0]] + rest else rest
  }

  /** The listing of the first endpoint that answered with an array, or None
      when every endpoint failed. */
  function FirstListing(attempts: seq<Option<seq<string>>>): (l: Option<seq<string>>)
    ensures l.None? <==> forall i :: 0 <= i < |attempts| ==> attempts[i].None?
    ensures l.Some? ==>
      exists i :: 0 <= i < |attempts| && attempts[i] == l && (forall j :: 0 <= j < i ==> attempts[j].None?)
  {
    if attempts == [] then None
    else if attempts[0].Some? then attempts[0]
    else
      var l := FirstListing(attempts[1..]);
      assert forall i :: 1 <= i < |attempts| ==> attempts[i] == attempts[1..][i - 1];
      l
  }

  /** Once an endpoint has answered, later endpoints are not consulted. */
  lemma {:induction false} LaterEndpointsNotConsulted(a: seq<Option<seq<string>>>, b: seq<Option<seq<string>>>)
    requires FirstListing(a).Some?
    ensures FirstListing(a + b) == FirstListing(a)
  {
    assert (a + b)[0] == a[0];
    if a[0].None? {
      assert (a + b)[1..] == a[1..] + b;
      LaterEndpointsNotConsulted(a[1..], b);
    }
  }

  /** Endpoints that failed are skipped over. */
  lemma {:induction false} FailedEndpointsSkipped(a: seq<Option<seq<string>>>, b: seq<Option<seq<string>>>)
    requires FirstListing(a).None?
    ensures FirstListing(a + b) == FirstListing(b)
  {
    if a != [] {
      assert (a + b)[0] == a[0];
      assert (a + b)[1..] == a[1..] + b;
      FailedEndpointsSkipped(a[1..], b);
    } else {
      assert a + b == b;
    }
  }

  /** The endpoint loop: tries each endpoint in order and stops at the first
      that yields an array of names. */
  method FetchVersions(attempts: seq<Option<seq<string>>>) returns (versions: seq<string>, apiSuccess: bool)
    ensures apiSuccess <==> FirstListing(attempts).Some?
    ensures versions == if apiSuccess then KeepNamed(FirstListing(attempts).value) else []
  {
    versions, apiSuccess := [], false;
    var i := 0;
    while i < |attempts|
      invariant 0 <= i <= |attempts|
      invariant FirstListing(attempts) == FirstListing(attempts[i..])
    {
      assert attempts[i..][0] == attempts[i];
      if attempts[i].Some? {
        versions := KeepNamed(attempts[i].value);
        apiSuccess := true;
        break;
      }
      assert attempts[i..][1..] == attempts[i + 1..];
      i := i + 1;
    }
  }

  /** One step of the scan: the effect of appending names[i]. */
  lemma ScanStep(today: string, names: seq<string>, i: nat)
    requires i < |names|
    ensures MaxMatching(today, names[..i + 1]) ==
      if MatchesToday(today, names[i]) && TagNumber(today, names[i]) > MaxMatching(today, names[..i])
      then TagNumber(today, names[i]) else MaxMatching(today, names[..i])
    ensures Matching(today, names[..i + 1]) ==
      if MatchesToday(today, names[i]) then Matching(today, names[..i]) + [names[i]] else Matching(today, names[..i])
  {
    assert names[..i + 1][..i] == names[..i];
  }

  /** The candidate loop: collects the matching names and keeps the largest
      suffix number seen, then encodes one more. */
  method ScanCandidates(today: string, versions: seq<string>) returns (tag: string, matchingTags: seq<string>)
    ensures tag == NextFromCandidates(today, versions)
    ensures matchingTags == Matching(today, versions)
  {
    var maxNum := 0;
    matchingTags := [];
    var i := 0;
    assert versions[..i] == [];
    while i < |versions|
      invariant 0 <= i <= |versions|
      invariant maxNum == MaxMatching(today, versions[..i])
      invariant matchingTags == Matching(today, versions[..i])
    {
      var name := versions[i];
      ScanStep(today, versions, i);
      if MatchesToday(today, name) {
        matchingTags := matchingTags + [name];
        var num := SuffixToNumber(name[|today|..]);
        match num
        case Success(n) =>
          if n > maxNum {
            maxNum := n;
          }
        case Failure(_) =>
      }
      i := i + 1;
    }
    assert versions[..i] == versions;
    var suffix := NumberToSuffix(maxNum + 1);
    EncodeOfValue(suffix);
    tag := today + suffix;
  }

  /** The tag issued from the outcome of the endpoint loop: "a" when no
      endpoint answered, otherwise the scan of the listed names. */
  function TagFromListing(today: string, listing: Option<seq<string>>): (tag: string)
    ensures MatchesToday(today, tag)
  {
    ComposedTag(today, "a");
    match listing
    case None => today + "a"
    case Some(names) => NextFromCandidates(today, KeepNamed(names))
  }

  /** An unreachable tag source gives the same tag as a listing with no
      matching name. */
  lemma FallbackEqualsEmptyScan(today: string, names: seq<string>)
    requires forall i :: 0 <= i < |names| ==> !MatchesToday(today, names[i])
    ensures TagFromListing(today, None) == TagFromListing(today, Some(names)) == today + "a"
  {
    var kept := KeepNamed(names);
    forall i | 0 <= i < |kept|
      ensures !MatchesToday(today, kept[i])
    {
      assert kept[i] in names;
    }
    NoMatchStartsAtA(today, kept);
  }

  // ---- The whole run ----

  /** A non-empty current version selects explicit-prior mode (an empty one
      is falsy in the action and selects candidate-scan mode). */
  function NextTag(today: string, currentVersion: string, attempts: seq<Option<seq<string>>>): (r: Result<string>)
    ensures r.Failure? <==> currentVersion != [] && !MatchesVersionPattern(currentVersion)
  {
    if currentVersion != [] then NextAfterPrior(today, currentVersion)
    else Success(TagFromListing(today, FirstListing(attempts)))
  }

  /** One run of the action for a given date, year format, current version
      and sequence of endpoint outcomes. */
  method GenerateTag(date: CalendarDate, yearFormat: string, currentVersion: string, attempts: seq<Option<seq<string>>>)
    returns (r: Result<string>)
    ensures r == NextTag(DatePrefix(date, yearFormat), currentVersion, attempts)
  {
    var prefix := DatePrefix(date, yearFormat);
    if currentVersion != [] {
      r := NextTagFromPrior(prefix, currentVersion);
      return;
    }
    var versions, apiSuccess := FetchVersions(attempts);
    if !apiSuccess {
      return Success(prefix + "a");
    }
    var tag, matchingTags := ScanCandidates(prefix, versions);
    return Success(tag);
  }

  /** Every tag a run issues belongs to today's sequence. */
  lemma IssuedTagMatchesToday(today: string, currentVersion: string, attempts: seq<Option<seq<string>>>)
    requires NextTag(today, currentVersion, attempts).Success?
    ensures MatchesToday(today, NextTag(today, currentVersion, attempts).value)
  {
    if currentVersion != [] {
      var parsed := ParseVersion(currentVersion);
      if parsed.value.prefix == today {
        PriorSameDay(today, currentVersion, parsed.value.suffix);
      } else {
        ComposedTag(today, "a");
      }
    } else {
      match FirstListing(attempts)
      case None =>
        ComposedTag(today, "a");
      case Some(names) =>
        ScannedTagIsTodays(today, KeepNamed(names));
    }
  }

  /** For a prefix of five to seven digits, supplying any tag of today's
      sequence as the current version issues the tag numbered one more. */
  lemma CurrentVersionOfToday(today: string, tag: string, attempts: seq<Option<seq<string>>>)
    requires 5 <= |today| <= 7 && AllDigits(today) && MatchesToday(today, tag)
    ensures NextTag(today, tag, attempts).Success?
    ensures MatchesToday(today, NextTag(today, tag, attempts).value)
    ensures TagNumber(today, NextTag(today, tag, attempts).value) == TagNumber(today, tag) + 1
  {
    var suffix := tag[|today|..];
    assert tag == today + suffix;
    ParseOfComposed(today, suffix);
    PriorSameDay(today, tag, suffix);
  }

  /** Feeding an issued tag back as the current version on the same day
      issues the tag whose suffix decodes to one more, whichever mode issued it. */
  lemma RerunIncrements(date: CalendarDate, yearFormat: string, currentVersion: string,
                        attempts: seq<Option<seq<string>>>, laterAttempts: seq<Option<seq<string>>>)
    requires 1 <= date.isoWeek <= 53 && 1 <= date.isoWeekday <= 7
    requires yearFormat == "4" ==> 1000 <= date.year <= 9999
    requires NextTag(DatePrefix(date, yearFormat), currentVersion, attempts).Success?
    ensures var today := DatePrefix(date, yearFormat);
      var issued := NextTag(today, currentVersion, attempts).value;
      NextTag(today, issued, laterAttempts).Success?
    ensures var today := DatePrefix(date, yearFormat);
      var issued := NextTag(today, currentVersion, attempts).value;
      MatchesToday(today, issued) && MatchesToday(today, NextTag(today, issued, laterAttempts).value)
    ensures var today := DatePrefix(date, yearFormat);
      var issued := NextTag(today, currentVersion, attempts).value;
      TagNumber(today, NextTag(today, issued, laterAttempts).value) == TagNumber(today, issued) + 1
  {
    var today := DatePrefix(date, yearFormat);
    IssuedTagMatchesToday(today, currentVersion, attempts);
    DatePrefixShape(date, yearFormat);
    CurrentVersionOfToday(today, NextTag(today, currentVersion, attempts).value, laterAttempts);
  }

  // ---- The unpadded 2-digit year ----

  /** As written, a run in 2105 (2-digit format, week 3, Monday) with no
      reachable tag source issues "5031a", and the same action then rejects
      that tag when it is supplied as the current version. */
  lemma ShortYearTagRejected()
    ensures DatePrefixAsWritten(CalendarDate(2105, 3, 1), "2") == "5031"
    ensures NextTag("5031", "", [None]) == Success("5031a")
    ensures NextTag("5031", "5031a", []) == Failure(FailedToParseCurrentVersion(InvalidVersionFormat("5031a")))
  {
    PadOneDigit(3);
    PadOneDigit(1);
    PadOneDigit(5);
    assert DatePrefixAsWritten(CalendarDate(2105, 3, 1), "2") == ['5'] + ['0', '3'] + ['1'];
    var unreachable: seq<Option<seq<string>>> := [None];
    assert unreachable[1..] == [];
    assert FirstListing(unreachable) == None;
    assert "5031" + "a" == "5031a";
    LeadingDigitsAt("5031a", 4);
  }

  /** Corrected, the same date gives the 5-digit prefix "05031". */
  lemma PaddedYearPrefix()
    ensures DatePrefix(CalendarDate(2105, 3, 1), "2") == "05031"
  {
    SingleDigitFieldsPrefix(CalendarDate(2105, 3, 1), "2");
  }

  /** The tag issued from the corrected prefix is accepted and incremented. */
  lemma PaddedYearTagAccepted()
    ensures NextTag("05031", "05031a", []) == Success("05031b")
  {
    assert AllDigits("05031") && IsSuffix("a");
    assert "05031" + "a" == "05031a";
    ParseOfComposed("05031", "a");
    PriorSameDayTag("05031", "05031a", "a");
    OneLetter('a');
    OneLetterEncode(2);
    assert "05031" + "b" == "05031b";
  }
}
