/** The case-id year parser `GetYear` of both parser packages (the two copies
    are identical). A case id has the shape NUMBER/RD/YEAR; only the tag and
    the year are checked here, the number part is never inspected. */
module CaseId {
  import opened Wrappers
  import opened Strings
  import opened Strconv

  const TAG := "RD"
  const MIN_YEAR := 2000
  const MAX_YEAR := 2100

  /** The four error returns of GetYear, in the order GetYear checks for them. */
  datatype YearError =
    | InvalidFormat              // not three '/'-parts with RD in the middle
    | YearNotFourBytes           // the year field is not 4 bytes long
    | InvalidYear(field: string) // strconv.Atoi rejected the year field
    | YearOutOfRange(year: int)  // outside 2000..2100

  function GetYear(search: string): (r: Result<int, YearError>)
    ensures r.Ok? ==> MIN_YEAR <= r.value <= MAX_YEAR
    ensures r.Err? && r.error.YearOutOfRange? ==> r.error.year < MIN_YEAR || r.error.year > MAX_YEAR
  {
    var parts := Split(search, '/');
    if |parts| != 3 || parts[1] != TAG then Err(InvalidFormat)
    else
      var yearField := parts[2];
      if |yearField| != 4 then Err(YearNotFourBytes)
      else
        match Atoi(yearField)
        case None => Err(InvalidYear(yearField))
        case Some(year) =>
          if year < MIN_YEAR || year > MAX_YEAR then Err(YearOutOfRange(year)) else Ok(year)
  }

  /** A year field GetYear accepts: four ASCII digits worth 2000..2100. */
  predicate ValidYearField(field: string)
  {
    |field| == 4 && AllDigits(field) && MIN_YEAR <= DigitsValue(field) <= MAX_YEAR
  }

  /** `search` is NUMBER + "/RD/" + FIELD with no '/' in NUMBER or FIELD. */
  predicate CaseIdParts(search: string, number: string, field: string)
  {
    search == number + "/" + TAG + "/" + field && '/' !in number && '/' !in field
  }

  lemma JoinThree(a: string, b: string, c: string)
    ensures Join([a, b, c], '/') == a + "/" + b + "/" + c
  {
    assert [a, b, c][1..] == [b, c];
    assert [b, c][1..] == [c];
    assert Join([c], '/') == c;
    assert Join([b, c], '/') == b + "/" + c;
    assert Join([a, b, c], '/') == a + "/" + (b + "/" + c);
  }

  /** Every accepted id is NUMBER/RD/FIELD with FIELD four digits in range,
      and the year returned is FIELD's value. */
  lemma GetYearSound(search: string, year: int)
    requires GetYear(search) == Ok(year)
    ensures exists number, field :: CaseIdParts(search, number, field) && ValidYearField(field) && year == DigitsValue(field)
  {
    var parts := Split(search, '/');
    assert |parts| == 3;
    JoinThree(parts[0], parts[1], parts[2]);
    assert parts == [parts[0], parts[1], parts[2]];
    assert '/' !in parts[0] && '/' !in parts[2];
    assert CaseIdParts(search, parts[0], parts[2]);
    FourByteAtoi(parts[2], year);
  }

  /** Conversely every NUMBER/RD/FIELD with a valid year field is accepted,
      whatever NUMBER holds. */
  lemma GetYearComplete(number: string, field: string)
    requires '/' !in number && ValidYearField(field)
    ensures GetYear(number + "/" + TAG + "/" + field) == Ok(DigitsValue(field))
  {
    var search := number + "/" + TAG + "/" + field;
    assert '/' !in field by { assert forall i :: 0 <= i < |field| ==> IsDigit(field[i]); }
    JoinThree(number, TAG, field);
    SplitJoin([number, TAG, field], '/');
  }

  /** Anything without exactly two '/' bytes is a format error. */
  lemma GetYearRejectsSlashCount(search: string)
    requires Count(search, '/') != 2
    ensures GetYear(search) == Err(InvalidFormat)
  {
  }

  /** A year field of the wrong length is rejected before it is converted. */
  lemma GetYearRejectsFieldLength(number: string, field: string)
    requires '/' !in number && '/' !in field && |field| != 4
    ensures GetYear(number + "/" + TAG + "/" + field) == Err(YearNotFourBytes)
  {
    JoinThree(number, TAG, field);
    SplitJoin([number, TAG, field], '/');
  }

  /** A four-digit year outside 2000..2100 is reported with its value. */
  lemma GetYearRejectsRange(number: string, field: string)
    requires '/' !in number && |field| == 4 && AllDigits(field)
    requires DigitsValue(field) < MIN_YEAR || DigitsValue(field) > MAX_YEAR
    ensures GetYear(number + "/" + TAG + "/" + field) == Err(YearOutOfRange(DigitsValue(field)))
  {
    assert '/' !in field by { assert forall i :: 0 <= i < |field| ==> IsDigit(field[i]); }
    JoinThree(number, TAG, field);
    SplitJoin([number, TAG, field], '/');
  }

  /** The bot layer's case-id pattern ^\d{1,5}/RD/\d{4}$, read literally. */
  predicate MatchesDecreePattern(s: string)
  {
    exists k :: 1 <= k <= 5 && |s| == k + 8 && AllDigits(s[..k]) && s[k..k + 4] == "/RD/" && AllDigits(s[k + 4..])
  }

  /** On ids matching the bot's pattern GetYear fails only by range. */
  lemma PatternIdsParse(s: string)
    requires MatchesDecreePattern(s)
    ensures var field := s[|s| - 4..];
      AllDigits(field) &&
      GetYear(s) == if MIN_YEAR <= DigitsValue(field) <= MAX_YEAR then Ok(DigitsValue(field))
                    else Err(YearOutOfRange(DigitsValue(field)))
  {
    var k :| 1 <= k <= 5 && |s| == k + 8 && AllDigits(s[..k]) && s[k..k + 4] == "/RD/" && AllDigits(s[k + 4..]);
    var number, field := s[..k], s[k + 4..];
    assert s == s[..k] + s[k..k + 4] + s[k + 4..];
    assert s == number + "/" + TAG + "/" + field;
    assert '/' !in number by { assert forall i :: 0 <= i < |number| ==> IsDigit(number[i]); }
    if MIN_YEAR <= DigitsValue(field) <= MAX_YEAR {
      GetYearComplete(number, field);
    } else {
      GetYearRejectsRange(number, field);
    }
  }

  /** Example, the id from the bot's usage text: "123/RD/2023" parses to 2023. */
  lemma ExampleId()
    ensures GetYear("123/RD/2023") == Ok(2023)
  {
    assert DigitsValue("2023") == 2023 by {
      assert "2023"[..3] == "202";
      assert "202"[..2] == "20";
      assert "20"[..1] == "2";
      assert "2"[..0] == "";
    }
    assert "123/RD/2023" == "123" + "/" + TAG + "/" + "2023";
    GetYearComplete("123", "2023");
  }

  /** An id that does not start with a digit never matches the pattern. */
  lemma NonDigitStartNoMatch(s: string)
    requires |s| >= 1 && !IsDigit(s[0])
    ensures !MatchesDecreePattern(s)
  {
    forall k | 1 <= k <= 5 && k <= |s|
      ensures !AllDigits(s[..k])
    {
      assert s[..k][0] == s[0];
    }
  }

  /** GetYear does not inspect the number part: an id the bot's pattern
      refuses is still accepted here. */
  lemma NumberPartUnchecked()
    ensures GetYear("abc/RD/2023") == Ok(2023) && !MatchesDecreePattern("abc/RD/2023")
  {
    assert DigitsValue("2023") == 2023 by {
      assert "2023"[..3] == "202";
      assert "202"[..2] == "20";
      assert "20"[..1] == "2";
      assert "2"[..0] == "";
    }
    assert "abc/RD/2023" == "abc" + "/" + TAG + "/" + "2023";
    GetYearComplete("abc", "2023");
    NonDigitStartNoMatch("abc/RD/2023");
  }
}
