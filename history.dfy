/** The relative-timestamp rule of `formatTimestamp` in the history
    sidebar: a history entry's timestamp string is turned into an instant
    to display, `now` minus an offset chosen by the first matching phrase.
    The locale rendering of that instant is not modelled. */
module History {
  import opened Wrappers
  import opened JsText

  const MsPerHour: int := 60 * 60 * 1000
  const MsPerDay: int := 24 * 60 * 60 * 1000

  /** `n * ms` where `n` came from parseInt; NaN propagates. */
  function Scaled(n: Option<int>, ms: int): Option<int> {
    match n
    case None => None
    case Some(v) => Some(v * ms)
  }

  /** The offset `formatTimestamp` subtracts from the clock, or `None` when
      the count it parses is NaN (the sidebar then shows an invalid date).
      The phrases are tested in the order `formatTimestamp` tests them. */
  function TimestampOffset(timestamp: string): Option<int> {
    if Contains(timestamp, "hours ago") then Scaled(ParseInt(FirstToken(timestamp)), MsPerHour)
    else if Contains(timestamp, "day ago") then Scaled(ParseInt(FirstToken(timestamp)), MsPerDay)
    else if Contains(timestamp, "days ago") then Scaled(ParseInt(FirstToken(timestamp)), MsPerDay)
    else if Contains(timestamp, "week ago") then Some(7 * MsPerDay)
    else Some(0)
  }

  /** The largest distance from the epoch, in milliseconds, that a
      JavaScript `Date` can hold. `new Date(t)` with `t` farther out is an
      invalid date (the TimeClip step of the `Date` constructor). */
  const MaxTimeValue: int := 8_640_000_000_000_000

  predicate IsTimeValue(t: int) {
    -MaxTimeValue <= t <= MaxTimeValue
  }

  /** `new Date(now - offset)`: the instant `offset` milliseconds before
      the clock, or `None` for an invalid date, which a NaN offset and an
      instant out of range both give. */
  function Clipped(offset: Option<int>, now: int): Option<int> {
    match offset
    case None => None
    case Some(o) => if IsTimeValue(now - o) then Some(now - o) else None
  }

  /** `formatTimestamp(timestamp)` up to the locale rendering: the instant
      (milliseconds since the epoch) that is displayed, or `None` where the
      sidebar shows "Invalid Date". The clock `now` is itself a valid date.
      It reads nothing but its argument and the clock. */
  function DisplayedInstant(timestamp: string, now: int): Option<int>
    requires IsTimeValue(now)
  {
    Clipped(TimestampOffset(timestamp), now)
  }

  /** Whatever is displayed is a valid date that lies exactly the chosen
      offset before the clock; an invalid date comes from a NaN count or
      from an offset that carries the instant out of the `Date` range. */
  lemma DisplayedInstantMeaning(timestamp: string, now: int)
    requires IsTimeValue(now)
    ensures var r := DisplayedInstant(timestamp, now);
      r.Some? ==> IsTimeValue(r.value) && TimestampOffset(timestamp) == Some(now - r.value)
    ensures var r := DisplayedInstant(timestamp, now);
      r.None? <==> TimestampOffset(timestamp).None? || !IsTimeValue(now - TimestampOffset(timestamp).value)
  {
    ClippedMeaning(TimestampOffset(timestamp), now);
  }

  lemma ClippedMeaning(offset: Option<int>, now: int)
    ensures var r := Clipped(offset, now);
      r.Some? ==> IsTimeValue(r.value) && offset == Some(now - r.value)
    ensures var r := Clipped(offset, now);
      r.None? <==> offset.None? || !IsTimeValue(now - offset.value)
  {
  }

  /** The display step for a timestamp whose offset is known and not
      negative: the instant can only leave the range below its lower end. */
  lemma DisplayedAt(timestamp: string, now: int, o: int)
    requires IsTimeValue(now) && o >= 0 && TimestampOffset(timestamp) == Some(o)
    ensures DisplayedInstant(timestamp, now) == if now - o >= -MaxTimeValue then Some(now - o) else None
  {
  }

  /** A timestamp whose offset is 0 is displayed as the clock reading. */
  lemma ZeroOffsetDisplayed(timestamp: string, now: int)
    requires IsTimeValue(now) && TimestampOffset(timestamp) == Some(0)
    ensures DisplayedInstant(timestamp, now) == Some(now)
  {
    DisplayedAt(timestamp, now, 0);
  }

  /** The display step for an offset of `n` hours. */
  lemma HoursDisplayed(timestamp: string, n: nat, now: int)
    requires IsTimeValue(now) && TimestampOffset(timestamp) == Some(n * MsPerHour)
    ensures DisplayedInstant(timestamp, now)
      == if now - n * MsPerHour >= -MaxTimeValue then Some(now - n * MsPerHour) else None
  {
    HoursScale(n);
    DisplayedAt(timestamp, now, n * MsPerHour);
  }

  lemma HoursScale(n: nat)
    ensures n * MsPerHour == n * 3_600_000 >= 0
    ensures n > 4_800_000_000 ==> n * MsPerHour > 2 * MaxTimeValue
  {
  }

  /** "N … hours ago" is displayed N hours before the clock, unless that
      lies before the earliest valid date. */
  lemma HoursAgoDisplayed(n: nat, rest: string, now: int)
    requires IsTimeValue(now) && Contains(rest, "hours ago")
    ensures DisplayedInstant(DecimalString(n) + " " + rest, now)
      == if now - n * MsPerHour >= -MaxTimeValue then Some(now - n * MsPerHour) else None
  {
    HoursAgoOffset(n, rest);
    HoursDisplayed(DecimalString(n) + " " + rest, n, now);
  }

  /** A count of more than 4.8 billion hours reaches past the earliest
      valid date from any clock reading, so it is shown as an invalid date. */
  lemma HugeHoursCountIsInvalidDate(n: nat, rest: string, now: int)
    requires IsTimeValue(now) && Contains(rest, "hours ago")
    requires n > 4_800_000_000
    ensures DisplayedInstant(DecimalString(n) + " " + rest, now) == None
  {
    HoursAgoDisplayed(n, rest, now);
    HoursScale(n);
  }

  /** A timestamp without "ago", such as an absolute date, is displayed
      as the clock reading itself. */
  lemma UndatedIsDisplayedAsNow(timestamp: string, now: int)
    requires IsTimeValue(now) && !Contains(timestamp, "ago")
    ensures DisplayedInstant(timestamp, now) == Some(now)
  {
    NoAgoIsNow(timestamp);
    ZeroOffsetDisplayed(timestamp, now);
  }

  lemma CountIsFirstToken(n: nat, rest: string)
    ensures ' ' !in DecimalString(n)
    ensures ParseInt(FirstToken(DecimalString(n) + " " + rest)) == Some(n)
  {
    DecimalLacks(n, ' ');
    FirstTokenOfWord(DecimalString(n), rest);
    ParseIntDecimalString(n, []);
    assert DecimalString(n) + [] == DecimalString(n);
  }

  /** "N hours ago" is N hours before now. The hours phrase is tested
      first, so it wins even when a day or week phrase is also present. */
  lemma HoursAgoOffset(n: nat, rest: string)
    requires Contains(rest, "hours ago")
    ensures TimestampOffset(DecimalString(n) + " " + rest) == Some(n * MsPerHour)
  {
    CountIsFirstToken(n, rest);
    ContainsInSuffix(DecimalString(n) + " ", rest, "hours ago");
  }

  /** "N day ago" and "N days ago" are N days before now, when no hours
      phrase comes with them. */
  lemma DaysAgoOffset(n: nat, rest: string)
    requires Contains(rest, "day ago") || Contains(rest, "days ago")
    requires !Contains(rest, "hours ago")
    ensures TimestampOffset(DecimalString(n) + " " + rest) == Some(n * MsPerDay)
  {
    var p := DecimalString(n) + " ";
    CountIsFirstToken(n, rest);
    DecimalLacks(n, 'h');
    ContainsSkip(p, rest, "hours ago");
    if Contains(rest, "day ago") {
      ContainsInSuffix(p, rest, "day ago");
    } else {
      ContainsInSuffix(p, rest, "days ago");
    }
  }

  /** "… week ago" is always exactly seven days before now: the word in
      front of it (a number or not) is never read. */
  lemma WeekAgoIgnoresCount(word: string)
    requires 'h' !in word && 'd' !in word
    ensures TimestampOffset(word + " week ago") == Some(7 * MsPerDay)
  {
    var phrase := " week ago";
    var s := word + phrase;
    assert 'h' !in phrase && 'd' !in phrase;
    LacksChar(s, "hours ago", 'h');
    LacksChar(s, "day ago", 'd');
    LacksChar(s, "days ago", 'd');
    assert s[|word| + 1..|word| + 9] == phrase[1..];
    ContainsAt(s, "week ago", |word| + 1);
    WeekBranch(s);
  }

  /** The first branch of the phrase test. */
  lemma HoursBranch(timestamp: string)
    requires Contains(timestamp, "hours ago")
    ensures TimestampOffset(timestamp) == Scaled(ParseInt(FirstToken(timestamp)), MsPerHour)
  {
  }

  /** The second and third branches of the phrase test. */
  lemma DaysBranch(timestamp: string)
    requires !Contains(timestamp, "hours ago")
    requires Contains(timestamp, "day ago") || Contains(timestamp, "days ago")
    ensures TimestampOffset(timestamp) == Scaled(ParseInt(FirstToken(timestamp)), MsPerDay)
  {
  }

  /** The fourth branch of the phrase test. */
  lemma WeekBranch(timestamp: string)
    requires !Contains(timestamp, "hours ago") && !Contains(timestamp, "day ago")
    requires !Contains(timestamp, "days ago") && Contains(timestamp, "week ago")
    ensures TimestampOffset(timestamp) == Some(7 * MsPerDay)
  {
  }

  /** A timestamp with none of the four phrases is shown as now. */
  lemma NoPhraseIsNow(timestamp: string)
    requires !Contains(timestamp, "hours ago") && !Contains(timestamp, "day ago")
    requires !Contains(timestamp, "days ago") && !Contains(timestamp, "week ago")
    ensures TimestampOffset(timestamp) == Some(0)
  {
  }

  lemma NumberLacksPhrases(n: nat, rest: string)
    ensures !Contains(DecimalString(n) + rest, "hours ago") <== !Contains(rest, "hours ago")
    ensures !Contains(DecimalString(n) + rest, "day ago") <== !Contains(rest, "day ago")
    ensures !Contains(DecimalString(n) + rest, "days ago") <== !Contains(rest, "days ago")
    ensures !Contains(DecimalString(n) + rest, "week ago") <== !Contains(rest, "week ago")
  {
    var p := DecimalString(n);
    DecimalLacks(n, 'h');
    DecimalLacks(n, 'd');
    DecimalLacks(n, 'w');
    ContainsSkip(p, rest, "hours ago");
    ContainsSkip(p, rest, "day ago");
    ContainsSkip(p, rest, "days ago");
    ContainsSkip(p, rest, "week ago");
  }

  /** A phrase cannot occur in a string that lacks one of its letters. */
  lemma PhrasesNeedLetters(s: string)
    ensures 'h' !in s || 's' !in s ==> !Contains(s, "hours ago")
    ensures 'd' !in s ==> !Contains(s, "day ago") && !Contains(s, "days ago")
    ensures 'w' !in s ==> !Contains(s, "week ago")
  {
    if 'h' !in s { LacksChar(s, "hours ago", 'h'); }
    if 's' !in s { LacksChar(s, "hours ago", 's'); }
    if 'd' !in s { LacksChar(s, "day ago", 'd'); LacksChar(s, "days ago", 'd'); }
    if 'w' !in s { LacksChar(s, "week ago", 'w'); }
  }

  /** The singular "1 hour ago" matches no phrase and is shown as now:
      it has no 's', no 'd' and no 'w'. */
  lemma SingularHourIsNow(n: nat)
    ensures TimestampOffset(DecimalString(n) + " hour ago") == Some(0)
  {
    var s := DecimalString(n) + " hour ago";
    DecimalLacks(n, 's');
    DecimalLacks(n, 'd');
    DecimalLacks(n, 'w');
    assert 's' !in " hour ago" && 'd' !in " hour ago" && 'w' !in " hour ago";
    PhrasesNeedLetters(s);
    NoPhraseIsNow(s);
  }

  /** " weeks ago" has every letter of "week ago", but no window of it
      spells the phrase: the space after "week" is missing. */
  lemma PluralWeeksPhraseLacksWeekAgo()
    ensures !Contains(" weeks ago", "week ago")
  {
    var s, w := " weeks ago", "week ago";
    forall k | 0 <= k <= |s| - |w|
      ensures s[k..][..|w|] != w
    {
      if k == 2 {
        assert s[k..][..|w|][0] == 'e';
      } else {
        assert s[k..][..|w|][4] != ' ';
      }
    }
    NoWindowNotContains(s, w);
  }

  /** The plural "2 weeks ago" matches no phrase and is shown as now:
      it has no 'h' and no 'd', and no window of it spells "week ago". */
  lemma PluralWeeksIsNow(n: nat)
    ensures TimestampOffset(DecimalString(n) + " weeks ago") == Some(0)
  {
    var s := DecimalString(n) + " weeks ago";
    DecimalLacks(n, 'h');
    DecimalLacks(n, 'd');
    assert 'h' !in " weeks ago" && 'd' !in " weeks ago";
    PhrasesNeedLetters(s);
    PluralWeeksPhraseLacksWeekAgo();
    NumberLacksPhrases(n, " weeks ago");
    NoPhraseIsNow(s);
  }

  /** A count that parseInt reads as NaN, in front of an hours or days
      phrase, gives no offset at all. */
  lemma UnparsableCountIsInvalid(word: string, rest: string)
    requires ' ' !in word && ParseInt(word) == None
    requires Contains(rest, "hours ago") || Contains(rest, "day ago") || Contains(rest, "days ago")
    ensures TimestampOffset(word + " " + rest) == None
  {
    var p := word + " ";
    var s := p + rest;
    FirstTokenOfWord(word, rest);
    assert FirstToken(s) == word;
    if Contains(rest, "hours ago") { ContainsInSuffix(p, rest, "hours ago"); }
    if Contains(rest, "day ago") { ContainsInSuffix(p, rest, "day ago"); }
    if Contains(rest, "days ago") { ContainsInSuffix(p, rest, "days ago"); }
    if Contains(s, "hours ago") {
      HoursBranch(s);
    } else {
      DaysBranch(s);
    }
  }

  /** A word such as "few" or "a" in place of the count ("few hours
      ago", "a day ago") gives no offset. */
  lemma LetterCountIsInvalid(word: string, rest: string)
    requires word != [] && (('a' <= word[0] <= 'z') || ('A' <= word[0] <= 'Z'))
    requires ' ' !in word
    requires Contains(rest, "hours ago") || Contains(rest, "day ago") || Contains(rest, "days ago")
    ensures TimestampOffset(word + " " + rest) == None
  {
    ParseIntRejectsLetter(word);
    UnparsableCountIsInvalid(word, rest);
  }

  /** Every phrase ends in "ago", so a timestamp without "ago" (an absolute
      date) is shown as now. */
  lemma NoAgoIsNow(timestamp: string)
    requires !Contains(timestamp, "ago")
    ensures TimestampOffset(timestamp) == Some(0)
  {
    assert "hours ago" == "hours " + "ago" && "day ago" == "day " + "ago";
    assert "days ago" == "days " + "ago" && "week ago" == "week " + "ago";
    if Contains(timestamp, "hours ago") { ContainsPatternSuffix(timestamp, "hours ", "ago"); }
    if Contains(timestamp, "day ago") { ContainsPatternSuffix(timestamp, "day ", "ago"); }
    if Contains(timestamp, "days ago") { ContainsPatternSuffix(timestamp, "days ", "ago"); }
    if Contains(timestamp, "week ago") { ContainsPatternSuffix(timestamp, "week ", "ago"); }
  }
}
