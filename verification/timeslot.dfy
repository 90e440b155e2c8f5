/** The appointment time grid of `isValidThirtyMinuteTimeSlot`: a time of day
    is bookable when it is written `HH:MM` with two digits each, the hour is
    at most 23 and the minutes are `00` or `30`. */
module TimeSlot {
  import opened Wrappers
  import opened Text
  import opened Decimal

  /** The regular expression `^\d{2}:\d{2}$`: JavaScript's `\d` is the ASCII
      digits and `$` without the `m` flag matches only at the very end. */
  predicate MatchesTwoDigitClock(s: string) {
    && |s| == 5
    && IsAsciiDigit(s[0]) && IsAsciiDigit(s[1])
    && s[2] == ':'
    && IsAsciiDigit(s[3]) && IsAsciiDigit(s[4])
  }

  /** The check as the route helper performs it: pattern, split at `:`,
      `Number` on both halves, `Number.isInteger`, hour range, minute grid. */
  function IsValidThirtyMinuteTimeSlot(timeValue: string): bool
  {
    if !MatchesTwoDigitClock(timeValue) then false
    else
      var parts := Split(timeValue, ':');
      var hours := if |parts| > 0 then ParseNat(parts[0]) else None;
      var minutes := if |parts| > 1 then ParseNat(parts[1]) else None;
      if hours.None? || minutes.None? then false
      else if hours.value < 0 || hours.value > 23 then false
      else minutes.value == 0 || minutes.value == 30
  }

  /** A number below 100 written with exactly two digits. */
  function TwoDigits(n: nat): (s: string)
    requires n < 100
    ensures |s| == 2 && AllDigits(s)
    ensures DigitsValue(s) == n
  {
    var s := [DigitChar(n / 10), DigitChar(n % 10)];
    DigitsValueOfPair(s[0], s[1]);
    s
  }

  /** The grid point `hour:minute`, as the booking form offers it. */
  function SlotText(hour: nat, minute: nat): string
    requires hour < 100 && minute < 100
  {
    TwoDigits(hour) + ":" + TwoDigits(minute)
  }

  predicate OnGrid(hour: nat, minute: nat) {
    hour <= 23 && (minute == 0 || minute == 30)
  }

  lemma SplitOfSlotText(hour: nat, minute: nat)
    requires hour < 100 && minute < 100
    ensures Split(SlotText(hour, minute), ':') == [TwoDigits(hour), TwoDigits(minute)]
  {
    var parts := [TwoDigits(hour), TwoDigits(minute)];
    assert Join(parts, ':') == SlotText(hour, minute) by {
      assert parts[1..] == [TwoDigits(minute)];
    }
    assert ':' !in TwoDigits(hour) && ':' !in TwoDigits(minute);
    SplitJoin(parts, ':');
  }

  lemma TwoDigitsOfText(s: string)
    requires |s| == 2 && AllDigits(s)
    ensures DigitsValue(s) < 100 && TwoDigits(DigitsValue(s)) == s
  {
    var tens, ones := DigitValue(s[0]), DigitValue(s[1]);
    DigitsValueOfPair(s[0], s[1]);
    PairDivMod(tens, ones);
    assert DigitChar(tens) == s[0] && DigitChar(ones) == s[1];
    assert s == [s[0], s[1]];
  }

  lemma PairDivMod(tens: nat, ones: nat)
    requires tens < 10 && ones < 10
    ensures (tens * 10 + ones) / 10 == tens && (tens * 10 + ones) % 10 == ones
  {
  }

  /** The accepted strings are exactly the grid points 00:00, 00:30, ...,
      23:30, each written with two-digit hour and minute. */
  lemma ValidSlotIsGridPoint(s: string)
    ensures IsValidThirtyMinuteTimeSlot(s) <==>
      exists hour: nat, minute: nat {:trigger SlotText(hour, minute)} ::
        hour < 100 && minute < 100 && OnGrid(hour, minute) && s == SlotText(hour, minute)
  {
    if IsValidThirtyMinuteTimeSlot(s) {
      var hour, minute := ValidSlotDecomposes(s);
    }
    if exists hour: nat, minute: nat {:trigger SlotText(hour, minute)} ::
        hour < 100 && minute < 100 && OnGrid(hour, minute) && s == SlotText(hour, minute) {
      var hour: nat, minute: nat :| hour < 100 && minute < 100 && OnGrid(hour, minute)
        && s == SlotText(hour, minute);
      GridPointAccepted(hour, minute);
    }
  }

  lemma ValidSlotDecomposes(s: string) returns (hour: nat, minute: nat)
    requires IsValidThirtyMinuteTimeSlot(s)
    ensures hour < 100 && minute < 100 && OnGrid(hour, minute) && s == SlotText(hour, minute)
  {
    var h, m := s[..2], s[3..];
    TwoDigitsOfText(h);
    TwoDigitsOfText(m);
    hour, minute := DigitsValue(h), DigitsValue(m);
    assert s == h + ":" + m;
    assert s == SlotText(hour, minute);
    GridPointAccepted(hour, minute);
  }

  /** A grid point text is accepted exactly when the point is on the grid. */
  lemma GridPointAccepted(hour: nat, minute: nat)
    requires hour < 100 && minute < 100
    ensures IsValidThirtyMinuteTimeSlot(SlotText(hour, minute)) <==> OnGrid(hour, minute)
  {
    SplitOfSlotText(hour, minute);
  }

  /** The half-hour example the booking page offers is accepted. */
  lemma AcceptedSlotExample()
    ensures IsValidThirtyMinuteTimeSlot("09:30")
  {
    GridPointAccepted(9, 30);
    assert SlotText(9, 30) == "09:30";
  }

  /** A quarter hour, hour 24 and a one-digit hour are all refused. */
  lemma RejectedSlotExamples()
    ensures !IsValidThirtyMinuteTimeSlot("09:15")
    ensures !IsValidThirtyMinuteTimeSlot("24:00")
    ensures !IsValidThirtyMinuteTimeSlot("9:30")
  {
    QuarterHourRefused();
    HourTwentyFourRefused();
  }

  lemma QuarterHourRefused()
    ensures !IsValidThirtyMinuteTimeSlot("09:15")
  {
    GridPointAccepted(9, 15);
    assert SlotText(9, 15) == "09:15";
  }

  lemma HourTwentyFourRefused()
    ensures !IsValidThirtyMinuteTimeSlot("24:00")
  {
    GridPointAccepted(24, 0);
    assert SlotText(24, 0) == "24:00";
  }
}
