/** What the timestamp parser accepts and returns, stated on the bytes themselves. */
module Rfc3339Bytes {
  import opened Wrappers
  import opened Civil
  import opened Rfc3339

  predicate DigitsFrom(bytes: seq<Byte>, from: nat, to: nat) {
    from <= to <= |bytes| && forall i :: from <= i < to ==> 48 <= bytes[i] <= 57
  }

  /** The number the two digits at `i` write. */
  function Pair(bytes: seq<Byte>, i: nat): int
    requires i + 2 <= |bytes|
  {
    var tens: int, ones: int := bytes[i], bytes[i + 1];
    (tens - 48) * 10 + (ones - 48)
  }

  /** `dddd-dd-dd`, a separator, and `dd:dd:dd`. */
  predicate DateTimeWritten(bytes: seq<Byte>) {
    && |bytes| >= 19
    && DigitsFrom(bytes, 0, 4) && bytes[4] == '-' as int && DigitsFrom(bytes, 5, 7)
    && bytes[7] == '-' as int && DigitsFrom(bytes, 8, 10)
    && (bytes[10] == 'T' as int || bytes[10] == 't' as int || bytes[10] == ' ' as int)
    && DigitsFrom(bytes, 11, 13) && bytes[13] == ':' as int && DigitsFrom(bytes, 14, 16)
    && bytes[16] == ':' as int && DigitsFrom(bytes, 17, 19)
  }

  /** The calendar's limits on what is written there. */
  predicate DateTimeInRange(bytes: seq<Byte>)
    requires |bytes| >= 19
  {
    && ValidDate(DateWritten(bytes))
    && Pair(bytes, 11) <= 23 && Pair(bytes, 14) <= 59 && Pair(bytes, 17) <= 59
  }

  function DateWritten(bytes: seq<Byte>): Date
    requires |bytes| >= 19
  {
    Date(Pair(bytes, 0) * 100 + Pair(bytes, 2), Pair(bytes, 5), Pair(bytes, 8))
  }

  /** From byte 19 up to `end`: nothing, or a point and at least one digit. */
  predicate FractionWritten(bytes: seq<Byte>, end: nat) {
    end == 19 || (21 <= end <= |bytes| && bytes[19] == '.' as int && DigitsFrom(bytes, 20, end))
  }

  /** From byte `at` to the end: the letter z, or a sign and `dd:dd` in range. */
  predicate OffsetWritten(bytes: seq<Byte>, at: nat) {
    || (|bytes| == at + 1 && (bytes[at] == 'Z' as int || bytes[at] == 'z' as int))
    || (&& |bytes| == at + 6 && (bytes[at] == '+' as int || bytes[at] == '-' as int)
        && DigitsFrom(bytes, at + 1, at + 3) && bytes[at + 3] == ':' as int && DigitsFrom(bytes, at + 4, at + 6)
        && Pair(bytes, at + 1) <= 23 && Pair(bytes, at + 4) <= 59)
  }

  /** How far the local time written is ahead of UTC, in seconds. */
  function SecondsAhead(bytes: seq<Byte>, at: nat): int
    requires OffsetWritten(bytes, at)
  {
    if |bytes| == at + 1 then 0
    else
      var magnitude := Pair(bytes, at + 1) * 3600 + Pair(bytes, at + 4) * 60;
      if bytes[at] == '+' as int then magnitude else -magnitude
  }

  /** Whether `bytes` is a timestamp whose fraction ends at `at`. */
  predicate Written(bytes: seq<Byte>, at: nat) {
    DateTimeWritten(bytes) && DateTimeInRange(bytes) && FractionWritten(bytes, at) && OffsetWritten(bytes, at)
  }

  lemma SliceDigits(bytes: seq<Byte>, from: nat, to: nat)
    requires from <= to <= |bytes|
    ensures DigitsFrom(bytes, from, to) <==> AllDigits(bytes[from..to])
  {
    if AllDigits(bytes[from..to]) {
      forall i | from <= i < to
        ensures 48 <= bytes[i] <= 57
      {
        assert IsDigit(bytes[from..to][i - from]);
      }
    }
  }

  lemma PairIs(bytes: seq<Byte>, i: nat)
    requires i + 2 <= |bytes|
    ensures DigitsFrom(bytes, i, i + 2) <==> DigitsValue(bytes[i..i + 2]).Some?
    ensures DigitsFrom(bytes, i, i + 2) ==> DigitsValue(bytes[i..i + 2]) == Some(Pair(bytes, i)) && Pair(bytes, i) >= 0
  {
    SliceDigits(bytes, i, i + 2);
    if DigitsFrom(bytes, i, i + 2) {
      DecimalPair(bytes[i..i + 2]);
    }
  }

  lemma QuadIs(bytes: seq<Byte>)
    requires |bytes| >= 4
    ensures DigitsFrom(bytes, 0, 4) <==> DigitsValue(bytes[0..4]).Some?
    ensures DigitsFrom(bytes, 0, 4) ==> DigitsValue(bytes[0..4]) == Some(Pair(bytes, 0) * 100 + Pair(bytes, 2))
  {
    var quad := bytes[0..4];
    SliceDigits(bytes, 0, 4);
    if DigitsFrom(bytes, 0, 4) {
      DecimalQuad(quad);
      assert quad[..2] == bytes[0..2] && quad[2..] == bytes[2..4];
      PairIs(bytes, 0);
      PairIs(bytes, 2);
    }
  }

  lemma DateTimeRead(bytes: seq<Byte>)
    ensures DateTimeOf(bytes).Some? <==> DateTimeWritten(bytes)
    ensures DateTimeWritten(bytes) ==>
              DateTimeOf(bytes).value
              == LocalTime(DateWritten(bytes), Pair(bytes, 11), Pair(bytes, 14), Pair(bytes, 17))
  {
    if |bytes| >= 19 {
      QuadIs(bytes);
      PairIs(bytes, 5);
      PairIs(bytes, 8);
      PairIs(bytes, 11);
      PairIs(bytes, 14);
      PairIs(bytes, 17);
    }
  }

  // ---- the fraction and the offset -----------------------------------------

  function NanosWritten(bytes: seq<Byte>, end: nat): nat
    requires FractionWritten(bytes, end)
  {
    SliceDigits(bytes, if end == 19 then 0 else 20, if end == 19 then 0 else end);
    if end == 19 then 0 else Places(bytes[20..end], 9)
  }

  /** A point not followed by a digit, and nothing else, is a broken fraction. */
  lemma FractionRefused(bytes: seq<Byte>)
    requires |bytes| >= 19
    ensures FractionOf(bytes[19..]) == Err(NoFractionDigits) <==>
            |bytes| > 19 && bytes[19] == '.' as int && !DigitsFrom(bytes, 20, 21)
    ensures FractionOf(bytes[19..]).Err? ==> FractionOf(bytes[19..]).error == NoFractionDigits
  {
    if |bytes| > 20 { assert bytes[19..][1..][0] == bytes[20]; }
  }

  /** A fraction that was read ends somewhere, and what follows it is left. */
  lemma FractionRead(bytes: seq<Byte>) returns (end: nat)
    requires |bytes| >= 19 && FractionOf(bytes[19..]).Ok?
    ensures end <= |bytes| && FractionWritten(bytes, end)
    ensures FractionOf(bytes[19..]) == Ok((NanosWritten(bytes, end), bytes[end..]))
  {
    var rest := bytes[19..];
    if rest == [] || rest[0] != DOT {
      end := 19;
    } else {
      var tail := rest[1..];
      assert tail == bytes[20..];
      end := 20 + LeadingDigits(tail);
      assert bytes[20..end] == tail[..end - 20] && bytes[end..] == tail[end - 20..];
      SliceDigits(bytes, 20, end);
    }
  }

  /** Where an offset follows, the fraction is read up to there. */
  lemma FractionReadTo(bytes: seq<Byte>, end: nat)
    requires |bytes| >= 19 && FractionWritten(bytes, end) && OffsetWritten(bytes, end)
    ensures FractionOf(bytes[19..]) == Ok((NanosWritten(bytes, end), bytes[end..]))
  {
    if end > 19 {
      var digits, rest := bytes[20..end], bytes[end..];
      SliceDigits(bytes, 20, end);
      LeadingDigitsOf(digits, rest);
      assert bytes[19..][1..] == digits + rest;
      assert (digits + rest)[..|digits|] == digits && (digits + rest)[|digits|..] == rest;
    }
  }

  lemma OffsetRead(bytes: seq<Byte>, at: nat)
    requires at <= |bytes|
    ensures OffsetOf(bytes[at..]).Ok? <==> OffsetWritten(bytes, at)
    ensures OffsetWritten(bytes, at) ==> OffsetOf(bytes[at..]).value == SecondsAhead(bytes, at)
  {
    var rest := bytes[at..];
    if |rest| == 6 {
      PairIs(bytes, at + 1);
      PairIs(bytes, at + 4);
      assert [rest[1], rest[2]] == bytes[at + 1..at + 3];
      assert [rest[4], rest[5]] == bytes[at + 4..at + 6];
    }
  }

  // ---- what is accepted, and what it means ---------------------------------

  lemma RangeChecked(bytes: seq<Byte>, nanos: nat, offset: int)
    requires DateTimeWritten(bytes)
    ensures var local := DateTimeOf(bytes).value;
            && (Resolve(local, nanos, offset).Ok? <==> DateTimeInRange(bytes))
            && (DateTimeInRange(bytes) ==>
                  Resolve(local, nanos, offset) == Ok((SecondsWritten(bytes) - offset, nanos)))
  {
    DateTimeRead(bytes);
  }

  /** The local time written, in seconds from the local 1970-01-01T00:00:00. */
  function SecondsWritten(bytes: seq<Byte>): int
    requires |bytes| >= 19
  {
    DaysFromCivil(DateWritten(bytes)) * 86400 + Pair(bytes, 11) * 3600 + Pair(bytes, 14) * 60 + Pair(bytes, 17)
  }

  /** A string is accepted exactly if it is written as a timestamp within the
      limits, and means the time written less what it is ahead of UTC. */
  lemma AcceptedAsWritten(bytes: seq<Byte>)
    ensures ParseRfc3339(bytes).Ok? <==> exists at :: Written(bytes, at)
    ensures forall at :: Written(bytes, at) ==>
              ParseRfc3339(bytes) == Ok((SecondsWritten(bytes) - SecondsAhead(bytes, at), NanosWritten(bytes, at)))
  {
    DateTimeRead(bytes);
    forall at | Written(bytes, at)
      ensures ParseRfc3339(bytes) == Ok((SecondsWritten(bytes) - SecondsAhead(bytes, at), NanosWritten(bytes, at)))
    {
      FractionReadTo(bytes, at);
      OffsetRead(bytes, at);
      RangeChecked(bytes, NanosWritten(bytes, at), SecondsAhead(bytes, at));
    }
    if ParseRfc3339(bytes).Ok? {
      var at := FractionRead(bytes);
      OffsetRead(bytes, at);
      RangeChecked(bytes, NanosWritten(bytes, at), SecondsAhead(bytes, at));
      assert Written(bytes, at);
    }
  }

  /** Which strings are found misshapen, and which without fraction digits. */
  lemma ShapeErrors(bytes: seq<Byte>)
    ensures ParseRfc3339(bytes) == Err(Misshapen) <==> !DateTimeWritten(bytes)
    ensures ParseRfc3339(bytes) == Err(NoFractionDigits) <==>
            && DateTimeWritten(bytes)
            && |bytes| > 19 && bytes[19] == '.' as int && !DigitsFrom(bytes, 20, 21)
  {
    DateTimeRead(bytes);
    if DateTimeWritten(bytes) { FractionRefused(bytes); }
  }

  /** Each range error names the limit that is broken, those before it kept. */
  lemma RangeErrors(t: Stamp, r: Result<Instant, Problem>)
    requires Grammatical(t) && r == ParseRfc3339(Render(t))
    ensures var d := t.local.date;
            var offsetKept := t.offset.Zulu? || (t.offset.hours <= 23 && t.offset.minutes <= 59);
            var dateKept := offsetKept && ValidDate(d);
            && (r == Err(OffsetHourRange) <==> t.offset.Numeric? && t.offset.hours >= 24)
            && (r == Err(OffsetMinuteRange) <==>
                  t.offset.Numeric? && t.offset.hours <= 23 && t.offset.minutes >= 60)
            && (r == Err(MonthRange) <==> offsetKept && (d.month < 1 || d.month > 12))
            && (r == Err(DayRange) <==> offsetKept && 1 <= d.month <= 12 && !ValidDate(d))
            && (r == Err(HourRange) <==> dateKept && t.local.hour >= 24)
            && (r == Err(MinuteRange) <==> dateKept && t.local.hour <= 23 && t.local.minute >= 60)
            && (r == Err(SecondRange) <==>
                  dateKept && t.local.hour <= 23 && t.local.minute <= 59 && t.local.second >= 60)
  {
    ParsedAsExpected(t, r);
  }

  lemma ParsedAsExpected(t: Stamp, r: Result<Instant, Problem>)
    requires Grammatical(t) && r == ParseRfc3339(Render(t))
    ensures r == match FirstProblem(t) case None => Ok(InstantOf(t)) case Some(problem) => Err(problem)
  {
    RenderThenParse(t);
  }

  // ---- offsets and seconds -------------------------------------------------

  lemma MeansWhatIsWritten(bytes: seq<Byte>, at: nat)
    requires Written(bytes, at)
    ensures ParseRfc3339(bytes) == Ok((SecondsWritten(bytes) - SecondsAhead(bytes, at), NanosWritten(bytes, at)))
  {
    AcceptedAsWritten(bytes);
  }

  /** A time written with `+hh:mm` comes that much before the same written with
      `Z`, and one written with `-hh:mm` that much after it. */
  lemma OffsetShifts(t: Stamp, o: Offset, sign: Byte, hours: nat, minutes: nat,
                     zulu: Result<Instant, Problem>, shifted: Result<Instant, Problem>)
    requires Grammatical(t) && t.offset == Zulu('Z' as int) && FirstProblem(t).None?
    requires (sign == '+' as int || sign == '-' as int) && hours <= 23 && minutes <= 59
    requires FitsOffset(o) && RenderOffset(o) == [sign] + Two(hours) + [':' as int] + Two(minutes)
    requires zulu == ParseRfc3339(Render(t)) && shifted == ParseRfc3339(Render(t.(offset := o)))
    ensures zulu.Ok? && shifted.Ok? && shifted.value.1 == zulu.value.1
    ensures var magnitude := hours * 3600 + minutes * 60;
            shifted.value.0 == zulu.value.0 + (if sign == '+' as int then -magnitude else magnitude)
  {
    OnlyRendering(o, Numeric(sign == '+' as int, hours, minutes));
    ParsedAsExpected(t, zulu);
    ParsedAsExpected(t.(offset := o), shifted);
  }

  lemma AcceptedInstant(t: Stamp)
    requires Grammatical(t) && FirstProblem(t).None?
    ensures ParseRfc3339(Render(t)) == Ok(InstantOf(t))
  {
    RenderThenParse(t);
  }

  lemma OnlyRendering(o: Offset, p: Offset)
    requires FitsOffset(o) && FitsOffset(p) && RenderOffset(o) == RenderOffset(p)
    ensures o == p
  {
    assert RenderOffset(o)[0] == RenderOffset(p)[0];
    if o.Numeric? && p.Numeric? {
      TwoRoundTrip(o.hours);
      TwoRoundTrip(o.minutes);
      TwoRoundTrip(p.hours);
      TwoRoundTrip(p.minutes);
      assert RenderOffset(o)[1..3] == Two(o.hours) && RenderOffset(o)[4..6] == Two(o.minutes);
      assert RenderOffset(p)[1..3] == Two(p.hours) && RenderOffset(p)[4..6] == Two(p.minutes);
    }
  }

  lemma EpochIsWritten(bytes: seq<Byte>)
    requires bytes == [49, 57, 55, 48, 45, 48, 49, 45, 48, 49, 84, 48, 48, 58, 48, 48, 58, 48, 48, 90]
    ensures DateTimeWritten(bytes) && DateWritten(bytes) == Date(1970, 1, 1) && Written(bytes, 19)
    ensures Pair(bytes, 11) == Pair(bytes, 14) == Pair(bytes, 17) == 0
  {
  }

  /** `1970-01-01T00:00:00Z` is zero. */
  lemma EpochParses(bytes: seq<Byte>)
    requires bytes == [49, 57, 55, 48, 45, 48, 49, 45, 48, 49, 84, 48, 48, 58, 48, 48, 58, 48, 48, 90]
    ensures ParseRfc3339(bytes) == Ok((0, 0))
  {
    EpochIsWritten(bytes);
    EpochIsZero();
    MeansWhatIsWritten(bytes, 19);
  }

  /** The local time one second on. */
  function NextSecond(l: LocalTime): LocalTime {
    if l.second < 59 then l.(second := l.second + 1)
    else if l.minute < 59 then l.(minute := l.minute + 1, second := 0)
    else if l.hour < 23 then l.(hour := l.hour + 1, minute := 0, second := 0)
    else LocalTime(NextDay(l.date), 0, 0, 0)
  }

  lemma ClockTicks(t: Stamp, next: Stamp)
    requires Grammatical(t) && Grammatical(next) && FirstProblem(t).None?
    requires next == t.(local := NextSecond(t.local))
    ensures FirstProblem(next).None?
    ensures InstantOf(next).0 == InstantOf(t).0 + 1 && InstantOf(next).1 == InstantOf(t).1
  {
    NextDayIsNext(t.local.date);
    NextDayIsValid(t.local.date);
  }

  /** One second later on the clock and the calendar is one second later. */
  lemma NextSecondIsNext(t: Stamp, next: Stamp)
    requires Grammatical(t) && Grammatical(next) && FirstProblem(t).None?
    requires next == t.(local := NextSecond(t.local))
    ensures ParseRfc3339(Render(t)).Ok? && ParseRfc3339(Render(next)).Ok?
    ensures ParseRfc3339(Render(next)).value.0 == ParseRfc3339(Render(t)).value.0 + 1
    ensures ParseRfc3339(Render(next)).value.1 == ParseRfc3339(Render(t)).value.1
  {
    ClockTicks(t, next);
    AcceptedInstant(t);
    AcceptedInstant(next);
  }

  /** The signed count of nanoseconds since the epoch. */
  lemma NanosecondsCounted(bytes: seq<Byte>)
    ensures UnixNanos(bytes) == if ParseRfc3339(bytes).Ok?
                                then Ok(ParseRfc3339(bytes).value.0 * 1000000000 + ParseRfc3339(bytes).value.1)
                                else Err(ParseRfc3339(bytes).error)
  {
  }
}
