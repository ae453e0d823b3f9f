/** The timestamp parser: the date-time grammar of section 5.6 of RFC 3339 under
    the calendar limits of its section 5.7, leap seconds excepted. */
module Rfc3339 {
  import opened Wrappers
  import opened Civil

  const ZERO: Byte := 48
  const DASH: Byte := 45
  const COLON: Byte := 58
  const DOT: Byte := 46
  const PLUS: Byte := 43
  const SPACE: Byte := 32
  const UPPER_T: Byte := 84
  const LOWER_T: Byte := 116
  const UPPER_Z: Byte := 90
  const LOWER_Z: Byte := 122

  datatype Problem =
    | Misshapen | NoFractionDigits | BadOffset
    | OffsetHourRange | OffsetMinuteRange
    | MonthRange | DayRange | HourRange | MinuteRange | SecondRange
    | OutsidePlatform

  // ---- digits --------------------------------------------------------------

  predicate IsDigit(b: Byte) {
    ZERO <= b <= ZERO + 9
  }

  predicate AllDigits(bytes: seq<Byte>) {
    forall i :: 0 <= i < |bytes| ==> IsDigit(bytes[i])
  }

  function DecimalValue(bytes: seq<Byte>): nat
    requires AllDigits(bytes)
  {
    if bytes == [] then 0
    else DecimalValue(bytes[..|bytes| - 1]) * 10 + (bytes[|bytes| - 1] - ZERO)
  }

  function DigitsValue(bytes: seq<Byte>): Option<nat> {
    if AllDigits(bytes) then Some(DecimalValue(bytes)) else None
  }

  method Digits(bytes: seq<Byte>) returns (r: Option<nat>)
    ensures r == DigitsValue(bytes)
  {
    var value := 0;
    for i := 0 to |bytes|
      invariant AllDigits(bytes[..i]) && value == DecimalValue(bytes[..i])
    {
      if bytes[i] < ZERO || bytes[i] - ZERO > 9 {
        return None;
      }
      assert bytes[..i + 1][..i] == bytes[..i];
      value := value * 10 + (bytes[i] - ZERO);
    }
    assert bytes[..|bytes|] == bytes;
    return Some(value);
  }

  // ---- the fraction --------------------------------------------------------

  function LeadingDigits(bytes: seq<Byte>): (n: nat)
    ensures n <= |bytes| && AllDigits(bytes[..n])
    ensures n < |bytes| ==> !IsDigit(bytes[n])
  {
    if bytes == [] || !IsDigit(bytes[0]) then 0 else 1 + LeadingDigits(bytes[1..])
  }

  /** The first `count` decimal places of the fraction, padded with zeros. */
  function Places(fraction: seq<Byte>, count: nat): nat
    requires AllDigits(fraction)
  {
    if count == 0 then 0
    else Places(fraction, count - 1) * 10 + (if count <= |fraction| then fraction[count - 1] - ZERO else 0)
  }

  function FractionOf(rest: seq<Byte>): Result<(nat, seq<Byte>), Problem> {
    if rest == [] || rest[0] != DOT then Ok((0, rest))
    else
      var tail := rest[1..];
      var n := LeadingDigits(tail);
      if n == 0 then Err(NoFractionDigits) else Ok((Places(tail[..n], 9), tail[n..]))
  }

  method ParseFraction(rest: seq<Byte>) returns (r: Result<(nat, seq<Byte>), Problem>)
    ensures r == FractionOf(rest)
  {
    if rest == [] || rest[0] != DOT {
      return Ok((0, rest));
    }
    var tail := rest[1..];
    var digitCount := LeadingDigits(tail);
    if digitCount == 0 {
      return Err(NoFractionDigits);
    }
    var fraction := tail[..digitCount];
    var nanos := 0;
    for index := 0 to 9
      invariant nanos == Places(fraction, index)
    {
      var digit := if index < |fraction| then fraction[index] - ZERO else 0;
      nanos := nanos * 10 + digit;
    }
    return Ok((nanos, tail[digitCount..]));
  }

  function Pow10(n: nat): (p: nat)
    ensures p > 0
  {
    if n == 0 then 1 else 10 * Pow10(n - 1)
  }

  lemma {:induction false} Pow10Add(a: nat, b: nat)
    ensures Pow10(a + b) == Pow10(a) * Pow10(b)
    decreases b
  {
    if b != 0 {
      Pow10Add(a, b - 1);
      assert Pow10(a + b) == 10 * Pow10(a + b - 1);
      assert 10 * (Pow10(a) * Pow10(b - 1)) == Pow10(a) * (10 * Pow10(b - 1));
    }
  }

  lemma {:induction false} DecimalBelowPow10(bytes: seq<Byte>)
    requires AllDigits(bytes)
    ensures DecimalValue(bytes) < Pow10(|bytes|)
    decreases |bytes|
  {
    if bytes != [] {
      DecimalBelowPow10(bytes[..|bytes| - 1]);
    }
  }

  lemma {:induction false} DecimalSplit(bytes: seq<Byte>, k: nat)
    requires AllDigits(bytes) && k <= |bytes|
    ensures DecimalValue(bytes) == DecimalValue(bytes[..k]) * Pow10(|bytes| - k) + DecimalValue(bytes[k..])
    decreases |bytes| - k
  {
    var n := |bytes|;
    if k == n {
      assert bytes[..k] == bytes;
    } else {
      var init := bytes[..n - 1];
      DecimalSplit(init, k);
      assert init[..k] == bytes[..k];
      assert init[k..] == bytes[k..][..n - k - 1];
      var head := DecimalValue(bytes[..k]);
      Reassociate(head, Pow10(n - 1 - k), 10);
    }
  }

  lemma {:induction false} PlacesWithin(fraction: seq<Byte>, count: nat)
    requires AllDigits(fraction) && count <= |fraction|
    ensures Places(fraction, count) == DecimalValue(fraction[..count])
    decreases count
  {
    if count != 0 {
      PlacesWithin(fraction, count - 1);
      assert fraction[..count][..count - 1] == fraction[..count - 1];
    }
  }

  lemma {:induction false} PlacesBeyond(fraction: seq<Byte>, count: nat)
    requires AllDigits(fraction) && count >= |fraction|
    ensures Places(fraction, count) == DecimalValue(fraction) * Pow10(count - |fraction|)
    decreases count
  {
    if count == |fraction| {
      PlacesWithin(fraction, count);
      assert fraction[..count] == fraction;
    } else {
      PlacesBeyond(fraction, count - 1);
      Reassociate(DecimalValue(fraction), Pow10(count - 1 - |fraction|), 10);
    }
  }

  /** However many digits, the nanoseconds are the floor of the fraction's exact
      value `DecimalValue(fraction) / 10^|fraction|` times 10^9. */
  lemma NanosAreFloor(fraction: seq<Byte>)
    requires AllDigits(fraction)
    ensures Places(fraction, 9) * Pow10(|fraction|) <= DecimalValue(fraction) * Pow10(9)
    ensures DecimalValue(fraction) * Pow10(9) < (Places(fraction, 9) + 1) * Pow10(|fraction|)
    ensures Places(fraction, 9) < Pow10(9)
  {
    if |fraction| <= 9 { PaddedNanos(fraction); } else { TruncatedNanos(fraction); }
  }

  lemma PaddedNanos(fraction: seq<Byte>)
    requires AllDigits(fraction) && |fraction| <= 9
    ensures Places(fraction, 9) * Pow10(|fraction|) == DecimalValue(fraction) * Pow10(9)
    ensures Places(fraction, 9) < Pow10(9)
  {
    var k, v := |fraction|, DecimalValue(fraction);
    PlacesBeyond(fraction, 9);
    DecimalBelowPow10(fraction);
    Pow10Add(9 - k, k);
    Reassociate(v, Pow10(9 - k), Pow10(k));
    BelowScaled(v, Pow10(k), Pow10(9 - k));
  }

  lemma TruncatedNanos(fraction: seq<Byte>)
    requires AllDigits(fraction) && |fraction| > 9
    ensures Places(fraction, 9) * Pow10(|fraction|) <= DecimalValue(fraction) * Pow10(9)
    ensures DecimalValue(fraction) * Pow10(9) < (Places(fraction, 9) + 1) * Pow10(|fraction|)
    ensures Places(fraction, 9) < Pow10(9)
  {
    var k, v, nanos := |fraction|, DecimalValue(fraction), Places(fraction, 9);
    PlacesWithin(fraction, 9);
    DecimalSplit(fraction, 9);
    DecimalBelowPow10(fraction[9..]);
    DecimalBelowPow10(fraction[..9]);
    Pow10Add(k - 9, 9);
    var low := DecimalValue(fraction[9..]);
    Truncated(v, nanos, low, Pow10(k - 9), Pow10(9));
  }

  /** Dropping `low`, worth less than one unit of `unit`, changes the scaled
      value by less than one step. */
  lemma Truncated(v: nat, high: nat, low: nat, unit: nat, scale: nat)
    requires v == high * unit + low && low < unit && scale > 0
    ensures high * (unit * scale) <= v * scale < (high + 1) * (unit * scale)
  {
    Reassociate(high, unit, scale);
    BelowScaled(low, unit, scale);
    assert v * scale == high * unit * scale + low * scale;
    assert (high + 1) * (unit * scale) == high * (unit * scale) + unit * scale;
  }

  lemma Reassociate(a: int, b: int, c: int)
    ensures a * b * c == a * (b * c)
  {
  }

  lemma BelowScaled(a: nat, b: nat, c: nat)
    requires a < b && c > 0
    ensures a * c < b * c
  {
  }

  // ---- the offset ----------------------------------------------------------

  function OffsetOf(rest: seq<Byte>): Result<int, Problem> {
    if |rest| == 1 && rest[0] in {UPPER_Z, LOWER_Z} then Ok(0)
    else if |rest| == 6 && rest[3] == COLON then
      if rest[0] != PLUS && rest[0] != DASH then Err(BadOffset)
      else
        var sign := if rest[0] == PLUS then 1 else -1;
        var hours := DigitsValue([rest[1], rest[2]]);
        var minutes := DigitsValue([rest[4], rest[5]]);
        if hours.None? || minutes.None? then Err(BadOffset)
        else if hours.value > 23 then Err(OffsetHourRange)
        else if minutes.value > 59 then Err(OffsetMinuteRange)
        else Ok(sign * (hours.value * 3600 + minutes.value * 60))
    else Err(BadOffset)
  }

  // ---- the whole -----------------------------------------------------------

  /** Seconds since the Unix epoch, and nanoseconds into that second. */
  type Instant = (int, nat)

  datatype LocalTime = LocalTime(date: Date, hour: nat, minute: nat, second: nat)

  /** The fixed 19 bytes of the date, the separator and the time. */
  function DateTimeOf(bytes: seq<Byte>): Option<LocalTime> {
    if |bytes| < 19 then None
    else if bytes[4] != DASH || bytes[7] != DASH || bytes[13] != COLON || bytes[16] != COLON then None
    else if bytes[10] !in {UPPER_T, LOWER_T, SPACE} then None
    else
      var year, month, day := DigitsValue(bytes[0..4]), DigitsValue(bytes[5..7]), DigitsValue(bytes[8..10]);
      var hour, minute, second := DigitsValue(bytes[11..13]), DigitsValue(bytes[14..16]), DigitsValue(bytes[17..19]);
      if year.None? || month.None? || day.None? || hour.None? || minute.None? || second.None? then None
      else Some(LocalTime(Date(year.value, month.value, day.value), hour.value, minute.value, second.value))
  }

  /** The range checks, in their order, and the instant. */
  function Resolve(l: LocalTime, nanos: nat, offsetSeconds: int): Result<Instant, Problem> {
    if !(1 <= l.date.month <= 12) then Err(MonthRange)
    else if l.date.day < 1 || l.date.day > DaysInMonth(l.date.year, l.date.month) then Err(DayRange)
    else if l.hour > 23 then Err(HourRange)
    else if l.minute > 59 then Err(MinuteRange)
    else if l.second > 59 then Err(SecondRange)
    else Ok((DaysFromCivil(l.date) * 86400 + l.hour * 3600 + l.minute * 60 + l.second - offsetSeconds, nanos))
  }

  function ParseRfc3339(bytes: seq<Byte>): Result<Instant, Problem> {
    match DateTimeOf(bytes)
    case None => Err(Misshapen)
    case Some(local) =>
      match FractionOf(bytes[19..])
      case Err(problem) => Err(problem)
      case Ok((nanos, rest)) =>
        match OffsetOf(rest)
        case Err(problem) => Err(problem)
        case Ok(offsetSeconds) => Resolve(local, nanos, offsetSeconds)
  }

  // ---- the grammar, as what it renders -------------------------------------

  datatype Offset = Zulu(letter: Byte) | Numeric(ahead: bool, hours: nat, minutes: nat)

  datatype Stamp = Stamp(local: LocalTime, separator: Byte, fraction: seq<Byte>, offset: Offset)

  /** Every field fits its digits; nothing is said of the calendar yet. */
  predicate FitsLocal(l: LocalTime) {
    && 0 <= l.date.year < 10000 && 0 <= l.date.month < 100 && 0 <= l.date.day < 100
    && l.hour < 100 && l.minute < 100 && l.second < 100
  }

  predicate FitsOffset(o: Offset) {
    match o
    case Zulu(letter) => letter in {UPPER_Z, LOWER_Z}
    case Numeric(_, hours, minutes) => hours < 100 && minutes < 100
  }

  predicate Grammatical(t: Stamp) {
    FitsLocal(t.local) && t.separator in {UPPER_T, LOWER_T, SPACE} && AllDigits(t.fraction) && FitsOffset(t.offset)
  }

  function Two(n: nat): seq<Byte>
    requires n < 100
  {
    [ZERO + n / 10, ZERO + n % 10]
  }

  function Four(n: nat): seq<Byte>
    requires n < 10000
  {
    Two(n / 100) + Two(n % 100)
  }

  function RenderOffset(o: Offset): seq<Byte>
    requires FitsOffset(o)
  {
    match o
    case Zulu(letter) => [letter]
    case Numeric(ahead, hours, minutes) =>
      [if ahead then PLUS else DASH] + Two(hours) + [COLON] + Two(minutes)
  }

  function RenderFraction(digits: seq<Byte>): seq<Byte> {
    if digits == [] then [] else [DOT] + digits
  }

  function RenderDateTime(l: LocalTime, separator: Byte): seq<Byte>
    requires FitsLocal(l)
  {
    Four(l.date.year) + [DASH] + Two(l.date.month) + [DASH] + Two(l.date.day) + [separator]
    + Two(l.hour) + [COLON] + Two(l.minute) + [COLON] + Two(l.second)
  }

  function Render(t: Stamp): seq<Byte>
    requires Grammatical(t)
  {
    RenderDateTime(t.local, t.separator) + (RenderFraction(t.fraction) + RenderOffset(t.offset))
  }

  /** The first limit a grammatical timestamp breaks, offset first. */
  function FirstProblem(t: Stamp): Option<Problem> {
    if t.offset.Numeric? && t.offset.hours > 23 then Some(OffsetHourRange)
    else if t.offset.Numeric? && t.offset.minutes > 59 then Some(OffsetMinuteRange)
    else if !(1 <= t.local.date.month <= 12) then Some(MonthRange)
    else if !ValidDate(t.local.date) then Some(DayRange)
    else if t.local.hour > 23 then Some(HourRange)
    else if t.local.minute > 59 then Some(MinuteRange)
    else if t.local.second > 59 then Some(SecondRange)
    else None
  }

  function OffsetSeconds(o: Offset): int {
    match o
    case Zulu(_) => 0
    case Numeric(ahead, hours, minutes) => (if ahead then 1 else -1) * (hours * 3600 + minutes * 60)
  }

  function InstantOf(t: Stamp): Instant
    requires Grammatical(t)
  {
    var l := t.local;
    (DaysFromCivil(l.date) * 86400 + l.hour * 3600 + l.minute * 60 + l.second - OffsetSeconds(t.offset),
     Places(t.fraction, 9))
  }

  lemma TwoRoundTrip(n: nat)
    requires n < 100
    ensures DigitsValue(Two(n)) == Some(n)
  {
    DecimalPair(Two(n));
  }

  lemma DecimalPair(bytes: seq<Byte>)
    requires |bytes| == 2 && AllDigits(bytes)
    ensures DecimalValue(bytes) == (bytes[0] - ZERO) * 10 + (bytes[1] - ZERO)
    ensures Two(DecimalValue(bytes)) == bytes
  {
    var init := bytes[..1];
    assert init[..0] == [];
    assert DecimalValue(init) == bytes[0] - ZERO;
  }

  lemma FourRoundTrip(n: nat)
    requires n < 10000
    ensures DigitsValue(Four(n)) == Some(n)
  {
    DecimalQuad(Four(n));
    DecimalPair(Two(n / 100));
    DecimalPair(Two(n % 100));
    assert Four(n)[..2] == Two(n / 100) && Four(n)[2..] == Two(n % 100);
  }

  lemma DecimalQuad(bytes: seq<Byte>)
    requires |bytes| == 4 && AllDigits(bytes)
    ensures DecimalValue(bytes) == DecimalValue(bytes[..2]) * 100 + DecimalValue(bytes[2..])
    ensures DecimalValue(bytes) < 10000 && Four(DecimalValue(bytes)) == bytes
  {
    var high, low := bytes[..2], bytes[2..];
    HundredIsPow10();
    DecimalSplit(bytes, 2);
    DecimalPair(high);
    DecimalPair(low);
    assert bytes == high + low;
    Centuries(DecimalValue(high), DecimalValue(low));
  }

  lemma HundredIsPow10()
    ensures Pow10(2) == 100
  {
    assert Pow10(1) == 10;
  }

  lemma Centuries(high: nat, low: nat)
    requires high < 100 && low < 100
    ensures high * 100 + low < 10000
    ensures Four(high * 100 + low) == Two(high) + Two(low)
  {
    assert (high * 100 + low) / 100 == high && (high * 100 + low) % 100 == low;
  }

  lemma {:induction false} LeadingDigitsOf(digits: seq<Byte>, rest: seq<Byte>)
    requires AllDigits(digits) && (rest == [] || !IsDigit(rest[0]))
    ensures LeadingDigits(digits + rest) == |digits|
  {
    if digits == [] {
      assert digits + rest == rest;
    } else {
      assert (digits + rest)[1..] == digits[1..] + rest;
      LeadingDigitsOf(digits[1..], rest);
    }
  }

  lemma FractionRoundTrip(digits: seq<Byte>, rest: seq<Byte>)
    requires AllDigits(digits) && rest != [] && !IsDigit(rest[0]) && rest[0] != DOT
    ensures FractionOf(RenderFraction(digits) + rest) == Ok((Places(digits, 9), rest))
  {
    var bytes := RenderFraction(digits) + rest;
    if digits == [] {
      assert bytes == rest;
      PlacesBeyond([], 9);
    } else {
      assert bytes[1..] == digits + rest;
      LeadingDigitsOf(digits, rest);
      assert (digits + rest)[..|digits|] == digits && (digits + rest)[|digits|..] == rest;
    }
  }

  lemma OffsetRoundTrip(o: Offset)
    requires FitsOffset(o)
    ensures var bytes := RenderOffset(o);
            && bytes != [] && !IsDigit(bytes[0]) && bytes[0] != DOT
            && OffsetOf(bytes) == if o.Numeric? && o.hours > 23 then Err(OffsetHourRange)
                                  else if o.Numeric? && o.minutes > 59 then Err(OffsetMinuteRange)
                                  else Ok(OffsetSeconds(o))
  {
    match o
    case Zulu(_) =>
    case Numeric(_, hours, minutes) =>
      TwoRoundTrip(hours);
      TwoRoundTrip(minutes);
      var bytes := RenderOffset(o);
      assert [bytes[1], bytes[2]] == Two(hours);
      assert [bytes[4], bytes[5]] == Two(minutes);
  }

  /** The fixed 19 bytes are read back field by field. */
  lemma DateTimeRoundTrip(l: LocalTime, separator: Byte, rest: seq<Byte>)
    requires FitsLocal(l) && separator in {UPPER_T, LOWER_T, SPACE}
    ensures var bytes := RenderDateTime(l, separator) + rest;
            |bytes| >= 19 && bytes[19..] == rest && DateTimeOf(bytes) == Some(l)
  {
    var bytes := RenderDateTime(l, separator) + rest;
    assert bytes[0..4] == Four(l.date.year);
    assert bytes[5..7] == Two(l.date.month);
    assert bytes[8..10] == Two(l.date.day);
    assert bytes[11..13] == Two(l.hour);
    assert bytes[14..16] == Two(l.minute);
    assert bytes[17..19] == Two(l.second);
    FourRoundTrip(l.date.year);
    TwoRoundTrip(l.date.month);
    TwoRoundTrip(l.date.day);
    TwoRoundTrip(l.hour);
    TwoRoundTrip(l.minute);
    TwoRoundTrip(l.second);
  }

  lemma DateTimeSplit(bytes: seq<Byte>)
    requires DateTimeOf(bytes).Some?
    ensures var l := DateTimeOf(bytes).value;
            FitsLocal(l) && RenderDateTime(l, bytes[10]) == bytes[..19]
  {
    DecimalQuad(bytes[0..4]);
    DecimalPair(bytes[5..7]);
    DecimalPair(bytes[8..10]);
    DecimalPair(bytes[11..13]);
    DecimalPair(bytes[14..16]);
    DecimalPair(bytes[17..19]);
  }

  /** The range checks find the first limit broken, or give the instant. */
  lemma ResolveFindsFirst(t: Stamp)
    requires Grammatical(t)
    requires t.offset.Numeric? ==> t.offset.hours <= 23 && t.offset.minutes <= 59
    ensures Resolve(t.local, Places(t.fraction, 9), OffsetSeconds(t.offset)) == Expected(t)
  {
  }

  function Expected(t: Stamp): Result<Instant, Problem>
    requires Grammatical(t)
  {
    match FirstProblem(t)
    case None => Ok(InstantOf(t))
    case Some(problem) => Err(problem)
  }

  /** Parsing what a grammatical timestamp renders to gives its instant when every
      limit is kept, and otherwise the first limit broken. */
  lemma RenderThenParse(t: Stamp)
    requires Grammatical(t)
    ensures ParseRfc3339(Render(t)) == Expected(t)
  {
    var offset := RenderOffset(t.offset);
    var rest := RenderFraction(t.fraction) + offset;
    DateTimeRoundTrip(t.local, t.separator, rest);
    OffsetRoundTrip(t.offset);
    FractionRoundTrip(t.fraction, offset);
    if OffsetOf(offset).Ok? { ResolveFindsFirst(t); }
  }

  predicate IsLimit(p: Problem) {
    !p.Misshapen? && !p.NoFractionDigits? && !p.BadOffset?
  }

  lemma PartsParse(bytes: seq<Byte>)
    requires ParseRfc3339(bytes).Ok? || IsLimit(ParseRfc3339(bytes).error)
    ensures DateTimeOf(bytes).Some? && FractionOf(bytes[19..]).Ok?
    ensures var offset := OffsetOf(FractionOf(bytes[19..]).value.1); offset.Ok? || IsLimit(offset.error)
  {
  }

  /** A string the parser does not find misshapen is the rendering of a
      grammatical timestamp. */
  lemma ParsedIsRendered(bytes: seq<Byte>) returns (t: Stamp)
    requires ParseRfc3339(bytes).Ok? || IsLimit(ParseRfc3339(bytes).error)
    ensures Grammatical(t) && Render(t) == bytes
  {
    PartsParse(bytes);
    DateTimeSplit(bytes);
    var fraction, tail := SplitFraction(bytes[19..]);
    var offset := SplitOffset(tail);
    t := Stamp(DateTimeOf(bytes).value, bytes[10], fraction, offset);
    Assembled(t, bytes);
  }

  lemma Assembled(t: Stamp, bytes: seq<Byte>)
    requires Grammatical(t) && |bytes| >= 19
    requires RenderDateTime(t.local, t.separator) == bytes[..19]
    requires RenderFraction(t.fraction) + RenderOffset(t.offset) == bytes[19..]
    ensures Render(t) == bytes
  {
    assert bytes == bytes[..19] + bytes[19..];
  }

  lemma SplitFraction(rest: seq<Byte>) returns (digits: seq<Byte>, tail: seq<Byte>)
    requires FractionOf(rest).Ok?
    ensures AllDigits(digits) && FractionOf(rest).value.1 == tail
    ensures rest == RenderFraction(digits) + tail
  {
    if rest == [] || rest[0] != DOT {
      digits, tail := [], rest;
    } else {
      var n := LeadingDigits(rest[1..]);
      digits, tail := rest[1..][..n], rest[1..][n..];
      assert rest == [DOT] + rest[1..];
    }
  }

  lemma SplitOffset(tail: seq<Byte>) returns (o: Offset)
    requires OffsetOf(tail).Ok? || IsLimit(OffsetOf(tail).error)
    ensures FitsOffset(o)
    ensures RenderOffset(o) == tail
  {
    if |tail| == 1 {
      o := Zulu(tail[0]);
    } else {
      var hours, minutes := [tail[1], tail[2]], [tail[4], tail[5]];
      DecimalPair(hours);
      DecimalPair(minutes);
      o := Numeric(tail[0] == PLUS, DecimalValue(hours), DecimalValue(minutes));
    }
  }

  /** Exactly the renderings of timestamps that keep every limit are accepted. */
  lemma AcceptedExactly(bytes: seq<Byte>)
    ensures ParseRfc3339(bytes).Ok? <==>
            exists t :: Grammatical(t) && Render(t) == bytes && FirstProblem(t).None?
    ensures ParseRfc3339(bytes).Err? && IsLimit(ParseRfc3339(bytes).error) <==>
            exists t :: Grammatical(t) && Render(t) == bytes && FirstProblem(t).Some?
  {
    var r := ParseRfc3339(bytes);
    if r.Ok? || IsLimit(r.error) {
      var t := ParsedIsRendered(bytes);
      RenderThenParse(t);
    }
    forall t | Grammatical(t) && Render(t) == bytes
      ensures r == Expected(t)
    {
      RenderThenParse(t);
    }
  }

  // ---- instants ------------------------------------------------------------

  function UnixNanos(bytes: seq<Byte>): Result<int, Problem> {
    match ParseRfc3339(bytes)
    case Ok((seconds, nanos)) => Ok(seconds * NANOS_PER_SECOND + nanos)
    case Err(problem) => Err(problem)
  }

  /** A point in time by its signed distance from the epoch, and the range of
      them a platform can represent. */
  datatype Platform = Platform(earliest: int, latest: int)

  predicate Representable(p: Platform, nanos: int) {
    p.earliest <= nanos <= p.latest
  }

  function UnixInstantToSystemTime(p: Platform, seconds: int, nanos: nat): Option<int>
    requires nanos < NANOS_PER_SECOND
  {
    if seconds >= 0 then
      var later := seconds * NANOS_PER_SECOND + nanos;
      if Representable(p, later) then Some(later) else None
    else
      var magnitude := if nanos == 0 then -seconds * NANOS_PER_SECOND
                       else (-seconds - 1) * NANOS_PER_SECOND + (NANOS_PER_SECOND - nanos);
      if Representable(p, -magnitude) then Some(-magnitude) else None
  }

  lemma ParsedNanosBelowSecond(bytes: seq<Byte>)
    ensures ParseRfc3339(bytes).Ok? ==> ParseRfc3339(bytes).value.1 < NANOS_PER_SECOND
  {
    if ParseRfc3339(bytes).Ok? {
      var t := ParsedIsRendered(bytes);
      RenderThenParse(t);
      NanosAreFloor(t.fraction);
      PowerOfNine();
    }
  }

  lemma PowerOfNine()
    ensures Pow10(9) == NANOS_PER_SECOND
  {
    assert Pow10(3) == 1000;
    assert Pow10(6) == 1000000 by { Pow10Add(3, 3); }
    Pow10Add(6, 3);
  }

  function SystemTime(p: Platform, bytes: seq<Byte>): Result<int, Problem> {
    ParsedNanosBelowSecond(bytes);
    match ParseRfc3339(bytes)
    case Err(problem) => Err(problem)
    case Ok((seconds, nanos)) =>
      match UnixInstantToSystemTime(p, seconds, nanos)
      case Some(time) => Ok(time)
      case None => Err(OutsidePlatform)
  }

  /** Both accessors report one signed nanosecond count, on either side of 1970,
      and fail on the same strings but for what the platform cannot represent. */
  lemma AccessorsAgree(p: Platform, bytes: seq<Byte>)
    ensures SystemTime(p, bytes) == match UnixNanos(bytes)
                                    case Err(problem) => Err(problem)
                                    case Ok(n) => if Representable(p, n) then Ok(n) else Err(OutsidePlatform)
  {
    ParsedNanosBelowSecond(bytes);
  }

  /** Lexicographic order of date, hour, minute, second and truncated fraction. */
  predicate EarlierLocal(a: Stamp, b: Stamp)
    requires AllDigits(a.fraction) && AllDigits(b.fraction)
  {
    if a.local.date != b.local.date then Earlier(a.local.date, b.local.date)
    else if a.local.hour != b.local.hour then a.local.hour < b.local.hour
    else if a.local.minute != b.local.minute then a.local.minute < b.local.minute
    else if a.local.second != b.local.second then a.local.second < b.local.second
    else Places(a.fraction, 9) < Places(b.fraction, 9)
  }

  lemma SecondsOrder(dayA: int, a: LocalTime, dayB: int, b: LocalTime)
    requires a.hour <= 23 && a.minute <= 59 && a.second <= 59
    requires b.hour <= 23 && b.minute <= 59 && b.second <= 59
    ensures dayA * 86400 + a.hour * 3600 + a.minute * 60 + a.second
              < dayB * 86400 + b.hour * 3600 + b.minute * 60 + b.second
            <==> if dayA != dayB then dayA < dayB
                 else if a.hour != b.hour then a.hour < b.hour
                 else if a.minute != b.minute then a.minute < b.minute
                 else a.second < b.second
  {
  }

  lemma NanosOrder(a: int, nanosA: nat, b: int, nanosB: nat)
    requires nanosA < NANOS_PER_SECOND && nanosB < NANOS_PER_SECOND
    ensures a * NANOS_PER_SECOND + nanosA < b * NANOS_PER_SECOND + nanosB <==>
            if a != b then a < b else nanosA < nanosB
  {
  }

  /** Two accepted timestamps with one offset, however spelled, are ordered as their fields are. */
  lemma InstantsOrderedAsFields(a: Stamp, b: Stamp)
    requires Grammatical(a) && Grammatical(b) && OffsetSeconds(a.offset) == OffsetSeconds(b.offset)
    requires FirstProblem(a).None? && FirstProblem(b).None?
    ensures UnixNanos(Render(a)).Ok? && UnixNanos(Render(b)).Ok?
    ensures UnixNanos(Render(a)).value < UnixNanos(Render(b)).value <==> EarlierLocal(a, b)
  {
    RenderThenParse(a);
    RenderThenParse(b);
    NanosAreFloor(a.fraction);
    NanosAreFloor(b.fraction);
    PowerOfNine();
    OrderPreserved(a.local.date, b.local.date);
    SecondsOrder(DaysFromCivil(a.local.date), a.local, DaysFromCivil(b.local.date), b.local);
    SecondsOrder(DaysFromCivil(b.local.date), b.local, DaysFromCivil(a.local.date), a.local);
    NanosOrder(InstantOf(a).0, InstantOf(a).1, InstantOf(b).0, InstantOf(b).1);
  }
}
