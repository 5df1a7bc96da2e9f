/**
 Dates, times and offsets as text (sections 3.3.4, 3.3.5, 3.3.12 and 3.3.14 of RFC 5545): the
 texts and the values are in bijection, offsets excepted, which have more texts than values.
 */
module DateTimes {
  import opened Octets
  import opened Gregorian
  import opened Digits

  const LETTER_T: octet := 84
  const LETTER_Z: octet := 90

  datatype DateTimeValue =
    | DateOnly(day: CivilDate)
    | Local(stamp: CivilDateTime)
    | Utc(stamp: CivilDateTime)
    | Zoned(stamp: CivilDateTime, tzid: Bytes)

  function Field(s: Bytes, start: nat, end: nat): Option<nat>
    requires start <= end
  {
    if end <= |s| then Decimal(s[start..end]) else None
  }

  function DecodeDate(s: Bytes): Option<CivilDate> {
    if |s| != 8 then None
    else
      match (Field(s, 0, 4), Field(s, 4, 6), Field(s, 6, 8))
      case (Some(year), Some(month), Some(day)) => FromYmd(year, month, day)
      case _ => None
  }

  function DecodeTime(s: Bytes): Option<CivilTime> {
    if |s| != 6 then None
    else
      match (Field(s, 0, 2), Field(s, 2, 4), Field(s, 4, 6))
      case (Some(hour), Some(minute), Some(second)) => FromHms(hour, minute, second)
      case _ => None
  }

  function DecodeDateTime(s: Bytes): Option<CivilDateTime> {
    if |s| != 15 then None
    else
      match After(s[8..], LETTER_T)
      case None => None
      case Some(clock) =>
        match (DecodeDate(s[..8]), DecodeTime(clock))
        case (Some(date), Some(time)) => Some(CivilDateTime(date, time))
        case _ => None
  }

  /** Never a zoned value: no run of octets names a zone. */
  function DecodeDateTimeValue(s: Bytes): (r: Option<DateTimeValue>)
    ensures r.Some? ==> !r.value.Zoned? && s != [] && IsDigit(s[0])
  {
    if |s| == 8 then
      match DecodeDate(s)
      case Some(date) => assert IsDigit(s[..4][0]); Some(DateOnly(date))
      case None => None
    else if |s| == 15 then
      match DecodeDateTime(s)
      case Some(stamp) => assert IsDigit(s[..8][..4][0]); Some(Local(stamp))
      case None => None
    else if |s| == 16 && s[15] == LETTER_Z then
      match DecodeDateTime(s[..15])
      case Some(stamp) => assert IsDigit(s[..15][..8][..4][0]); Some(Utc(stamp))
      case None => None
    else None
  }

  function EncodeDate(d: CivilDate): Bytes {
    Padded(d.year, 4) + Padded(d.month, 2) + Padded(d.day, 2)
  }

  function EncodeTime(t: CivilTime): Bytes {
    Padded(t.hour, 2) + Padded(t.minute, 2) + Padded(t.second, 2)
  }

  function EncodeDateTime(stamp: CivilDateTime): Bytes {
    EncodeDate(stamp.date) + [LETTER_T] + EncodeTime(stamp.time)
  }

  /** A zoned value whose zone has no name cannot be written. */
  predicate NamesAWritableZone(v: DateTimeValue) {
    v.Zoned? ==> v.tzid != []
  }

  function EncodeDateTimeValue(v: DateTimeValue): (r: Option<Bytes>)
    ensures r.Some? <==> NamesAWritableZone(v)
  {
    if !NamesAWritableZone(v) then None
    else
      match v
      case DateOnly(date) => Some(EncodeDate(date))
      case Local(stamp) => Some(EncodeDateTime(stamp))
      case Zoned(stamp, _) => Some(EncodeDateTime(stamp))
      case Utc(stamp) => Some(EncodeDateTime(stamp) + [LETTER_Z])
  }

  // -------------------------------------------------------------------------
  // Texts and values correspond one to one
  // -------------------------------------------------------------------------

  lemma {:induction false} Pow10s()
    ensures Pow10(2) == 100 && Pow10(4) == 10_000
  {
    assert Pow10(1) == 10 && Pow10(3) == 1000;
  }

  lemma {:induction false} PaddedDecimal(n: nat, width: nat)
    requires n < Pow10(width) && 0 < width && n <= U64_MAX
    ensures Decimal(Padded(n, width)) == Some(n) && |Padded(n, width)| == width
  {
    PaddedReads(n, width);
  }

  lemma {:induction false} DecimalPadded(s: Bytes)
    ensures Decimal(s).Some? ==> Padded(Decimal(s).value, |s|) == s
  {
    if Decimal(s).Some? { ReadsPadded(s); }
  }

  lemma {:induction false} DateRoundTrip(d: CivilDate)
    ensures |EncodeDate(d)| == 8 && DecodeDate(EncodeDate(d)) == Some(d)
  {
    hide Padded, Decimal;
    Pow10s();
    PaddedDecimal(d.year, 4);
    PaddedDecimal(d.month, 2);
    PaddedDecimal(d.day, 2);
    var s := EncodeDate(d);
    assert s[0..4] == Padded(d.year, 4) && s[4..6] == Padded(d.month, 2) && s[6..8] == Padded(d.day, 2);
  }

  lemma {:induction false} DateTextRoundTrip(s: Bytes)
    ensures DecodeDate(s).Some? ==> EncodeDate(DecodeDate(s).value) == s
  {
    hide Padded, Decimal, IsDate;
    if DecodeDate(s).Some? {
      DecimalPadded(s[0..4]);
      DecimalPadded(s[4..6]);
      DecimalPadded(s[6..8]);
      assert s == s[0..4] + s[4..6] + s[6..8];
    }
  }

  lemma {:induction false} TimeRoundTrip(t: CivilTime)
    ensures |EncodeTime(t)| == 6 && DecodeTime(EncodeTime(t)) == Some(t)
  {
    hide Padded, Decimal;
    Pow10s();
    PaddedDecimal(t.hour, 2);
    PaddedDecimal(t.minute, 2);
    PaddedDecimal(t.second, 2);
    var s := EncodeTime(t);
    assert s[0..2] == Padded(t.hour, 2) && s[2..4] == Padded(t.minute, 2) && s[4..6] == Padded(t.second, 2);
  }

  lemma {:induction false} TimeTextRoundTrip(s: Bytes)
    ensures DecodeTime(s).Some? ==> EncodeTime(DecodeTime(s).value) == s
  {
    hide Padded, Decimal, IsTime;
    if DecodeTime(s).Some? {
      DecimalPadded(s[0..2]);
      DecimalPadded(s[2..4]);
      DecimalPadded(s[4..6]);
      assert s == s[0..2] + s[2..4] + s[4..6];
    }
  }

  lemma {:induction false} DateTimeRoundTrip(stamp: CivilDateTime)
    ensures |EncodeDateTime(stamp)| == 15 && DecodeDateTime(EncodeDateTime(stamp)) == Some(stamp)
  {
    hide EncodeDate, EncodeTime, DecodeDate, DecodeTime;
    DateRoundTrip(stamp.date);
    TimeRoundTrip(stamp.time);
    var s := EncodeDateTime(stamp);
    assert s[..8] == EncodeDate(stamp.date) && s[8..][0] == LETTER_T && s[8..][1..] == EncodeTime(stamp.time);
  }

  lemma {:induction false} DateTimeTextRoundTrip(s: Bytes)
    ensures DecodeDateTime(s).Some? ==> EncodeDateTime(DecodeDateTime(s).value) == s
  {
    hide EncodeDate, EncodeTime, DecodeDate, DecodeTime;
    if DecodeDateTime(s).Some? {
      DateTextRoundTrip(s[..8]);
      TimeTextRoundTrip(s[8..][1..]);
      assert s == s[..8] + [s[8]] + s[8..][1..];
    }
  }

  /** A value reads back from its text, a zoned one as the floating octets it is written as. */
  lemma {:induction false} ValueRoundTrip(v: DateTimeValue)
    requires NamesAWritableZone(v)
    ensures DecodeDateTimeValue(EncodeDateTimeValue(v).value) == Some(if v.Zoned? then Local(v.stamp) else v)
  {
    hide EncodeDate, EncodeDateTime, DecodeDate, DecodeDateTime;
    match v
    case DateOnly(date) => DateRoundTrip(date);
    case Local(stamp) => DateTimeRoundTrip(stamp);
    case Zoned(stamp, _) => DateTimeRoundTrip(stamp);
    case Utc(stamp) =>
      DateTimeRoundTrip(stamp);
      assert (EncodeDateTime(stamp) + [LETTER_Z])[..15] == EncodeDateTime(stamp);
  }

  /** A text that is read is the text its value is written as: no value has two. */
  lemma {:induction false} ValueTextRoundTrip(s: Bytes)
    ensures DecodeDateTimeValue(s).Some? ==> EncodeDateTimeValue(DecodeDateTimeValue(s).value) == Some(s)
  {
    hide EncodeDate, EncodeDateTime, DecodeDate, DecodeDateTime;
    if |s| == 8 {
      DateTextRoundTrip(s);
    } else if |s| == 15 {
      DateTimeTextRoundTrip(s);
    } else if |s| == 16 {
      DateTimeTextRoundTrip(s[..15]);
      assert s == s[..15] + [s[15]];
    }
  }

  // -------------------------------------------------------------------------
  // UTC offsets
  // -------------------------------------------------------------------------

  function OffsetFromSeconds(seconds: int): Option<UtcOffset> {
    if -86_400 < seconds < 86_400 then Some(seconds) else None
  }

  function DecodeUtcOffset(s: Bytes): Option<UtcOffset> {
    if s == [] || (s[0] != MINUS && s[0] != PLUS) then None
    else
      var rest := s[1..];
      var second := if |rest| == 4 then Some(0) else if |rest| == 6 then Field(rest, 4, 6) else None;
      match (Field(rest, 0, 2), Field(rest, 2, 4), second)
      case (Some(h), Some(m), Some(sec)) =>
        if h > 23 || m > 59 || sec > 60 then None
        else
          var magnitude: int := h * 3600 + m * 60 + sec;
          if s[0] == MINUS && magnitude == 0 then None
          else OffsetFromSeconds(if s[0] == MINUS then 0 - magnitude else magnitude)
      case _ => None
  }

  function EncodeUtcOffset(offset: UtcOffset): Bytes {
    var total: nat := if offset < 0 then -offset else offset;
    var clock := Padded(total / 3600, 2) + Padded(total % 3600 / 60, 2);
    [if offset < 0 then MINUS else PLUS] + clock + if total % 60 == 0 then [] else Padded(total % 60, 2)
  }

  lemma {:induction false} OffsetFields(s: Bytes, sign: octet, h: Bytes, m: Bytes, tail: Bytes)
    requires |h| == |m| == 2 && s == [sign] + (h + m) + tail
    ensures s[1..] == h + m + tail && |s[1..]| == 4 + |tail|
    ensures s[1..][0..2] == h && s[1..][2..4] == m && s[1..][4..] == tail
    ensures |tail| == 2 ==> s[1..][4..6] == tail
  {
  }

  lemma {:induction false} ClockParts(total: nat)
    ensures total == total / 3600 * 3600 + total % 3600 / 60 * 60 + total % 60
    ensures total < 86_400 ==> total / 3600 <= 23
  {
    assert total % 3600 % 60 == total % 60;
  }

  /** Fields in range are read as what they add up to, less than a day and not minus zero. */
  lemma {:induction false} OffsetFieldsRead(sign: octet, h: nat, m: nat, tail: Bytes, sec: nat)
    requires (sign == MINUS || sign == PLUS) && h <= 23 && m <= 59 && sec <= 60
    requires if tail == [] then sec == 0 else |tail| == 2 && Decimal(tail) == Some(sec)
    ensures var total := h * 3600 + m * 60 + sec;
      DecodeUtcOffset([sign] + (Padded(h, 2) + Padded(m, 2)) + tail)
      == if sign == MINUS && total == 0 then None else OffsetFromSeconds(if sign == MINUS then -total else total)
  {
    hide Padded, Decimal, Pow10, OffsetFromSeconds;
    Pow10s();
    PaddedDecimal(h, 2);
    PaddedDecimal(m, 2);
    OffsetFields([sign] + (Padded(h, 2) + Padded(m, 2)) + tail, sign, Padded(h, 2), Padded(m, 2), tail);
  }

  /** Every offset survives being written and read. */
  lemma {:induction false} OffsetRoundTrip(offset: UtcOffset)
    ensures DecodeUtcOffset(EncodeUtcOffset(offset)) == Some(offset)
  {
    hide Padded, Decimal, Pow10, DecodeUtcOffset;
    var total: nat := if offset < 0 then -offset else offset;
    var sec := total % 60;
    ClockParts(total);
    Pow10s();
    PaddedDecimal(sec, 2);
    OffsetFieldsRead(if offset < 0 then MINUS else PLUS, total / 3600, total % 3600 / 60, if sec == 0 then [] else Padded(sec, 2), sec);
  }

  /** Every offset of whole minutes has a second text: the text is not recovered from the value. */
  lemma {:induction false} OffsetHasAnotherText(offset: UtcOffset)
    requires offset % 60 == 0
    ensures DecodeUtcOffset(EncodeUtcOffset(offset) + [ZERO, ZERO]) == Some(offset)
  {
    hide Padded, Decimal, Pow10, DecodeUtcOffset;
    var total: nat := if offset < 0 then -offset else offset;
    ClockParts(total);
    assert total % 60 == 0;
    TwoZeros();
    var sign, clock := if offset < 0 then MINUS else PLUS, Padded(total / 3600, 2) + Padded(total % 3600 / 60, 2);
    OffsetFieldsRead(sign, total / 3600, total % 3600 / 60, [ZERO, ZERO], 0);
    assert EncodeUtcOffset(offset) + [ZERO, ZERO] == [sign] + clock + [ZERO, ZERO];
  }

  lemma {:induction false} TwoZeros()
    ensures Decimal([ZERO, ZERO]) == Some(0)
  {
    NumberOfSnoc([], ZERO);
    NumberOfSnoc([ZERO], ZERO);
    assert [] + [ZERO] == [ZERO] && [ZERO] + [ZERO] == [ZERO, ZERO];
  }

  // -------------------------------------------------------------------------
  // Which texts are read, and as what, octet by octet: the digits are 48 to 57
  // -------------------------------------------------------------------------

  predicate DigitsFrom(s: Bytes, i: nat) {
    forall k | i <= k < |s| :: 48 <= s[k] <= 57
  }

  /** The number two digits state. */
  function TwoAt(s: Bytes, i: nat): int
    requires i + 1 < |s|
  {
    (s[i] as int - 48) * 10 + (s[i + 1] as int - 48)
  }

  lemma {:induction false} TwoDigits(s: Bytes)
    requires |s| == 2
    ensures Decimal(s) == if DigitsFrom(s, 0) then Some(TwoAt(s, 0)) else None
  {
    if DigitsFrom(s, 0) {
      NumberOfSnoc([], s[0]);
      NumberOfSnoc([s[0]], s[1]);
      assert [] + [s[0]] == [s[0]] && [s[0]] + [s[1]] == s;
    }
  }

  lemma {:induction false} FieldAt(s: Bytes, i: nat)
    requires i + 2 <= |s|
    ensures Field(s, i, i + 2) == if 48 <= s[i] <= 57 && 48 <= s[i + 1] <= 57 then Some(TwoAt(s, i)) else None
  {
    hide Decimal;
    var t := s[i..i + 2];
    assert t[0] == s[i] && t[1] == s[i + 1];
    TwoDigits(t);
  }

  lemma {:induction false} YearAt(s: Bytes)
    requires |s| == 8
    ensures Field(s, 0, 4) ==
      if 48 <= s[0] <= 57 && 48 <= s[1] <= 57 && 48 <= s[2] <= 57 && 48 <= s[3] <= 57
      then Some(TwoAt(s, 0) * 100 + TwoAt(s, 2)) else None
  {
    var t := s[0..4];
    if 48 <= s[0] <= 57 && 48 <= s[1] <= 57 && 48 <= s[2] <= 57 && 48 <= s[3] <= 57 {
      NumberOfSnoc([], s[0]);
      NumberOfSnoc([s[0]], s[1]);
      NumberOfSnoc([s[0], s[1]], s[2]);
      NumberOfSnoc([s[0], s[1], s[2]], s[3]);
      assert [] + [s[0]] == [s[0]] && [s[0]] + [s[1]] == [s[0], s[1]] && [s[0], s[1]] + [s[2]] == [s[0], s[1], s[2]];
      assert [s[0], s[1], s[2]] + [s[3]] == t;
    } else {
      assert t[0] == s[0] && t[1] == s[1] && t[2] == s[2] && t[3] == s[3];
    }
  }

  /** Eight digits, year, month and day, that name a date of the calendar. */
  lemma {:induction false} DecodeDateIs(s: Bytes)
    ensures DecodeDate(s) ==
      if |s| == 8 && DigitsFrom(s, 0) then FromYmd(TwoAt(s, 0) * 100 + TwoAt(s, 2), TwoAt(s, 4), TwoAt(s, 6)) else None
  {
    hide Field, FromYmd;
    if |s| == 8 {
      YearAt(s);
      FieldAt(s, 4);
      FieldAt(s, 6);
    }
  }

  /** Six digits, an hour up to 23, a minute up to 59 and a second up to 60. */
  lemma {:induction false} DecodeTimeIs(s: Bytes)
    ensures DecodeTime(s) ==
      if |s| == 6 && DigitsFrom(s, 0) && TwoAt(s, 0) <= 23 && TwoAt(s, 2) <= 59 && TwoAt(s, 4) <= 60
      then Some(TimeFields(TwoAt(s, 0), TwoAt(s, 2), TwoAt(s, 4))) else None
  {
    hide Field;
    if |s| == 6 {
      FieldAt(s, 0);
      FieldAt(s, 2);
      FieldAt(s, 4);
    }
  }

  /** A date, a T, which is 84, and a time. */
  function StampAt(s: Bytes): Option<CivilDateTime>
    requires |s| >= 15
  {
    if s[8] == 84 && DecodeDate(s[..8]).Some? && DecodeTime(s[9..15]).Some?
    then Some(CivilDateTime(DecodeDate(s[..8]).value, DecodeTime(s[9..15]).value)) else None
  }

  /** A date; or a date and a time; or the two and a Z, which is 90. */
  lemma {:induction false} DecodeValueIs(s: Bytes)
    ensures |s| == 8 ==> DecodeDateTimeValue(s) == match DecodeDate(s) case Some(day) => Some(DateOnly(day)) case None => None
    ensures |s| == 15 ==> DecodeDateTimeValue(s) == match StampAt(s) case Some(stamp) => Some(Local(stamp)) case None => None
    ensures |s| == 16 && s[15] == 90 ==>
      DecodeDateTimeValue(s) == match StampAt(s) case Some(stamp) => Some(Utc(stamp)) case None => None
    ensures |s| == 16 && s[15] != 90 ==> DecodeDateTimeValue(s) == None
    ensures |s| !in {8, 15, 16} ==> DecodeDateTimeValue(s) == None
  {
    hide DecodeDate, DecodeTime;
    if |s| == 15 { assert s[8..][1..] == s[9..15]; }
    if |s| == 16 {
      assert s[..15][..8] == s[..8] && s[..15][8..][1..] == s[9..15];
    }
  }

  /** A sign, 43 or 45, and four digits or six. */
  predicate IsOffsetText(s: Bytes) {
    (|s| == 5 || |s| == 7) && (s[0] == 43 || s[0] == 45) && DigitsFrom(s, 1)
  }

  function OffsetMagnitude(s: Bytes): int
    requires IsOffsetText(s)
  {
    TwoAt(s, 1) * 3600 + TwoAt(s, 3) * 60 + if |s| == 7 then TwoAt(s, 5) else 0
  }

  /** Read exactly with the hour, the minute and the second in range, less than a day, and never as minus zero. */
  lemma {:induction false} DecodeUtcOffsetIs(s: Bytes)
    ensures DecodeUtcOffset(s) ==
      if IsOffsetText(s) && TwoAt(s, 1) <= 23 && TwoAt(s, 3) <= 59 && (|s| == 7 ==> TwoAt(s, 5) <= 60)
         && OffsetMagnitude(s) < 86_400 && (s[0] == 45 ==> OffsetMagnitude(s) != 0)
      then Some(if s[0] == 45 then -OffsetMagnitude(s) else OffsetMagnitude(s)) else None
  {
    hide Field;
    if s != [] && (s[0] == 43 || s[0] == 45) && (|s| == 5 || |s| == 7) {
      var rest := s[1..];
      assert forall k | 0 <= k < |rest| :: rest[k] == s[k + 1];
      FieldAt(rest, 0);
      FieldAt(rest, 2);
      if |s| == 7 { FieldAt(rest, 4); }
    }
  }
}
