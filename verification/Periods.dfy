/**
 Date-times and periods on a property (sections 3.3.5 and 3.3.9 of RFC 5545): the value's text and
 the TZID beside it are written and read together.
 */
module Periods {
  import opened Octets
  import opened Syntax
  import opened Grammar
  import opened Gregorian
  import opened Digits
  import opened DateTimes
  import opened Durations
  import opened Escape
  import opened Mutate

  const TZID: Bytes := [84, 90, 73, 68]
  const VALUE: Bytes := [86, 65, 76, 85, 69]
  const DATE_TYPE: Bytes := [68, 65, 84, 69]
  const PERIOD_TYPE: Bytes := [80, 69, 82, 73, 79, 68]

  datatype Period = Explicit(start: DateTimeValue, end: DateTimeValue) | Starting(start: DateTimeValue, duration: Duration)

  // -------------------------------------------------------------------------
  // The zone beside a value
  // -------------------------------------------------------------------------

  /** A parameter value without its DQUOTE pair, or as written when it has none. */
  function Unquoted(s: Bytes): Bytes {
    if Unquote(s).1.Closed? then Unquote(s).0 else s
  }

  function ZoneOf(p: Property): Option<Bytes> {
    var named := Named(p.parameters, TZID);
    if named == [] || Unquoted(named[0].value) == [] then None else Some(Unquoted(named[0].value))
  }

  /** The identifiers that are written as themselves: those caret encoding leaves alone. */
  predicate ZoneSurvives(tzid: Bytes) {
    forall i | 0 <= i < |tzid| :: CaretSpelling(tzid[i]).None?
  }

  lemma {:induction false} EncodeCaretGrows(s: Bytes)
    ensures |EncodeCaret(s)| >= |s|
    ensures EncodeCaret(s) == s <==> ZoneSurvives(s)
    ensures !ZoneSurvives(s) ==> |EncodeCaret(s)| > |s|
  {
    if s != [] {
      EncodeCaretGrows(s[1..]);
      assert s == [s[0]] + s[1..];
      assert ZoneSurvives(s) <==> CaretSpelling(s[0]).None? && ZoneSurvives(s[1..]);
    }
  }

  /** What a reader makes of a zone that was spelled: its caret encoding, undecoded. */
  lemma {:induction false} UnquotedSpelling(tzid: Bytes)
    requires ParameterValueIsWritable(tzid)
    ensures Unquoted(SpelledValue(tzid)) == EncodeCaret(tzid)
  {
    var coded := EncodeCaret(tzid);
    if NeedsQuoting(coded) {
      assert Unquote(Quote(coded)).1.Closed?;
      UnquoteQuote(coded);
    } else if coded != [] {
      assert coded[0] != DQUOTE;
    }
  }

  /** The zone read off a property whose TZID was just assigned or removed. */
  lemma {:induction false} ZoneAfterEdits(p: Property, edits: seq<ParameterEdit>, zone: Option<Bytes>)
    requires edits != [] && edits[|edits| - 1] == ParameterEdit(TZID, zone)
    requires zone.Some? ==> zone.value != [] && ParameterValueIsWritable(zone.value)
    ensures ZoneOf(p.(parameters := EditedAll(p.parameters, edits)))
      == if zone.Some? then Some(EncodeCaret(zone.value)) else None
  {
    hide EncodeCaret, EditedAll, Named, SpelledValue, Unquoted;
    LastWriteWins(p.parameters, edits, TZID);
    assert LastEdit(edits, TZID) == Some(ParameterEdit(TZID, zone));
    if zone.Some? {
      UnquotedSpelling(zone.value);
      EncodeCaretGrows(zone.value);
    }
  }

  // -------------------------------------------------------------------------
  // Date-times
  // -------------------------------------------------------------------------

  /** The parameters a date-time's shape decides. */
  function CoupledDateTime(v: DateTimeValue): seq<ParameterEdit> {
    match v
    case DateOnly(_) => [ParameterEdit(VALUE, Some(DATE_TYPE)), ParameterEdit(TZID, None)]
    case Local(_) => [ParameterEdit(VALUE, None), ParameterEdit(TZID, None)]
    case Utc(_) => [ParameterEdit(VALUE, None), ParameterEdit(TZID, None)]
    case Zoned(_, tzid) => [ParameterEdit(VALUE, None), ParameterEdit(TZID, Some(tzid))]
  }

  function UnderZone(bound: DateTimeValue, zone: Option<Bytes>): DateTimeValue {
    if bound.Local? && zone.Some? then Zoned(bound.stamp, zone.value) else bound
  }

  function DecodeDateTimeProperty(p: Property): Option<DateTimeValue> {
    match DecodeDateTimeValue(p.value)
    case None => None
    case Some(written) => Some(UnderZone(written, ZoneOf(p)))
  }

  lemma {:induction false} LastIsWritable(edits: seq<ParameterEdit>)
    requires Writable(edits) && edits != [] && edits[|edits| - 1].value.Some?
    ensures ParameterValueIsWritable(edits[|edits| - 1].value.value)
  {
  }

  /** A date-time that is written, value and parameters together, is read with its zone encoded. */
  lemma {:induction false} DateTimeSetReadsAs(p: Property, v: DateTimeValue)
    requires EncodeDateTimeValue(v).Some? && Writable(CoupledDateTime(v))
    ensures DecodeDateTimeProperty(Coupled(CoupledDateTime(v), EncodeDateTimeValue(v).value).Of(p))
      == Some(if v.Zoned? then Zoned(v.stamp, EncodeCaret(v.tzid)) else v)
  {
    hide EditedAll, EncodeCaret, DecodeDateTimeValue, ZoneOf, ParameterValueIsWritable;
    var edits, text := CoupledDateTime(v), EncodeDateTimeValue(v).value;
    var q := Coupled(edits, text).Of(p);
    var zone := if v.Zoned? then Some(v.tzid) else None;
    if v.Zoned? { LastIsWritable(edits); EncodeCaretGrows(v.tzid); }
    ValueRoundTrip(v);
    ZoneAfterEdits(q.(parameters := p.parameters), edits, zone);
    assert q.(parameters := p.parameters).(parameters := EditedAll(p.parameters, edits)) == q;
  }

  /**
   It is read back as itself exactly when caret encoding leaves its zone alone: the reader of a
   TZID does not undo the encoding.
   */
  lemma {:induction false} DateTimeSetReadsBackIff(p: Property, v: DateTimeValue)
    requires EncodeDateTimeValue(v).Some? && Writable(CoupledDateTime(v))
    ensures DecodeDateTimeProperty(Coupled(CoupledDateTime(v), EncodeDateTimeValue(v).value).Of(p)) == Some(v)
      <==> (v.Zoned? ==> ZoneSurvives(v.tzid))
  {
    hide EncodeCaret, ZoneSurvives, DecodeDateTimeProperty, Rewrite.Of, Writable;
    DateTimeSetReadsAs(p, v);
    if v.Zoned? { EncodeCaretGrows(v.tzid); }
  }

  /** A zone named by one caret, set on any property, comes back as two. */
  lemma {:induction false} CaretZoneComesBackDoubled(p: Property, stamp: CivilDateTime)
    ensures var v := Zoned(stamp, [CARET]);
      && EncodeDateTimeValue(v).Some? && Writable(CoupledDateTime(v))
      && DecodeDateTimeProperty(Coupled(CoupledDateTime(v), EncodeDateTimeValue(v).value).Of(p)) == Some(Zoned(stamp, [CARET, CARET]))
  {
    hide DecodeDateTimeProperty, Rewrite.Of;
    var v := Zoned(stamp, [CARET]);
    assert [CARET][1..] == [] && EncodeCaret([]) == [];
    assert EncodeCaret([CARET]) == [CARET, CARET];
    DateTimeSetReadsAs(p, v);
  }

  /** What is between two DQUOTEs, 34, or the octets as they are. */
  function BetweenQuotes(s: Bytes): Bytes {
    if |s| >= 2 && s[0] == 34 && s[|s| - 1] == 34 then s[1..|s| - 1] else s
  }

  lemma {:induction false} NamedFirst(before: seq<Parameter>, p: Parameter, after: seq<Parameter>, name: Bytes)
    requires forall i | 0 <= i < |before| :: !SameLetters(before[i].name, name)
    requires SameLetters(p.name, name)
    ensures var named := Named(before + [p] + after, name); named != [] && named[0] == p
    ensures Named(before, name) == []
  {
    hide SameLetters, EqIgnoreCase;
    if before == [] {
      EqIgnoreCaseIff(p.name, name);
      assert before + [p] + after == [p] + after;
    } else {
      EqIgnoreCaseIff(before[0].name, name);
      NamedFirst(before[1..], p, after, name);
      assert (before + [p] + after)[1..] == before[1..] + [p] + after;
    }
  }

  /**
   A floating date-time is read in the zone its first TZID names, whatever the case of the name and
   what further ones say, unless that names nothing; a date or a UTC value is in no zone.
   */
  lemma {:induction false} FirstZoneDecides(p: Property, before: seq<Parameter>, named: Parameter, after: seq<Parameter>)
    requires forall i | 0 <= i < |before| :: !SameLetters(before[i].name, [84, 90, 73, 68])
    requires SameLetters(named.name, [84, 90, 73, 68])
    ensures var zone := BetweenQuotes(named.value);
      DecodeDateTimeProperty(p.(parameters := before + [named] + after))
      == match DecodeDateTimeValue(p.value)
         case Some(Local(stamp)) => Some(if zone == [] then Local(stamp) else Zoned(stamp, zone))
         case written => written
    ensures DecodeDateTimeProperty(p.(parameters := before)) == DecodeDateTimeValue(p.value)
  {
    hide DecodeDateTimeValue, Named, SameLetters;
    NamedFirst(before, named, after, TZID);
    assert Unquoted(named.value) == BetweenQuotes(named.value);
  }

  // -------------------------------------------------------------------------
  // Periods
  // -------------------------------------------------------------------------

  function DecodePeriodBound(s: Bytes): (r: Option<DateTimeValue>)
    ensures r.Some? ==> r.value.Local? || r.value.Utc?
  {
    match DecodeDateTimeValue(s)
    case Some(DateOnly(_)) => None
    case written => written
  }

  predicate IsPositive(span: Duration) {
    var r := SingleSigned(span);
    r.Some? && (r.value.days > 0 || r.value.seconds > 0)
  }

  predicate IsPeriodBound(bound: DateTimeValue) {
    !bound.DateOnly? && NamesAWritableZone(bound)
  }

  predicate ZonesDisagree(a: DateTimeValue, b: DateTimeValue) {
    a.Zoned? && b.Zoned? && a.tzid != b.tzid
  }

  function DecodePeriod(s: Bytes): Option<Period> {
    var separator := Until(s, {SLASH});
    if separator == |s| then None
    else
      match DecodePeriodBound(s[..separator])
      case None => None
      case Some(start) =>
        var rest := s[separator + 1..];
        match DecodePeriodBound(rest)
        case Some(end) => Some(Explicit(start, end))
        case None =>
          match DecodeDuration(rest)
          case None => None
          case Some(duration) => if IsPositive(duration) then Some(Starting(start, duration)) else None
  }

  function DecodePeriodProperty(p: Property): Option<Period> {
    match DecodePeriod(p.value)
    case None => None
    case Some(Explicit(start, end)) => Some(Explicit(UnderZone(start, ZoneOf(p)), UnderZone(end, ZoneOf(p))))
    case Some(Starting(start, duration)) => Some(Starting(UnderZone(start, ZoneOf(p)), duration))
  }

  function EncodePeriod(period: Period): Option<Bytes> {
    match period
    case Explicit(start, end) =>
      if !IsPeriodBound(start) || !IsPeriodBound(end) || ZonesDisagree(start, end) then None
      else Some(EncodeDateTimeValue(start).value + [SLASH] + EncodeDateTimeValue(end).value)
    case Starting(start, duration) =>
      if !IsPeriodBound(start) || !IsPositive(duration) then None
      else
        match EncodeDuration(duration)
        case None => None
        case Some(text) => Some(EncodeDateTimeValue(start).value + [SLASH] + text)
  }

  function ZoneNamed(v: DateTimeValue): Option<Bytes> {
    if v.Zoned? then Some(v.tzid) else None
  }

  /** The one zone a period names, if any. */
  function PeriodZone(period: Period): Option<Bytes> {
    match period
    case Explicit(start, end) => if start.Zoned? then Some(start.tzid) else ZoneNamed(end)
    case Starting(start, _) => ZoneNamed(start)
  }

  function CoupledPeriod(period: Period): seq<ParameterEdit> {
    [ParameterEdit(VALUE, Some(PERIOD_TYPE)), ParameterEdit(TZID, PeriodZone(period))]
  }

  /** One bound in a zone and the other floating: one line has no way to say that. */
  predicate Mixed(period: Period) {
    period.Explicit? && ((period.start.Zoned? && period.end.Local?) || (period.start.Local? && period.end.Zoned?))
  }

  /** The text of a bound opens with a digit, the text of a duration never does: no text is both. */
  lemma {:induction false} BoundIsNoDuration(s: Bytes)
    ensures !(DecodePeriodBound(s).Some? && DecodeDuration(s).Some?)
  {
    hide DurationBody;
  }

  lemma {:induction false} PaddedHasNoSlash(n: nat, width: nat)
    ensures forall i | 0 <= i < |Padded(n, width)| :: Padded(n, width)[i] != SLASH
  {
    if width > 0 { PaddedHasNoSlash(n / 10, width - 1); }
  }

  lemma {:induction false} BoundHasNoSlash(v: DateTimeValue)
    requires NamesAWritableZone(v) && !v.DateOnly?
    ensures var text := EncodeDateTimeValue(v).value; forall i | 0 <= i < |text| :: text[i] != SLASH
  {
    hide Padded;
    var d, t := v.stamp.date, v.stamp.time;
    PaddedHasNoSlash(d.year, 4);
    PaddedHasNoSlash(d.month, 2);
    PaddedHasNoSlash(d.day, 2);
    PaddedHasNoSlash(t.hour, 2);
    PaddedHasNoSlash(t.minute, 2);
    PaddedHasNoSlash(t.second, 2);
  }

  /** A bound as its text alone says it: without its zone. */
  function Floating(v: DateTimeValue): DateTimeValue {
    if v.Zoned? then Local(v.stamp) else v
  }

  lemma {:induction false} BoundReads(v: DateTimeValue)
    requires IsPeriodBound(v)
    ensures DecodePeriodBound(EncodeDateTimeValue(v).value) == Some(Floating(v))
  {
    hide DecodeDateTimeValue;
    ValueRoundTrip(v);
  }

  lemma {:induction false} PeriodSplits(start: DateTimeValue, tail: Bytes)
    requires IsPeriodBound(start)
    ensures var s := EncodeDateTimeValue(start).value + [SLASH] + tail; var n := Until(s, {SLASH});
      n < |s| && DecodePeriodBound(s[..n]) == Some(Floating(start)) && s[n + 1..] == tail
  {
    hide EncodeDateTimeValue, DecodePeriodBound;
    var text := EncodeDateTimeValue(start).value;
    var rest := [SLASH] + tail;
    BoundHasNoSlash(start);
    BoundReads(start);
    UntilAppend(text, rest, {SLASH});
    assert text + [SLASH] + tail == text + rest;
    ConcatCuts(text, rest);
    assert (text + rest)[|text| + 1..] == tail;
  }

  /** The text of a period, read without its property, is the period without its zones. */
  lemma {:induction false} PeriodTextReads(period: Period)
    requires EncodePeriod(period).Some?
    requires period.Starting? ==>
      I64_MIN <= period.duration.days <= I64_MAX && I64_MIN <= period.duration.seconds <= I64_MAX
    ensures DecodePeriod(EncodePeriod(period).value)
      == Some(match period
              case Explicit(start, end) => Explicit(Floating(start), Floating(end))
              case Starting(start, duration) => Starting(Floating(start), SingleSigned(duration).value))
  {
    hide EncodeDateTimeValue, DecodePeriodBound, EncodeDuration, DecodeDuration, SingleSigned, Until;
    match period
    case Explicit(start, end) =>
      PeriodSplits(start, EncodeDateTimeValue(end).value);
      BoundReads(end);
    case Starting(start, duration) =>
      var text := EncodeDuration(duration).value;
      PeriodSplits(start, text);
      DurationRoundTrip(duration);
      BoundIsNoDuration(text);
      SinglySigned(duration);
  }

  lemma {:induction false} SinglySigned(v: Duration)
    requires I64_MIN <= v.days <= I64_MAX && I64_MIN <= v.seconds <= I64_MAX
    requires IsPositive(v)
    ensures IsPositive(SingleSigned(v).value)
  {
    SingleSignedKeepsSpan(v);
  }

  /**
   A period that is written, value and parameters together, is read back as itself, in its own
   form, exactly when it does not mix a zoned bound with a floating one, its zone is one caret
   encoding leaves alone, and its duration is its own single-signed form.
   */
  lemma {:induction false} PeriodSetReadsBackIff(p: Property, period: Period)
    requires EncodePeriod(period).Some? && Writable(CoupledPeriod(period))
    requires period.Starting? ==>
      I64_MIN <= period.duration.days <= I64_MAX && I64_MIN <= period.duration.seconds <= I64_MAX
    ensures DecodePeriodProperty(Coupled(CoupledPeriod(period), EncodePeriod(period).value).Of(p)) == Some(period)
      <==> !Mixed(period)
           && (PeriodZone(period).Some? ==> ZoneSurvives(PeriodZone(period).value))
           && (period.Starting? ==> SingleSigned(period.duration) == Some(period.duration))
  {
    hide EditedAll, EncodeCaret, DecodePeriod, ZoneOf, ParameterValueIsWritable, SingleSigned, EncodeDateTimeValue, EncodeDuration;
    var edits, text, zone := CoupledPeriod(period), EncodePeriod(period).value, PeriodZone(period);
    var q := Coupled(edits, text).Of(p);
    if zone.Some? { LastIsWritable(edits); EncodeCaretGrows(zone.value); }
    PeriodTextReads(period);
    ZoneAfterEdits(q.(parameters := p.parameters), edits, zone);
    assert q.(parameters := p.parameters).(parameters := EditedAll(p.parameters, edits)) == q;
  }

  /** A mixed period comes back with both bounds in the zone. */
  lemma {:induction false} MixedComesBackZoned(p: Property, start: CivilDateTime, end: CivilDateTime, tzid: Bytes)
    requires tzid != [] && ZoneSurvives(tzid) && ParameterValueIsWritable(tzid)
    ensures var period := Explicit(Zoned(start, tzid), Local(end));
      EncodePeriod(period).Some?
      && DecodePeriodProperty(Coupled(CoupledPeriod(period), EncodePeriod(period).value).Of(p))
         == Some(Explicit(Zoned(start, tzid), Zoned(end, tzid)))
  {
    hide EditedAll, EncodeCaret, DecodePeriod, ZoneOf, ParameterValueIsWritable, EncodeDateTimeValue;
    var period := Explicit(Zoned(start, tzid), Local(end));
    var edits, text := CoupledPeriod(period), EncodePeriod(period).value;
    var q := Coupled(edits, text).Of(p);
    EncodeCaretGrows(tzid);
    PeriodTextReads(period);
    ZoneAfterEdits(q.(parameters := p.parameters), edits, Some(tzid));
    assert q.(parameters := p.parameters).(parameters := EditedAll(p.parameters, edits)) == q;
  }

  // -------------------------------------------------------------------------
  // Which periods can be written, and which texts are periods
  // -------------------------------------------------------------------------

  /** A date-time that is no date, in a zone that has a name if it is in one. */
  predicate IsBound(v: DateTimeValue) {
    !v.DateOnly? && (v.Zoned? ==> |v.tzid| > 0)
  }

  lemma {:induction false} PositiveIff(span: Duration)
    requires I64_MIN <= span.days <= I64_MAX && I64_MIN <= span.seconds <= I64_MAX
    ensures IsPositive(span) <==> SingleSigned(span).Some? && 86_400 * span.days + span.seconds > 0
  {
    hide SingleSigned;
    SingleSignedKeepsSpan(span);
  }

  /** Two bounds that name no two zones, or one and a positive duration that can be written. */
  lemma {:induction false} EncodePeriodIff(period: Period)
    requires period.Starting? ==>
      I64_MIN <= period.duration.days <= I64_MAX && I64_MIN <= period.duration.seconds <= I64_MAX
    ensures EncodePeriod(period).Some? <==> match period
      case Explicit(start, end) =>
        IsBound(start) && IsBound(end) && (start.Zoned? && end.Zoned? ==> start.tzid == end.tzid)
      case Starting(start, span) =>
        IsBound(start) && EncodeDuration(span).Some? && 86_400 * span.days + span.seconds > 0
  {
    hide EncodeDuration, SingleSigned, IsPositive, EncodeDateTimeValue;
    if period.Starting? {
      PositiveIff(period.duration);
      if EncodeDuration(period.duration).Some? { WrittenIsSingle(period.duration); }
    }
  }

  lemma {:induction false} WrittenIsSingle(span: Duration)
    requires EncodeDuration(span).Some?
    ensures SingleSigned(span).Some?
  {
  }

  /** The value of a text that is cut at its first slash, 47. */
  function AroundSlash(first: Bytes, second: Bytes): Option<Period> {
    match (DecodeDateTimeValue(first), DecodeDateTimeValue(second), DecodeDuration(second))
    case (Some(start), Some(end), _) => if IsBound(start) && IsBound(end) then Some(Explicit(start, end)) else None
    case (Some(start), None, Some(span)) =>
      if IsBound(start) && SingleSigned(span).Some? && 86_400 * span.days + span.seconds > 0
      then Some(Starting(start, span)) else None
    case _ => None
  }

  lemma {:induction false} DecodedFits(s: Bytes)
    ensures DecodeDuration(s).Some? ==>
      var v := DecodeDuration(s).value; I64_MIN <= v.days <= I64_MAX && I64_MIN <= v.seconds <= I64_MAX
  {
    hide DurationBody;
  }

  lemma {:induction false} DateIsNoDuration(s: Bytes)
    requires DecodeDateTimeValue(s).Some?
    ensures DecodeDuration(s) == None
  {
    hide DurationBody;
  }

  /** A text with a slash is read as what stands on either side of the first one; one without is no period. */
  lemma {:induction false} DecodePeriodIs(first: Bytes, second: Bytes)
    requires forall i | 0 <= i < |first| :: first[i] != 47
    ensures DecodePeriod(first + [47] + second) == AroundSlash(first, second)
    ensures DecodePeriod(first) == None
  {
    hide DecodeDateTimeValue, DecodeDuration, IsPositive, SingleSigned;
    var rest := [47] + second;
    UntilAppend(first, rest, {SLASH});
    UntilAppend(first, [], {SLASH});
    assert first + [] == first && first + [47] + second == first + rest;
    ConcatCuts(first, rest);
    assert (first + rest)[|first| + 1..] == second;
    DecodedFits(second);
    if DecodeDuration(second).Some? { PositiveIff(DecodeDuration(second).value); }
    if DecodeDateTimeValue(second).Some? { DateIsNoDuration(second); }
  }

  // -------------------------------------------------------------------------
  // The parameters a write leaves behind: VALUE is 86 65 76 85 69 and TZID 84 90 73 68
  // -------------------------------------------------------------------------

  /** The property with the given parameters has exactly these two of the two names. */
  predicate HasTypeAndZone(ps: seq<Parameter>, valueType: Option<Bytes>, zone: Option<Bytes>) {
    && Named(ps, [86, 65, 76, 85, 69])
       == (if valueType.Some? then [Parameter([86, 65, 76, 85, 69], valueType.value, true)] else [])
    && Named(ps, [84, 90, 73, 68])
       == (if zone.Some? then [Parameter([84, 90, 73, 68], SpelledValue(zone.value), true)] else [])
  }

  lemma {:induction false} PlainTypeSpelling(s: Bytes)
    requires ZoneSurvives(s) && !NeedsQuoting(s)
    ensures SpelledValue(s) == s
  {
    EncodeCaretGrows(s);
  }

  lemma {:induction false} TypeAndZoneSet(ps: seq<Parameter>, valueType: Option<Bytes>, zone: Option<Bytes>)
    requires valueType.Some? ==> ZoneSurvives(valueType.value) && !NeedsQuoting(valueType.value)
    ensures HasTypeAndZone(EditedAll(ps, [ParameterEdit(VALUE, valueType), ParameterEdit(TZID, zone)]), valueType, zone)
  {
    hide EditedAll, Named, SpelledValue, NeedsQuoting, ZoneSurvives;
    var first, last := ParameterEdit(VALUE, valueType), ParameterEdit(TZID, zone);
    var edits := [first, last];
    assert edits[..1] == [first] && !EqIgnoreCase(TZID, VALUE);
    assert LastEdit(edits, TZID) == Some(last);
    assert LastEdit([first], VALUE) == Some(first);
    assert LastEdit(edits, VALUE) == Some(first);
    LastWriteWins(ps, edits, VALUE);
    LastWriteWins(ps, edits, TZID);
    if valueType.Some? { PlainTypeSpelling(valueType.value); }
  }

  /** A date says VALUE=DATE, a zoned date-time its TZID, and no date-time anything else of the two. */
  lemma {:induction false} DateTimeSetParameters(p: Property, v: DateTimeValue, text: Bytes)
    ensures HasTypeAndZone(Coupled(CoupledDateTime(v), text).Of(p).parameters,
              if v.DateOnly? then Some([68, 65, 84, 69]) else None,
              if v.Zoned? then Some(v.tzid) else None)
  {
    hide HasTypeAndZone, EditedAll;
    TypeAndZoneSet(p.parameters, if v.DateOnly? then Some([68, 65, 84, 69]) else None, if v.Zoned? then Some(v.tzid) else None);
  }

  /** A period says VALUE=PERIOD, and the zone of its start or else that of its end. */
  lemma {:induction false} PeriodSetParameters(p: Property, period: Period, text: Bytes)
    ensures HasTypeAndZone(Coupled(CoupledPeriod(period), text).Of(p).parameters,
              Some([80, 69, 82, 73, 79, 68]),
              if period.start.Zoned? then Some(period.start.tzid)
              else if period.Explicit? && period.end.Zoned? then Some(period.end.tzid) else None)
  {
    hide HasTypeAndZone, EditedAll;
    TypeAndZoneSet(p.parameters, Some([80, 69, 82, 73, 79, 68]), PeriodZone(period));
  }
}
