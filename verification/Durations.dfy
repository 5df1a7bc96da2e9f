/**
 Durations as text (section 3.3.6 of RFC 5545): one sign for the whole span, and what that makes
 of a span whose two parts disagree in sign.
 */
module Durations {
  import opened Octets
  import opened Gregorian
  import opened Digits
  import opened Arith

  const LETTER_D: octet := 68
  const LETTER_H: octet := 72
  const LETTER_M: octet := 77
  const LETTER_P: octet := 80
  const LETTER_S: octet := 83
  const LETTER_T: octet := 84
  const LETTER_W: octet := 87

  const CLOCK_TERMS: seq<(octet, nat)> := [(LETTER_H, 3600), (LETTER_M, 60), (LETTER_S, 1)]

  /** The clock terms of a text, in order, each optional; whether any was there; what is left. */
  function ClockTerms(s: Bytes, terms: seq<(octet, nat)>, seconds: nat, saw: bool): Option<(nat, bool, Bytes)>
    decreases |terms|
  {
    if terms == [] then Some((seconds, saw, s))
    else
      match TakeTerm(s, terms[0].0)
      case None => ClockTerms(s, terms[1..], seconds, saw)
      case Some((count, tail)) =>
        var scaled: nat := count * terms[0].1;
        if scaled > U64_MAX || seconds + scaled > U64_MAX then None
        else ClockTerms(tail, terms[1..], seconds + scaled, true)
  }

  function DurationTime(s: Bytes): Option<nat> {
    match ClockTerms(s, CLOCK_TERMS, 0, false)
    case Some((seconds, saw, rest)) => if saw && rest == [] then Some(seconds) else None
    case None => None
  }

  /** Read the clock half of a duration, term by term, with checked accumulation. */
  method ReadDurationTime(bytes: Bytes) returns (r: Option<nat>)
    ensures r == DurationTime(bytes)
  {
    var rest, saw := bytes, false;
    var seconds: nat := 0;
    for i := 0 to |CLOCK_TERMS|
      invariant ClockTerms(rest, CLOCK_TERMS[i..], seconds, saw) == ClockTerms(bytes, CLOCK_TERMS, 0, false)
    {
      var (designator, scale) := CLOCK_TERMS[i];
      assert CLOCK_TERMS[i..][0] == (designator, scale) && CLOCK_TERMS[i..][1..] == CLOCK_TERMS[i + 1..];
      var term := TakeTerm(rest, designator);
      if term.Some? {
        var scaled: nat := term.value.0 * scale;
        if scaled > U64_MAX || seconds + scaled > U64_MAX { return None; }
        rest, seconds, saw := term.value.1, seconds + scaled, true;
      }
    }
    return if saw && rest == [] then Some(seconds) else None;
  }

  function DurationBody(s: Bytes): Option<(nat, nat)> {
    match TakeTerm(s, LETTER_W)
    case Some((weeks, rest)) =>
      if rest != [] || weeks * 7 > U64_MAX then None else Some((weeks * 7, 0))
    case None =>
      var dated := TakeTerm(s, LETTER_D);
      var days, rest := if dated.Some? then dated.value.0 else 0, if dated.Some? then dated.value.1 else s;
      match After(rest, LETTER_T)
      case Some(clock) =>
        (match DurationTime(clock)
         case Some(seconds) => Some((days, seconds))
         case None => None)
      case None => if dated.Some? && rest == [] then Some((days, 0)) else None
  }

  function DecodeDuration(s: Bytes): Option<Duration> {
    var (negative, unsigned) := SplitSign(s);
    match After(unsigned, LETTER_P)
    case None => None
    case Some(body) =>
      match DurationBody(body)
      case None => None
      case Some((days, seconds)) =>
        if days > I64_MAX || seconds > I64_MAX then None
        else if negative then Some(Duration(0 - days as int, 0 - seconds as int))
        else Some(Duration(days as int, seconds as int))
  }

  /** Division that rounds toward zero, and its remainder. */
  function TruncDiv(n: int, d: int): int
    requires d > 0
  {
    if n >= 0 then n / d else -((-n) / d)
  }

  function TruncRem(n: int, d: int): int
    requires d > 0
  {
    n - d * TruncDiv(n, d)
  }

  /** The span with both parts on the same side of zero, zero counting as positive. */
  function SingleSigned(v: Duration): Option<Duration> {
    if (v.days >= 0) == (v.seconds >= 0) then Some(v)
    else
      match CheckedI64(v.days * SECONDS_PER_DAY)
      case None => None
      case Some(scaled) =>
        match CheckedI64(scaled + v.seconds)
        case None => None
        case Some(total) => Some(Duration(TruncDiv(total, SECONDS_PER_DAY), TruncRem(total, SECONDS_PER_DAY)))
  }

  function Magnitude(n: int): nat {
    if n < 0 then -n else n
  }

  function EncodeDurationTime(total: nat): Bytes {
    [LETTER_T] + (Plain(total / 3600) + [LETTER_H] + (Plain(total % 3600 / 60) + [LETTER_M] + (Plain(total % 60) + [LETTER_S] + [])))
  }

  /** The text after the P. */
  function EncodeDurationBody(days: nat, seconds: nat): Bytes {
    var clock := if seconds != 0 || days == 0 then EncodeDurationTime(seconds) else [];
    if days != 0 then Plain(days) + [LETTER_D] + clock else clock
  }

  function EncodeDuration(v: Duration): Option<Bytes> {
    match SingleSigned(v)
    case None => None
    case Some(Duration(days, seconds)) =>
      if days == I64_MIN || seconds == I64_MIN then None
      else
        Some((if days < 0 || seconds < 0 then [MINUS] else []) + [LETTER_P] + EncodeDurationBody(Magnitude(days), Magnitude(seconds)))
  }

  // -------------------------------------------------------------------------
  // Spans with one sign
  // -------------------------------------------------------------------------

  lemma {:induction false} TruncSigns(total: int)
    ensures var d, s := TruncDiv(total, SECONDS_PER_DAY), TruncRem(total, SECONDS_PER_DAY);
      && d * SECONDS_PER_DAY + s == total
      && (total >= 0 ==> d >= 0 && s >= 0) && (total <= 0 ==> d <= 0 && s <= 0)
      && (I64_MIN <= total <= I64_MAX ==> I64_MIN < d < I64_MAX && -SECONDS_PER_DAY < s < SECONDS_PER_DAY)
  {
  }

  /** Reconciling the signs keeps the span, leaves no two parts on opposite sides, and is done once. */
  lemma {:induction false} SingleSignedKeepsSpan(v: Duration)
    requires I64_MIN <= v.days <= I64_MAX && I64_MIN <= v.seconds <= I64_MAX
    ensures SingleSigned(v).Some? ==>
      var r := SingleSigned(v).value;
      && TotalSeconds(r) == TotalSeconds(v)
      && ((r.days >= 0 && r.seconds >= 0) || (r.days <= 0 && r.seconds <= 0))
      && I64_MIN <= r.days <= I64_MAX && I64_MIN <= r.seconds <= I64_MAX
  {
    if (v.days >= 0) != (v.seconds >= 0) { TruncSigns(TotalSeconds(v)); }
  }

  /** The spans that are their own single-signed form. */
  lemma {:induction false} FixedPointsAre(v: Duration)
    requires I64_MIN <= v.days <= I64_MAX && I64_MIN <= v.seconds <= I64_MAX
    ensures SingleSigned(v) == Some(v) <==>
      || (v.days >= 0 && v.seconds >= 0)
      || (v.days < 0 && v.seconds < 0)
      || (v.days == 0 && -SECONDS_PER_DAY < v.seconds)
      || (v.seconds == 0 && I64_MIN <= v.days * SECONDS_PER_DAY)
  {
    if (v.days >= 0) != (v.seconds >= 0) {
      TruncSigns(TotalSeconds(v));
      SpanIsPair(v);
    }
  }

  lemma {:induction false} SpanIsPair(v: Duration)
    requires (v.days >= 0) != (v.seconds >= 0)
    ensures var total := TotalSeconds(v);
      Duration(TruncDiv(total, SECONDS_PER_DAY), TruncRem(total, SECONDS_PER_DAY)) == v
      <==> (v.days == 0 && -SECONDS_PER_DAY < v.seconds) || v.seconds == 0
  {
  }

  // -------------------------------------------------------------------------
  // Text and value
  // -------------------------------------------------------------------------

  lemma {:induction false} ClockTermTaken(count: nat, rest: Bytes, terms: seq<(octet, nat)>, seconds: nat, saw: bool)
    requires terms != [] && !IsDigit(terms[0].0) && count <= U64_MAX && seconds + count * terms[0].1 <= U64_MAX
    ensures ClockTerms(Plain(count) + [terms[0].0] + rest, terms, seconds, saw)
      == ClockTerms(rest, terms[1..], seconds + count * terms[0].1, true)
  {
    TermReads(count, terms[0].0, rest, terms[0].0);
  }

  lemma {:induction false} DurationTimeReads(total: nat)
    requires total <= I64_MAX
    ensures DurationTime(EncodeDurationTime(total)[1..]) == Some(total)
  {
    hide ClockTerms, Plain;
    var h, m, s := total / 3600, total % 3600 / 60, total % 60;
    assert total == h * 3600 + m * 60 + s;
    var third := Plain(s) + [LETTER_S] + [];
    var second := Plain(m) + [LETTER_M] + third;
    assert CLOCK_TERMS[1..][0] == (LETTER_M, 60) && CLOCK_TERMS[1..][1..][0] == (LETTER_S, 1) && CLOCK_TERMS[1..][1..][1..] == [];
    ClockTermTaken(h, second, CLOCK_TERMS, 0, false);
    ClockTermTaken(m, third, CLOCK_TERMS[1..], h * 3600, true);
    ClockTermTaken(s, [], CLOCK_TERMS[1..][1..], h * 3600 + m * 60, true);
    assert ClockTerms([], [], total, true) == Some((total, true, [])) by { NoClockTerms(total); }
    assert EncodeDurationTime(total)[1..] == Plain(h) + [LETTER_H] + second;
  }

  lemma {:induction false} NoClockTerms(total: nat)
    ensures ClockTerms([], [], total, true) == Some((total, true, []))
  {
  }

  lemma {:induction false} BodyReads(days: nat, seconds: nat)
    requires days <= I64_MAX && seconds <= I64_MAX
    ensures DurationBody(EncodeDurationBody(days, seconds)) == Some((days, seconds))
  {
    hide DurationTime, Plain;
    var clock := if seconds != 0 || days == 0 then EncodeDurationTime(seconds) else [];
    DurationTimeReads(seconds);
    if days != 0 {
      TermReads(days, LETTER_D, clock, LETTER_W);
      TermReads(days, LETTER_D, clock, LETTER_D);
    } else {
      NoTerm(clock, LETTER_W);
      NoTerm(clock, LETTER_D);
    }
  }

  /** The text a span is written as, sign and body apart. */
  lemma {:induction false} EncodedParts(negative: bool, body: Bytes)
    ensures var s := (if negative then [MINUS] else []) + [LETTER_P] + body;
      SplitSign(s) == (negative, [LETTER_P] + body) && After([LETTER_P] + body, LETTER_P) == Some(body)
  {
    var s := (if negative then [MINUS] else []) + [LETTER_P] + body;
    if negative { assert s[1..] == [LETTER_P] + body; } else { assert s == [LETTER_P] + body; }
    assert ([LETTER_P] + body)[1..] == body;
  }

  /**
   Whenever a span can be written, its text reads back as its single-signed form: the total span
   is kept, and a span that is its own single-signed form comes back exactly.
   */
  lemma {:induction false} DurationRoundTrip(v: Duration)
    requires I64_MIN <= v.days <= I64_MAX && I64_MIN <= v.seconds <= I64_MAX
    requires EncodeDuration(v).Some?
    ensures DecodeDuration(EncodeDuration(v).value) == SingleSigned(v)
    ensures TotalSeconds(DecodeDuration(EncodeDuration(v).value).value) == TotalSeconds(v)
    ensures DecodeDuration(EncodeDuration(v).value) == Some(v) <==> SingleSigned(v) == Some(v)
  {
    hide DurationBody, EncodeDurationBody, SingleSigned;
    SingleSignedKeepsSpan(v);
    var r := SingleSigned(v).value;
    var body := EncodeDurationBody(Magnitude(r.days), Magnitude(r.seconds));
    BodyReads(Magnitude(r.days), Magnitude(r.seconds));
    EncodedParts(r.days < 0 || r.seconds < 0, body);
  }

  /** A span that is not its own single-signed form: a negative day stated in seconds. */
  lemma {:induction false} NegativeDayInSeconds()
    ensures SingleSigned(Duration(0, -SECONDS_PER_DAY)) == Some(Duration(-1, 0))
    ensures EncodeDuration(Duration(0, -SECONDS_PER_DAY)) == Some([MINUS, LETTER_P, 49, LETTER_D])
    ensures DecodeDuration([MINUS, LETTER_P, 49, LETTER_D]) == Some(Duration(-1, 0))
  {
    var v := Duration(0, -SECONDS_PER_DAY);
    assert SingleSigned(v) == Some(Duration(-1, 0));
    assert Plain(1) == [49];
    assert EncodeDurationBody(1, 0) == [49, LETTER_D];
    assert EncodeDuration(v).value == [MINUS, LETTER_P, 49, LETTER_D];
    DurationRoundTrip(v);
  }

  /** Which spans can be written at all. */
  lemma {:induction false} EncodableIff(v: Duration)
    requires I64_MIN <= v.days <= I64_MAX && I64_MIN <= v.seconds <= I64_MAX
    ensures EncodeDuration(v).Some? <==>
      if (v.days >= 0) == (v.seconds >= 0) then v.days != I64_MIN && v.seconds != I64_MIN
      else I64_MIN <= v.days * SECONDS_PER_DAY <= I64_MAX && I64_MIN <= TotalSeconds(v) <= I64_MAX
  {
    if (v.days >= 0) != (v.seconds >= 0) { TruncSigns(TotalSeconds(v)); }
  }

  // -------------------------------------------------------------------------
  // Which texts are durations
  // -------------------------------------------------------------------------

  /** What may stand after the P: a number of weeks, or days and clock terms, each there or not. */
  datatype DurationForm = Weeks(digits: Bytes) | Parts(days: Option<Bytes>, clock: seq<Option<Bytes>>)

  predicate Decimals(runs: seq<Option<Bytes>>) {
    forall i | 0 <= i < |runs| && runs[i].Some? :: IsDecimal(runs[i].value)
  }

  predicate AnyTerm(runs: seq<Option<Bytes>>) {
    exists i | 0 <= i < |runs| :: runs[i].Some?
  }

  function RunText(run: Option<Bytes>, designator: octet): Bytes {
    if run.Some? then run.value + [designator] else []
  }

  function RunNumber(run: Option<Bytes>): nat
    requires run.Some? ==> IsDecimal(run.value)
  {
    if run.Some? then NumberOf(run.value) else 0
  }

  function ClockText(runs: seq<Option<Bytes>>, terms: seq<(octet, nat)>): Bytes
    requires |runs| == |terms|
  {
    if runs == [] then [] else RunText(runs[0], terms[0].0) + ClockText(runs[1..], terms[1..])
  }

  function ClockSum(runs: seq<Option<Bytes>>, terms: seq<(octet, nat)>): nat
    requires |runs| == |terms| && Decimals(runs)
  {
    if runs == [] then 0
    else
      assert Decimals(runs[1..]) by { forall i | 0 <= i < |runs[1..]| ensures runs[1..][i] == runs[i + 1] {} }
      RunNumber(runs[0]) * terms[0].1 + ClockSum(runs[1..], terms[1..])
  }

  /** H, M and S as octets, and what they count in seconds. */
  const HMS: seq<(octet, nat)> := [(72, 3600), (77, 60), (83, 1)]

  predicate IsBody(b: DurationForm) {
    match b
    case Weeks(digits) => IsDecimal(digits)
    case Parts(days, clock) =>
      && |clock| == 3 && Decimals(clock) && (days.Some? ==> IsDecimal(days.value))
      && (days.Some? || AnyTerm(clock))
  }

  /** W is 87, D is 68, T is 84. */
  function BodyText(b: DurationForm): Bytes
    requires IsBody(b)
  {
    match b
    case Weeks(digits) => digits + [87]
    case Parts(days, clock) => RunText(days, 68) + if AnyTerm(clock) then [84] + ClockText(clock, HMS) else []
  }

  /** Its days and its seconds, a week being seven days. */
  function BodySpan(b: DurationForm): (nat, nat)
    requires IsBody(b)
  {
    match b
    case Weeks(digits) => (7 * NumberOf(digits), 0)
    case Parts(days, clock) => (RunNumber(days), ClockSum(clock, HMS))
  }

  predicate Designators(terms: seq<(octet, nat)>) {
    && (forall i | 0 <= i < |terms| :: !IsDigit(terms[i].0))
    && (forall i, j | 0 <= i < j < |terms| :: terms[i].0 != terms[j].0)
  }

  lemma {:induction false} LaterRuns(runs: seq<Option<Bytes>>, terms: seq<(octet, nat)>)
    requires |runs| == |terms| && runs != [] && Decimals(runs) && Designators(terms)
    ensures Decimals(runs[1..]) && Designators(terms[1..])
    ensures AnyTerm(runs) <==> runs[0].Some? || AnyTerm(runs[1..])
    ensures forall i | 0 <= i < |terms[1..]| :: terms[1..][i].0 != terms[0].0
  {
    assert forall i | 0 <= i < |runs[1..]| :: runs[1..][i] == runs[i + 1];
    assert forall i | 0 <= i < |terms[1..]| :: terms[1..][i] == terms[i + 1];
  }

  /** A designator none of the terms has takes nothing off them. */
  lemma {:induction false} NoneTaken(runs: seq<Option<Bytes>>, terms: seq<(octet, nat)>, asked: octet)
    requires |runs| == |terms| && Decimals(runs) && Designators(terms)
    requires forall i | 0 <= i < |terms| :: terms[i].0 != asked
    ensures TakeTerm(ClockText(runs, terms), asked) == None
  {
    hide TakeTerm, IsDecimal;
    if runs == [] {
      NoTerm([], asked);
    } else {
      LaterRuns(runs, terms);
      var rest := ClockText(runs[1..], terms[1..]);
      if runs[0].Some? {
        RunTaken(runs[0].value, terms[0].0, rest, asked);
      } else {
        assert [] + rest == rest;
        NoneTaken(runs[1..], terms[1..], asked);
      }
    }
  }

  /** The clock terms are read as what they add up to. */
  lemma {:induction false} ClockReads(runs: seq<Option<Bytes>>, terms: seq<(octet, nat)>, seconds: nat, saw: bool)
    requires |runs| == |terms| && Decimals(runs) && Designators(terms) && seconds + ClockSum(runs, terms) <= U64_MAX
    ensures ClockTerms(ClockText(runs, terms), terms, seconds, saw)
      == Some((seconds + ClockSum(runs, terms), saw || AnyTerm(runs), []))
    decreases |runs|
  {
    hide TakeTerm, IsDecimal;
    if runs != [] {
      LaterRuns(runs, terms);
      var rest := ClockText(runs[1..], terms[1..]);
      if runs[0].Some? {
        RunTaken(runs[0].value, terms[0].0, rest, terms[0].0);
        ClockReads(runs[1..], terms[1..], seconds + RunNumber(runs[0]) * terms[0].1, true);
      } else {
        assert [] + rest == rest;
        NoneTaken(runs[1..], terms[1..], terms[0].0);
        ClockReads(runs[1..], terms[1..], seconds, saw);
      }
    }
  }

  /** Whatever clock terms were read, they were runs of digits adding up to what was read. */
  lemma {:induction false} ClockWasRuns(s: Bytes, terms: seq<(octet, nat)>, seconds: nat, saw: bool) returns (runs: seq<Option<Bytes>>)
    requires Designators(terms) && ClockTerms(s, terms, seconds, saw).Some?
    ensures |runs| == |terms| && Decimals(runs)
    ensures var (total, saw', rest) := ClockTerms(s, terms, seconds, saw).value;
      s == ClockText(runs, terms) + rest && total == seconds + ClockSum(runs, terms) && saw' == (saw || AnyTerm(runs))
    decreases |terms|
  {
    hide TakeTerm, IsDecimal;
    if terms == [] {
      runs := [];
    } else {
      assert forall i | 0 <= i < |terms[1..]| :: terms[1..][i] == terms[i + 1];
      var term := TakeTerm(s, terms[0].0);
      var later: seq<Option<Bytes>>;
      if term.Some? {
        var run := TermWasRun(s, terms[0].0);
        later := ClockWasRuns(term.value.1, terms[1..], seconds + term.value.0 * terms[0].1, true);
        runs := [Some(run)] + later;
      } else {
        later := ClockWasRuns(s, terms[1..], seconds, saw);
        runs := [None] + later;
      }
      assert runs[1..] == later;
      LaterRuns(runs, terms);
    }
  }

  lemma {:induction false} ClockDesignators()
    ensures Designators(CLOCK_TERMS) && forall i | 0 <= i < |CLOCK_TERMS| :: CLOCK_TERMS[i].0 !in {LETTER_W, LETTER_D}
  {
  }

  lemma {:induction false} PartsOpen(days: Option<Bytes>, tail: Bytes)
    requires days.Some? ==> IsDecimal(days.value)
    requires tail == [] || tail[0] == LETTER_T
    ensures var s := RunText(days, LETTER_D) + tail;
      && TakeTerm(s, LETTER_W) == None
      && TakeTerm(s, LETTER_D) == (if days.Some? then Some((RunNumber(days), tail)) else None)
      && (days.None? ==> s == tail)
  {
    hide TakeTerm, IsDecimal;
    if days.Some? {
      RunTaken(days.value, LETTER_D, tail, LETTER_W);
      RunTaken(days.value, LETTER_D, tail, LETTER_D);
    } else {
      assert [] + tail == tail;
      NoTerm(tail, LETTER_W);
      NoTerm(tail, LETTER_D);
    }
  }

  lemma {:induction false} NoTermsNoSum(runs: seq<Option<Bytes>>, terms: seq<(octet, nat)>)
    requires |runs| == |terms| && Decimals(runs) && !AnyTerm(runs)
    ensures ClockSum(runs, terms) == 0
  {
    if runs != [] {
      assert forall i | 0 <= i < |runs[1..]| :: runs[1..][i] == runs[i + 1];
      NoTermsNoSum(runs[1..], terms[1..]);
    }
  }

  /** A body whose span fits is read as its span. */
  lemma {:induction false} BodyFormReads(b: DurationForm)
    requires IsBody(b) && BodySpan(b).0 <= I64_MAX && BodySpan(b).1 <= I64_MAX
    ensures DurationBody(BodyText(b)) == Some(BodySpan(b))
  {
    hide TakeTerm, IsDecimal, ClockText, ClockSum, ClockTerms;
    match b
    case Weeks(digits) =>
      RunTaken(digits, LETTER_W, [], LETTER_W);
      assert digits + [LETTER_W] + [] == digits + [LETTER_W];
    case Parts(days, clock) =>
      var text := ClockText(clock, CLOCK_TERMS);
      var tail := if AnyTerm(clock) then [LETTER_T] + text else [];
      PartsOpen(days, tail);
      ClockDesignators();
      if AnyTerm(clock) {
        assert tail[1..] == text;
        ClockReads(clock, CLOCK_TERMS, 0, false);
      } else {
        NoTermsNoSum(clock, CLOCK_TERMS);
      }
  }

  /** Whatever body was read has that form. */
  lemma {:induction false} BodyWasForm(s: Bytes) returns (b: DurationForm)
    requires DurationBody(s).Some?
    ensures IsBody(b) && BodyText(b) == s && BodySpan(b) == DurationBody(s).value
  {
    hide TakeTerm, IsDecimal, ClockText, ClockSum, ClockTerms;
    if TakeTerm(s, LETTER_W).Some? {
      var run := TermWasRun(s, LETTER_W);
      b := Weeks(run);
      assert run + [LETTER_W] + [] == run + [LETTER_W];
    } else {
      var dated := TakeTerm(s, LETTER_D);
      var days: Option<Bytes>, rest := None, s;
      if dated.Some? {
        var run := TermWasRun(s, LETTER_D);
        days, rest := Some(run), dated.value.1;
      }
      assert s == RunText(days, LETTER_D) + rest;
      if After(rest, LETTER_T).Some? {
        ClockDesignators();
        var clock := ClockWasRuns(rest[1..], CLOCK_TERMS, 0, false);
        b := Parts(days, clock);
        assert ClockText(clock, CLOCK_TERMS) + [] == ClockText(clock, CLOCK_TERMS);
        assert rest == [LETTER_T] + rest[1..];
      } else {
        b := Parts(days, [None, None, None]);
        NoTermsNoSum([None, None, None], CLOCK_TERMS);
      }
    }
  }

  /**
   A text is read as a duration exactly when it is an optional sign, a P and a body: weeks alone,
   or days and clock terms in order with at least one there; and its days and its seconds, summed,
   fit 64 bits.
   */
  lemma {:induction false} DecodeDurationIff(s: Bytes, v: Duration)
    ensures DecodeDuration(s) == Some(v)
      <==> exists sign: Bytes, b: DurationForm ::
             && IsSign(sign) && IsBody(b) && s == sign + ([80] + BodyText(b))
             && BodySpan(b).0 <= 0x7FFF_FFFF_FFFF_FFFF && BodySpan(b).1 <= 0x7FFF_FFFF_FFFF_FFFF
             && v == Signed(sign == [45], BodySpan(b))
  {
    hide DecodeDuration, BodyText, BodySpan, IsBody, IsSign;
    if DecodeDuration(s) == Some(v) { var sign, b := DurationWasForm(s); }
    forall sign: Bytes, b: DurationForm | IsSign(sign) && IsBody(b) && s == sign + ([80] + BodyText(b))
        && BodySpan(b).0 <= 0x7FFF_FFFF_FFFF_FFFF && BodySpan(b).1 <= 0x7FFF_FFFF_FFFF_FFFF
      ensures DecodeDuration(s) == Some(Signed(sign == [45], BodySpan(b)))
    {
      DurationFormReads(sign, b);
    }
  }

  /** Whatever duration was read is a sign, a P and a body whose span fits. */
  lemma {:induction false} DurationWasForm(s: Bytes) returns (sign: Bytes, b: DurationForm)
    requires DecodeDuration(s).Some?
    ensures IsSign(sign) && IsBody(b) && s == sign + ([80] + BodyText(b))
    ensures BodySpan(b).0 <= 0x7FFF_FFFF_FFFF_FFFF && BodySpan(b).1 <= 0x7FFF_FFFF_FFFF_FFFF
    ensures DecodeDuration(s) == Some(Signed(sign == [45], BodySpan(b)))
  {
    hide DurationBody, BodyText, BodySpan, IsBody, SplitSign, IsSign;
    SignSplits(s);
    var (negative, unsigned) := SplitSign(s);
    b := BodyWasForm(unsigned[1..]);
    sign := s[..|s| - |unsigned|];
    LedByP(unsigned, BodyText(b));
  }

  lemma {:induction false} SignSplits(s: Bytes)
    ensures var (negative, unsigned) := SplitSign(s);
      && |unsigned| <= |s|
      && var sign := s[..|s| - |unsigned|];
      IsSign(sign) && s == sign + unsigned && negative == (sign == [45])
  {
  }

  lemma {:induction false} LedByP(s: Bytes, body: Bytes)
    requires s != [] && s[0] == 80 && s[1..] == body
    ensures s == [80] + body
  {
  }

  lemma {:induction false} DurationFormReads(sign: Bytes, b: DurationForm)
    requires IsSign(sign) && IsBody(b)
    requires BodySpan(b).0 <= 0x7FFF_FFFF_FFFF_FFFF && BodySpan(b).1 <= 0x7FFF_FFFF_FFFF_FFFF
    ensures DecodeDuration(sign + ([80] + BodyText(b))) == Some(Signed(sign == [45], BodySpan(b)))
  {
    hide DurationBody, BodyText, BodySpan, IsBody, SplitSign;
    BodyFormReads(b);
    SignedText(sign, BodyText(b));
  }

  /** Nothing, a plus or a minus. */
  predicate IsSign(sign: Bytes) {
    sign == [] || sign == [43] || sign == [45]
  }

  lemma {:induction false} SignedText(sign: Bytes, body: Bytes)
    requires IsSign(sign)
    ensures SplitSign(sign + ([80] + body)) == (sign == [45], [80] + body) && ([80] + body)[1..] == body
  {
    var s := sign + ([80] + body);
    if sign == [] { assert s == [80] + body; } else { assert s[1..] == [80] + body; }
  }

  function Signed(negative: bool, span: (nat, nat)): Duration {
    if negative then Duration(0 - span.0 as int, 0 - span.1 as int) else Duration(span.0 as int, span.1 as int)
  }
}
