/** Decimal digits: reading them with checked accumulation, and writing them plain or padded. */
module Digits {
  import opened Octets

  predicate AllDigits(s: Bytes) {
    forall i | 0 <= i < |s| :: IsDigit(s[i])
  }

  function DigitOf(o: octet): nat
    requires IsDigit(o)
  {
    o as int - 48
  }

  function DigitOctet(n: nat): octet
    requires n < 10
  {
    (48 + n) as octet
  }

  /** The number a run of digits states. */
  function NumberOf(s: Bytes): nat
    requires AllDigits(s)
  {
    if s == [] then 0 else NumberOf(s[..|s| - 1]) * 10 + DigitOf(s[|s| - 1])
  }

  /** A non-empty run of digits whose number fits 64 bits. */
  predicate IsDecimal(s: Bytes) {
    s != [] && AllDigits(s) && NumberOf(s) <= U64_MAX
  }

  function Decimal(s: Bytes): Option<nat> {
    if IsDecimal(s) then Some(NumberOf(s)) else None
  }

  lemma {:induction false} NumberOfPrefix(s: Bytes, n: nat)
    requires AllDigits(s) && n <= |s|
    ensures NumberOf(s[..n]) <= NumberOf(s)
    decreases |s|
  {
    if n == |s| {
      assert s[..n] == s;
    } else {
      NumberOfPrefix(s[..|s| - 1], n);
      assert s[..|s| - 1][..n] == s[..n];
    }
  }

  /**
   Read a decimal number, refusing an octet that is no digit and an accumulation that leaves 64
   bits where it happens. It answers exactly for a non-empty run of digits whose number fits.
   */
  method ReadDecimal(bytes: Bytes) returns (r: Option<nat>)
    ensures r == Decimal(bytes)
    ensures r.Some? <==> IsDecimal(bytes)
  {
    if bytes == [] { return None; }
    var total: nat := 0;
    for i := 0 to |bytes|
      invariant AllDigits(bytes[..i]) && total == NumberOf(bytes[..i]) <= U64_MAX
    {
      if !IsDigit(bytes[i]) { return None; }
      var next := bytes[..i + 1];
      assert next[..i] == bytes[..i] && next[i] == bytes[i];
      var scaled := total * 10;
      if scaled > U64_MAX || scaled + DigitOf(bytes[i]) > U64_MAX {
        if AllDigits(bytes) { NumberOfPrefix(bytes, i + 1); }
        return None;
      }
      total := scaled + DigitOf(bytes[i]);
    }
    assert bytes[..|bytes|] == bytes;
    return Some(total);
  }

  lemma {:induction false} NumberOfSnoc(s: Bytes, o: octet)
    requires AllDigits(s) && 48 <= o <= 57
    ensures AllDigits(s + [o]) && NumberOf(s + [o]) == NumberOf(s) * 10 + (o as int - 48)
  {
    assert (s + [o])[..|s|] == s;
  }

  // -------------------------------------------------------------------------
  // Writing
  // -------------------------------------------------------------------------

  function Pow10(n: nat): nat {
    if n == 0 then 1 else 10 * Pow10(n - 1)
  }

  /** A number on exactly `width` digits, zeros in front. */
  function Padded(n: nat, width: nat): Bytes {
    if width == 0 then [] else Padded(n / 10, width - 1) + [DigitOctet(n % 10)]
  }

  /** A number on as many digits as it takes. */
  function Plain(n: nat): (r: Bytes)
    ensures r != []
  {
    if n < 10 then [DigitOctet(n)] else Plain(n / 10) + [DigitOctet(n % 10)]
  }

  lemma {:induction false} PaddedReads(n: nat, width: nat)
    requires n < Pow10(width)
    ensures AllDigits(Padded(n, width)) && |Padded(n, width)| == width && NumberOf(Padded(n, width)) == n
    decreases width
  {
    if width > 0 {
      PaddedReads(n / 10, width - 1);
      NumberOfSnoc(Padded(n / 10, width - 1), DigitOctet(n % 10));
    }
  }

  /** Every run of digits is its number, padded to its own width. */
  lemma {:induction false} ReadsPadded(s: Bytes)
    requires AllDigits(s)
    ensures NumberOf(s) < Pow10(|s|) && Padded(NumberOf(s), |s|) == s
    decreases |s|
  {
    if s != [] {
      var front := s[..|s| - 1];
      ReadsPadded(front);
      var n := NumberOf(s);
      assert n / 10 == NumberOf(front) && n % 10 == DigitOf(s[|s| - 1]);
      assert s == front + [s[|s| - 1]];
    }
  }

  /** A number written plainly reads as itself, and opens with a zero only when it is zero. */
  lemma {:induction false} PlainReads(n: nat)
    ensures AllDigits(Plain(n)) && NumberOf(Plain(n)) == n
    ensures Plain(n)[0] == ZERO <==> n == 0
  {
    if n < 10 {
      NumberOfSnoc([], DigitOctet(n));
      assert [] + [DigitOctet(n)] == Plain(n);
    } else {
      PlainReads(n / 10);
      NumberOfSnoc(Plain(n / 10), DigitOctet(n % 10));
    }
  }

  // -------------------------------------------------------------------------
  // Terms: a number and the designator after it
  // -------------------------------------------------------------------------

  /** How many octets at the front are digits. */
  function DigitRun(s: Bytes): (n: nat)
    ensures n <= |s| && AllDigits(s[..n])
    ensures n < |s| ==> !IsDigit(s[n])
  {
    if s == [] || !IsDigit(s[0]) then 0
    else
      var n := DigitRun(s[1..]);
      assert s[..n + 1] == [s[0]] + s[1..][..n];
      n + 1
  }

  function After(s: Bytes, designator: octet): Option<Bytes> {
    if s != [] && s[0] == designator then Some(s[1..]) else None
  }

  function SplitDigits(s: Bytes): Option<(nat, Bytes)> {
    var end := DigitRun(s);
    match Decimal(s[..end])
    case Some(n) => Some((n, s[end..]))
    case None => None
  }

  function TakeTerm(s: Bytes, designator: octet): Option<(nat, Bytes)> {
    match SplitDigits(s)
    case None => None
    case Some((n, rest)) =>
      match After(rest, designator)
      case Some(tail) => Some((n, tail))
      case None => None
  }

  lemma {:induction false} DigitRunOf(digits: Bytes, rest: Bytes)
    requires AllDigits(digits) && (rest != [] ==> !IsDigit(rest[0]))
    ensures DigitRun(digits + rest) == |digits|
  {
    var s := digits + rest;
    if digits == [] {
      assert s == rest;
    } else {
      assert s[1..] == digits[1..] + rest;
      DigitRunOf(digits[1..], rest);
    }
  }

  /** A run of digits and its designator are taken together, and by no other designator. */
  lemma {:induction false} RunTaken(run: Bytes, designator: octet, tail: Bytes, asked: octet)
    requires IsDecimal(run) && !IsDigit(designator)
    ensures TakeTerm(run + [designator] + tail, asked) == if asked == designator then Some((NumberOf(run), tail)) else None
  {
    var s := run + [designator] + tail;
    var rest := [designator] + tail;
    assert s == run + rest;
    DigitRunOf(run, rest);
    assert s[..|run|] == run && s[|run|..] == rest && rest[1..] == tail;
  }

  /** Whatever is taken was a run of digits and its designator. */
  lemma {:induction false} TermWasRun(s: Bytes, designator: octet) returns (run: Bytes)
    requires TakeTerm(s, designator).Some?
    ensures var (n, tail) := TakeTerm(s, designator).value; s == run + [designator] + tail && IsDecimal(run) && n == NumberOf(run)
  {
    run := s[..DigitRun(s)];
  }

  /** A term that was written is taken back, by its own designator and by no other. */
  lemma {:induction false} TermReads(n: nat, designator: octet, tail: Bytes, asked: octet)
    requires n <= U64_MAX && !IsDigit(designator)
    ensures TakeTerm(Plain(n) + [designator] + tail, asked) == if asked == designator then Some((n, tail)) else None
  {
    PlainReads(n);
    RunTaken(Plain(n), designator, tail, asked);
  }

  /** What opens with no digit holds no term. */
  lemma {:induction false} NoTerm(s: Bytes, asked: octet)
    requires s == [] || !IsDigit(s[0])
    ensures TakeTerm(s, asked) == None
  {
    assert s[..0] == [];
  }

  function SplitSign(s: Bytes): (bool, Bytes) {
    if s != [] && s[0] == MINUS then (true, s[1..])
    else if s != [] && s[0] == PLUS then (false, s[1..])
    else (false, s)
  }

  // -------------------------------------------------------------------------
  // Integers, section 3.3.8
  // -------------------------------------------------------------------------

  predicate IsI32(n: int) {
    -0x8000_0000 <= n <= 0x7FFF_FFFF
  }

  function DecodeInteger(s: Bytes): Option<int> {
    var (negative, unsigned) := SplitSign(s);
    match Decimal(unsigned)
    case None => None
    case Some(magnitude) =>
      if negative && magnitude > I64_MAX then None
      else
        var signed := if negative then 0 - (magnitude as int) else magnitude as int;
        if IsI32(signed) then Some(signed) else None
  }

  function EncodeInteger(n: int): Bytes {
    if n < 0 then [MINUS] + Plain(-n) else Plain(n)
  }

  /** Every 32-bit integer survives being written and read, the most negative one included. */
  lemma {:induction false} IntegerRoundTrip(n: int)
    requires IsI32(n)
    ensures DecodeInteger(EncodeInteger(n)) == Some(n)
  {
    PlainReads(if n < 0 then -n else n);
    if n < 0 {
      assert ([MINUS] + Plain(-n))[1..] == Plain(-n);
    } else {
      assert IsDigit(Plain(n)[0]);
    }
  }

  /** A run of digits with a minus, a plus or nothing in front of it, 45 and 43, and what that states. */
  predicate States(s: Bytes, digits: Bytes, n: int) {
    && IsDecimal(digits)
    && (if s == [45] + digits then n == -(NumberOf(digits) as int) else (s == digits || s == [43] + digits) && n == NumberOf(digits))
  }

  lemma {:induction false} StatedSign(s: Bytes, digits: Bytes, n: int)
    requires States(s, digits, n)
    ensures SplitSign(s) == (s == [45] + digits, digits)
  {
    assert IsDigit(digits[0]);
    assert ([45] + digits)[1..] == digits && ([43] + digits)[1..] == digits;
  }

  /** An integer is read exactly from a signed decimal whose value fits 32 bits. */
  lemma {:induction false} DecodeIntegerIff(s: Bytes, n: int)
    ensures DecodeInteger(s) == Some(n) <==> -0x8000_0000 <= n <= 0x7FFF_FFFF && exists digits :: States(s, digits, n)
  {
    if DecodeInteger(s) == Some(n) {
      var (negative, digits) := SplitSign(s);
      assert s == (if negative then [45] + digits else digits) || s == [43] + digits;
      assert States(s, digits, n);
    }
    if exists digits :: States(s, digits, n) {
      var digits :| States(s, digits, n);
      StatedSign(s, digits, n);
    }
  }
}
