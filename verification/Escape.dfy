/**
 How a parameter value this crate writes is spelled: the caret encoding of RFC 6868 first, the
 quoting of section 3.2 of RFC 5545 over it; and why the spelling reads back as the value.
 */
module Escape {
  import opened Octets
  import opened Syntax
  import opened Grammar

  const LETTER_N: octet := 110

  /** The octet a caret pair stands for. */
  function CaretMeaning(spelling: octet): Option<octet> {
    if spelling == LETTER_N then Some(LF)
    else if spelling == CARET then Some(CARET)
    else if spelling == QUOTE then Some(DQUOTE)
    else None
  }

  function CaretSpelling(o: octet): Option<octet> {
    if o == LF then Some(LETTER_N)
    else if o == CARET then Some(CARET)
    else if o == DQUOTE then Some(QUOTE)
    else None
  }

  /** The pair at the front of s, if it begins one that is defined. */
  function TakeCaret(s: Bytes): Option<octet> {
    if |s| >= 2 && s[0] == CARET then CaretMeaning(s[1]) else None
  }

  function DecodeCaret(s: Bytes): Bytes
    decreases |s|
  {
    if s == [] then []
    else
      match TakeCaret(s)
      case Some(o) => [o] + DecodeCaret(s[2..])
      case None => [s[0]] + DecodeCaret(s[1..])
  }

  function CaretPair(o: octet): Bytes {
    match CaretSpelling(o)
    case Some(spelling) => [CARET, spelling]
    case None => [o]
  }

  function EncodeCaret(s: Bytes): Bytes {
    if s == [] then [] else CaretPair(s[0]) + EncodeCaret(s[1..])
  }

  /** Whatever was encoded is decoded: the encoding loses nothing, on any octets. */
  lemma {:induction false} DecodeEncodeCaret(s: Bytes)
    ensures DecodeCaret(EncodeCaret(s)) == s
  {
    if s != [] {
      DecodeEncodeCaret(s[1..]);
      DecodePair(s[0], EncodeCaret(s[1..]));
    }
  }

  lemma {:induction false} DecodePair(o: octet, rest: Bytes)
    ensures DecodeCaret(CaretPair(o) + rest) == [o] + DecodeCaret(rest)
  {
    var t := CaretPair(o) + rest;
    assert t[|CaretPair(o)|..] == rest;
  }

  /** Text in which no caret has a meaning decodes to itself. */
  lemma {:induction false} UndefinedCaretsStay(s: Bytes)
    requires forall i | 0 <= i < |s| - 1 :: s[i] == CARET ==> CaretMeaning(s[i + 1]).None?
    ensures DecodeCaret(s) == s
  {
    if s != [] {
      forall i | 0 <= i < |s[1..]| - 1 ensures s[1..][i] == CARET ==> CaretMeaning(s[1..][i + 1]).None? {
        assert s[1..][i] == s[i + 1] && s[1..][i + 1] == s[i + 2];
      }
      UndefinedCaretsStay(s[1..]);
    }
  }

  lemma {:induction false} EncodeCaretSnoc(s: Bytes, o: octet)
    ensures EncodeCaret(s + [o]) == EncodeCaret(s) + CaretPair(o)
  {
    if s == [] {
      assert [o][1..] == [];
    } else {
      assert (s + [o])[1..] == s[1..] + [o];
      EncodeCaretSnoc(s[1..], o);
    }
  }

  /** Encode a parameter value, octet by octet. */
  method EncodeCaretInto(s: Bytes) returns (out: Bytes)
    ensures out == EncodeCaret(s)
    ensures DecodeCaret(out) == s
  {
    hide CaretPair;
    out := [];
    for i := 0 to |s|
      invariant out == EncodeCaret(s[..i])
    {
      assert s[..i + 1] == s[..i] + [s[i]];
      EncodeCaretSnoc(s[..i], s[i]);
      out := out + CaretPair(s[i]);
    }
    assert s[..|s|] == s;
    DecodeEncodeCaret(s);
  }

  /** Resolve the carets of a parameter value, left to right. */
  method DecodeCaretInto(s: Bytes) returns (out: Bytes)
    ensures out == DecodeCaret(s)
  {
    out := [];
    var rest := s;
    while rest != []
      invariant out + DecodeCaret(rest) == DecodeCaret(s)
      decreases |rest|
    {
      var pair := TakeCaret(rest);
      if pair.Some? {
        Absorb(out, pair.value, DecodeCaret(rest[2..]));
        out := out + [pair.value];
        rest := rest[2..];
      } else {
        Absorb(out, rest[0], DecodeCaret(rest[1..]));
        out := out + [rest[0]];
        rest := rest[1..];
      }
    }
  }

  // -------------------------------------------------------------------------
  // Quoting
  // -------------------------------------------------------------------------

  datatype Quoting = Bare | Closed | Unterminated

  /** The value inside its quotes, and whether there were any and they matched. */
  function Unquote(s: Bytes): (r: (Bytes, Quoting))
    ensures r.1.Unterminated? ==> s == [DQUOTE] + r.0
    ensures r.1.Closed? ==> s == [DQUOTE] + r.0 + [DQUOTE]
  {
    if s == [] || s[0] != DQUOTE then (s, Bare)
    else if |s| > 1 && s[|s| - 1] == DQUOTE then (s[1..|s| - 1], Closed)
    else (s[1..], Unterminated)
  }

  predicate NeedsQuoting(s: Bytes) {
    exists i | 0 <= i < |s| :: s[i] in {SEMICOLON, COLON, COMMA}
  }

  function Quote(s: Bytes): Bytes {
    if NeedsQuoting(s) then [DQUOTE] + s + [DQUOTE] else s
  }

  predicate ParameterIsRepresentable(s: Bytes) {
    forall i | 0 <= i < |s| :: s[i] != DQUOTE && !IsControlOctet(s[i])
  }

  const PARAMETER_NAME_DELIMITERS: set<octet> := {EQUALS, SEMICOLON, COLON, COMMA, DQUOTE}

  predicate ParameterNameIsRepresentable(s: Bytes) {
    s != [] && forall i | 0 <= i < |s| :: s[i] !in PARAMETER_NAME_DELIMITERS && !IsControlOctet(s[i])
  }

  predicate PropertyNameIsRepresentable(s: Bytes) {
    s != [] && forall i | 0 <= i < |s| :: s[i] != SEMICOLON && s[i] != COLON && !IsControlOctet(s[i])
  }

  predicate ParameterValueIsWritable(value: Bytes) {
    ParameterIsRepresentable(EncodeCaret(value))
  }

  function SpelledValue(value: Bytes): Bytes {
    Quote(EncodeCaret(value))
  }

  function SpelledParameter(name: Bytes, value: Bytes): Parameter {
    Parameter(name, SpelledValue(value), true)
  }

  /** What a reader who undoes both steps makes of a parameter. */
  function MeaningOf(p: Parameter): Bytes {
    DecodeCaret(Unquote(p.value).0)
  }

  lemma {:induction false} UnquoteQuote(s: Bytes)
    requires ParameterIsRepresentable(s)
    ensures Unquote(Quote(s)).0 == s
  {
  }

  lemma {:induction false} EncodeControlFree(s: Bytes)
    ensures ParameterIsRepresentable(EncodeCaret(s))
      <==> forall i | 0 <= i < |s| :: !IsControlOctet(s[i]) || s[i] == LF
  {
    if s != [] {
      var pair, rest := CaretPair(s[0]), EncodeCaret(s[1..]);
      EncodeControlFree(s[1..]);
      RepresentableAppend(pair, rest);
      assert ParameterIsRepresentable(pair) <==> !IsControlOctet(s[0]) || s[0] == LF by {
        assert CaretSpelling(s[0]).None? ==> pair[0] == s[0];
      }
      assert (forall i | 0 <= i < |s| :: !IsControlOctet(s[i]) || s[i] == LF)
        <==> (!IsControlOctet(s[0]) || s[0] == LF) && (forall i | 0 <= i < |s[1..]| :: !IsControlOctet(s[1..][i]) || s[1..][i] == LF);
    }
  }

  lemma {:induction false} RepresentableAppend(a: Bytes, b: Bytes)
    ensures ParameterIsRepresentable(a + b) <==> ParameterIsRepresentable(a) && ParameterIsRepresentable(b)
  {
    var s := a + b;
    assert forall i | 0 <= i < |a| :: a[i] == s[i];
    assert forall i | 0 <= i < |b| :: b[i] == s[|a| + i];
  }

  /** The values that can be written are the ones without a control octet other than LF. */
  lemma {:induction false} WritableIff(value: Bytes)
    ensures ParameterValueIsWritable(value)
      <==> forall i | 0 <= i < |value| :: !IsControlOctet(value[i]) || value[i] == LF
  {
    EncodeControlFree(value);
  }

  // -------------------------------------------------------------------------
  // The same in octets: LF 10, DQUOTE 34, QUOTE 39, comma 44, colon 58, semicolon 59, = 61, ^ 94, n 110
  // -------------------------------------------------------------------------

  /** One octet as RFC 6868 writes it. */
  function CaretOctets(o: octet): Bytes {
    if o == 10 then [94, 110] else if o == 94 then [94, 94] else if o == 34 then [94, 39] else [o]
  }

  /** What an encoded value is, octet by octet. */
  lemma {:induction false} EncodeCaretIs(o: octet, s: Bytes)
    ensures EncodeCaret([]) == []
    ensures EncodeCaret([o] + s) == CaretOctets(o) + EncodeCaret(s)
  {
    assert ([o] + s)[1..] == s;
  }

  /** The three pairs are resolved, and a caret before anything else stands for itself. */
  lemma {:induction false} DecodeCaretIs(o: octet, s: Bytes)
    ensures DecodeCaret([94, 110] + s) == [10] + DecodeCaret(s)
    ensures DecodeCaret([94, 94] + s) == [94] + DecodeCaret(s)
    ensures DecodeCaret([94, 39] + s) == [34] + DecodeCaret(s)
    ensures o != 110 && o != 94 && o != 39 ==> DecodeCaret([94, o] + s) == [94] + DecodeCaret([o] + s)
    ensures o != 94 ==> DecodeCaret([o] + s) == [o] + DecodeCaret(s)
    ensures DecodeCaret([94]) == [94] && DecodeCaret([]) == []
  {
    assert ([94, 110] + s)[2..] == s && ([94, 94] + s)[2..] == s && ([94, 39] + s)[2..] == s;
    assert ([94, o] + s)[1..] == [o] + s;
    assert ([o] + s)[1..] == s;
    var caret: Bytes := [94];
    assert caret[1..] == [];
  }

  predicate HoldsDelimiter(s: Bytes) {
    exists i | 0 <= i < |s| :: s[i] == 59 || s[i] == 58 || s[i] == 44
  }

  lemma {:induction false} DelimiterCons(o: octet, s: Bytes)
    ensures HoldsDelimiter([o] + s) <==> o == 59 || o == 58 || o == 44 || HoldsDelimiter(s)
    ensures NeedsQuoting([o] + s) <==> o == 59 || o == 58 || o == 44 || NeedsQuoting(s)
  {
    var t := [o] + s;
    assert t[0] == o;
    assert forall i | 0 <= i < |s| :: t[i + 1] == s[i];
  }

  lemma {:induction false} EncodedDelimiters(s: Bytes)
    ensures NeedsQuoting(EncodeCaret(s)) <==> HoldsDelimiter(s)
  {
    hide NeedsQuoting, HoldsDelimiter;
    if s == [] {
      assert !NeedsQuoting([]) && !HoldsDelimiter([]) by { NoDelimiter(); }
    } else {
      var rest := EncodeCaret(s[1..]);
      EncodedDelimiters(s[1..]);
      assert s == [s[0]] + s[1..];
      DelimiterCons(s[0], s[1..]);
      var pair := CaretPair(s[0]);
      if |pair| == 2 {
        assert pair + rest == [pair[0]] + ([pair[1]] + rest);
        DelimiterCons(pair[0], [pair[1]] + rest);
        DelimiterCons(pair[1], rest);
      } else {
        DelimiterCons(pair[0], rest);
      }
    }
  }

  lemma {:induction false} NoDelimiter()
    ensures !NeedsQuoting([]) && !HoldsDelimiter([])
  {
  }

  /** A value is put between DQUOTEs exactly when it holds a semicolon, a colon or a comma. */
  lemma {:induction false} SpelledValueIs(value: Bytes)
    ensures SpelledValue(value) == if HoldsDelimiter(value) then [34] + EncodeCaret(value) + [34] else EncodeCaret(value)
  {
    hide NeedsQuoting, HoldsDelimiter;
    EncodedDelimiters(value);
  }

  /** A control octet of section 3.1: below 32 save HTAB, or DEL. */
  predicate IsControl(o: octet) {
    (o < 32 && o != 9) || o == 127
  }

  /** The names and values a parameter may be given, and the names of properties and components. */
  lemma {:induction false} RepresentableIff(s: Bytes)
    ensures ParameterNameIsRepresentable(s) <==>
      (s != [] && forall i | 0 <= i < |s| ::
        s[i] != 61 && s[i] != 59 && s[i] != 58 && s[i] != 44 && s[i] != 34 && !IsControl(s[i]))
    ensures PropertyNameIsRepresentable(s) <==>
      (s != [] && forall i | 0 <= i < |s| :: s[i] != 59 && s[i] != 58 && !IsControl(s[i]))
    ensures ParameterValueIsWritable(s) <==>
      (forall i | 0 <= i < |s| :: s[i] == 10 || !IsControl(s[i]))
  {
    WritableIff(s);
    forall i | 0 <= i < |s| ensures s[i] !in PARAMETER_NAME_DELIMITERS <==>
      (s[i] != 61 && s[i] != 59 && s[i] != 58 && s[i] != 44 && s[i] != 34) {
    }
    assert forall i | 0 <= i < |s| :: IsControlOctet(s[i]) <==> IsControl(s[i]);
  }

  // -------------------------------------------------------------------------
  // A spelled parameter on a line
  // -------------------------------------------------------------------------

  lemma {:induction false} PlainValueEnd(s: Bytes, state: ValueState)
    requires state != Quoted && forall i | 0 <= i < |s| :: s[i] !in {DQUOTE, SEMICOLON, COLON, COMMA}
    ensures ValueEnd(s, state) == |s| && RunValue(s, state) != Quoted
    decreases |s|
  {
    if s != [] { PlainValueEnd(s[1..], NextValueState(state, s[0])); }
  }

  lemma {:induction false} QuotedValueEnd(s: Bytes)
    requires forall i | 0 <= i < |s| :: s[i] != DQUOTE
    ensures ValueEnd(s + [DQUOTE], Quoted) == |s| + 1 && RunValue(s + [DQUOTE], Quoted) == ValueText
    decreases |s|
  {
    if s == [] {
      var one: Bytes := [DQUOTE];
      assert s + one == one && one[1..] == [];
      assert RunValue([], ValueText) == ValueText && ValueEnd([], ValueText) == 0;
    } else {
      assert (s + [DQUOTE])[1..] == s[1..] + [DQUOTE];
      QuotedValueEnd(s[1..]);
    }
  }

  lemma {:induction false} QuotedRuns(s: Bytes)
    requires ParameterIsRepresentable(s)
    ensures ValueReads([DQUOTE] + s + [DQUOTE], ValueStart) && !LeavesQuoteOpen([DQUOTE] + s + [DQUOTE])
  {
    QuotedValueEnd(s);
    assert ([DQUOTE] + s + [DQUOTE])[1..] == s + [DQUOTE];
  }

  /**
   A parameter this crate spells reads back from the line it is put on as one parameter, leaves
   no quote open, cannot end the line, and means exactly the value that was handed over.
   */
  lemma {:induction false} SpelledParameterReadsBack(name: Bytes, value: Bytes)
    requires ParameterNameIsRepresentable(name) && ParameterValueIsWritable(value)
    ensures var p := SpelledParameter(name, value);
      && ParameterReads(p) && !OpensQuote(p)
      && LineFree(p.name) && LineFree(p.value)
      && MeaningOf(p) == value
  {
    var coded := EncodeCaret(value);
    DecodeEncodeCaret(value);
    UnquoteQuote(coded);
    if NeedsQuoting(coded) { QuotedRuns(coded); } else { PlainValueEnd(coded, ValueStart); }
  }
}
