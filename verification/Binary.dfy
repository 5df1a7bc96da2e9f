/** Inline binary (section 3.3.1 of RFC 5545): base 64 text, read by whole quanta. */
module Binary {
  import opened Octets
  import opened Characters

  const QUANTUM_LEN: nat := 4

  function Sextet(o: octet): Option<nat> {
    if 65 <= o <= 90 then Some(o as int - 65)
    else if 97 <= o <= 122 then Some(o as int - 97 + 26)
    else if 48 <= o <= 57 then Some(o as int - 48 + 52)
    else if o == PLUS then Some(62)
    else if o == SLASH then Some(63)
    else None
  }

  predicate AllSextets(s: Bytes) {
    forall i | 0 <= i < |s| :: Sextet(s[i]).Some?
  }

  /** How many = the text ends in. */
  function Padding(s: Bytes): (n: nat)
    ensures n <= |s|
  {
    if s == [] || s[|s| - 1] != EQUALS then 0 else 1 + Padding(s[..|s| - 1])
  }

  predicate IsEndQuantum(q: Bytes) {
    Padding(q) <= 2 && AllSextets(q[..|q| - Padding(q)])
  }

  predicate IsBase64Text(s: Bytes) {
    if |s| < QUANTUM_LEN then s == []
    else
      var end := |s| - QUANTUM_LEN;
      end % QUANTUM_LEN == 0 && AllSextets(s[..end]) && IsEndQuantum(s[end..])
  }

  // -------------------------------------------------------------------------
  // The grammar of section 3.3.1
  // -------------------------------------------------------------------------

  predicate IsFullQuantum(q: Bytes) {
    |q| == 4 && AllSextets(q)
  }

  /** Two characters and two =, or three and one. */
  predicate IsPaddedQuantum(q: Bytes) {
    |q| == 4 && q[3] == EQUALS && AllSextets(q[..2]) && (q[2] == EQUALS || Sextet(q[2]).Some?)
  }

  /** Whole quanta of the alphabet, the last one possibly padded. */
  predicate IsBinary(s: Bytes)
    decreases |s|
  {
    || s == []
    || IsPaddedQuantum(s)
    || (|s| >= 4 && IsFullQuantum(s[..4]) && IsBinary(s[4..]))
  }

  lemma {:induction false} PaddingShort(q: Bytes)
    requires |q| == 4
    ensures Padding(q) == if q[3] != EQUALS then 0 else if q[2] != EQUALS then 1 else if q[1] != EQUALS then 2 else if q[0] != EQUALS then 3 else 4
  {
    assert q[..3][..2][..1][..0] == [];
    assert Padding(q[..3][..2][..1]) == if q[0] != EQUALS then 0 else 1;
    assert Padding(q[..3][..2]) == if q[1] != EQUALS then 0 else 1 + Padding(q[..3][..2][..1]);
    assert Padding(q[..3]) == if q[2] != EQUALS then 0 else 1 + Padding(q[..3][..2]);
  }

  lemma {:induction false} EndQuantumIs(q: Bytes)
    requires |q| == 4
    ensures IsEndQuantum(q) <==> IsFullQuantum(q) || IsPaddedQuantum(q)
  {
    PaddingShort(q);
    var n := Padding(q);
    assert forall i | 0 <= i < 4 - n :: q[..4 - n][i] == q[i];
    assert q[..2][0] == q[0] && q[..2][1] == q[1];
    assert Sextet(EQUALS).None?;
  }

  lemma {:induction false} AllSextetsAppend(a: Bytes, b: Bytes)
    ensures AllSextets(a + b) <==> AllSextets(a) && AllSextets(b)
  {
    var s := a + b;
    assert forall i | 0 <= i < |a| :: a[i] == s[i];
    assert forall i | 0 <= i < |b| :: b[i] == s[|a| + i];
  }

  /** The validity test accepts exactly the texts of the grammar. */
  lemma {:induction false} IsBase64TextIff(s: Bytes)
    ensures IsBase64Text(s) <==> IsBinary(s)
    decreases |s|
  {
    hide Sextet, AllSextets, IsEndQuantum;
    if |s| == 4 {
      EndQuantumIs(s);
      assert s[..4] == s && s[4..] == [] && s[0..] == s && s[..0] == [];
      assert AllSextets([]) by { NoSextets(); }
    } else if |s| > 4 {
      var rest := s[4..];
      IsBase64TextIff(rest);
      if |s| >= 8 {
        var end := |s| - 4;
        assert s[end..] == rest[end - 4..] && s[..end] == s[..4] + rest[..end - 4];
        AllSextetsAppend(s[..4], rest[..end - 4]);
      }
    }
  }

  lemma {:induction false} NoSextets()
    ensures AllSextets([])
  {
  }

  // -------------------------------------------------------------------------
  // Reading
  // -------------------------------------------------------------------------

  function SextetOrZero(o: octet): nat {
    if o == EQUALS || Sextet(o).None? then 0 else Sextet(o).value
  }

  /** The 24 bits a quantum packs, = packing six zeros. */
  function Packed(q: Bytes): nat {
    if q == [] then 0 else Packed(q[..|q| - 1]) * 64 + SextetOrZero(q[|q| - 1])
  }

  function Filled(q: Bytes): nat {
    if q == [] then 0 else Filled(q[..|q| - 1]) + if q[|q| - 1] == EQUALS then 0 else 1
  }

  function Octets3(packed: nat): (r: Bytes)
    requires packed < 0x1_000000
    ensures |r| == 3
  {
    [(packed / 65_536) as octet, (packed / 256 % 256) as octet, (packed % 256) as octet]
  }

  lemma {:induction false} PackedBound(q: Bytes)
    requires |q| == 4
    ensures Packed(q) == ((SextetOrZero(q[0]) * 64 + SextetOrZero(q[1])) * 64 + SextetOrZero(q[2])) * 64 + SextetOrZero(q[3]) < 0x1_000000
    ensures Filled(q) == (if q[0] == EQUALS then 0 else 1) + (if q[1] == EQUALS then 0 else 1)
      + (if q[2] == EQUALS then 0 else 1) + (if q[3] == EQUALS then 0 else 1)
  {
    var one, two, three := q[..1], q[..2], q[..3];
    assert one[..0] == [] && two[..1] == one && three[..2] == two;
    assert Packed(one) == SextetOrZero(q[0]) && Packed(two) == Packed(one) * 64 + SextetOrZero(q[1]);
    assert Filled(one) == (if q[0] == EQUALS then 0 else 1) && Filled(two) == Filled(one) + (if q[1] == EQUALS then 0 else 1);
  }

  /** The octets one quantum stands for, as many as its padding leaves. */
  function QuantumOctets(q: Bytes): Bytes
    requires |q| == 4
  {
    PackedBound(q);
    Octets3(Packed(q))[..Filled(q) * 6 / 8]
  }

  predicate IsQuantumText(q: Bytes) {
    |q| == 4 && forall i | 0 <= i < 4 :: q[i] == EQUALS || Sextet(q[i]).Some?
  }

  /** Pack a quantum octet by octet, refusing one outside the alphabet. */
  method ReadQuantum(quantum: Bytes) returns (r: Option<Bytes>)
    requires |quantum| == 4
    ensures r.Some? <==> IsQuantumText(quantum)
    ensures r.Some? ==> r.value == QuantumOctets(quantum)
  {
    hide Sextet;
    var packed: nat, filled: nat := 0, 0;
    for i := 0 to 4
      invariant packed == Packed(quantum[..i]) && filled == Filled(quantum[..i])
      invariant forall j | 0 <= j < i :: quantum[j] == EQUALS || Sextet(quantum[j]).Some?
    {
      var o := quantum[i];
      assert quantum[..i + 1][..i] == quantum[..i];
      if o != EQUALS && Sextet(o).None? { return None; }
      packed := packed * 64 + SextetOrZero(o);
      if o != EQUALS { filled := filled + 1; }
    }
    assert quantum[..4] == quantum;
    PackedBound(quantum);
    return Some(Octets3(packed)[..filled * 6 / 8]);
  }

  function DecodeQuanta(s: Bytes): Bytes
    decreases |s|
  {
    if |s| < 4 then [] else QuantumOctets(s[..4]) + DecodeQuanta(s[4..])
  }

  /** The octets a base 64 text stands for. */
  function DecodeBinary(s: Bytes): Option<Bytes> {
    if IsBase64Text(s) then Some(DecodeQuanta(s)) else None
  }

  /** How much room a text of this many characters is given up front. */
  function DecodedLen(written: nat): nat {
    written / QUANTUM_LEN * 3
  }

  lemma {:induction false} BinaryQuanta(s: Bytes)
    requires IsBinary(s) && s != []
    ensures |s| >= 4 && IsQuantumText(s[..4]) && IsBinary(s[4..])
  {
    if IsPaddedQuantum(s) {
      assert s[..4] == s && s[4..] == [];
      assert s[..2][0] == s[0] && s[..2][1] == s[1];
    } else {
      assert forall i | 0 <= i < 4 :: Sextet(s[..4][i]).Some?;
    }
  }

  /** Read a base 64 text quantum by quantum: it succeeds exactly on the texts of the grammar. */
  method ReadBinary(text: Bytes) returns (r: Option<Bytes>)
    ensures r == DecodeBinary(text)
    ensures r.Some? <==> IsBinary(text)
  {
    hide IsBinary, IsBase64Text, QuantumOctets, IsQuantumText;
    IsBase64TextIff(text);
    if !IsBase64Text(text) { return None; }
    var out: Bytes := [];
    var rest := text;
    while |rest| >= 4
      invariant IsBinary(rest) && out + DecodeQuanta(rest) == DecodeQuanta(text)
      decreases |rest|
    {
      BinaryQuanta(rest);
      var quantum := ReadQuantum(rest[..4]);
      if quantum.None? { return None; }
      assert out + (quantum.value + DecodeQuanta(rest[4..])) == (out + quantum.value) + DecodeQuanta(rest[4..]);
      out := out + quantum.value;
      rest := rest[4..];
    }
    assert DecodeQuanta(rest) == [] && out + [] == out;
    return Some(out);
  }

  /** A text yields three octets a quantum, less one for each = it ends in, and never more than the room given. */
  lemma {:induction false} DecodedLength(s: Bytes)
    requires IsBinary(s)
    ensures |DecodeQuanta(s)| == 3 * |s| / 4 - Padding(s)
    ensures |DecodeQuanta(s)| <= DecodedLen(|s|) && |s| % 4 == 0
    decreases |s|
  {
    hide IsBinary, QuantumOctets, Padding, Filled, IsQuantumText;
    if s == [] {
      PaddingNone();
    } else {
      BinaryQuanta(s);
      var q, rest := s[..4], s[4..];
      DecodedLength(rest);
      QuantumLength(q);
      if rest == [] {
        assert q == s;
        PaddingNone();
        SingleQuantum(s);
      } else {
        FullFirst(s);
        PaddingOfRest(s, 4);
      }
      LengthStep(|s|, |QuantumOctets(q)|, |DecodeQuanta(rest)|, Padding(s), Padding(rest));
    }
  }

  lemma {:induction false} LengthStep(n: nat, first: nat, later: nat, padding: nat, laterPadding: nat)
    requires n >= 4 && (n - 4) % 4 == 0 && later == 3 * (n - 4) / 4 - laterPadding
    requires if n == 4 then first == 3 - padding && laterPadding == 0 else first == 3 && padding == laterPadding
    ensures first + later == 3 * n / 4 - padding && n % 4 == 0 && n / 4 == (n - 4) / 4 + 1
  {
  }

  lemma {:induction false} PaddingNone()
    ensures Padding([]) == 0
  {
  }

  lemma {:induction false} QuantumLength(q: Bytes)
    requires |q| == 4
    ensures |QuantumOctets(q)| == Filled(q) * 6 / 8
  {
    PackedBound(q);
  }

  lemma {:induction false} SingleQuantum(s: Bytes)
    requires |s| == 4 && IsBinary(s)
    ensures Filled(s) * 6 / 8 == 3 - Padding(s)
  {
    PackedBound(s);
    PaddingShort(s);
    assert s[..4] == s && s[..2][0] == s[0] && s[..2][1] == s[1];
    assert Sextet(EQUALS).None?;
  }

  lemma {:induction false} FullFirst(s: Bytes)
    requires |s| > 4 && IsBinary(s)
    ensures Filled(s[..4]) == 4 && s[|s| - 1..] != [] && (Padding(s[4..]) < |s[4..]|)
  {
    PackedBound(s[..4]);
    assert Sextet(EQUALS).None?;
    assert IsFullQuantum(s[..4]) && IsBinary(s[4..]);
    PaddingStops(s[4..]);
  }

  lemma {:induction false} PaddingStops(s: Bytes)
    requires IsBinary(s) && s != []
    ensures Padding(s) < |s|
  {
    assert Sextet(EQUALS).None?;
    var o := s[0];
    assert o != EQUALS by { BinaryOpens(s); }
    PaddingBefore(s);
  }

  lemma {:induction false} BinaryOpens(s: Bytes)
    requires IsBinary(s) && s != []
    ensures s[0] != EQUALS
  {
    if IsPaddedQuantum(s) { assert s[..2][0] == s[0]; } else { assert s[..4][0] == s[0]; }
  }

  lemma {:induction false} PaddingBefore(s: Bytes)
    requires s != [] && s[0] != EQUALS
    ensures Padding(s) < |s|
    decreases |s|
  {
    if |s| > 1 && s[|s| - 1] == EQUALS { PaddingBefore(s[..|s| - 1]); }
  }

  lemma {:induction false} PaddingOfRest(s: Bytes, n: nat)
    requires n < |s| && Padding(s[n..]) < |s[n..]|
    ensures Padding(s) == Padding(s[n..])
    decreases |s|
  {
    if s[|s| - 1] == EQUALS {
      assert s[n..][..|s| - n - 1] == s[..|s| - 1][n..];
      PaddingOfRest(s[..|s| - 1], n);
    }
  }

  // -------------------------------------------------------------------------
  // The encoding of section 4 of RFC 4648
  // -------------------------------------------------------------------------

  function Char(n: nat): octet
    requires n < 64
  {
    if n < 26 then (65 + n) as octet
    else if n < 52 then (97 + n - 26) as octet
    else if n < 62 then (48 + n - 52) as octet
    else if n == 62 then PLUS
    else SLASH
  }

  /** The four characters of 24 bits. */
  function Chars(n: nat): (r: Bytes)
    requires n < 0x1_000000
    ensures |r| == 4
  {
    [Char(n / 262_144), Char(n / 4096 % 64), Char(n / 64 % 64), Char(n % 64)]
  }

  function Encode(b: Bytes): Bytes {
    if b == [] then []
    else if |b| == 1 then Chars(b[0] as int * 65_536)[..2] + [EQUALS, EQUALS]
    else if |b| == 2 then Chars(b[0] as int * 65_536 + b[1] as int * 256)[..3] + [EQUALS]
    else Chars(b[0] as int * 65_536 + b[1] as int * 256 + b[2] as int) + Encode(b[3..])
  }

  lemma {:induction false} CharReads(n: nat)
    requires n < 64
    ensures Sextet(Char(n)) == Some(n) && Char(n) != EQUALS
  {
  }

  lemma {:induction false} CharsRead(n: nat)
    requires n < 0x1_000000
    ensures IsFullQuantum(Chars(n)) && QuantumOctets(Chars(n)) == Octets3(n)
  {
    hide Sextet, Char, Octets3, Packed, Filled;
    CharReads(n / 262_144);
    CharReads(n / 4096 % 64);
    CharReads(n / 64 % 64);
    CharReads(n % 64);
    PackedBound(Chars(n));
    SextetsOf(n);
  }

  lemma {:induction false} SextetsOf(n: nat)
    ensures n == ((n / 262_144 * 64 + n / 4096 % 64) * 64 + n / 64 % 64) * 64 + n % 64
  {
    assert n / 4096 == (n / 64) / 64 && n / 262_144 == (n / 4096) / 64;
  }

  lemma {:induction false} ZeroSextets(n: nat, kept: nat)
    requires if kept == 2 then n % 65_536 == 0 else n % 256 == 0
    ensures n % 64 == 0 && (kept == 2 ==> n / 64 % 64 == 0)
  {
  }

  lemma {:induction false} PaddedRead(n: nat, kept: nat)
    requires n < 0x1_000000 && (kept == 2 || kept == 3)
    requires if kept == 2 then n % 65_536 == 0 else n % 256 == 0
    ensures var q := Chars(n)[..kept] + seq(4 - kept, _ => EQUALS);
      IsPaddedQuantum(q) && QuantumOctets(q) == Octets3(n)[..kept - 1]
  {
    hide Sextet, Char, Octets3, Packed, Filled;
    CharReads(n / 262_144);
    CharReads(n / 4096 % 64);
    CharReads(n / 64 % 64);
    var q := Chars(n)[..kept] + seq(4 - kept, _ => EQUALS);
    assert q[0] == Char(n / 262_144) && q[1] == Char(n / 4096 % 64) && q[3] == EQUALS;
    PackedBound(q);
    SextetsOf(n);
    ZeroSextets(n, kept);
  }

  /** Every octet string is recovered from its encoding. */
  lemma {:induction false} BinaryRoundTrip(b: Bytes)
    ensures IsBinary(Encode(b)) && DecodeQuanta(Encode(b)) == b
    ensures DecodeBinary(Encode(b)) == Some(b)
  {
    hide QuantumOctets, Chars, AllSextets, Octets3, IsBase64Text;
    var s := Encode(b);
    if |b| == 1 {
      var n := b[0] as int * 65_536;
      PaddedRead(n, 2);
      assert s == Chars(n)[..2] + seq(2, _ => EQUALS);
      OneQuantum(s);
      OctetsOf(b[0], 0, 0);
    } else if |b| == 2 {
      var n := b[0] as int * 65_536 + b[1] as int * 256;
      PaddedRead(n, 3);
      assert s == Chars(n)[..3] + seq(1, _ => EQUALS);
      OneQuantum(s);
      OctetsOf(b[0], b[1], 0);
    } else if |b| > 2 {
      var n := b[0] as int * 65_536 + b[1] as int * 256 + b[2] as int;
      CharsRead(n);
      BinaryRoundTrip(b[3..]);
      assert s[..4] == Chars(n) && s[4..] == Encode(b[3..]);
      OctetsOf(b[0], b[1], b[2]);
      assert b == [b[0], b[1], b[2]] + b[3..];
    }
    IsBase64TextIff(s);
  }

  lemma {:induction false} OneQuantum(s: Bytes)
    requires |s| == 4
    ensures DecodeQuanta(s) == QuantumOctets(s)
  {
    assert s[..4] == s && s[4..] == [];
    assert DecodeQuanta([]) == [];
  }

  lemma {:induction false} OctetsOf(x: octet, y: octet, z: octet)
    ensures Octets3(x as int * 65_536 + y as int * 256 + z as int) == [x, y, z]
  {
    var n := x as int * 65_536 + y as int * 256 + z as int;
    assert n / 256 == x as int * 256 + y as int;
    assert n / 65_536 == x as int && n / 256 % 256 == y as int && n % 256 == z as int;
  }

  /** The alphabet of section 4 of RFC 4648, in its order, and nothing outside it. */
  lemma {:induction false} AlphabetIs(n: nat, o: octet)
    ensures Sextet(o) == Some(n) <==> n < 64 && o == Alphabet()[n]
  {
    var upper, lower, digits := "ABCDEFGHIJKLMNOPQRSTUVWXYZ", "abcdefghijklmnopqrstuvwxyz", "0123456789+/";
    assert forall i | 0 <= i < 26 :: upper[i] as int == 65 + i;
    assert forall i | 0 <= i < 26 :: lower[i] as int == 97 + i;
    assert forall i | 0 <= i < 10 :: digits[i] as int == 48 + i;
  }

  function Alphabet(): (r: Bytes)
    ensures |r| == 64
  {
    Ascii("ABCDEFGHIJKLMNOPQRSTUVWXYZ") + Ascii("abcdefghijklmnopqrstuvwxyz") + Ascii("0123456789+/")
  }
}
