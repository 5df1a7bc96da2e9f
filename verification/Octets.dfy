/** Octets, the stock wrappers, and the few sequence facts every other module needs. */
module Octets {

  newtype octet = x: int | 0 <= x < 256

  type Bytes = seq<octet>

  datatype Option<+T> = None | Some(value: T)

  datatype Result<+T, +E> = Ok(value: T) | Err(error: E)

  const HTAB: octet := 9
  const LF: octet := 10
  const CR: octet := 13
  const SP: octet := 32
  const DQUOTE: octet := 34
  const QUOTE: octet := 39
  const COMMA: octet := 44
  const MINUS: octet := 45
  const PLUS: octet := 43
  const SLASH: octet := 47
  const ZERO: octet := 48
  const COLON: octet := 58
  const SEMICOLON: octet := 59
  const EQUALS: octet := 61
  const BACKSLASH: octet := 92
  const CARET: octet := 94

  const U16_MAX: nat := 0xFFFF
  const U32_MAX: nat := 0xFFFF_FFFF
  const U64_MAX: nat := 0xFFFF_FFFF_FFFF_FFFF
  const I64_MAX: int := 0x7FFF_FFFF_FFFF_FFFF
  const I64_MIN: int := -0x8000_0000_0000_0000

  /** The concatenation of a list of octet runs. */
  function Concat(runs: seq<Bytes>): (r: Bytes) {
    if runs == [] then [] else runs[0] + Concat(runs[1..])
  }

  lemma {:induction false} ConcatAppend(a: seq<Bytes>, b: seq<Bytes>)
    ensures Concat(a + b) == Concat(a) + Concat(b)
  {
    if a == [] {
      assert a + b == b;
    } else {
      ConcatAppend(a[1..], b);
      assert (a + b)[1..] == a[1..] + b && (a + b)[0] == a[0];
      assert Concat(a + b) == a[0] + (Concat(a[1..]) + Concat(b));
    }
  }

  lemma {:induction false} ConcatSnoc(a: seq<Bytes>, last: Bytes)
    ensures Concat(a + [last]) == Concat(a) + last
  {
    ConcatAppend(a, [last]);
    assert Concat([last]) == last;
  }

  /** Extending the last run extends the concatenation. */
  lemma {:induction false} ConcatExtend(a: seq<Bytes>, last: Bytes, more: Bytes)
    ensures Concat(a + [last + more]) == Concat(a + [last]) + more
  {
    ConcatSnoc(a, last + more);
    ConcatSnoc(a, last);
  }

  /** The first step of every proof about a list appended to another. */
  lemma {:induction false} AppendFront<T>(a: seq<T>, b: seq<T>)
    requires a != []
    ensures (a + b)[0] == a[0] && (a + b)[1..] == a[1..] + b
  {
  }

  lemma {:induction false} AppendTwice<T>(a: seq<T>, b: seq<T>, c: seq<T>)
    ensures a + (b + c) == (a + b) + c
  {
  }

  lemma {:induction false} Absorb(a: Bytes, o: octet, s: Bytes)
    ensures a + ([o] + s) == (a + [o]) + s
  {
  }

  lemma {:induction false} ConsSlices<T>(x: T, s: seq<T>, n: nat)
    requires n <= |s|
    ensures ([x] + s)[..n + 1] == [x] + s[..n] && ([x] + s)[n + 1..] == s[n..] && ([x] + s)[1..] == s
  {
  }

  function Max(a: nat, b: nat): nat {
    if a < b then b else a
  }

  function Upper(o: octet): octet {
    if 97 <= o <= 122 then o - 32 else o
  }

  /** ASCII case-insensitive equality, the comparison of names. */
  predicate EqIgnoreCase(a: Bytes, b: Bytes) {
    |a| == |b| && forall i | 0 <= i < |a| :: Upper(a[i]) == Upper(b[i])
  }

  /** The same letters, each in either case: A to Z are 65 to 90, a to z are 97 to 122. */
  predicate SameLetters(a: Bytes, b: Bytes) {
    && |a| == |b|
    && forall i | 0 <= i < |a| ::
         || a[i] == b[i]
         || (65 <= a[i] <= 90 && b[i] == a[i] + 32)
         || (97 <= a[i] <= 122 && b[i] == a[i] - 32)
  }

  /** Comparing names ignores the case of ASCII letters and nothing else. */
  lemma {:induction false} EqIgnoreCaseIff(a: Bytes, b: Bytes)
    ensures EqIgnoreCase(a, b) <==> SameLetters(a, b)
  {
    if |a| == |b| {
      forall i | 0 <= i < |a|
        ensures Upper(a[i]) == Upper(b[i]) <==>
          (a[i] == b[i] || (65 <= a[i] <= 90 && b[i] == a[i] + 32) || (97 <= a[i] <= 122 && b[i] == a[i] - 32))
      {
      }
    }
  }

  predicate IsDigit(o: octet) {
    48 <= o <= 57
  }

  /** Every ASCII control character, HTAB included. */
  predicate IsAsciiControl(o: octet) {
    o < 32 || o == 127
  }

  /** The CONTROL octets of section 3.1 of RFC 5545, which leave HTAB out. */
  predicate IsControlOctet(o: octet) {
    IsAsciiControl(o) && o != HTAB
  }

  predicate IsFoldWhitespace(o: octet) {
    o == SP || o == HTAB
  }

  /** No octet that could end a physical line. */
  predicate LineFree(s: Bytes) {
    forall i | 0 <= i < |s| :: s[i] != CR && s[i] != LF
  }
}
