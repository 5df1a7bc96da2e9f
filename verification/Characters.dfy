/** The constants every module shares, by what they stand for. */
module Characters {
  import opened Octets

  /** A text of ASCII characters as octets. */
  function Ascii(text: string): (r: Bytes)
    requires forall i | 0 <= i < |text| :: text[i] < '\U{80}'
    ensures |r| == |text| && forall i | 0 <= i < |r| :: r[i] == text[i] as int as octet
  {
    seq(|text|, i requires 0 <= i < |text| => text[i] as int as octet)
  }

  lemma {:induction false} DelimitersAre()
    ensures [HTAB, LF, CR, SP, DQUOTE, QUOTE, COMMA, MINUS] == Ascii("\t\n\r \"',-")
    ensures [PLUS, SLASH, ZERO, COLON, SEMICOLON, EQUALS, BACKSLASH, CARET] == Ascii("+/0:;=\\^")
  {
  }

  function Pow2(n: nat): nat {
    if n == 0 then 1 else 2 * Pow2(n - 1)
  }

  lemma {:induction false} Pow2Adds(m: nat, n: nat)
    ensures Pow2(m + n) == Pow2(m) * Pow2(n)
  {
    if m > 0 { Pow2Adds(m - 1, n); }
  }

  lemma {:induction false} Pow2Small()
    ensures Pow2(1) == 2 && Pow2(4) == 16
  {
  }

  /** The largest and the smallest numbers of their widths. */
  lemma {:induction false} WidthsAre()
    ensures U16_MAX + 1 == Pow2(16) && U32_MAX + 1 == Pow2(32) && U64_MAX + 1 == Pow2(64)
    ensures I64_MAX + 1 == Pow2(63) && I64_MIN == -(Pow2(63) as int)
  {
    hide Pow2;
    Pow2Small();
    Pow2Adds(4, 4);
    Pow2Adds(8, 8);
    Pow2Adds(16, 16);
    Pow2Adds(32, 32);
    Pow2Adds(1, 63);
  }
}
