/**
 TEXT values (section 3.3.11 of RFC 5545): the printer escapes, the reader resolves, and whatever
 the reader gives no meaning to stays. Text is held as its UTF-8 octets; every octet either side
 looks at is ASCII, and no octet of a longer codepoint is.
 */
module Text {
  import opened Octets

  const LOWER_N: octet := 110
  const UPPER_N: octet := 78

  /** The escapes of section 3.3.11 of RFC 5545: two spellings of a newline, and three octets as themselves. */
  function Meaning(o: octet): Option<octet> {
    if o == BACKSLASH || o == SEMICOLON || o == COMMA then Some(o)
    else if o == LOWER_N || o == UPPER_N then Some(LF)
    else None
  }

  /** The value of a text, its escapes resolved from left to right. */
  function Unescape(s: Bytes): Bytes
    decreases |s|
  {
    if s == [] then []
    else if s[0] != BACKSLASH then [s[0]] + Unescape(s[1..])
    else if |s| == 1 then [BACKSLASH]
    else
      match Meaning(s[1])
      case Some(o) => [o] + Unescape(s[2..])
      case None => [BACKSLASH, s[1]] + Unescape(s[2..])
  }

  lemma {:induction false} UnescapeOctet(o: octet, rest: Bytes)
    requires o != BACKSLASH
    ensures Unescape([o] + rest) == [o] + Unescape(rest)
  {
    assert ([o] + rest)[1..] == rest;
  }

  lemma {:induction false} UnescapePair(o: octet, rest: Bytes)
    ensures Unescape([BACKSLASH, o] + rest)
      == (if Meaning(o).Some? then [Meaning(o).value] else [BACKSLASH, o]) + Unescape(rest)
  {
    assert ([BACKSLASH, o] + rest)[2..] == rest;
  }

  /** What is held back of the octets already seen. */
  function HeldBack(pending: bool): Bytes {
    if pending then [BACKSLASH] else []
  }

  /** What one more octet lets out. */
  function LetOut(pending: bool, o: octet): Bytes {
    if pending then
      if Meaning(o).Some? then [Meaning(o).value] else [BACKSLASH, o]
    else if o == BACKSLASH then []
    else [o]
  }

  lemma {:induction false} LetsOut(pending: bool, o: octet, rest: Bytes)
    ensures Unescape(HeldBack(pending) + ([o] + rest))
      == LetOut(pending, o) + Unescape(HeldBack(!pending && o == BACKSLASH) + rest)
  {
    hide Unescape, Meaning;
    assert [] + rest == rest && [] + ([o] + rest) == [o] + rest;
    if pending {
      assert [BACKSLASH] + ([o] + rest) == [BACKSLASH, o] + rest;
      UnescapePair(o, rest);
    } else if o != BACKSLASH {
      UnescapeOctet(o, rest);
    }
  }

  /** Resolve the escapes of a text in one pass, holding back a backslash until what follows it is seen. */
  method ResolveEscapes(text: Bytes) returns (out: Bytes)
    ensures out == Unescape(text)
  {
    hide Unescape, HeldBack, Meaning;
    out := [];
    var pending := false;
    NothingHeld(text);
    for i := 0 to |text|
      invariant out + Unescape(HeldBack(pending) + text[i..]) == Unescape(text)
    {
      var o := text[i];
      ghost var rest := text[i + 1..];
      assert text[i..] == [o] + rest;
      LetsOut(pending, o, rest);
      ghost var left := Unescape(HeldBack(!pending && o == BACKSLASH) + rest);
      assert out + (LetOut(pending, o) + left) == (out + LetOut(pending, o)) + left;
      if pending {
        var meaning := Meaning(o);
        out := out + if meaning.Some? then [meaning.value] else [BACKSLASH, o];
        pending := false;
      } else if o == BACKSLASH {
        pending := true;
      } else {
        out := out + [o];
      }
    }
    HeldAtEnd(pending, text[|text|..]);
    if pending { out := out + [BACKSLASH]; }
  }

  lemma {:induction false} NothingHeld(text: Bytes)
    ensures [] + Unescape(HeldBack(false) + text[0..]) == Unescape(text)
  {
    assert HeldBack(false) + text[0..] == text;
  }

  lemma {:induction false} HeldAtEnd(pending: bool, rest: Bytes)
    requires rest == []
    ensures Unescape(HeldBack(pending) + rest) == if pending then [BACKSLASH] else []
  {
    assert HeldBack(pending) + rest == HeldBack(pending);
  }

  /**
   The value of a text in octets: the backslash is 92, and of what may follow it 92, 59 and 44
   stand for themselves and 110 and 78 for LF, which is 10.
   */
  lemma {:induction false} UnescapeIs(o: octet, s: Bytes)
    ensures o == 92 || o == 59 || o == 44 ==> Unescape([92, o] + s) == [o] + Unescape(s)
    ensures o == 110 || o == 78 ==> Unescape([92, o] + s) == [10] + Unescape(s)
    ensures o != 92 && o != 59 && o != 44 && o != 110 && o != 78 ==> Unescape([92, o] + s) == [92, o] + Unescape(s)
    ensures o != 92 ==> Unescape([o] + s) == [o] + Unescape(s)
    ensures Unescape([92]) == [92] && Unescape([]) == []
  {
    UnescapePair(o, s);
    if o != 92 { UnescapeOctet(o, s); }
  }

  // -------------------------------------------------------------------------
  // Writing
  // -------------------------------------------------------------------------

  /** The control characters a text may not hold: every one but HTAB and LF. */
  predicate IsRefused(o: octet) {
    IsAsciiControl(o) && o != HTAB && o != LF
  }

  predicate IsEncodable(s: Bytes) {
    forall i | 0 <= i < |s| :: !IsRefused(s[i])
  }

  function EscapedOctet(o: octet): Bytes {
    if o == BACKSLASH || o == SEMICOLON || o == COMMA then [BACKSLASH, o]
    else if o == LF then [BACKSLASH, LOWER_N]
    else [o]
  }

  function EscapeText(s: Bytes): Bytes {
    if s == [] then [] else EscapeText(s[..|s| - 1]) + EscapedOctet(s[|s| - 1])
  }

  /** Write a text, refusing a control character it holds. */
  method EncodeText(text: Bytes) returns (r: Option<Bytes>)
    ensures r.Some? <==> IsEncodable(text)
    ensures r.Some? ==> r.value == EscapeText(text) && LineFree(r.value) && Unescape(r.value) == text
  {
    hide EscapedOctet, LineFree, Unescape;
    var encoded: Bytes := [];
    for i := 0 to |text|
      invariant IsEncodable(text[..i]) && encoded == EscapeText(text[..i])
    {
      var o := text[i];
      if IsRefused(o) { return None; }
      assert text[..i + 1][..i] == text[..i];
      encoded := encoded + EscapedOctet(o);
    }
    assert text[..|text|] == text;
    EscapeRoundTrip(text);
    EscapedIsLineFree(text);
    return Some(encoded);
  }

  lemma {:induction false} UnescapeEscaped(o: octet, rest: Bytes)
    ensures Unescape(EscapedOctet(o) + rest) == [o] + Unescape(rest)
  {
    hide Unescape;
    if |EscapedOctet(o)| == 2 { UnescapePair(EscapedOctet(o)[1], rest); } else { UnescapeOctet(o, rest); }
  }

  lemma {:induction false} UnescapeAppend(s: Bytes, rest: Bytes)
    ensures Unescape(EscapeText(s) + rest) == s + Unescape(rest)
    decreases |s|
  {
    hide Unescape, EscapedOctet;
    if s == [] {
      assert EscapeText(s) + rest == rest;
    } else {
      var front, o := s[..|s| - 1], s[|s| - 1];
      assert EscapeText(s) + rest == EscapeText(front) + (EscapedOctet(o) + rest);
      UnescapeAppend(front, EscapedOctet(o) + rest);
      UnescapeEscaped(o, rest);
      assert s == front + [o];
    }
  }

  /** A text that was written reads back as itself: the printer loses nothing, on any octets. */
  lemma {:induction false} EscapeRoundTrip(s: Bytes)
    ensures Unescape(EscapeText(s)) == s
  {
    hide Unescape;
    UnescapeAppend(s, []);
    assert EscapeText(s) + [] == EscapeText(s);
    assert Unescape([]) == [] by { UnescapeNothing(); }
  }

  lemma {:induction false} UnescapeNothing()
    ensures Unescape([]) == []
  {
  }

  /** How one more octet of a text is written: 92, 59 and 44 behind a backslash, LF as a backslash and n. */
  function WrittenOctet(o: octet): Bytes {
    if o == 92 || o == 59 || o == 44 then [92, o] else if o == 10 then [92, 110] else [o]
  }

  lemma {:induction false} EscapeIs(s: Bytes, o: octet)
    ensures EscapeText([]) == [] && EscapeText(s + [o]) == EscapeText(s) + WrittenOctet(o)
    ensures IsEncodable(s + [o]) <==> IsEncodable(s) && (o >= 32 || o == 9 || o == 10) && o != 127
    ensures IsEncodable([])
  {
    var t := s + [o];
    assert t[..|t| - 1] == s && t[|t| - 1] == o;
    assert IsEncodable(t) ==> forall i | 0 <= i < |s| :: s[i] == t[i];
  }

  /** Different texts are written differently. */
  lemma {:induction false} EscapeIsInjective(s: Bytes, t: Bytes)
    requires EscapeText(s) == EscapeText(t)
    ensures s == t
  {
    EscapeRoundTrip(s);
    EscapeRoundTrip(t);
  }

  /** An encodable text is written without an octet that could end its line. */
  lemma {:induction false} EscapedIsLineFree(s: Bytes)
    requires IsEncodable(s)
    ensures LineFree(EscapeText(s))
    decreases |s|
  {
    if s != [] {
      EscapedIsLineFree(s[..|s| - 1]);
      assert !IsRefused(s[|s| - 1]);
    }
  }

  // -------------------------------------------------------------------------
  // What has no meaning stays
  // -------------------------------------------------------------------------

  /** How many escapes a reader resolves. */
  function Resolved(s: Bytes): nat
    decreases |s|
  {
    if |s| < 2 then 0
    else if s[0] != BACKSLASH then Resolved(s[1..])
    else (if Meaning(s[1]).Some? then 1 else 0) + Resolved(s[2..])
  }

  /** A resolved escape costs one octet; an undefined or a trailing one costs none, on any input. */
  lemma {:induction false} OnlyResolvedShrink(s: Bytes)
    ensures |Unescape(s)| == |s| - Resolved(s)
    decreases |s|
  {
    if |s| >= 2 {
      OnlyResolvedShrink(if s[0] == BACKSLASH then s[2..] else s[1..]);
    } else if |s| == 1 && s[0] != BACKSLASH {
      assert s[1..] == [];
    }
  }

  /** A text without a resolved escape is its own value, undefined escapes and all. */
  lemma {:induction false} UnresolvedStays(s: Bytes)
    requires Resolved(s) == 0
    ensures Unescape(s) == s
    decreases |s|
  {
    if |s| >= 2 {
      UnresolvedStays(if s[0] == BACKSLASH then s[2..] else s[1..]);
      assert s == if s[0] == BACKSLASH then [s[0], s[1]] + s[2..] else [s[0]] + s[1..];
    } else if |s| == 1 && s[0] != BACKSLASH {
      assert s[1..] == [];
    }
  }
}
