/**
 Scheduling recipients: read off a request's headers without a duplicate, and matched one to one
 by the deliveries of an answer.
 */
module Scheduling {
  import opened Octets

  datatype HeaderField = HeaderField(name: Bytes, value: Option<Bytes>)

  datatype Delivery = Delivery(recipient: Bytes, requestStatus: Bytes)

  predicate Delivers(deliveries: seq<Delivery>, recipient: Bytes) {
    exists i | 0 <= i < |deliveries| :: deliveries[i].recipient == recipient
  }

  predicate AnswersAll(deliveries: seq<Delivery>, recipients: seq<Bytes>) {
    |deliveries| == |recipients| && forall i | 0 <= i < |recipients| :: Delivers(deliveries, recipients[i])
  }

  function Recipients(deliveries: seq<Delivery>): (r: seq<Bytes>)
    ensures |r| == |deliveries|
    ensures forall i | 0 <= i < |r| :: r[i] == deliveries[i].recipient
  {
    if deliveries == [] then [] else [deliveries[0].recipient] + Recipients(deliveries[1..])
  }

  predicate Distinct(s: seq<Bytes>) {
    forall i, j | 0 <= i < j < |s| :: s[i] != s[j]
  }

  lemma {:induction false} DistinctCounts(s: seq<Bytes>, x: Bytes)
    requires Distinct(s)
    ensures multiset(s)[x] <= 1
  {
    if s != [] {
      assert s == [s[0]] + s[1..];
      DistinctCounts(s[1..], x);
      forall k | 0 <= k < |s[1..]| ensures s[1..][k] != s[0] {
        assert s[1..][k] == s[k + 1];
      }
      assert s[0] !in s[1..];
    }
  }

  /** As many entries as names, each name among them, no name twice: they are the names, each once. */
  lemma {:induction false} Pigeonhole(names: seq<Bytes>, entries: seq<Bytes>)
    requires Distinct(names) && |names| == |entries|
    requires forall i | 0 <= i < |names| :: names[i] in entries
    ensures multiset(names) == multiset(entries)
  {
    var a, b := multiset(names), multiset(entries);
    forall x | x in a ensures a[x] <= b[x] {
      DistinctCounts(names, x);
      assert x in names;
      assert x in entries;
    }
    assert a <= b;
    assert b == a + (b - a);
    assert |b - a| == 0;
  }

  /** An answer that has as many deliveries as there are recipients, and one for each, has exactly one for each. */
  lemma {:induction false} AnswersAllOnce(deliveries: seq<Delivery>, recipients: seq<Bytes>)
    requires Distinct(recipients) && AnswersAll(deliveries, recipients)
    ensures multiset(Recipients(deliveries)) == multiset(recipients)
  {
    var entries := Recipients(deliveries);
    forall i | 0 <= i < |recipients| ensures recipients[i] in entries {
      assert Delivers(deliveries, recipients[i]);
      var k :| 0 <= k < |entries| && deliveries[k].recipient == recipients[i];
      assert entries[k] == recipients[i];
    }
    Pigeonhole(recipients, entries);
  }

  /** Among distinct recipients, the answer's test accepts exactly the deliveries that are theirs, each once. */
  lemma {:induction false} AnswersAllIff(deliveries: seq<Delivery>, recipients: seq<Bytes>)
    requires Distinct(recipients)
    ensures AnswersAll(deliveries, recipients) <==> multiset(Recipients(deliveries)) == multiset(recipients)
  {
    var entries := Recipients(deliveries);
    if AnswersAll(deliveries, recipients) { AnswersAllOnce(deliveries, recipients); }
    if multiset(entries) == multiset(recipients) {
      assert |entries| == |multiset(entries)| == |multiset(recipients)| == |recipients|;
      forall i | 0 <= i < |recipients| ensures Delivers(deliveries, recipients[i]) {
        assert recipients[i] in multiset(entries);
        assert recipients[i] in entries;
        var k :| 0 <= k < |entries| && entries[k] == recipients[i];
      }
    }
  }

  // -------------------------------------------------------------------------
  // Recipients
  // -------------------------------------------------------------------------

  const RECIPIENT: Bytes := [82, 69, 67, 73, 80, 73, 69, 78, 84]

  predicate IsSpace(o: octet) {
    o == SP || 9 <= o <= 13
  }

  /** A value without the white space around it. */
  function Trim(s: Bytes): Bytes
    decreases |s|
  {
    if s != [] && IsSpace(s[0]) then Trim(s[1..])
    else if s != [] && IsSpace(s[|s| - 1]) then Trim(s[..|s| - 1])
    else s
  }

  predicate IsCalAddress(s: Bytes) {
    s != [] && forall i | 0 <= i < |s| :: !IsAsciiControl(s[i]) && s[i] != SP
  }

  /** A header value cut at its commas, each piece trimmed; `piece` is the one being gathered. */
  function SplitList(s: Bytes, piece: Bytes): seq<Bytes> {
    if s == [] then [Trim(piece)]
    else if s[0] == COMMA then [Trim(piece)] + SplitList(s[1..], [])
    else SplitList(s[1..], piece + [s[0]])
  }

  /** Every recipient the headers name, in order; nothing when one of them is no text. */
  function NamedRecipients(headers: seq<HeaderField>): Option<seq<Bytes>> {
    if headers == [] then Some([])
    else if !EqIgnoreCase(headers[0].name, RECIPIENT) then NamedRecipients(headers[1..])
    else
      match (headers[0].value, NamedRecipients(headers[1..]))
      case (Some(value), Some(rest)) => Some(SplitList(value, []) + rest)
      case _ => None
  }

  predicate AllAddresses(s: seq<Bytes>) {
    forall i | 0 <= i < |s| :: IsCalAddress(s[i])
  }

  /** Take one header's recipients, refusing what is no address and what is already held. */
  method TakePieces(held: seq<Bytes>, pieces: seq<Bytes>) returns (r: Option<seq<Bytes>>)
    requires AllAddresses(held) && Distinct(held)
    ensures r.Some? <==> AllAddresses(held + pieces) && Distinct(held + pieces)
    ensures r.Some? ==> r.value == held + pieces
  {
    var out := held;
    for i := 0 to |pieces|
      invariant out == held + pieces[..i] && AllAddresses(out) && Distinct(out)
    {
      assert (held + pieces)[|held| + i] == pieces[i];
      assert forall k | 0 <= k < |out| :: (held + pieces)[k] == out[k];
      if !IsCalAddress(pieces[i]) || pieces[i] in out { return None; }
      assert pieces[..i + 1] == pieces[..i] + [pieces[i]];
      assert held + pieces[..i + 1] == out + [pieces[i]];
      out := out + [pieces[i]];
    }
    assert pieces[..|pieces|] == pieces;
    return Some(out);
  }

  predicate Acceptable(named: Option<seq<Bytes>>) {
    named.Some? && AllAddresses(named.value) && Distinct(named.value)
  }

  lemma {:induction false} StopsAcceptable(held: seq<Bytes>, pieces: seq<Bytes>, rest: seq<Bytes>)
    requires !(AllAddresses(held + pieces) && Distinct(held + pieces))
    ensures !(AllAddresses(held + (pieces + rest)) && Distinct(held + (pieces + rest)))
  {
    var all := held + (pieces + rest);
    assert forall k | 0 <= k < |held + pieces| :: all[k] == (held + pieces)[k];
  }

  /** The recipients still to come, behind those already held. */
  function Behind(held: seq<Bytes>, rest: Option<seq<Bytes>>): Option<seq<Bytes>> {
    match rest
    case None => None
    case Some(more) => Some(held + more)
  }

  /**
   The recipients of a scheduling request: accepted exactly when there is at least one, every one
   is an address, and none is named twice, across all Recipient headers.
   */
  method ParseRecipients(headers: seq<HeaderField>) returns (r: Option<seq<Bytes>>)
    ensures r.Some? <==> Acceptable(NamedRecipients(headers)) && NamedRecipients(headers).value != []
    ensures r.Some? ==> r.value == NamedRecipients(headers).value && Distinct(r.value) && r.value != []
  {
    hide EqIgnoreCase, IsCalAddress, AllAddresses, Distinct;
    var recipients: seq<Bytes> := [];
    NoHeaders(headers);
    for i := 0 to |headers|
      invariant AllAddresses(recipients) && Distinct(recipients)
      invariant Behind(recipients, NamedRecipients(headers[i..])) == NamedRecipients(headers)
    {
      assert headers[i..][0] == headers[i] && headers[i..][1..] == headers[i + 1..];
      if EqIgnoreCase(headers[i].name, RECIPIENT) {
        if headers[i].value.None? { return None; }
        var pieces := SplitList(headers[i].value.value, []);
        ghost var rest := NamedRecipients(headers[i + 1..]);
        var taken := TakePieces(recipients, pieces);
        if taken.None? {
          if rest.Some? { StopsAcceptable(recipients, pieces, rest.value); }
          return None;
        }
        if rest.Some? { assert recipients + (pieces + rest.value) == (recipients + pieces) + rest.value; }
        recipients := taken.value;
      }
    }
    assert headers[|headers|..] == [];
    assert recipients + [] == recipients;
    return if recipients == [] then None else Some(recipients);
  }

  lemma {:induction false} NoHeaders(headers: seq<HeaderField>)
    ensures AllAddresses([]) && Distinct([])
    ensures Behind([], NamedRecipients(headers[0..])) == NamedRecipients(headers)
  {
    assert headers[0..] == headers;
    if NamedRecipients(headers).Some? { assert [] + NamedRecipients(headers).value == NamedRecipients(headers).value; }
  }

  // -------------------------------------------------------------------------
  // A recipient header as it is written, in octets: white space is 9 to 13 and 32, a comma 44
  // -------------------------------------------------------------------------

  predicate IsBlank(s: Bytes) {
    forall i | 0 <= i < |s| :: s[i] == 32 || 9 <= s[i] <= 13
  }

  /** Text with white space on either side of it and none at its ends. */
  datatype Padded = Padded(before: Bytes, text: Bytes, after: Bytes) {
    function Octets(): Bytes {
      before + text + after
    }

    predicate IsTrimmed() {
      && IsBlank(before) && IsBlank(after)
      && (text != [] ==> !IsBlank([text[0]]) && !IsBlank([text[|text| - 1]]))
    }
  }

  lemma {:induction false} BlankIsSpace(o: octet)
    ensures IsBlank([o]) <==> IsSpace(o)
  {
    var s := [o];
    assert s[0] == o;
  }

  lemma {:induction false} TrimsBehind(text: Bytes, after: Bytes)
    requires Padded([], text, after).IsTrimmed()
    ensures Trim(text + after) == text
    decreases |after|
  {
    hide IsBlank;
    var s := text + after;
    if text != [] { BlankIsSpace(text[0]); BlankIsSpace(text[|text| - 1]); }
    if after == [] {
      assert s == text;
    } else {
      var k := |after| - 1;
      assert IsSpace(after[0]) && IsSpace(after[k]) && IsBlank(after[..k]) && IsBlank(after[1..]) by { BlankEnds(after); }
      if text == [] {
        assert s == after;
        assert [] + after[1..] == after[1..];
        TrimsBehind([], after[1..]);
      } else {
        assert s[..|s| - 1] == text + after[..k];
        TrimsBehind(text, after[..k]);
      }
    }
  }

  lemma {:induction false} BlankEnds(s: Bytes)
    requires s != [] && IsBlank(s)
    ensures IsSpace(s[0]) && IsSpace(s[|s| - 1]) && IsBlank(s[..|s| - 1]) && IsBlank(s[1..])
  {
  }

  /** The white space around a text goes, and the text stays. */
  lemma {:induction false} TrimsAround(p: Padded)
    requires p.IsTrimmed()
    ensures Trim(p.Octets()) == p.text
    decreases |p.before|
  {
    hide IsBlank;
    if p.before == [] {
      assert p.Octets() == p.text + p.after;
      TrimsBehind(p.text, p.after);
    } else {
      BlankEnds(p.before);
      TrimsAround(p.(before := p.before[1..]));
      assert p.Octets()[1..] == p.(before := p.before[1..]).Octets();
    }
  }

  /** Pieces joined by commas. */
  function JoinedList(pieces: seq<Bytes>): Bytes
    requires pieces != []
  {
    if |pieces| == 1 then pieces[0] else pieces[0] + ([44] + JoinedList(pieces[1..]))
  }

  function Trimmed(pieces: seq<Bytes>): (r: seq<Bytes>)
    ensures |r| == |pieces| && forall i | 0 <= i < |r| :: r[i] == Trim(pieces[i])
  {
    seq(|pieces|, i requires 0 <= i < |pieces| => Trim(pieces[i]))
  }

  lemma {:induction false} SplitsFirst(gathered: Bytes, piece: Bytes, tail: Bytes)
    requires forall i | 0 <= i < |piece| :: piece[i] != 44
    requires tail == [] || tail[0] == 44
    ensures SplitList(piece + tail, gathered) == [Trim(gathered + piece)] + if tail == [] then [] else SplitList(tail[1..], [])
    decreases |piece|
  {
    hide Trim;
    if piece == [] {
      assert piece + tail == tail && gathered + piece == gathered;
    } else {
      SplitsFirst(gathered + [piece[0]], piece[1..], tail);
      assert (piece + tail)[1..] == piece[1..] + tail;
      assert gathered + [piece[0]] + piece[1..] == gathered + piece;
    }
  }

  /** Pieces joined by commas come apart into as many, in order, each trimmed. */
  lemma {:induction false} SplitsJoined(pieces: seq<Bytes>)
    requires pieces != [] && forall i, j | 0 <= i < |pieces| && 0 <= j < |pieces[i]| :: pieces[i][j] != 44
    ensures SplitList(JoinedList(pieces), []) == Trimmed(pieces)
  {
    hide Trim, SplitList;
    var first := pieces[0];
    assert [] + first == first;
    if |pieces| == 1 {
      SplitsFirst([], first, []);
      assert first + [] == first;
    } else {
      var tail := [44] + JoinedList(pieces[1..]);
      SplitsFirst([], first, tail);
      assert tail[1..] == JoinedList(pieces[1..]);
      SplitsJoined(pieces[1..]);
      assert Trimmed(pieces) == [Trim(first)] + Trimmed(pieces[1..]);
    }
  }

  function AllOctets(ps: seq<Padded>): (r: seq<Bytes>)
    ensures |r| == |ps| && forall i | 0 <= i < |r| :: r[i] == ps[i].Octets()
  {
    seq(|ps|, i requires 0 <= i < |ps| => ps[i].Octets())
  }

  function Texts(ps: seq<Padded>): (r: seq<Bytes>)
    ensures |r| == |ps| && forall i | 0 <= i < |r| :: r[i] == ps[i].text
  {
    seq(|ps|, i requires 0 <= i < |ps| => ps[i].text)
  }

  lemma {:induction false} BlankHasNoComma(p: Padded)
    requires p.IsTrimmed() && forall j | 0 <= j < |p.text| :: p.text[j] != 44
    ensures forall j | 0 <= j < |p.Octets()| :: p.Octets()[j] != 44
  {
  }

  /** Texts without a comma, joined by commas with white space around them, are read back as they are. */
  lemma {:induction false} SplitsPadded(ps: seq<Padded>)
    requires ps != [] && forall i | 0 <= i < |ps| :: ps[i].IsTrimmed()
    requires forall i, j | 0 <= i < |ps| && 0 <= j < |ps[i].text| :: ps[i].text[j] != 44
    ensures SplitList(JoinedList(AllOctets(ps)), []) == Texts(ps)
  {
    hide Trim, SplitList, JoinedList, Padded.IsTrimmed, Padded.Octets;
    var pieces := AllOctets(ps);
    forall i, j | 0 <= i < |pieces| && 0 <= j < |pieces[i]| ensures pieces[i][j] != 44 {
      BlankHasNoComma(ps[i]);
    }
    SplitsJoined(pieces);
    forall i | 0 <= i < |ps| ensures Trimmed(pieces)[i] == Texts(ps)[i] {
      TrimsAround(ps[i]);
    }
  }

  /** "RECIPIENT", in either case. */
  predicate IsRecipientName(name: Bytes) {
    SameLetters(name, [82, 69, 67, 73, 80, 73, 69, 78, 84])
  }

  /** What one more header in front adds: its own texts if it is a Recipient header, nothing otherwise. */
  lemma {:induction false} RecipientHeaderNames(name: Bytes, ps: seq<Padded>, rest: seq<HeaderField>)
    requires ps != [] && forall i | 0 <= i < |ps| :: ps[i].IsTrimmed()
    requires forall i, j | 0 <= i < |ps| && 0 <= j < |ps[i].text| :: ps[i].text[j] != 44
    ensures NamedRecipients([HeaderField(name, Some(JoinedList(AllOctets(ps))))] + rest)
      == if IsRecipientName(name) then Behind(Texts(ps), NamedRecipients(rest)) else NamedRecipients(rest)
    ensures NamedRecipients([HeaderField(name, None)] + rest) == if IsRecipientName(name) then None else NamedRecipients(rest)
    ensures NamedRecipients([]) == Some([])
  {
    hide EqIgnoreCase, SameLetters, SplitList, JoinedList, Padded.IsTrimmed, Padded.Octets;
    EqIgnoreCaseIff(name, RECIPIENT);
    SplitsPadded(ps);
    assert ([HeaderField(name, Some(JoinedList(AllOctets(ps))))] + rest)[1..] == rest;
    assert ([HeaderField(name, None)] + rest)[1..] == rest;
  }

  /** A calendar address here: something, without white space or a control octet. */
  predicate IsAddress(s: Bytes) {
    s != [] && forall i | 0 <= i < |s| :: s[i] > 32 && s[i] != 127
  }

  lemma {:induction false} CalAddressIff(s: Bytes)
    ensures IsCalAddress(s) <==> IsAddress(s)
    ensures IsAddress(s) ==> !IsBlank([s[0]]) && !IsBlank([s[|s| - 1]])
  {
    forall i | 0 <= i < |s| ensures !IsAsciiControl(s[i]) && s[i] != SP <==> s[i] > 32 && s[i] != 127 {}
    if IsAddress(s) {
      BlankIsSpace(s[0]);
      BlankIsSpace(s[|s| - 1]);
    }
  }

  /**
   Addresses joined by commas in one Recipient header, with any white space around them, are the
   request's recipients exactly when none is there twice.
   */
  lemma {:induction false} OneHeaderAccepted(name: Bytes, ps: seq<Padded>)
    requires IsRecipientName(name)
    requires ps != [] && forall i | 0 <= i < |ps| :: IsBlank(ps[i].before) && IsBlank(ps[i].after) && IsAddress(ps[i].text)
    requires forall i, j | 0 <= i < |ps| && 0 <= j < |ps[i].text| :: ps[i].text[j] != 44
    ensures NamedRecipients([HeaderField(name, Some(JoinedList(AllOctets(ps))))]) == Some(Texts(ps))
    ensures Acceptable(Some(Texts(ps))) <==> forall i, j | 0 <= i < j < |ps| :: ps[i].text != ps[j].text
  {
    hide IsBlank, IsAddress, JoinedList, IsRecipientName, IsCalAddress, NamedRecipients;
    forall i | 0 <= i < |ps| ensures ps[i].IsTrimmed() && IsCalAddress(ps[i].text) {
      CalAddressIff(ps[i].text);
    }
    RecipientHeaderNames(name, ps, []);
    var header := [HeaderField(name, Some(JoinedList(AllOctets(ps))))];
    assert header + [] == header;
    assert Texts(ps) + [] == Texts(ps);
  }

  /** A scheduling answer is a non-empty set of deliveries, no recipient twice. */
  method NewScheduleResponse(deliveries: seq<Delivery>) returns (r: Option<seq<Delivery>>)
    ensures r.Some? <==> deliveries != [] && Distinct(Recipients(deliveries))
    ensures r.Some? ==> r.value == deliveries
  {
    hide Recipients;
    ghost var names := Recipients(deliveries);
    if deliveries == [] { return None; }
    for i := 0 to |deliveries|
      invariant forall k, l | 0 <= k < l < i :: names[k] != names[l]
    {
      for j := 0 to i
        invariant forall k | 0 <= k < j :: names[k] != names[i]
      {
        if deliveries[j].recipient == deliveries[i].recipient {
          assert names[j] == names[i];
          return None;
        }
      }
    }
    return Some(deliveries);
  }
}
