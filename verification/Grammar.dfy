/**
 The content-line grammar as two separate stages: unfolding a logical line out of the octets
 (section 3.1 of RFC 5545), then splitting the unfolded line into name, parameters and value
 (section 3.2). The reader does both in one pass; it is proved against this pair.
 */
module Grammar {
  import opened Octets
  import opened Syntax

  // -------------------------------------------------------------------------
  // Stage one: logical lines
  // -------------------------------------------------------------------------

  /** The terminator at the front of s, CR LF counting as one. */
  function TerminatorAt(s: Bytes): (r: Option<LineEnding>)
    ensures r.None? <==> s == [] || (s[0] != CR && s[0] != LF)
    ensures r.Some? ==> r.value.Octets() <= s
  {
    if s == [] then None
    else if s[0] == CR then
      if |s| > 1 && s[1] == LF then Some(CrLf) else Some(Cr)
    else if s[0] == LF then Some(Lf)
    else None
  }

  /** Whether the terminator e at the front of s introduces a continuation. */
  predicate FoldsAt(s: Bytes, e: LineEnding) {
    |e.Octets()| < |s| && IsFoldWhitespace(s[|e.Octets()|])
  }

  /** One logical line: its unfolded octets, where it was folded, how it ended, what follows. */
  datatype Logical = Logical(content: Bytes, folds: seq<FoldPoint>, ending: Option<LineEnding>, rest: Bytes)

  /** The logical line at the front of s, the first `col` octets of which were already read. */
  function ReadLogical(s: Bytes, col: nat): (l: Logical)
    ensures |l.rest| <= |s|
    ensures s != [] ==> |l.rest| < |s|
    decreases |s|
  {
    if s == [] then Logical([], [], None, [])
    else
      match TerminatorAt(s)
      case None =>
        var l := ReadLogical(s[1..], col + 1);
        l.(content := [s[0]] + l.content)
      case Some(e) =>
        var w := |e.Octets()|;
        if FoldsAt(s, e) then
          var l := ReadLogical(s[w + 1..], col);
          l.(folds := [FoldPoint(col, s[w] == HTAB, e)] + l.folds)
        else Logical([], [], Some(e), s[w..])
  }

  // The three ways a logical line goes on, one at a time.

  lemma {:induction false} ReadsOctet(s: Bytes, col: nat)
    requires s != [] && TerminatorAt(s).None?
    ensures var l := ReadLogical(s[1..], col + 1); ReadLogical(s, col) == l.(content := [s[0]] + l.content)
  {
  }

  lemma {:induction false} ReadsFold(s: Bytes, col: nat, e: LineEnding)
    requires TerminatorAt(s) == Some(e) && FoldsAt(s, e)
    ensures var w := |e.Octets()|; var l := ReadLogical(s[w + 1..], col);
      ReadLogical(s, col) == l.(folds := [FoldPoint(col, s[w] == HTAB, e)] + l.folds)
  {
    hide TerminatorAt, LineEnding.Octets, IsFoldWhitespace;
  }

  lemma {:induction false} ReadsEnd(s: Bytes, col: nat)
    requires s == [] || (TerminatorAt(s).Some? && !FoldsAt(s, TerminatorAt(s).value))
    ensures ReadLogical(s, col)
      == Logical([], [], TerminatorAt(s), if s == [] then [] else s[|TerminatorAt(s).value.Octets()|..])
  {
  }

  /** Content and folds already read, put back in front of what is still to come. */
  function Prepend(content: Bytes, folds: seq<FoldPoint>, l: Logical): Logical {
    l.(content := content + l.content, folds := folds + l.folds)
  }

  /** What an unfolded line never holds, and where its folds may sit. */
  lemma {:induction false} ReadLogicalShape(s: Bytes, col: nat)
    ensures var l := ReadLogical(s, col);
      && LineFree(l.content)
      && (l.ending.None? ==> l.rest == [])
      && (forall i | 0 <= i < |l.folds| :: col <= l.folds[i].offset <= col + |l.content|)
      && (forall i, j | 0 <= i < j < |l.folds| :: l.folds[i].offset <= l.folds[j].offset)
      && (l.rest != [] ==> !IsFoldWhitespace(l.rest[0]))
      && (l.rest != [] && l.ending == Some(Cr) ==> l.rest[0] != LF)
      && (s != [] && IsFoldWhitespace(s[0]) ==> l.content != [] && l.content[0] == s[0] && (l.folds != [] ==> col < l.folds[0].offset))
    decreases |s|
  {
    hide ReadLogical;
    if s != [] && TerminatorAt(s).None? {
      ReadsOctet(s, col);
      ReadLogicalShape(s[1..], col + 1);
    } else if s != [] && FoldsAt(s, TerminatorAt(s).value) {
      var e := TerminatorAt(s).value;
      ReadsFold(s, col, e);
      ReadLogicalShape(s[|e.Octets()| + 1..], col);
    } else {
      ReadsEnd(s, col);
    }
  }

  // -------------------------------------------------------------------------
  // Reading forward
  // -------------------------------------------------------------------------

  lemma {:induction false} AdvanceOctet(c: Bytes, f: seq<FoldPoint>, s: Bytes)
    requires s != [] && TerminatorAt(s).None?
    ensures Prepend(c, f, ReadLogical(s, |c|)) == Prepend(c + [s[0]], f, ReadLogical(s[1..], |c| + 1))
  {
    hide ReadLogical;
    ReadsOctet(s, |c|);
    Absorb(c, s[0], ReadLogical(s[1..], |c| + 1).content);
  }

  lemma {:induction false} AdvanceRun(c: Bytes, f: seq<FoldPoint>, s: Bytes, n: nat)
    requires n <= |s| && LineFree(s[..n])
    ensures Prepend(c, f, ReadLogical(s, |c|)) == Prepend(c + s[..n], f, ReadLogical(s[n..], |c| + n))
    decreases n
  {
    hide ReadLogical;
    if n == 0 {
      assert c + s[..0] == c && s[0..] == s;
    } else {
      assert s[..n][0] == s[0];
      AdvanceOctet(c, f, s);
      assert s[1..][..n - 1] == s[..n][1..];
      AdvanceRun(c + [s[0]], f, s[1..], n - 1);
      assert c + [s[0]] + s[1..][..n - 1] == c + s[..n];
      assert s[1..][n - 1..] == s[n..];
    }
  }

  /** At the end of the input, or at a terminator that is not a fold, the line is over. */
  lemma {:induction false} AdvanceEnd(c: Bytes, f: seq<FoldPoint>, s: Bytes)
    requires s == [] || (TerminatorAt(s).Some? && !FoldsAt(s, TerminatorAt(s).value))
    ensures Prepend(c, f, ReadLogical(s, |c|))
      == Logical(c, f, TerminatorAt(s), if s == [] then [] else s[|TerminatorAt(s).value.Octets()|..])
  {
    hide ReadLogical;
    ReadsEnd(s, |c|);
    assert c + [] == c && f + [] == f;
  }

  lemma {:induction false} PrependFold(c: Bytes, f: seq<FoldPoint>, p: FoldPoint, l: Logical)
    ensures Prepend(c, f, l.(folds := [p] + l.folds)) == Prepend(c, f + [p], l)
  {
    assert f + ([p] + l.folds) == (f + [p]) + l.folds;
  }

  lemma {:induction false} AdvanceFold(c: Bytes, f: seq<FoldPoint>, s: Bytes, e: LineEnding, w: nat)
    requires TerminatorAt(s) == Some(e) && FoldsAt(s, e) && w == |e.Octets()|
    ensures var l := ReadLogical(s[w + 1..], |c|);
      && Prepend(c, f, ReadLogical(s, |c|)) == Prepend(c, f + [FoldPoint(|c|, s[w] == HTAB, e)], l)
      && ReadLogical(s, |c|).content == l.content
  {
    hide ReadLogical;
    ReadsFold(s, |c|, e);
    PrependFold(c, f, FoldPoint(|c|, s[w] == HTAB, e), ReadLogical(s[w + 1..], |c|));
  }

  lemma {:induction false} PrependNothing(l: Logical)
    ensures Prepend([], [], l) == l
  {
    assert [] + l.content == l.content && [] + l.folds == l.folds;
  }

  // -------------------------------------------------------------------------
  // Unfolding, in the octets themselves: CR 13, LF 10, HTAB 9, SP 32
  // -------------------------------------------------------------------------

  predicate IsNewline(nl: Bytes) {
    nl == [13, 10] || nl == [10] || nl == [13]
  }

  lemma {:induction false} NewlineAt(nl: Bytes, after: Bytes)
    requires IsNewline(nl) && (nl == [13] ==> after == [] || after[0] != 10)
    ensures TerminatorAt(nl + after).Some? && TerminatorAt(nl + after).value.Octets() == nl
    ensures (nl + after)[|nl|..] == after
    ensures FoldsAt(nl + after, TerminatorAt(nl + after).value) <==> after != [] && (after[0] == 32 || after[0] == 9)
  {
    assert forall i | 0 <= i < |nl| :: (nl + after)[i] == nl[i];
    assert after != [] ==> (nl + after)[|nl|] == after[0];
  }

  lemma {:induction false} AdvanceContent(content: Bytes, tail: Bytes)
    requires forall i | 0 <= i < |content| :: content[i] != 13 && content[i] != 10
    ensures ReadLogical(content + tail, 0) == Prepend(content, [], ReadLogical(tail, |content|))
  {
    hide ReadLogical;
    var s := content + tail;
    assert s[..|content|] == content && s[|content|..] == tail;
    AdvanceRun([], [], s, |content|);
    PrependNothing(ReadLogical(s, 0));
    assert [] + content == content;
  }

  /**
   A terminator followed by SP or HTAB is taken out with that octet and the line goes on; any
   other terminator ends the line, and what is behind it is untouched.
   */
  lemma {:induction false} UnfoldsAt(content: Bytes, nl: Bytes, after: Bytes)
    requires forall i | 0 <= i < |content| :: content[i] != 13 && content[i] != 10
    requires IsNewline(nl) && (nl == [13] ==> after == [] || after[0] != 10)
    ensures ReadLogical(content + (nl + after), 0).content == content +
      if after != [] && (after[0] == 32 || after[0] == 9) then ReadLogical(after[1..], |content|).content else []
    ensures after == [] || (after[0] != 32 && after[0] != 9) ==>
      var l := ReadLogical(content + (nl + after), 0);
      l.folds == [] && l.ending.Some? && l.ending.value.Octets() == nl && l.rest == after
  {
    hide ReadLogical;
    var s := nl + after;
    NewlineAt(nl, after);
    AdvanceContent(content, s);
    var e := TerminatorAt(s).value;
    if FoldsAt(s, e) {
      AdvanceFold(content, [], s, e, |nl|);
      assert s[|nl| + 1..] == after[1..];
    } else {
      AdvanceEnd(content, [], s);
    }
  }

  // -------------------------------------------------------------------------
  // Stage two: the header
  // -------------------------------------------------------------------------

  /** How long s runs before the first of the octets in `stops`. */
  function Until(s: Bytes, stops: set<octet>): (n: nat)
    ensures n <= |s|
    ensures forall i | 0 <= i < n :: s[i] !in stops
    ensures n < |s| ==> s[n] in stops
  {
    if s == [] || s[0] in stops then 0 else 1 + Until(s[1..], stops)
  }

  lemma {:induction false} UntilAppend(a: Bytes, b: Bytes, stops: set<octet>)
    requires forall i | 0 <= i < |a| :: a[i] !in stops
    ensures Until(a + b, stops) == |a| + Until(b, stops)
  {
    if a == [] {
      assert a + b == b;
    } else {
      UntilAppend(a[1..], b, stops);
      assert (a + b)[1..] == a[1..] + b;
    }
  }

  const NAME_STOPS: set<octet> := {SEMICOLON, COLON}
  const PARAMETER_STOPS: set<octet> := {EQUALS, SEMICOLON, COLON}

  /** Scanning a parameter value: quotes matter at its start and after each comma, nowhere else. */
  datatype ValueState = ValueStart | ValueText | Quoted

  function NextValueState(state: ValueState, o: octet): ValueState {
    match state
    case Quoted => if o == DQUOTE then ValueText else Quoted
    case ValueStart => if o == DQUOTE then Quoted else if o == COMMA then ValueStart else ValueText
    case ValueText => if o == COMMA then ValueStart else ValueText
  }

  /** The state after the whole of v. */
  function RunValue(v: Bytes, state: ValueState): ValueState {
    if v == [] then state else RunValue(v[1..], NextValueState(state, v[0]))
  }

  /** How long a parameter value runs: up to the first ; or : outside quotes. */
  function ValueEnd(s: Bytes, state: ValueState): (n: nat)
    ensures n <= |s|
    ensures n < |s| ==> s[n] in NAME_STOPS
  {
    if s == [] || (state != Quoted && s[0] in NAME_STOPS) then 0
    else 1 + ValueEnd(s[1..], NextValueState(state, s[0]))
  }

  datatype Header = Header(name: Bytes, parameters: seq<Parameter>, separated: bool, value: Bytes)

  /** One parameter, from after the ; that opens it, and the octets behind it. */
  function TakeAfterSemicolon(s: Bytes): (r: (Parameter, Bytes))
    ensures |r.1| <= |s| && (r.1 == [] || r.1[0] in NAME_STOPS)
  {
    var n := Until(s, PARAMETER_STOPS);
    if n < |s| && s[n] == EQUALS then
      var text := s[n + 1..];
      var v := ValueEnd(text, ValueStart);
      (Parameter(s[..n], text[..v], true), text[v..])
    else (Parameter(s[..n], [], false), s[n..])
  }

  /** One parameter, from the ; that opens it, and the octets after it. */
  function TakeParameter(s: Bytes): (r: (Parameter, Bytes))
    requires s != []
    ensures |r.1| < |s| && (r.1 == [] || r.1[0] in NAME_STOPS)
  {
    TakeAfterSemicolon(s[1..])
  }

  /** The parameters and the value, from the delimiter that ended the name. */
  function SplitTail(s: Bytes): (h: Header)
    requires s == [] || s[0] in NAME_STOPS
    ensures h.name == []
    decreases |s|
  {
    if s == [] then Header([], [], false, [])
    else if s[0] == COLON then Header([], [], true, s[1..])
    else
      var (p, rest) := TakeParameter(s);
      ConsParameter(p, SplitTail(rest))
  }

  function ConsParameter(p: Parameter, h: Header): Header {
    h.(parameters := [p] + h.parameters)
  }

  /** The header of an unfolded line, and the value after it. */
  function Split(line: Bytes): Header {
    var n := Until(line, NAME_STOPS);
    SplitTail(line[n..]).(name := line[..n])
  }

  /** The inverse direction: a header's octets. */
  function Assemble(h: Header): Bytes {
    h.name + AssembleTail(h)
  }

  function AssembleTail(h: Header): Bytes {
    Concat(ParameterListSpans(h.parameters)) + Concat(SeparatorSpans(h.separated)) + h.value
  }

  function ParameterOctets(p: Parameter): Bytes {
    if p.hasValue then [SEMICOLON] + p.name + [EQUALS] + p.value else [SEMICOLON] + p.name
  }

  lemma {:induction false} ParameterOctetsAreSpans(p: Parameter)
    ensures Concat(ParameterSpans(p)) == ParameterOctets(p)
  {
    ConcatPair([SEMICOLON], p.name);
    ConcatPair([EQUALS], p.value);
    ConcatAppend([[SEMICOLON], p.name], if p.hasValue then [[EQUALS], p.value] else []);
  }

  lemma {:induction false} ConcatPair(a: Bytes, b: Bytes)
    ensures Concat([a, b]) == a + b
  {
    assert [a, b][1..] == [b];
    assert Concat([b]) == b;
  }

  /** The tail of a header with one more parameter in front. */
  lemma {:induction false} AssembleTailCons(p: Parameter, h: Header)
    ensures AssembleTail(ConsParameter(p, h)) == ParameterOctets(p) + AssembleTail(h)
  {
    var ps := [p] + h.parameters;
    assert ps[1..] == h.parameters;
    ConcatAppend(ParameterSpans(p), ParameterListSpans(h.parameters));
    ParameterOctetsAreSpans(p);
  }

  lemma {:induction false} AssembleNoParameters(h: Header)
    requires h.parameters == []
    ensures AssembleTail(h) == (if h.separated then [COLON] else []) + h.value
  {
    assert Concat([[COLON]]) == [COLON];
  }

  lemma {:induction false} AssociateValued(name: Bytes, value: Bytes, rest: Bytes)
    ensures [SEMICOLON] + name + [EQUALS] + value + rest == [SEMICOLON] + (name + ([EQUALS] + (value + rest)))
  {
  }

  lemma {:induction false} CutAt(s: Bytes, n: nat)
    requires n <= |s|
    ensures s[..n] + s[n..] == s
    ensures n < |s| ==> s[n..] == [s[n]] + s[n + 1..]
  {
  }

  lemma {:induction false} RejoinValued(s: Bytes, n: nat, v: nat)
    requires s != [] && s[0] == SEMICOLON && n < |s[1..]| && s[1..][n] == EQUALS && v <= |s[1..][n + 1..]|
    ensures [SEMICOLON] + s[1..][..n] + [EQUALS] + s[1..][n + 1..][..v] + s[1..][n + 1..][v..] == s
  {
    var after := s[1..];
    var text := after[n + 1..];
    AssociateValued(after[..n], text[..v], text[v..]);
    CutAt(text, v);
    CutAt(after, n);
    CutAt(s, 0);
    assert s[..0] == [] && s[0..] == s;
  }

  lemma {:induction false} RejoinBare(s: Bytes, n: nat)
    requires s != [] && s[0] == SEMICOLON && n <= |s[1..]|
    ensures [SEMICOLON] + s[1..][..n] + s[1..][n..] == s
  {
  }

  lemma {:induction false} TakeParameterOctets(s: Bytes)
    requires s != [] && s[0] == SEMICOLON
    ensures ParameterOctets(TakeParameter(s).0) + TakeParameter(s).1 == s
  {
    var s1 := s[1..];
    var n := Until(s1, PARAMETER_STOPS);
    if n < |s1| && s1[n] == EQUALS {
      RejoinValued(s, n, ValueEnd(s1[n + 1..], ValueStart));
    } else {
      RejoinBare(s, n);
    }
  }

  /** Splitting loses no octet: the parts, written back in order, are the line. */
  lemma {:induction false} AssembleSplitTail(s: Bytes)
    requires s == [] || s[0] in NAME_STOPS
    ensures AssembleTail(SplitTail(s)) == s
    decreases |s|
  {
    if s == [] || s[0] == COLON {
      AssembleNoParameters(SplitTail(s));
    } else {
      var (p, rest) := TakeParameter(s);
      AssembleSplitTail(rest);
      AssembleTailCons(p, SplitTail(rest));
      TakeParameterOctets(s);
    }
  }

  lemma {:induction false} AssembleSplit(line: Bytes)
    ensures Assemble(Split(line)) == line
  {
    var n := Until(line, NAME_STOPS);
    AssembleSplitTail(line[n..]);
    assert line == line[..n] + line[n..];
  }

  // -------------------------------------------------------------------------
  // Which headers read back as themselves
  // -------------------------------------------------------------------------

  /** A parameter value that holds no bare delimiter, ending in the given state. */
  predicate ValueReads(v: Bytes, state: ValueState) {
    ValueEnd(v, state) == |v|
  }

  /** Whether a parameter value leaves a quoted string open at its end. */
  predicate LeavesQuoteOpen(v: Bytes) {
    RunValue(v, ValueStart) == Quoted
  }

  predicate ParameterReads(p: Parameter) {
    && (forall i | 0 <= i < |p.name| :: p.name[i] !in PARAMETER_STOPS)
    && (if p.hasValue then ValueReads(p.value, ValueStart) else p.value == [])
  }

  predicate OpensQuote(p: Parameter) {
    p.hasValue && LeavesQuoteOpen(p.value)
  }

  /** Exactly the headers some line splits into: an open quote only at the very end of the line. */
  predicate HeaderReads(h: Header) {
    && (forall i | 0 <= i < |h.name| :: h.name[i] !in NAME_STOPS)
    && TailReads(h)
  }

  predicate TailReads(h: Header) {
    && (forall i | 0 <= i < |h.parameters| :: ParameterReads(h.parameters[i]))
    && (forall i | 0 <= i < |h.parameters| ::
          OpensQuote(h.parameters[i]) ==> i == |h.parameters| - 1 && !h.separated)
    && (!h.separated ==> h.value == [])
  }

  lemma {:induction false} ValueEndAppend(a: Bytes, b: Bytes, state: ValueState)
    requires ValueReads(a, state)
    ensures ValueEnd(a + b, state) == |a| + ValueEnd(b, RunValue(a, state))
  {
    if a == [] {
      assert a + b == b;
    } else {
      ValueEndAppend(a[1..], b, NextValueState(state, a[0]));
      assert (a + b)[1..] == a[1..] + b;
    }
  }

  /** What ValueEnd takes off the front is a value, and it stops open only at the end. */
  lemma {:induction false} ValueEndReads(s: Bytes, state: ValueState)
    ensures ValueReads(s[..ValueEnd(s, state)], state)
    ensures ValueEnd(s, state) < |s| ==> RunValue(s[..ValueEnd(s, state)], state) != Quoted
  {
    if s == [] || (state != Quoted && s[0] in NAME_STOPS) {
      assert s[..0] == [];
    } else {
      var v := ValueEnd(s, state);
      ValueEndReads(s[1..], NextValueState(state, s[0]));
      assert s[..v][1..] == s[1..][..v - 1];
    }
  }

  lemma {:induction false} ConcatCuts(a: Bytes, b: Bytes)
    ensures (a + b)[..|a|] == a && (a + b)[|a|..] == b
  {
  }

  lemma {:induction false} ParameterOctetsTail(p: Parameter, rest: Bytes)
    ensures var s := ParameterOctets(p) + rest;
      s[0] == SEMICOLON && s[1..] == p.name + if p.hasValue then [EQUALS] + (p.value + rest) else rest
  {
  }

  lemma {:induction false} ValueStopsHere(rest: Bytes, state: ValueState)
    requires rest == [] || (rest[0] in NAME_STOPS && state != Quoted)
    ensures ValueEnd(rest, state) == 0
  {
  }

  /** A name in front of the delimiter that ends it is taken whole. */
  lemma {:induction false} NameTaken(name: Bytes, tail: Bytes)
    requires forall i | 0 <= i < |name| :: name[i] !in PARAMETER_STOPS
    requires tail == [] || tail[0] in PARAMETER_STOPS
    ensures var s := name + tail;
      Until(s, PARAMETER_STOPS) == |name| && s[..|name|] == name && s[|name|..] == tail
    ensures tail != [] ==> (name + tail)[|name|] == tail[0] && (name + tail)[|name| + 1..] == tail[1..]
  {
    UntilAppend(name, tail, PARAMETER_STOPS);
  }

  lemma {:induction false} BareTaken(name: Bytes, rest: Bytes)
    requires forall i | 0 <= i < |name| :: name[i] !in PARAMETER_STOPS
    requires rest == [] || rest[0] in NAME_STOPS
    ensures TakeAfterSemicolon(name + rest) == (Parameter(name, [], false), rest)
  {
    hide Until, ValueEnd;
    NameTaken(name, rest);
  }

  lemma {:induction false} ValuedTaken(name: Bytes, value: Bytes, rest: Bytes)
    requires forall i | 0 <= i < |name| :: name[i] !in PARAMETER_STOPS
    requires ValueEnd(value + rest, ValueStart) == |value|
    ensures TakeAfterSemicolon(name + ([EQUALS] + (value + rest))) == (Parameter(name, value, true), rest)
  {
    hide Until, ValueEnd;
    var tail := [EQUALS] + (value + rest);
    NameTaken(name, tail);
    assert tail[1..] == value + rest;
    ConcatCuts(value, rest);
  }

  /** A readable parameter is taken back whole from in front of whatever may follow it. */
  lemma {:induction false} TakeParameterBack(p: Parameter, rest: Bytes)
    requires ParameterReads(p)
    requires rest == [] || (rest[0] in NAME_STOPS && !OpensQuote(p))
    ensures var s := ParameterOctets(p) + rest; s[0] == SEMICOLON && TakeParameter(s) == (p, rest)
  {
    hide Until, ValueEnd, RunValue, TakeAfterSemicolon;
    ParameterOctetsTail(p, rest);
    if p.hasValue {
      ValueEndAppend(p.value, rest, ValueStart);
      ValueStopsHere(rest, RunValue(p.value, ValueStart));
      ValuedTaken(p.name, p.value, rest);
    } else {
      BareTaken(p.name, rest);
    }
  }

  lemma {:induction false} SplitTailAssemble(h: Header)
    requires h.name == [] && TailReads(h)
    ensures var s := AssembleTail(h); (s == [] || s[0] in NAME_STOPS) && SplitTail(s) == h
    decreases |h.parameters|
  {
    if h.parameters == [] {
      AssembleNoParameters(h);
      if h.separated { assert AssembleTail(h)[1..] == h.value; }
    } else {
      var p := h.parameters[0];
      var t := h.(parameters := h.parameters[1..]);
      SplitTailAssemble(t);
      AssembleTailCons(p, t);
      assert h == ConsParameter(p, t);
      if OpensQuote(p) { AssembleNoParameters(t); }
      TakeParameterBack(p, AssembleTail(t));
    }
  }

  lemma {:induction false} TakeParameterReads(s: Bytes)
    requires s != []
    ensures ParameterReads(TakeParameter(s).0)
    ensures OpensQuote(TakeParameter(s).0) ==> TakeParameter(s).1 == []
  {
    var s1 := s[1..];
    var n := Until(s1, PARAMETER_STOPS);
    if n < |s1| && s1[n] == EQUALS { ValueEndReads(s1[n + 1..], ValueStart); }
  }

  /** Whatever a line splits into satisfies HeaderReads. */
  lemma {:induction false} SplitTailReads(s: Bytes)
    requires s == [] || s[0] in NAME_STOPS
    ensures TailReads(SplitTail(s))
    decreases |s|
  {
    hide ParameterReads, OpensQuote, TakeParameter;
    if s == [] || s[0] == COLON {
    } else {
      var (p, rest) := TakeParameter(s);
      SplitTailReads(rest);
      TakeParameterReads(s);
    }
  }

  /** Whatever a line splits into reads back from its own octets. */
  lemma {:induction false} SplitReads(line: Bytes)
    ensures HeaderReads(Split(line))
  {
    SplitTailReads(line[Until(line, NAME_STOPS)..]);
  }

  /** A header reads back from its own octets exactly when it satisfies HeaderReads. */
  lemma {:induction false} SplitAssembleIff(h: Header)
    ensures Split(Assemble(h)) == h <==> HeaderReads(h)
  {
    hide SplitTail, ParameterReads, OpensQuote, Until;
    var s := Assemble(h);
    if HeaderReads(h) {
      SplitTailAssemble(h.(name := []));
      var t := AssembleTail(h);
      assert t == AssembleTail(h.(name := []));
      UntilAppend(h.name, t, NAME_STOPS);
      assert s[..|h.name|] == h.name && s[|h.name|..] == t;
    }
    SplitTailReads(s[Until(s, NAME_STOPS)..]);
  }
}
