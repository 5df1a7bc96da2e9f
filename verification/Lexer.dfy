/**
 The content-line reader, which undoes folds and cuts a line into its parts in the same sweep.
 `NextLine` is proved to deliver exactly what the two-stage grammar says, and to refuse
 exactly the lines that cross one of the caller's bounds.
 */
module Lexer {
  import opened Octets
  import opened Budget
  import opened Syntax
  import opened Grammar
  import opened HeaderMachine

  /** Offsets into the scratch buffer that mark one parameter. */
  datatype ParameterSpan = ParameterSpan(
    nameStart: nat, nameEnd: nat, valueStart: nat, valueEnd: nat, hasValue: bool)

  function Opening(at: nat): ParameterSpan {
    ParameterSpan(at, at, at, at, false)
  }

  // -------------------------------------------------------------------------
  // What the reader is to deliver
  // -------------------------------------------------------------------------

  function Saturated(n: nat): nat {
    if n > U32_MAX then U32_MAX else n
  }

  /** The fold list as 32-bit offsets can hold it. */
  function SaturateFolds(folds: seq<FoldPoint>): (r: seq<FoldPoint>)
    ensures |r| == |folds|
  {
    seq(|folds|, i requires 0 <= i < |folds| => SaturateFold(folds[i]))
  }

  function SaturateFold(f: FoldPoint): FoldPoint {
    f.(offset := Saturated(f.offset))
  }

  lemma {:induction false} SaturateFoldsSnoc(folds: seq<FoldPoint>, f: FoldPoint)
    ensures SaturateFolds(folds + [f]) == SaturateFolds(folds) + [SaturateFold(f)]
  {
  }

  /** The property a logical line is stored as. */
  function StoredLine(l: Logical): Property {
    var h := Split(l.content);
    Property(h.name, h.parameters, h.value, LineLayout.Preserved(SaturateFolds(l.folds), l.ending, h.separated))
  }

  /** Whether a logical line stays inside every bound the caller stated. */
  predicate Within(l: Logical, limits: GrammarLimits, maxValueBytes: u32) {
    var h := Split(l.content);
    && |l.folds| <= limits.maxFoldsPerLine
    && HeaderLength(h) <= limits.maxHeaderBytes
    && |h.parameters| <= limits.maxParameters
    && |h.value| <= maxValueBytes
  }

  /** Whether e names a bound this line really crosses. */
  predicate Crosses(l: Logical, e: ParseError, limits: GrammarLimits, maxValueBytes: u32) {
    var h := Split(l.content);
    match e
    case TooManyFolds(limit) => limit == limits.maxFoldsPerLine && |l.folds| > limit
    case HeaderTooLarge(limit) => limit == limits.maxHeaderBytes && HeaderLength(h) > limit
    case TooManyParameters(limit) => limit == limits.maxParameters && |h.parameters| > limit
    case ValueTooLarge(limit) => limit == maxValueBytes && |h.value| > limit
    case _ => false
  }

  // -------------------------------------------------------------------------
  // The spans recorded so far, and what they stand for
  // -------------------------------------------------------------------------

  function SliceOf(scratch: Bytes, from: nat, to: nat): Bytes {
    if from <= to <= |scratch| then scratch[from..to] else []
  }

  function ParameterAt(scratch: Bytes, span: ParameterSpan): Parameter {
    Parameter(
      SliceOf(scratch, span.nameStart, span.nameEnd),
      SliceOf(scratch, span.valueStart, span.valueEnd),
      span.hasValue)
  }

  predicate SpanInside(scratch: Bytes, span: ParameterSpan) {
    span.nameStart <= span.nameEnd <= |scratch| && span.valueStart <= span.valueEnd <= |scratch|
  }

  ghost predicate TracksClosed(scratch: Bytes, spans: seq<ParameterSpan>, closed: seq<Parameter>) {
    && |spans| == |closed|
    && forall i | 0 <= i < |spans| :: SpanInside(scratch, spans[i]) && ParameterAt(scratch, spans[i]) == closed[i]
  }

  ghost predicate TracksOpen(scratch: Bytes, pending: Option<ParameterSpan>, c: Partial) {
    match c.state
    case InName => pending.None?
    case InParameterName =>
      && pending.Some?
      && var p := pending.value;
      && p == Opening(p.nameStart) && p.nameStart <= |scratch|
      && c.openName == scratch[p.nameStart..] && c.openValue == []
    case InValue(_) =>
      && pending.Some?
      && var p := pending.value;
      && p.hasValue && p.nameStart <= p.nameEnd < p.valueStart <= |scratch|
      && c.openName == scratch[p.nameStart..p.nameEnd] && c.openValue == scratch[p.valueStart..]
  }

  ghost predicate Tracks(
    scratch: Bytes, spans: seq<ParameterSpan>, pending: Option<ParameterSpan>, nameEnd: nat, c: Partial)
  {
    && TracksClosed(scratch, spans, c.closed)
    && TracksOpen(scratch, pending, c)
    && (if c.state.InName? then spans == [] && c.name == scratch else nameEnd <= |scratch| && c.name == scratch[..nameEnd])
    && c.Length() == |scratch|
  }

  /** The open parameter closed where the scratch ends. */
  function ClosedSpan(p: ParameterSpan, end: nat): ParameterSpan {
    if p.hasValue then p.(valueEnd := end) else p.(nameEnd := end)
  }

  lemma {:induction false} StartTracks()
    ensures Tracks([], [], None, 0, START) && START.Parameters() == []
  {
    assert ParameterListSpans([]) == [];
  }

  lemma {:induction false} ClosedKept(scratch: Bytes, o: octet, spans: seq<ParameterSpan>, closed: seq<Parameter>)
    requires TracksClosed(scratch, spans, closed)
    ensures TracksClosed(scratch + [o], spans, closed)
  {
    forall i | 0 <= i < |spans|
      ensures SpanInside(scratch + [o], spans[i]) && ParameterAt(scratch + [o], spans[i]) == closed[i]
    {
      assert ParameterAt(scratch, spans[i]) == closed[i];
    }
  }

  /** The open parameter after one more octet that closes nothing. */
  function PendingAfter(pending: Option<ParameterSpan>, c: Partial, o: octet, at: nat): Option<ParameterSpan> {
    if c.state.InParameterName? && o == EQUALS && pending.Some? then
      Some(pending.value.(nameEnd := at, hasValue := true, valueStart := at + 1, valueEnd := at + 1))
    else pending
  }

  lemma {:induction false} OpenTracks(before: Bytes, o: octet, pending: Option<ParameterSpan>, c: Partial)
    requires TracksOpen(before, pending, c) && (c.Quoting() || o != SEMICOLON)
    ensures TracksOpen(before + [o], PendingAfter(pending, c, o, |before|), c.Step(o))
  {
    hide Partial.Parameters, NextValueState;
    if pending.Some? {
      var p := pending.value;
      assert p.nameStart <= |before| ==> (before + [o])[p.nameStart..] == before[p.nameStart..] + [o];
      assert p.valueStart <= |before| ==> (before + [o])[p.valueStart..] == before[p.valueStart..] + [o];
      assert p.nameStart <= p.nameEnd <= |before| ==> (before + [o])[p.nameStart..p.nameEnd] == before[p.nameStart..p.nameEnd];
      assert p.nameStart <= |before| ==> (before + [o])[p.nameStart..|before|] == before[p.nameStart..];
      assert (before + [o])[|before| + 1..] == [];
    }
  }

  lemma {:induction false} NameTracks(before: Bytes, o: octet, nameEnd: nat, c: Partial)
    requires c.Quoting() || o != SEMICOLON
    requires if c.state.InName? then c.name == before else nameEnd <= |before| && c.name == before[..nameEnd]
    ensures c.Step(o).state.InName? <==> c.state.InName?
    ensures if c.state.InName? then c.Step(o).name == before + [o] else c.Step(o).name == (before + [o])[..nameEnd]
    ensures c.Step(o).closed == c.closed
  {
  }

  /** An octet that closes no parameter leaves the recorded spans in step with the header machine. */
  lemma {:induction false} StepTracks(
    before: Bytes, o: octet, spans: seq<ParameterSpan>, pending: Option<ParameterSpan>, nameEnd: nat, c: Partial)
    requires Tracks(before, spans, pending, nameEnd, c) && (c.Quoting() || o != SEMICOLON)
    ensures Tracks(before + [o], spans, PendingAfter(pending, c, o, |before|), nameEnd, c.Step(o))
  {
    hide TracksClosed, TracksOpen, Partial.Step, Partial.Length, Partial.Parameters;
    assert c.state.InParameterName? ==> c.openValue == [] by { OpenIsEmpty(before, pending, c); }
    StepLength(c, o);
    ClosedKept(before, o, spans, c.closed);
    OpenTracks(before, o, pending, c);
    NameTracks(before, o, nameEnd, c);
  }

  lemma {:induction false} OpenIsEmpty(scratch: Bytes, pending: Option<ParameterSpan>, c: Partial)
    requires TracksOpen(scratch, pending, c)
    ensures c.state.InParameterName? ==> c.openValue == [] && pending.Some?
    ensures c.state.InName? ==> pending.None?
  {
  }

  lemma {:induction false} CloseTracks(scratch: Bytes, more: Bytes, pending: Option<ParameterSpan>, c: Partial)
    requires TracksOpen(scratch, pending, c) && !c.state.InName?
    ensures var span := ClosedSpan(pending.value, |scratch|);
      SpanInside(scratch + more, span) && c.Parameters() == c.closed + [ParameterAt(scratch + more, span)]
  {
    var p := pending.value;
    var span := ClosedSpan(p, |scratch|);
    assert (scratch + more)[span.nameStart..span.nameEnd] == c.openName;
    assert (scratch + more)[span.valueStart..span.valueEnd] == c.openValue;
  }

  class ContentLineReader {
    const input: Bytes
    const limits: GrammarLimits
    const maxValueBytes: u32

    var cursor: nat
    var scratch: Bytes
    var parameters: seq<ParameterSpan>
    var folds: seq<FoldPoint>
    var pending: Option<ParameterSpan>
    var headerState: HeaderState
    var nameEnd: nat
    var lineOffset: nat
    var ending: Option<LineEnding>
    var hasSeparator: bool
    var done: bool

    /** Where the current line begins, its header so far, and its folds at full width. */
    ghost var start: nat
    ghost var partial: Partial
    ghost var positions: seq<FoldPoint>

    constructor (input: Bytes, limits: GrammarLimits, maxValueBytes: u32)
      ensures this.input == input && this.limits == limits && this.maxValueBytes == maxValueBytes
      ensures cursor == 0 && !done
    {
      this.input, this.limits, this.maxValueBytes := input, limits, maxValueBytes;
      cursor, scratch, parameters, folds, pending := 0, [], [], [], None;
      headerState, nameEnd, lineOffset, ending, hasSeparator, done := InName, 0, 0, None, false, false;
      start, partial, positions := 0, START, [];
    }

    /** The logical line being read. */
    ghost function Current(): Logical
      reads this
      requires start <= |input|
    {
      ReadLogical(input[start..], 0)
    }

    /** What is still to come of it, `soFar` having been read. */
    ghost function Ahead(soFar: Bytes): Logical
      reads this
      requires cursor <= |input|
    {
      ReadLogical(input[cursor..], |soFar|)
    }

    /** `soFar` of the unfolded line has been read, and the cursor stands after it. */
    ghost predicate Reading(soFar: Bytes)
      reads this
    {
      && start <= cursor <= |input|
      && Current() == Prepend(soFar, positions, Ahead(soFar))
      && folds == SaturateFolds(positions)
      && |folds| <= limits.maxFoldsPerLine
      && lineOffset == Saturated(|soFar|)
    }

    /** The line is over, and the cursor stands at the next one. */
    ghost predicate LineOver(content: Bytes)
      reads this
    {
      && start <= cursor <= |input|
      && Current() == Logical(content, positions, ending, input[cursor..])
      && folds == SaturateFolds(positions)
      && |folds| <= limits.maxFoldsPerLine
    }

    /** The header lexer is where feeding it the scratch octet by octet leaves it. */
    ghost predicate InHeader()
      reads this
    {
      && partial.state == headerState
      && Tracks(scratch, parameters, pending, nameEnd, partial)
      && |scratch| <= limits.maxHeaderBytes
      && |partial.Parameters()| <= limits.maxParameters
    }

    /** The header so far agrees with splitting the whole line. */
    ghost predicate Agrees()
      reads this
      requires start <= |input| && cursor <= |input|
    {
      partial.Continue(Ahead(scratch).content) == Split(Current().content)
    }

    /** What is known once the header of the current line is closed. */
    ghost predicate HeaderClosed()
      reads this
    {
      && TracksClosed(scratch, parameters, partial.Parameters())
      && nameEnd <= |scratch| && partial.name == scratch[..nameEnd]
      && partial.Length() == |scratch| <= limits.maxHeaderBytes
      && |partial.Parameters()| <= limits.maxParameters
    }

    ghost predicate Crossed(e: ParseError)
      reads this
      requires start <= |input|
    {
      Crosses(Current(), e, limits, maxValueBytes)
    }

    method BeginLine()
      requires cursor <= |input|
      modifies this
      ensures cursor == old(cursor) == start && done == old(done)
      ensures scratch == [] && partial == START && positions == [] && Reading([]) && InHeader()
    {
      hide Reading, InHeader;
      BeginHeader();
      folds, lineOffset, ending := [], 0, None;
      start, positions := cursor, [];
      LineStarts();
    }

    method BeginHeader()
      modifies `scratch, `parameters, `pending, `headerState, `nameEnd, `hasSeparator, `partial
      ensures scratch == [] && parameters == [] && pending.None? && headerState == InName && nameEnd == 0 && partial == START
    {
      scratch, parameters, pending, headerState := [], [], None, InName;
      nameEnd, hasSeparator, partial := 0, false, START;
    }

    lemma {:induction false} LineStarts()
      requires scratch == [] && parameters == [] && folds == [] && pending.None? && headerState == InName
      requires lineOffset == nameEnd == 0 && start == cursor <= |input| && partial == START && positions == []
      ensures Reading([]) && InHeader()
    {
      hide ReadLogical, Tracks, Partial.Length, Prepend, TerminatorAt, SaturateFolds, Partial.Parameters;
      StartTracks();
      PrependNothing(Current());
    }

    /** Step past a fold if there is one here; the answer says whether there was. */
    method TakeFold(newline: LineEnding, width: nat, ghost soFar: Bytes) returns (r: Result<bool, ParseError>)
      requires Reading(soFar)
      requires TerminatorAt(input[cursor..]) == Some(newline) && width == |newline.Octets()|
      modifies `cursor, `folds, `positions
      ensures r.Ok? ==> Reading(soFar) && r.value == FoldsAt(input[old(cursor)..], newline)
      ensures r.Ok? ==> Ahead(soFar).content == old(Ahead(soFar).content)
      ensures r.Ok? ==> cursor == old(cursor) + if r.value then width + 1 else 0
      ensures r.Err? ==> Crossed(r.error)
    {
      hide ReadLogical, Split;
      ghost var s := input[cursor..];
      var after := cursor + width;
      if after >= |input| || !IsFoldWhitespace(input[after]) {
        return Ok(false);
      }
      assert FoldsAt(s, newline);
      AdvanceFold(soFar, positions, s, newline, width);
      ghost var point := FoldPoint(|soFar|, input[after] == HTAB, newline);
      assert s[width + 1..] == input[after + 1..];
      if |folds| >= limits.maxFoldsPerLine {
        return Err(TooManyFolds(limits.maxFoldsPerLine));
      }
      SaturateFoldsSnoc(positions, point);
      folds := folds + [FoldPoint(lineOffset, input[after] == HTAB, newline)];
      positions := positions + [point];
      cursor := after + 1;
      return Ok(true);
    }

    method AdvanceLineOffset(octets: nat)
      modifies `lineOffset
      ensures lineOffset == Saturated(old(lineOffset) + octets)
    {
      lineOffset := if lineOffset + octets > U32_MAX then U32_MAX else lineOffset + octets;
    }

    /** Whatever is open, a parameter or still the name, stops at `end`. */
    method ClosePending(end: nat, ghost before: Bytes)
      requires Tracks(before, parameters, pending, nameEnd, partial)
      requires before <= scratch && end == |before|
      modifies `pending, `parameters, `nameEnd
      ensures pending.None?
      ensures TracksClosed(scratch, parameters, partial.Parameters())
      ensures nameEnd <= |scratch| && partial.name == scratch[..nameEnd]
    {
      hide Partial.Length;
      ghost var more := scratch[|before|..];
      assert scratch == before + more;
      forall i | 0 <= i < |parameters|
        ensures SpanInside(scratch, parameters[i]) && ParameterAt(scratch, parameters[i]) == partial.closed[i]
      {
        assert ParameterAt(before, parameters[i]) == partial.closed[i];
      }
      if pending.Some? {
        CloseTracks(before, more, pending, partial);
        var span := pending.value;
        if span.hasValue { span := span.(valueEnd := end); } else { span := span.(nameEnd := end); }
        parameters := parameters + [span];
        pending := None;
      } else {
        nameEnd := end;
      }
    }

    /** The header lexer stands after the scratch's last octet, the header's parameters in bounds. */
    ghost predicate Stepped(was: Partial, o: octet)
      reads this
    {
      && partial == was.Step(o)
      && partial.state == headerState
      && Tracks(scratch, parameters, pending, nameEnd, partial)
    }

    ghost predicate OneParameterTooMany(was: Partial, o: octet, e: ParseError)
    {
      e == TooManyParameters(limits.maxParameters) && |was.Step(o).Parameters()| > limits.maxParameters
    }

    /** A semicolon finishes one part of the header and starts a parameter, unless that is one too many. */
    method OpenParameter(at: nat, ghost before: Bytes) returns (r: Result<(), ParseError>)
      requires Tracks(before, parameters, pending, nameEnd, partial) && partial.state == headerState
      requires scratch == before + [SEMICOLON] && at == |before| && !partial.Quoting()
      requires |partial.Parameters()| <= limits.maxParameters
      modifies `pending, `parameters, `nameEnd, `headerState, `partial
      ensures r.Ok? ==> Stepped(old(partial), SEMICOLON) && |partial.Parameters()| <= limits.maxParameters
      ensures r.Err? ==> OneParameterTooMany(old(partial), SEMICOLON, r.error)
    {
      StepLength(partial, SEMICOLON);
      ClosePending(at, before);
      if |parameters| >= limits.maxParameters {
        return Err(TooManyParameters(limits.maxParameters));
      }
      pending := Some(Opening(at + 1));
      headerState := InParameterName;
      partial := partial.Step(SEMICOLON);
      return Ok(());
    }

    lemma {:induction false} PendingOpen(before: Bytes)
      requires Tracks(before, parameters, pending, nameEnd, partial)
      ensures partial.state.InParameterName? ==> partial.openValue == [] && pending.Some?
    {
    }

    /** The transitions outside a quoted string, the semicolon's apart. */
    method StepUnquoted(o: octet, at: nat, ghost before: Bytes)
      requires Tracks(before, parameters, pending, nameEnd, partial) && partial.state == headerState
      requires scratch == before + [o] && at == |before| && !partial.Quoting() && o != SEMICOLON
      modifies `pending, `headerState, `partial
      ensures Stepped(old(partial), o)
    {
      hide Tracks, Partial.Length, Partial.Parameters;
      StepTracks(before, o, parameters, pending, nameEnd, partial);
      assert headerState.InParameterName? ==> pending.Some? by { PendingOpen(before); }
      match headerState {
        case InName =>
        case InParameterName =>
          if o == EQUALS {
            var span := pending.value;
            pending := Some(span.(nameEnd := at, hasValue := true, valueStart := at + 1, valueEnd := at + 1));
            headerState := InValue(ValueStart);
          }
        case InValue(state) =>
          match state {
            case Quoted =>
            case ValueStart =>
              headerState := InValue(if o == DQUOTE then Quoted else if o == COMMA then ValueStart else ValueText);
            case ValueText =>
              if o == COMMA { headerState := InValue(ValueStart); }
          }
      }
      partial := partial.Step(o);
    }

    /** One transition of the header machine, mirrored on the spans. */
    method StepHeaderState(o: octet, at: nat, ghost before: Bytes) returns (r: Result<(), ParseError>)
      requires Tracks(before, parameters, pending, nameEnd, partial) && partial.state == headerState
      requires scratch == before + [o] && at == |before|
      requires |partial.Parameters()| <= limits.maxParameters
      modifies `pending, `parameters, `nameEnd, `headerState, `partial
      ensures r.Ok? ==> Stepped(old(partial), o) && |partial.Parameters()| <= limits.maxParameters
      ensures r.Err? ==> OneParameterTooMany(old(partial), o, r.error)
    {
      hide Tracks, Partial.Length, Partial.Parameters;
      assert partial.state.InParameterName? ==> partial.openValue == [] && pending.Some? by { PendingOpen(before); }
      StepLength(partial, o);
      if headerState == InValue(Quoted) {
        StepTracks(before, o, parameters, pending, nameEnd, partial);
        if o == DQUOTE { headerState := InValue(ValueText); }
        partial := partial.Step(o);
        return Ok(());
      }
      if o == SEMICOLON {
        r := OpenParameter(at, before);
        return;
      }
      StepUnquoted(o, at, before);
      return Ok(());
    }

    /** What the scratch buffer says about the header so far. */
    lemma {:induction false} HeaderSoFar()
      requires InHeader()
      ensures partial.state.InParameterName? ==> partial.openValue == []
      ensures partial.state.InName? ==> partial.closed == []
      ensures partial.Length() == |scratch|
    {
    }

    /** A step never goes back to the name. */
    lemma {:induction false} StepLeavesName(o: octet)
      requires partial.state.InName? ==> partial.closed == []
      ensures partial.Step(o).state.InName? ==> partial.Step(o).closed == []
    {
    }

    /** Reading one header octet: what stays true of the line and of the header. */
    lemma {:induction false} HeaderOctet(o: octet)
      requires Reading(scratch) && InHeader() && Agrees()
      requires cursor < |input| && input[cursor] == o && TerminatorAt(input[cursor..]).None?
      requires partial.Quoting() || o != COLON
      ensures Current() == Prepend(scratch + [o], positions, ReadLogical(input[cursor + 1..], |scratch| + 1))
      ensures partial.Step(o).Continue(ReadLogical(input[cursor + 1..], |scratch| + 1).content) == Split(Current().content)
      ensures HeaderLength(Split(Current().content)) > |scratch|
      ensures |Split(Current().content).parameters| >= |partial.Step(o).Parameters()|
    {
      hide ReadLogical, Split, Partial.Continue, Partial.Step, Partial.Length, Partial.Parameters, HeaderLength, InHeader;
      HeaderSoFar();
      AdvanceOctet(scratch, positions, input[cursor..]);
      ReadsOctet(input[cursor..], |scratch|);
      assert input[cursor..][1..] == input[cursor + 1..];
      var rest := ReadLogical(input[cursor + 1..], |scratch| + 1);
      assert Ahead(scratch).content == [o] + rest.content;
      StepContinue(partial, o, rest.content);
      StepLength(partial, o);
      StepLeavesName(o);
      ContinueGrows(partial.Step(o), rest.content);
    }

    /** One more octet of header, or the bound it would break. */
    method AppendHeaderOctet(o: octet) returns (r: Result<(), ParseError>)
      requires Reading(scratch) && InHeader() && Agrees()
      requires cursor < |input| && input[cursor] == o && TerminatorAt(input[cursor..]).None?
      requires partial.Quoting() || o != COLON
      modifies `scratch, `lineOffset, `pending, `parameters, `nameEnd, `headerState, `partial, `cursor
      ensures cursor == old(cursor) + 1
      ensures r.Ok? ==> Reading(scratch) && InHeader() && Agrees()
      ensures r.Err? ==> Crossed(r.error)
    {
      hide ReadLogical, Split, Partial.Continue, Partial.Length, Partial.Step, HeaderLength, Tracks;
      HeaderOctet(o);
      ghost var before, was := scratch, partial;
      if |scratch| >= limits.maxHeaderBytes {
        cursor := cursor + 1;
        return Err(HeaderTooLarge(limits.maxHeaderBytes));
      }
      var at := |scratch|;
      scratch := scratch + [o];
      AdvanceLineOffset(1);
      r := StepHeaderState(o, at, before);
      cursor := cursor + 1;
    }

    /** Nothing more of the header comes: its last part stops where the buffer does. */
    method CloseHeader(separator: bool)
      requires InHeader()
      modifies `pending, `parameters, `nameEnd, `hasSeparator
      ensures hasSeparator == separator && HeaderClosed()
    {
      ClosePending(|scratch|, scratch);
      hasSeparator := separator;
    }

    /** The whole line splits into the header just closed and this value. */
    ghost predicate HeaderSplit(value: Bytes)
      reads this
      requires start <= |input|
    {
      Split(Current().content) == partial.Close(hasSeparator, value)
    }

    /** What ScanHeader leaves behind: a closed header, and either a value ahead or a finished line. */
    ghost predicate Scanned()
      reads this
    {
      && HeaderClosed()
      && (if hasSeparator then Reading(scratch + [COLON]) else LineOver(scratch))
      && HeaderSplit(if hasSeparator then Ahead(scratch + [COLON]).content else [])
    }

    /** The line ends inside its header, at a terminator `width` long or at the end of the input. */
    method EndInHeader(terminator: Option<LineEnding>, width: nat)
      requires Reading(scratch) && InHeader() && Agrees()
      requires terminator == TerminatorAt(input[cursor..]) && cursor + width <= |input|
      requires terminator.None? ==> cursor == |input| && width == 0
      requires terminator.Some? ==> !FoldsAt(input[cursor..], terminator.value) && width == |terminator.value.Octets()|
      modifies `pending, `parameters, `nameEnd, `hasSeparator, `ending, `cursor
      ensures Scanned()
    {
      hide ReadLogical, Split, Partial.Continue, Tracks, Partial.Length, SaturateFolds;
      hide Partial.Parameters, TracksClosed, TerminatorAt, FoldsAt;
      ending := terminator;
      HeaderEnds(width);
      CloseHeader(false);
      cursor := cursor + width;
    }

    /** The header ends at the : under the cursor. */
    method EndAtSeparator()
      requires Reading(scratch) && InHeader() && Agrees()
      requires cursor < |input| && input[cursor] == COLON && !partial.Quoting()
      modifies `pending, `parameters, `nameEnd, `hasSeparator, `lineOffset, `cursor
      ensures Scanned()
    {
      hide ReadLogical, Split, Partial.Continue, Tracks, Partial.Length, SaturateFolds, Partial.Parameters, TracksClosed;
      SeparatorRead();
      CloseHeader(true);
      cursor := cursor + 1;
      AdvanceLineOffset(1);
    }

    /** The header loop: octets and folds until a separator, a terminator or a refusal. */
    method ScanHeader() returns (r: Result<(), ParseError>)
      requires start == cursor < |input| && scratch == [] && partial == START && positions == []
      requires Reading([]) && InHeader()
      modifies this
      ensures start == old(start) && done == old(done)
      ensures r.Ok? ==> Scanned()
      ensures r.Err? ==> Crossed(r.error)
    {
      hide ReadLogical, Split, Partial.Continue, HeaderLength, Tracks, Partial.Length, Crosses, Prepend;
      hide SaturateFolds, Partial.Parameters;
      StartSplits(Current().content);
      HeaderStarts();
      while true
        invariant start == old(start) <= cursor <= |input| && done == old(done)
        invariant Reading(scratch) && InHeader() && Agrees()
        decreases |input| - cursor
      {
        if cursor >= |input| {
          assert input[cursor..] == [];
          EndInHeader(None, 0);
          return Ok(());
        }
        var o := input[cursor];
        var terminator := TerminatorAt(input[cursor..]);
        if terminator.Some? {
          var width := |terminator.value.Octets()|;
          var taken := TakeFold(terminator.value, width, scratch);
          if taken.Err? { return Err(taken.error); }
          if !taken.value {
            EndInHeader(terminator, width);
            return Ok(());
          }
        } else if o == COLON && headerState != InValue(Quoted) {
          EndAtSeparator();
          return Ok(());
        } else {
          var appended := AppendHeaderOctet(o);
          if appended.Err? { return Err(appended.error); }
        }
      }
    }

    lemma {:induction false} HeaderStarts()
      requires scratch == [] && positions == [] && Reading([])
      ensures Ahead([]).content == Current().content
    {
      PrependNothing(Ahead([]));
    }

    /** A header that ends with the line, at the end of the input or at a terminator `width` long. */
    lemma {:induction false} HeaderEnds(width: nat)
      requires Reading(scratch) && InHeader() && Agrees()
      requires ending == TerminatorAt(input[cursor..]) && cursor + width <= |input|
      requires ending.None? ==> cursor == |input| && width == 0
      requires ending.Some? ==> !FoldsAt(input[cursor..], ending.value) && width == |ending.value.Octets()|
      ensures Current() == Logical(scratch, positions, ending, input[cursor + width..])
      ensures Split(Current().content) == partial.Close(false, [])
    {
      hide ReadLogical, Split, Partial.Continue, Tracks, Partial.Length;
      RunEnds(scratch, width);
      assert Ahead(scratch).content == [];
      ContinueCloses(partial, []);
    }

    /** Reading the : that ends the header. */
    lemma {:induction false} SeparatorRead()
      requires Reading(scratch) && InHeader() && Agrees()
      requires cursor < |input| && input[cursor] == COLON && !partial.Quoting()
      ensures Current() == Prepend(scratch + [COLON], positions, ReadLogical(input[cursor + 1..], |scratch| + 1))
      ensures Split(Current().content) == partial.Close(true, ReadLogical(input[cursor + 1..], |scratch| + 1).content)
    {
      hide ReadLogical, Split, Partial.Continue, Tracks, Partial.Length;
      AdvanceOctet(scratch, positions, input[cursor..]);
      ReadsOctet(input[cursor..], |scratch|);
      assert input[cursor..][1..] == input[cursor + 1..];
      var value := ReadLogical(input[cursor + 1..], |scratch| + 1).content;
      assert Ahead(scratch).content == [COLON] + value;
      assert ([COLON] + value)[1..] == value;
      ContinueCloses(partial, [COLON] + value);
    }

    /** Skip the octets of one physical line. */
    method ScanToBreak() returns (end: nat)
      requires cursor <= |input|
      modifies `cursor
      ensures old(cursor) <= end == cursor <= |input|
      ensures LineFree(input[old(cursor)..end])
      ensures end < |input| ==> TerminatorAt(input[end..]).Some?
    {
      while cursor < |input| && input[cursor] != CR && input[cursor] != LF
        invariant old(cursor) <= cursor <= |input|
        invariant forall i | old(cursor) <= i < cursor :: input[i] != CR && input[i] != LF
      {
        cursor := cursor + 1;
      }
      return cursor;
    }

    /** Reading a run without terminators. */
    lemma {:induction false} RunRead(soFar: Bytes, from: nat, end: nat)
      requires start <= from <= end <= |input| && start <= |input| && LineFree(input[from..end])
      requires Current() == Prepend(soFar, positions, ReadLogical(input[from..], |soFar|))
      ensures Current() == Prepend(soFar + input[from..end], positions, ReadLogical(input[end..], |soFar + input[from..end]|))
    {
      hide ReadLogical;
      var s := input[from..];
      assert s[..end - from] == input[from..end] && s[end - from..] == input[end..];
      AdvanceRun(soFar, positions, s, end - from);
    }

    /** A line that ends where the cursor stands, at a terminator `width` long or at no octet at all. */
    lemma {:induction false} RunEnds(soFar: Bytes, width: nat)
      requires Reading(soFar)
      requires ending == TerminatorAt(input[cursor..]) && cursor + width <= |input|
      requires ending.None? ==> cursor == |input| && width == 0
      requires ending.Some? ==> !FoldsAt(input[cursor..], ending.value) && width == |ending.value.Octets()|
      ensures Current() == Logical(soFar, positions, ending, input[cursor + width..])
    {
      hide ReadLogical;
      AdvanceEnd(soFar, positions, input[cursor..]);
      assert input[cursor..][width..] == input[cursor + width..];
    }

    /**
     One physical line's share of the value, with whatever terminator stands behind it consumed;
     the answer's second part says whether the value goes on after it.
     */
    method NextValueChunk(ghost soFar: Bytes) returns (r: Result<(Bytes, bool), ParseError>)
      requires Reading(soFar)
      modifies `cursor, `lineOffset, `folds, `positions, `ending
      ensures r.Ok? && r.value.1 ==> cursor > old(cursor) && Reading(soFar + r.value.0)
      ensures r.Ok? && !r.value.1 ==> cursor >= old(cursor) && LineOver(soFar + r.value.0)
      ensures r.Ok? ==> soFar + r.value.0 <= Current().content
      ensures r.Err? ==> Crossed(r.error)
    {
      hide ReadLogical, Split, SaturateFolds, Crosses, TerminatorAt, FoldsAt;
      var from := cursor;
      var end := ScanToBreak();
      var chunk := input[from..end];
      RunRead(soFar, from, end);
      AdvanceLineOffset(end - from);
      var terminator := TerminatorAt(input[end..]);
      if terminator.None? {
        ending := None;
        RunEnds(soFar + chunk, 0);
        return Ok((chunk, false));
      }
      var width := |terminator.value.Octets()|;
      var taken := TakeFold(terminator.value, width, soFar + chunk);
      if taken.Err? { return Err(taken.error); }
      if taken.value { return Ok((chunk, true)); }
      ending := Some(terminator.value);
      RunEnds(soFar + chunk, width);
      cursor := end + width;
      return Ok((chunk, false));
    }

    /** The parameters of the closed header, out of the spans recorded for them. */
    method MaterializeParameters() returns (ps: seq<Parameter>)
      requires HeaderClosed()
      ensures ps == partial.Parameters()
    {
      ps := [];
      for i := 0 to |parameters|
        invariant ps == partial.Parameters()[..i]
      {
        ps := ps + [ParameterAt(scratch, parameters[i])];
      }
    }

    /** The value, run by run, refused at the run that crosses the caller's bound. */
    method ReadValue() returns (r: Result<Bytes, ParseError>)
      requires hasSeparator && Scanned()
      modifies `cursor, `lineOffset, `folds, `positions, `ending
      ensures r.Ok? ==> LineOver(scratch + [COLON] + r.value) && |r.value| <= maxValueBytes && cursor >= old(cursor)
      ensures r.Ok? ==> HeaderSplit(r.value)
      ensures r.Err? ==> Crossed(r.error)
    {
      hide ReadLogical, SaturateFolds, TerminatorAt, Partial.Parameters, TracksClosed, Split;
      ghost var front := scratch + [COLON];
      ghost var all := Split(Current().content).value;
      assert Current().content == front + all;
      var value: Bytes := [];
      var more := true;
      assert front + value == front;
      while more
        invariant old(cursor) <= cursor
        invariant if more then Reading(front + value) else LineOver(front + value)
        invariant |value| <= maxValueBytes
        decreases more, |input| - cursor
      {
        var chunk := NextValueChunk(front + value);
        if chunk.Err? { return Err(chunk.error); }
        assert front + value + chunk.value.0 == front + (value + chunk.value.0);
        if |value| + |chunk.value.0| > maxValueBytes {
          return Err(ValueTooLarge(maxValueBytes));
        }
        value := value + chunk.value.0;
        more := chunk.value.1;
      }
      assert all == (front + all)[|front|..] == (front + value)[|front|..] == value;
      return Ok(value);
    }

    /**
     The next line of the input, stored as a property, or nothing at its end. It is the property
     the grammar's two stages say, it is refused exactly when the line crosses a bound, and a
     refusal ends the reader.
     */
    method NextLine() returns (r: Option<Result<Property, ParseError>>)
      requires cursor <= |input|
      modifies this
      ensures r.None? <==> old(done) || old(cursor) == |input|
      ensures r.None? ==> done
      ensures r.Some? ==> LineRead(input[old(cursor)..], r.value)
      ensures r.Some? ==> done == r.value.Err?
      ensures r.Some? && r.value.Ok? ==> old(cursor) < cursor <= |input|
      ensures r.Some? && r.value.Ok? ==> input[cursor..] == ReadLogical(input[old(cursor)..], 0).rest
    {
      hide ReadLogical, Split, HeaderLength, Tracks, Partial.Length, SaturateFolds;
      if done || cursor >= |input| {
        done := true;
        return None;
      }
      BeginLine();
      var header := ScanHeader();
      if header.Err? {
        done := true;
        return Some(Err(header.error));
      }
      var value: Bytes := [];
      if hasSeparator {
        var read := ReadValue();
        if read.Err? {
          done := true;
          return Some(Err(read.error));
        }
        value := read.value;
      }
      var ps := MaterializeParameters();
      var name := SliceOf(scratch, 0, nameEnd);
      ClosedLength();
      assert |input[cursor..]| < |input[start..]|;
      return Some(Ok(Property(name, ps, value, LineLayout.Preserved(folds, ending, hasSeparator))));
    }

    lemma {:induction false} ClosedLength()
      requires HeaderClosed()
      ensures forall separated, value :: HeaderLength(partial.Close(separated, value)) == |scratch|
    {
    }

    /** What one call of the reader answers about the octets in front of it. */
    ghost predicate LineRead(s: Bytes, r: Result<Property, ParseError>)
    {
      var l := ReadLogical(s, 0);
      && (r.Ok? <==> Within(l, limits, maxValueBytes))
      && (r.Ok? ==> r.value == StoredLine(l))
      && (r.Err? ==> Crosses(l, r.error, limits, maxValueBytes))
    }
  }
}
