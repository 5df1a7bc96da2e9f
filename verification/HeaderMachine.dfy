/**
 The header lexer as an octet-at-a-time machine, and why feeding it the octets of a line one by
 one gives the same name, parameters and value as splitting the whole line.
 */
module HeaderMachine {
  import opened Octets
  import opened Syntax
  import opened Grammar

  datatype HeaderState = InName | InParameterName | InValue(value: ValueState)

  /** What has been read of a header: the parameters already closed and the one still open. */
  datatype Partial = Partial(
    state: HeaderState,
    name: Bytes,
    closed: seq<Parameter>,
    openName: Bytes,
    openValue: Bytes)
  {
    predicate Quoting() {
      state == InValue(Quoted)
    }

    /** The parameters so far, the open one closed where it stands. */
    function Parameters(): seq<Parameter> {
      match state
      case InName => closed
      case InParameterName => closed + [Parameter(openName, [], false)]
      case InValue(_) => closed + [Parameter(openName, openValue, true)]
    }

    /** The header this would be if the line stopped, or separated, here. */
    function Close(separated: bool, value: Bytes): Header {
      Header(name, Parameters(), separated, value)
    }

    /** How many octets have been read. */
    function Length(): nat {
      |name| + |Concat(ParameterListSpans(Parameters()))|
    }

    /** One more header octet, which is not the : that ends the header. */
    function Step(o: octet): Partial {
      if !Quoting() && o == SEMICOLON then
        Partial(InParameterName, name, Parameters(), [], [])
      else
        match state
        case InName => this.(name := name + [o])
        case InParameterName =>
          if o == EQUALS then this.(state := InValue(ValueStart)) else this.(openName := openName + [o])
        case InValue(v) => this.(state := InValue(NextValueState(v, o)), openValue := openValue + [o])
    }

    /** The header of the whole line, when `s` is what is still to come. */
    function Continue(s: Bytes): Header {
      match state
      case InName =>
        var n := Until(s, NAME_STOPS);
        Resume(name + s[..n], closed, s[n..])
      case InParameterName =>
        var n := Until(s, PARAMETER_STOPS);
        if n < |s| && s[n] == EQUALS then
          var s2 := s[n + 1..];
          var v := ValueEnd(s2, ValueStart);
          Resume(name, closed + [Parameter(openName + s[..n], s2[..v], true)], s2[v..])
        else Resume(name, closed + [Parameter(openName + s[..n], [], false)], s[n..])
      case InValue(state) =>
        var v := ValueEnd(s, state);
        Resume(name, closed + [Parameter(openName, openValue + s[..v], true)], s[v..])
    }
  }

  const START: Partial := Partial(InName, [], [], [], [])

  function Resume(name: Bytes, parameters: seq<Parameter>, s: Bytes): Header
    requires s == [] || s[0] in NAME_STOPS
  {
    var h := SplitTail(s);
    Header(name, parameters + h.parameters, h.separated, h.value)
  }

  lemma {:induction false} StartSplits(line: Bytes)
    ensures START.Continue(line) == Split(line)
  {
  }

  lemma {:induction false} SliceFront(o: octet, s: Bytes, n: nat)
    requires n <= |s|
    ensures ([o] + s)[..n + 1] == [o] + s[..n] && ([o] + s)[n + 1..] == s[n..]
  {
  }

  lemma {:induction false} ResumeParameter(name: Bytes, closed: seq<Parameter>, s: Bytes)
    requires s != [] && s[0] == SEMICOLON
    ensures Resume(name, closed, s) == Resume(name, closed + [TakeParameter(s).0], TakeParameter(s).1)
  {
    var (p, rest) := TakeParameter(s);
    var h := SplitTail(rest);
    assert closed + ([p] + h.parameters) == (closed + [p]) + h.parameters;
  }

  lemma {:induction false} StepOpens(c: Partial, s: Bytes)
    requires !c.Quoting()
    ensures c.Continue([SEMICOLON] + s) == c.Step(SEMICOLON).Continue(s)
  {
    var t := [SEMICOLON] + s;
    assert t[..0] == [] && t[0..] == t && t[1..] == s;
    assert c.Continue(t) == Resume(c.name, c.Parameters(), t) by {
      assert c.name + [] == c.name && c.openName + [] == c.openName && c.openValue + [] == c.openValue;
    }
    ResumeParameter(c.name, c.Parameters(), t);
    assert [] + s[..Until(s, PARAMETER_STOPS)] == s[..Until(s, PARAMETER_STOPS)];
  }

  lemma {:induction false} StepName(c: Partial, o: octet, s: Bytes)
    requires c.state == InName && o !in NAME_STOPS
    ensures c.Continue([o] + s) == c.Step(o).Continue(s)
  {
    hide Until, ValueEnd, Resume;
    var n := Until(s, NAME_STOPS);
    UntilCons(o, s, NAME_STOPS);
    SliceFront(o, s, n);
    Absorb(c.name, o, s[..n]);
  }

  lemma {:induction false} UntilCons(o: octet, s: Bytes, stops: set<octet>)
    requires o !in stops
    ensures Until([o] + s, stops) == 1 + Until(s, stops)
  {
    assert ([o] + s)[1..] == s;
  }

  lemma {:induction false} ValueEndCons(o: octet, s: Bytes, state: ValueState)
    requires state == Quoted || o !in NAME_STOPS
    ensures ValueEnd([o] + s, state) == 1 + ValueEnd(s, NextValueState(state, o))
  {
    assert ([o] + s)[1..] == s;
  }

  lemma {:induction false} StepEquals(c: Partial, s: Bytes)
    requires c.state == InParameterName && c.openValue == []
    ensures c.Continue([EQUALS] + s) == c.Step(EQUALS).Continue(s)
  {
    var t := [EQUALS] + s;
    assert Until(t, PARAMETER_STOPS) == 0;
    assert t[1..] == s;
    assert c.openName + t[..0] == c.openName;
    var v := ValueEnd(s, ValueStart);
    assert [] + s[..v] == s[..v];
  }

  lemma {:induction false} StepParameterName(c: Partial, o: octet, s: Bytes)
    requires c.state == InParameterName && o !in PARAMETER_STOPS
    ensures c.Continue([o] + s) == c.Step(o).Continue(s)
  {
    hide Until, ValueEnd, Resume;
    var n := Until(s, PARAMETER_STOPS);
    UntilCons(o, s, PARAMETER_STOPS);
    SliceFront(o, s, n);
    Absorb(c.openName, o, s[..n]);
    if n < |s| { SliceFront(o, s, n + 1); }
  }

  lemma {:induction false} StepValue(c: Partial, o: octet, s: Bytes)
    requires c.state.InValue? && (c.Quoting() || o !in NAME_STOPS)
    ensures c.Continue([o] + s) == c.Step(o).Continue(s)
  {
    hide Until, ValueEnd, Resume;
    ValueEndCons(o, s, c.state.value);
    var v := ValueEnd(s, NextValueState(c.state.value, o));
    SliceFront(o, s, v);
    Absorb(c.openValue, o, s[..v]);
  }

  /** Feeding one octet changes nothing about the header of the whole line. */
  lemma {:induction false} StepContinue(c: Partial, o: octet, s: Bytes)
    requires c.state.InParameterName? ==> c.openValue == []
    requires c.Quoting() || o != COLON
    ensures c.Continue([o] + s) == c.Step(o).Continue(s)
  {
    if !c.Quoting() && o == SEMICOLON {
      StepOpens(c, s);
    } else {
      match c.state
      case InName => StepName(c, o, s);
      case InParameterName => if o == EQUALS { StepEquals(c, s); } else { StepParameterName(c, o, s); }
      case InValue(_) => StepValue(c, o, s);
    }
  }

  /** At the end of the line, or at a : outside quotes, the header is what has been read. */
  lemma {:induction false} ContinueCloses(c: Partial, s: Bytes)
    requires s == [] || (s[0] == COLON && !c.Quoting())
    ensures c.Continue(s) == if s == [] then c.Close(false, []) else c.Close(true, s[1..])
  {
    assert s[..0] == [] && s[0..] == s;
    assert c.name + [] == c.name && c.openName + [] == c.openName && c.openValue + [] == c.openValue;
    assert c.Parameters() + [] == c.Parameters();
  }

  // -------------------------------------------------------------------------
  // What has been read never shrinks, which is what makes a crossed bound final
  // -------------------------------------------------------------------------

  function HeaderLength(h: Header): nat {
    |h.name| + |Concat(ParameterListSpans(h.parameters))|
  }

  /** The length of a list of parameters, one more at its end. */
  lemma {:induction false} ParameterLengthSnoc(ps: seq<Parameter>, p: Parameter, tail: seq<Parameter>)
    ensures |Concat(ParameterListSpans(ps + [p] + tail))|
      == |Concat(ParameterListSpans(ps))| + |ParameterOctets(p)| + |Concat(ParameterListSpans(tail))|
  {
    ParameterListSpansAppend(ps + [p], tail);
    ParameterListSpansAppend(ps, [p]);
    ConcatAppend(ParameterListSpans(ps + [p]), ParameterListSpans(tail));
    ConcatAppend(ParameterListSpans(ps), ParameterListSpans([p]));
    assert [p][1..] == [];
    assert ParameterListSpans([p]) == ParameterSpans(p);
    ParameterOctetsAreSpans(p);
  }

  lemma {:induction false} LengthOpen(c: Partial)
    requires !c.state.InName?
    ensures c.Length() == |c.name| + |Concat(ParameterListSpans(c.closed))|
      + (if c.state.InParameterName? then 1 + |c.openName| else 2 + |c.openName| + |c.openValue|)
  {
    var p := if c.state.InParameterName? then Parameter(c.openName, [], false) else Parameter(c.openName, c.openValue, true);
    ParameterLengthSnoc(c.closed, p, []);
    assert c.closed + [p] + [] == c.Parameters();
  }

  lemma {:induction false} StepLength(c: Partial, o: octet)
    requires c.state.InParameterName? ==> c.openValue == []
    ensures c.Step(o).Length() == c.Length() + 1
    ensures |c.Step(o).Parameters()| == |c.Parameters()| + (if !c.Quoting() && o == SEMICOLON then 1 else 0)
  {
    if !c.state.InName? { LengthOpen(c); }
    if !c.Step(o).state.InName? { LengthOpen(c.Step(o)); }
  }

  lemma {:induction false} ContinueGrows(c: Partial, s: Bytes)
    requires c.state.InName? ==> c.closed == []
    ensures HeaderLength(c.Continue(s)) >= c.Length()
    ensures |c.Continue(s).parameters| >= |c.Parameters()|
  {
    var h := c.Continue(s);
    if c.state.InName? {
      assert c.Length() == |c.name| <= |h.name|;
    } else {
      LengthOpen(c);
      var p := h.parameters[|c.closed|];
      assert h.parameters == c.closed + [p] + h.parameters[|c.closed| + 1..];
      ParameterLengthSnoc(c.closed, p, h.parameters[|c.closed| + 1..]);
    }
  }
}
