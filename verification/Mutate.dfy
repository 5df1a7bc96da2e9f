/**
 Scoped writes: parameter edit lists, replacement lines read through the file's own reader, and
 changes addressed to an identity or to one occurrence. Each is all or nothing.
 */
module Mutate {
  import opened Octets
  import opened Budget
  import opened Syntax
  import opened Grammar
  import opened HeaderMachine
  import opened Lexer
  import opened Escape

  datatype MutationError =
    | IllegalControlCharacter
    | ComponentBoundary
    | MalformedReplacement
    | Absent
    | NotRepresentable
    | OversizedValue(limit: nat)

  datatype ParameterEdit = ParameterEdit(name: Bytes, value: Option<Bytes>)

  datatype ProposedChange =
    | Add(line: Bytes)
    | Replace(line: Bytes)
    | SetParameters(edits: seq<ParameterEdit>)
    | Remove

  /** The caller's bounds on what is read. */
  lemma {:induction false} EqIgnoreCaseTransitive(a: Bytes, b: Bytes, c: Bytes)
    requires EqIgnoreCase(a, b)
    ensures EqIgnoreCase(b, a)
    ensures EqIgnoreCase(a, c) <==> EqIgnoreCase(b, c)
  {
  }

  // -------------------------------------------------------------------------
  // Parameter edits
  // -------------------------------------------------------------------------

  function WithoutParameter(ps: seq<Parameter>, name: Bytes): (r: seq<Parameter>) {
    if ps == [] then []
    else if EqIgnoreCase(ps[0].name, name) then WithoutParameter(ps[1..], name)
    else [ps[0]] + WithoutParameter(ps[1..], name)
  }

  /** Where the first parameter of the name stands, or the length when there is none. */
  function FirstNamed(ps: seq<Parameter>, name: Bytes): (n: nat)
    ensures n <= |ps|
    ensures forall i | 0 <= i < n :: !EqIgnoreCase(ps[i].name, name)
    ensures n < |ps| ==> EqIgnoreCase(ps[n].name, name)
  {
    if ps == [] || EqIgnoreCase(ps[0].name, name) then 0 else 1 + FirstNamed(ps[1..], name)
  }

  lemma {:induction false} FirstNamedLater(ps: seq<Parameter>, name: Bytes)
    requires ps != [] && !EqIgnoreCase(ps[0].name, name)
    ensures FirstNamed(ps, name) == 1 + FirstNamed(ps[1..], name)
  {
  }

  lemma {:induction false} WithoutFirst(ps: seq<Parameter>, name: Bytes)
    requires ps != [] && EqIgnoreCase(ps[0].name, name)
    ensures FirstNamed(ps, name) == 0 && WithoutParameter(ps, name) == WithoutParameter(ps[1..], name)
  {
  }

  lemma {:induction false} NothingWithout(name: Bytes)
    ensures FirstNamed([], name) == 0 && WithoutParameter([], name) == []
  {
  }

  lemma {:induction false} WithoutKeepsFront(ps: seq<Parameter>, name: Bytes)
    ensures FirstNamed(ps, name) <= |WithoutParameter(ps, name)|
    ensures WithoutParameter(ps, name)[..FirstNamed(ps, name)] == ps[..FirstNamed(ps, name)]
    ensures var n := FirstNamed(ps, name);
      n < |ps| ==> WithoutParameter(ps, name)[n..] == WithoutParameter(ps[n + 1..], name)
    ensures FirstNamed(ps, name) == |ps| ==> WithoutParameter(ps, name) == ps
  {
    hide EqIgnoreCase, FirstNamed, WithoutParameter;
    if ps == [] {
      NothingWithout(name);
    } else if EqIgnoreCase(ps[0].name, name) {
      WithoutFirst(ps, name);
      var kept := WithoutParameter(ps, name);
      assert kept[..0] == [] == ps[..0] && kept[0..] == kept;
    } else {
      FirstNamedLater(ps, name);
      WithoutLater(ps, name);
      var n := FirstNamed(ps[1..], name);
      WithoutKeepsFront(ps[1..], name);
      ConsSlices(ps[0], WithoutParameter(ps[1..], name), n);
      assert ps == [ps[0]] + ps[1..];
      ConsSlices(ps[0], ps[1..], n);
      if n < |ps[1..]| { ConsSlices(ps[0], ps[1..], n + 1); }
    }
  }

  lemma {:induction false} WithoutLater(ps: seq<Parameter>, name: Bytes)
    requires ps != [] && !EqIgnoreCase(ps[0].name, name)
    ensures WithoutParameter(ps, name) == [ps[0]] + WithoutParameter(ps[1..], name)
  {
  }

  /** The value goes where the first parameter of the name stood, or at the end. */
  function Assigned(ps: seq<Parameter>, name: Bytes, value: Bytes): seq<Parameter> {
    var at := FirstNamed(ps, name);
    var kept := WithoutParameter(ps, name);
    WithoutKeepsFront(ps, name);
    kept[..at] + [SpelledParameter(name, value)] + kept[at..]
  }

  /** An assignment touches no parameter before the one it replaces, and drops only its repeats. */
  lemma {:induction false} AssignedKeepsPlace(ps: seq<Parameter>, name: Bytes, value: Bytes)
    ensures var at := FirstNamed(ps, name);
      Assigned(ps, name, value)
      == ps[..at] + [SpelledParameter(name, value)] + if at < |ps| then WithoutParameter(ps[at + 1..], name) else []
  {
    WithoutKeepsFront(ps, name);
  }

  function Edited(ps: seq<Parameter>, edit: ParameterEdit): seq<Parameter> {
    match edit.value
    case Some(value) => Assigned(ps, edit.name, value)
    case None => WithoutParameter(ps, edit.name)
  }

  function EditedAll(ps: seq<Parameter>, edits: seq<ParameterEdit>): seq<Parameter>
    decreases |edits|
  {
    if edits == [] then ps else EditedAll(Edited(ps, edits[0]), edits[1..])
  }

  lemma {:induction false} EditedAllSnoc(ps: seq<Parameter>, edits: seq<ParameterEdit>, edit: ParameterEdit)
    ensures EditedAll(ps, edits + [edit]) == Edited(EditedAll(ps, edits), edit)
    decreases |edits|
  {
    hide Edited;
    if edits == [] {
      assert [edit][1..] == [];
    } else {
      assert (edits + [edit])[1..] == edits[1..] + [edit];
      EditedAllSnoc(Edited(ps, edits[0]), edits[1..], edit);
    }
  }

  /** The parameters of one name, in order. */
  function Named(ps: seq<Parameter>, name: Bytes): seq<Parameter> {
    if ps == [] then []
    else if EqIgnoreCase(ps[0].name, name) then [ps[0]] + Named(ps[1..], name)
    else Named(ps[1..], name)
  }

  predicate Mentions(edits: seq<ParameterEdit>, name: Bytes) {
    exists i | 0 <= i < |edits| :: EqIgnoreCase(edits[i].name, name)
  }

  /** The parameters no edit is about, in order. */
  function Unmentioned(ps: seq<Parameter>, edits: seq<ParameterEdit>): seq<Parameter> {
    if ps == [] then []
    else if Mentions(edits, ps[0].name) then Unmentioned(ps[1..], edits)
    else [ps[0]] + Unmentioned(ps[1..], edits)
  }

  lemma {:induction false} NamedAppend(a: seq<Parameter>, b: seq<Parameter>, name: Bytes)
    ensures Named(a + b, name) == Named(a, name) + Named(b, name)
  {
    hide EqIgnoreCase, Named;
    if a == [] {
      assert a + b == b;
      NothingNamed(name);
      assert [] + Named(b, name) == Named(b, name);
    } else {
      NamedAppend(a[1..], b, name);
      AppendFront(a, b);
      NamedFront(a, name);
      NamedFront(a + b, name);
      AppendTwice(if EqIgnoreCase(a[0].name, name) then [a[0]] else [], Named(a[1..], name), Named(b, name));
    }
  }

  lemma {:induction false} NamedFront(ps: seq<Parameter>, name: Bytes)
    requires ps != []
    ensures Named(ps, name) == (if EqIgnoreCase(ps[0].name, name) then [ps[0]] else []) + Named(ps[1..], name)
  {
  }

  lemma {:induction false} NothingNamed(name: Bytes)
    ensures Named([], name) == []
  {
  }

  lemma {:induction false} UnmentionedAppend(a: seq<Parameter>, b: seq<Parameter>, edits: seq<ParameterEdit>)
    ensures Unmentioned(a + b, edits) == Unmentioned(a, edits) + Unmentioned(b, edits)
  {
    hide Mentions, Unmentioned;
    if a == [] {
      assert a + b == b;
      NothingMentioned(edits);
      assert [] + Unmentioned(b, edits) == Unmentioned(b, edits);
    } else {
      UnmentionedAppend(a[1..], b, edits);
      AppendFront(a, b);
      UnmentionedFront(a, edits);
      UnmentionedFront(a + b, edits);
      AppendTwice(if Mentions(edits, a[0].name) then [] else [a[0]], Unmentioned(a[1..], edits), Unmentioned(b, edits));
    }
  }

  lemma {:induction false} UnmentionedFront(ps: seq<Parameter>, edits: seq<ParameterEdit>)
    requires ps != []
    ensures Unmentioned(ps, edits) == (if Mentions(edits, ps[0].name) then [] else [ps[0]]) + Unmentioned(ps[1..], edits)
  {
  }

  lemma {:induction false} NothingMentioned(edits: seq<ParameterEdit>)
    ensures Unmentioned([], edits) == []
  {
  }

  lemma {:induction false} NamedWithout(ps: seq<Parameter>, dropped: Bytes, name: Bytes)
    ensures Named(WithoutParameter(ps, dropped), name) == if EqIgnoreCase(dropped, name) then [] else Named(ps, name)
  {
    hide EqIgnoreCase;
    if ps != [] {
      NamedWithout(ps[1..], dropped, name);
      if EqIgnoreCase(ps[0].name, dropped) { EqIgnoreCaseTransitive(ps[0].name, dropped, name); }
      if EqIgnoreCase(dropped, name) {
        EqIgnoreCaseTransitive(dropped, name, ps[0].name);
        EqIgnoreCaseSymmetric(name, ps[0].name);
        EqIgnoreCaseSymmetric(dropped, ps[0].name);
      }
      if !EqIgnoreCase(ps[0].name, dropped) { NamedAppend([ps[0]], WithoutParameter(ps[1..], dropped), name); NamedOne(ps[0], name); }
    }
  }

  lemma {:induction false} EqIgnoreCaseSymmetric(a: Bytes, b: Bytes)
    ensures EqIgnoreCase(a, b) <==> EqIgnoreCase(b, a)
  {
  }

  lemma {:induction false} NamedOne(p: Parameter, name: Bytes)
    ensures Named([p], name) == if EqIgnoreCase(p.name, name) then [p] else []
  {
    assert [p][1..] == [];
  }

  /** What one edit does to the parameters of any one name. */
  lemma {:induction false} NamedEdited(ps: seq<Parameter>, edit: ParameterEdit, name: Bytes)
    ensures Named(Edited(ps, edit), name)
      == if !EqIgnoreCase(edit.name, name) then Named(ps, name)
         else if edit.value.Some? then [SpelledParameter(edit.name, edit.value.value)] else []
  {
    hide EqIgnoreCase, Named, WithoutParameter;
    NamedWithout(ps, edit.name, name);
    if edit.value.Some? {
      var at, kept := FirstNamed(ps, edit.name), WithoutParameter(ps, edit.name);
      var written := SpelledParameter(edit.name, edit.value.value);
      WithoutKeepsFront(ps, edit.name);
      NamedAppend(kept[..at] + [written], kept[at..], name);
      NamedAppend(kept[..at], [written], name);
      NamedAppend(kept[..at], kept[at..], name);
      NamedOne(written, name);
      assert kept == kept[..at] + kept[at..];
      if EqIgnoreCase(edit.name, name) { assert Named(kept[..at], name) == [] && Named(kept[at..], name) == []; }
    }
  }

  /** The last edit of a name. */
  function LastEdit(edits: seq<ParameterEdit>, name: Bytes): Option<ParameterEdit> {
    if edits == [] then None
    else
      var e := edits[|edits| - 1];
      if EqIgnoreCase(e.name, name) then Some(e) else LastEdit(edits[..|edits| - 1], name)
  }

  /**
   The last write of each name wins: after a list of edits a name assigned last appears exactly
   once, with that value; a name removed last does not appear; a name never edited is as it was.
   */
  lemma {:induction false} LastWriteWins(ps: seq<Parameter>, edits: seq<ParameterEdit>, name: Bytes)
    ensures Named(EditedAll(ps, edits), name)
      == match LastEdit(edits, name)
         case None => Named(ps, name)
         case Some(e) => if e.value.Some? then [SpelledParameter(e.name, e.value.value)] else []
    decreases |edits|
  {
    hide EqIgnoreCase, Named, Edited, SpelledParameter;
    if edits != [] {
      var front, last := edits[..|edits| - 1], edits[|edits| - 1];
      assert edits == front + [last];
      EditedAllSnoc(ps, front, last);
      NamedEdited(EditedAll(ps, front), last, name);
      LastWriteWins(ps, front, name);
    }
  }

  lemma {:induction false} UnmentionedWithout(ps: seq<Parameter>, name: Bytes, edits: seq<ParameterEdit>)
    requires Mentions(edits, name)
    ensures Unmentioned(WithoutParameter(ps, name), edits) == Unmentioned(ps, edits)
  {
    hide EqIgnoreCase, Mentions;
    if ps != [] {
      UnmentionedWithout(ps[1..], name, edits);
      if EqIgnoreCase(ps[0].name, name) { MentionsAlike(edits, name, ps[0].name); }
      var kept := WithoutParameter(ps[1..], name);
      if !EqIgnoreCase(ps[0].name, name) { assert ([ps[0]] + kept)[1..] == kept; }
    }
  }

  lemma {:induction false} MentionsAlike(edits: seq<ParameterEdit>, name: Bytes, other: Bytes)
    requires EqIgnoreCase(other, name) && Mentions(edits, name)
    ensures Mentions(edits, other)
  {
  }

  /** What is not mentioned keeps its spelling and its order. */
  lemma {:induction false} UnmentionedKept(ps: seq<Parameter>, edits: seq<ParameterEdit>, all: seq<ParameterEdit>)
    requires forall i | 0 <= i < |edits| :: Mentions(all, edits[i].name)
    ensures Unmentioned(EditedAll(ps, edits), all) == Unmentioned(ps, all)
    decreases |edits|
  {
    hide EqIgnoreCase, Mentions, Edited;
    if edits != [] {
      UnmentionedEdited(ps, edits[0], all);
      UnmentionedKept(Edited(ps, edits[0]), edits[1..], all);
    }
  }

  lemma {:induction false} UnmentionedEdited(ps: seq<Parameter>, edit: ParameterEdit, all: seq<ParameterEdit>)
    requires Mentions(all, edit.name)
    ensures Unmentioned(Edited(ps, edit), all) == Unmentioned(ps, all)
  {
    hide EqIgnoreCase, Mentions, Unmentioned, WithoutParameter, FirstNamed;
    UnmentionedWithout(ps, edit.name, all);
    if edit.value.Some? {
      var at, kept := FirstNamed(ps, edit.name), WithoutParameter(ps, edit.name);
      var written := SpelledParameter(edit.name, edit.value.value);
      WithoutKeepsFront(ps, edit.name);
      UnmentionedAppend(kept[..at] + [written], kept[at..], all);
      UnmentionedAppend(kept[..at], [written], all);
      UnmentionedAppend(kept[..at], kept[at..], all);
      UnmentionedOne(written, all);
      assert kept == kept[..at] + kept[at..];
    }
  }

  lemma {:induction false} UnmentionedOne(p: Parameter, edits: seq<ParameterEdit>)
    requires Mentions(edits, p.name)
    ensures Unmentioned([p], edits) == []
  {
    assert [p][1..] == [];
  }

  /** The parameters no edit names are untouched by the whole list, in order. */
  lemma {:induction false} EditsKeepTheRest(ps: seq<Parameter>, edits: seq<ParameterEdit>)
    ensures Unmentioned(EditedAll(ps, edits), edits) == Unmentioned(ps, edits)
  {
    forall i | 0 <= i < |edits| ensures Mentions(edits, edits[i].name) {
      assert EqIgnoreCase(edits[i].name, edits[i].name);
    }
    UnmentionedKept(ps, edits, edits);
  }

  predicate Writable(edits: seq<ParameterEdit>) {
    forall i | 0 <= i < |edits| ::
      ParameterNameIsRepresentable(edits[i].name) && (edits[i].value.Some? ==> ParameterValueIsWritable(edits[i].value.value))
  }

  /** Refuse a list with an edit section 3.2 cannot write back, before any of it is applied. */
  method RefuseUnwritableEdits(edits: seq<ParameterEdit>) returns (r: Result<(), MutationError>)
    ensures r.Ok? <==> Writable(edits)
    ensures r.Err? ==> r.error == NotRepresentable
  {
    hide ParameterNameIsRepresentable, ParameterValueIsWritable;
    for i := 0 to |edits|
      invariant Writable(edits[..i])
    {
      if !ParameterNameIsRepresentable(edits[i].name) { return Err(NotRepresentable); }
      if edits[i].value.Some? {
        if !ParameterValueIsWritable(edits[i].value.value) { return Err(NotRepresentable); }
      }
      assert edits[..i + 1] == edits[..i] + [edits[i]];
    }
    assert edits[..|edits|] == edits;
    return Ok(());
  }

  // -------------------------------------------------------------------------
  // Replacement lines
  // -------------------------------------------------------------------------

  datatype ParsedLine = ParsedLine(name: Bytes, parameters: seq<Parameter>, value: Bytes, ending: Option<LineEnding>)

  /** What the octets of one line are read as. */
  function LineOf(bytes: Bytes): ParsedLine {
    var l := ReadLogical(bytes, 0);
    var h := Split(l.content);
    ParsedLine(h.name, h.parameters, h.value, l.ending)
  }

  /** Exactly one content line, with a name and a separator, inside the caller's bounds. */
  predicate IsOneLine(bytes: Bytes, limits: Limits) {
    var l := ReadLogical(bytes, 0);
    && bytes != [] && l.rest == []
    && Within(l, limits.grammar, limits.maxValueBytes)
    && Split(l.content).separated && Split(l.content).name != []
  }

  /** Only the value of the first line is over its bound. */
  predicate OnlyValueCrosses(bytes: Bytes, limits: Limits) {
    var l := ReadLogical(bytes, 0);
    var h := Split(l.content);
    && |l.folds| <= limits.grammar.maxFoldsPerLine
    && HeaderLength(h) <= limits.grammar.maxHeaderBytes
    && |h.parameters| <= limits.grammar.maxParameters
    && |h.value| > limits.maxValueBytes
  }

  /** A value over its bound is named when nothing else is over its own, and only then if it is. */
  predicate RefusesLine(bytes: Bytes, limits: Limits, e: MutationError) {
    match e
    case MalformedReplacement => bytes == [] || !OnlyValueCrosses(bytes, limits)
    case OversizedValue(limit) => limit == limits.maxValueBytes && |Split(ReadLogical(bytes, 0).content).value| > limit
    case _ => false
  }

  /** Read exactly one content line, through the reader a file goes through. */
  method ReadReplacementLine(bytes: Bytes, limits: Limits) returns (r: Result<ParsedLine, MutationError>)
    ensures r.Ok? <==> IsOneLine(bytes, limits)
    ensures r.Ok? ==> r.value == LineOf(bytes)
    ensures r.Err? ==> RefusesLine(bytes, limits, r.error)
  {
    hide ReadLogical, Split, HeaderLength, SaturateFolds;
    var reader := new ContentLineReader(bytes, limits.grammar, limits.maxValueBytes);
    assert bytes[0..] == bytes;
    var first := reader.NextLine();
    if first.None? { return Err(MalformedReplacement); }
    match first.value {
      case Err(ValueTooLarge(limit)) => return Err(OversizedValue(limit));
      case Err(_) => return Err(MalformedReplacement);
      case Ok(line) =>
        if !line.layout.hasSeparator { return Err(MalformedReplacement); }
        assert bytes[reader.cursor..] == ReadLogical(bytes, 0).rest;
        var second := reader.NextLine();
        if second.Some? || line.name == [] { return Err(MalformedReplacement); }
        return Ok(ParsedLine(line.name, line.parameters, line.value, line.layout.ending));
    }
  }

  /** One content line, and one of the identity the caller gave. */
  method ReadNamedLine(id: Bytes, bytes: Bytes, limits: Limits) returns (r: Result<ParsedLine, MutationError>)
    ensures r.Ok? <==> IsOneLine(bytes, limits) && EqIgnoreCase(id, LineOf(bytes).name)
    ensures r.Ok? ==> r.value == LineOf(bytes)
    ensures r.Err? ==> RefusesLine(bytes, limits, r.error)
  {
    hide IsOneLine, LineOf, EqIgnoreCase, RefusesLine;
    var line := ReadReplacementLine(bytes, limits);
    if line.Err? { return Err(line.error); }
    if !EqIgnoreCase(id, line.value.name) {
      OneLineIsWithin(bytes, limits);
      return Err(MalformedReplacement);
    }
    return Ok(line.value);
  }

  lemma {:induction false} OneLineIsWithin(bytes: Bytes, limits: Limits)
    requires IsOneLine(bytes, limits)
    ensures RefusesLine(bytes, limits, MalformedReplacement)
  {
  }

  // -------------------------------------------------------------------------
  // One property
  // -------------------------------------------------------------------------

  /** The writes that reach one line: each drops its folds, asserts a separator, keeps its ending. */
  datatype Rewrite =
    | WholeLine(line: ParsedLine)
    | Parameters(edits: seq<ParameterEdit>)
    | Value(bytes: Bytes)
    | Coupled(edits: seq<ParameterEdit>, bytes: Bytes)
  {
    function Of(p: Property): Property {
      match this
      case WholeLine(line) => Property(line.name, line.parameters, line.value, p.layout.Refolded())
      case Parameters(edits) => p.(parameters := EditedAll(p.parameters, edits), layout := p.layout.Refolded())
      case Value(bytes) => p.(value := bytes, layout := p.layout.Refolded())
      case Coupled(edits, bytes) => Property(p.name, EditedAll(p.parameters, edits), bytes, p.layout.Refolded())
    }
  }

  predicate ControlFree(bytes: Bytes) {
    forall i | 0 <= i < |bytes| :: !IsAsciiControl(bytes[i])
  }

  /** What may be written raw: no octet below 32, HTAB among them, and no DEL. */
  lemma {:induction false} ControlFreeIff(bytes: Bytes)
    ensures ControlFree(bytes) <==> forall i | 0 <= i < |bytes| :: bytes[i] >= 32 && bytes[i] != 127
    ensures NamesAComponentBoundary(bytes) <==> SameLetters(bytes, [66, 69, 71, 73, 78]) || SameLetters(bytes, [69, 78, 68])
  {
    EqIgnoreCaseIff(bytes, BEGIN);
    EqIgnoreCaseIff(bytes, END);
    assert forall i | 0 <= i < |bytes| :: IsAsciiControl(bytes[i]) <==> !(bytes[i] >= 32 && bytes[i] != 127);
  }

  /** Why a typed write is refused, in the order the refusals are made. */
  function SetRefusal(name: Bytes, encoded: Result<Bytes, MutationError>): MutationError {
    if NamesAComponentBoundary(name) then ComponentBoundary
    else
      match encoded
      case Err(e) => e
      case Ok(bytes) => if ControlFree(bytes) then NotRepresentable else IllegalControlCharacter
  }

  /** A guard over one property. */
  class PropertyMut {
    var property: Property

    constructor (property: Property)
      ensures this.property == property
    {
      this.property := property;
    }

    method AssignParameter(name: Bytes, value: Bytes)
      modifies this
      ensures property == old(property).(parameters := Assigned(old(property.parameters), name, value))
    {
      var at := FirstNamed(property.parameters, name);
      var kept := WithoutParameter(property.parameters, name);
      WithoutKeepsFront(property.parameters, name);
      property := property.(parameters := kept[..at] + [SpelledParameter(name, value)] + kept[at..]);
    }

    method ApplyParameterEdits(edits: seq<ParameterEdit>)
      modifies this
      ensures property == Parameters(edits).Of(old(property))
    {
      hide Assigned, WithoutParameter;
      property := property.(layout := property.layout.Refolded());
      ghost var start := property;
      for i := 0 to |edits|
        invariant property == start.(parameters := EditedAll(start.parameters, edits[..i]))
      {
        EditedAllSnoc(start.parameters, edits[..i], edits[i]);
        assert edits[..i + 1] == edits[..i] + [edits[i]];
        if edits[i].value.Some? {
          AssignParameter(edits[i].name, edits[i].value.value);
        } else {
          property := property.(parameters := WithoutParameter(property.parameters, edits[i].name));
        }
      }
      assert edits[..|edits|] == edits;
    }

    /** Write octets as the value, refusing any control character and any component boundary. */
    method SetRaw(bytes: Bytes) returns (r: Result<(), MutationError>)
      modifies this
      ensures r.Ok? <==> !NamesAComponentBoundary(old(property.name)) && ControlFree(bytes)
      ensures property == if r.Ok? then Value(bytes).Of(old(property)) else old(property)
      ensures r.Err? ==> r.error == if NamesAComponentBoundary(property.name) then ComponentBoundary else IllegalControlCharacter
    {
      if NamesAComponentBoundary(property.name) { return Err(ComponentBoundary); }
      if !ControlFree(bytes) { return Err(IllegalControlCharacter); }
      property := property.(value := bytes, layout := property.layout.Refolded());
      return Ok(());
    }

    /** Write a typed value: its octets, and the parameters its shape decides. */
    method Set(encoded: Result<Bytes, MutationError>, coupled: seq<ParameterEdit>) returns (r: Result<(), MutationError>)
      modifies this
      ensures r.Ok? <==>
        !NamesAComponentBoundary(old(property.name)) && encoded.Ok? && ControlFree(encoded.value) && Writable(coupled)
      ensures property == if r.Ok? then Coupled(coupled, encoded.value).Of(old(property)) else old(property)
      ensures r.Err? ==> r.error == SetRefusal(property.name, encoded)
    {
      if NamesAComponentBoundary(property.name) { return Err(ComponentBoundary); }
      if encoded.Err? { return Err(encoded.error); }
      if !ControlFree(encoded.value) { return Err(IllegalControlCharacter); }
      var refused := RefuseUnwritableEdits(coupled);
      if refused.Err? { return refused; }
      ApplyParameterEdits(coupled);
      property := property.(value := encoded.value, layout := property.layout.Refolded());
      return Ok(());
    }
  }

  // -------------------------------------------------------------------------
  // What a caller assembles
  // -------------------------------------------------------------------------

  /** A parameter out of a name and a value, in the spelling the value requires. */
  method CreateParameter(name: Bytes, value: Bytes) returns (r: Result<Parameter, MutationError>)
    ensures r.Ok? <==> ParameterNameIsRepresentable(name) && ParameterValueIsWritable(value)
    ensures r.Ok? ==> r.value.name == name && MeaningOf(r.value) == value && r.value == SpelledParameter(name, value)
    ensures r.Err? ==> r.error == NotRepresentable
  {
    if !ParameterNameIsRepresentable(name) || !ParameterValueIsWritable(value) { return Err(NotRepresentable); }
    SpelledParameterReadsBack(name, value);
    return Ok(SpelledParameter(name, value));
  }

  /** A property that was never read from anywhere, canonically laid out. */
  function Created(name: Bytes, parameters: seq<Parameter>, value: Bytes): Property {
    Property(name, parameters, value, LineLayout.Canonical(CANONICAL))
  }

  /** Why a property is not created, its name coming before its value. */
  function CreationRefusal(name: Bytes): MutationError {
    if !PropertyNameIsRepresentable(name) then NotRepresentable
    else if NamesAComponentBoundary(name) then ComponentBoundary
    else IllegalControlCharacter
  }

  method CreateProperty(name: Bytes, parameters: seq<Parameter>, value: Bytes) returns (r: Result<Property, MutationError>)
    ensures r.Ok? <==> PropertyNameIsRepresentable(name) && !NamesAComponentBoundary(name) && ControlFree(value)
    ensures r.Ok? ==> r.value == Created(name, parameters, value) && r.value.layout.ending == Some(CrLf)
    ensures r.Err? ==> r.error == CreationRefusal(name)
  {
    if !PropertyNameIsRepresentable(name) { return Err(NotRepresentable); }
    if NamesAComponentBoundary(name) { return Err(ComponentBoundary); }
    if !ControlFree(value) { return Err(IllegalControlCharacter); }
    return Ok(Created(name, parameters, value));
  }

  /** A component closed by the name it is opened with. */
  function CreatedComponent(name: Bytes, items: seq<Item>): Component {
    var layout := LineLayout.Canonical(CANONICAL);
    Component(Boundary(BEGIN, name, layout), items, Some(Boundary(END, name, layout)))
  }

  method CreateComponent(name: Bytes, items: seq<Item>) returns (r: Result<Component, MutationError>)
    ensures r.Ok? <==> PropertyNameIsRepresentable(name)
    ensures r.Ok? ==> r.value == CreatedComponent(name, items) && r.value.begin.layout.ending == Some(CrLf)
    ensures r.Err? ==> r.error == NotRepresentable
  {
    if !PropertyNameIsRepresentable(name) { return Err(NotRepresentable); }
    return Ok(CreatedComponent(name, items));
  }

  // -------------------------------------------------------------------------
  // The entries of a component
  // -------------------------------------------------------------------------

  predicate HasId(item: Item, id: Bytes) {
    item.PropertyItem? && EqIgnoreCase(id, item.property.name)
  }

  function Occurrences(items: seq<Item>, id: Bytes): nat {
    if items == [] then 0 else (if HasId(items[0], id) then 1 else 0) + Occurrences(items[1..], id)
  }

  /** Where the index-th entry of the identity stands. */
  function OccurrencePosition(items: seq<Item>, id: Bytes, index: nat): (r: Option<nat>)
    ensures r.Some? ==> r.value < |items| && HasId(items[r.value], id)
    decreases |items|
  {
    if items == [] then None
    else if !HasId(items[0], id) then Shift(OccurrencePosition(items[1..], id, index))
    else if index == 0 then Some(0)
    else Shift(OccurrencePosition(items[1..], id, index - 1))
  }

  function Shift(r: Option<nat>): Option<nat> {
    match r
    case None => None
    case Some(n) => Some(n + 1)
  }

  lemma {:induction false} OccurrencesAppend(a: seq<Item>, b: seq<Item>, id: Bytes)
    ensures Occurrences(a + b, id) == Occurrences(a, id) + Occurrences(b, id)
  {
    hide HasId;
    if a == [] {
      assert a + b == b;
    } else {
      OccurrencesAppend(a[1..], b, id);
      assert (a + b)[1..] == a[1..] + b;
    }
  }

  /** The position found is the one with exactly `index` occurrences before it, and is found if there is one. */
  lemma {:induction false} OccurrencePositionIs(items: seq<Item>, id: Bytes, index: nat)
    ensures OccurrencePosition(items, id, index).Some? <==> index < Occurrences(items, id)
    ensures forall at | 0 <= at < |items| && HasId(items[at], id) ::
      OccurrencePosition(items, id, index) == Some(at) <==> Occurrences(items[..at], id) == index
    decreases |items|
  {
    hide HasId;
    if items != [] {
      var rest, n := items[1..], if HasId(items[0], id) then 1 else 0;
      if index >= n { OccurrencePositionIs(rest, id, index - n); }
      forall at | 0 <= at < |items| && HasId(items[at], id)
        ensures OccurrencePosition(items, id, index) == Some(at) <==> Occurrences(items[..at], id) == index
      {
        if at > 0 {
          assert items[..at][1..] == rest[..at - 1];
          assert rest[at - 1] == items[at];
        }
      }
    }
  }

  function WithoutId(items: seq<Item>, id: Bytes): (r: seq<Item>)
    ensures |r| <= |items|
  {
    if items == [] then []
    else if HasId(items[0], id) then WithoutId(items[1..], id)
    else [items[0]] + WithoutId(items[1..], id)
  }

  /** A removal by identity takes every occurrence, and shortens the list by as many. */
  lemma {:induction false} WithoutIdTakesAll(items: seq<Item>, id: Bytes)
    ensures |WithoutId(items, id)| == |items| - Occurrences(items, id)
    ensures Occurrences(WithoutId(items, id), id) == 0
  {
    hide HasId;
    if items != [] {
      WithoutIdTakesAll(items[1..], id);
      var rest := WithoutId(items[1..], id);
      if !HasId(items[0], id) { assert ([items[0]] + rest)[1..] == rest; }
    }
  }

  /** Every entry of the identity rewritten, every other one as it was. */
  function RewriteAll(items: seq<Item>, id: Bytes, write: Rewrite): (r: seq<Item>)
    ensures |r| == |items|
  {
    seq(|items|, i requires 0 <= i < |items| =>
      if HasId(items[i], id) then PropertyItem(write.Of(items[i].property)) else items[i])
  }

  /** One past the last property, where an addition goes. */
  function InsertionPoint(items: seq<Item>): (at: nat)
    ensures at <= |items|
    ensures at > 0 ==> items[at - 1].PropertyItem?
    ensures forall i | at <= i < |items| :: items[i].ComponentItem?
  {
    if items == [] then 0
    else if items[|items| - 1].PropertyItem? then |items|
    else InsertionPoint(items[..|items| - 1])
  }

  function NewProperty(line: ParsedLine): Property {
    Property(line.name, line.parameters, line.value,
             LineLayout.Canonical(if line.ending.Some? then line.ending.value else CANONICAL))
  }

  function Terminated(item: Item): Item
    requires item.PropertyItem?
  {
    PropertyItem(item.property.(layout := item.property.layout.TerminateWith(CrLf)))
  }

  /** The component with the line added, and the line above it terminated. */
  function Inserted(c: Component, line: ParsedLine): Component {
    var at := InsertionPoint(c.items);
    var added := [PropertyItem(NewProperty(line))] + c.items[at..];
    if at == 0 then c.(begin := c.begin.(layout := c.begin.layout.TerminateWith(CrLf)), items := added)
    else c.(items := c.items[..at - 1] + [Terminated(c.items[at - 1])] + added)
  }

  // -------------------------------------------------------------------------
  // The component
  // -------------------------------------------------------------------------

  /** The change a component undergoes, when the change is accepted. */
  ghost predicate Changed(c: Component, id: Bytes, change: ProposedChange, r: Component) {
    match change
    case Add(line) => r == Inserted(c, LineOf(line))
    case Replace(line) => r == c.(items := RewriteAll(c.items, id, WholeLine(LineOf(line))))
    case SetParameters(edits) => r == c.(items := RewriteAll(c.items, id, Parameters(edits)))
    case Remove => r == c.(items := WithoutId(c.items, id))
  }

  /** What the change itself has to be, whatever the component holds. */
  ghost predicate WellFormed(id: Bytes, change: ProposedChange, limits: Limits) {
    match change
    case Add(line) => !NamesAComponentBoundary(id) && IsOneLine(line, limits) && EqIgnoreCase(id, LineOf(line).name)
    case Replace(line) => !NamesAComponentBoundary(id) && IsOneLine(line, limits) && EqIgnoreCase(id, LineOf(line).name)
    case SetParameters(edits) => !NamesAComponentBoundary(id) && Writable(edits)
    case Remove => true
  }

  /** Why an ill-formed change may be refused. */
  ghost predicate Refuses(id: Bytes, change: ProposedChange, limits: Limits, e: MutationError) {
    if change.Remove? then false
    else if NamesAComponentBoundary(id) then e == ComponentBoundary
    else if change.SetParameters? then e == NotRepresentable
    else RefusesLine(change.line, limits, e)
  }

  class EditableComponent {
    var begin: Boundary
    var items: seq<Item>
    var end: Option<Boundary>

    constructor (c: Component)
      ensures Stored() == c
    {
      begin, items, end := c.begin, c.items, c.end;
    }

    ghost function Stored(): Component
      reads this
    {
      Component(begin, items, end)
    }

    /** Write `line` over every property of the identity. */
    method Overwrite(id: Bytes, line: ParsedLine) returns (r: Result<(), MutationError>)
      modifies `items
      ensures items == RewriteAll(old(items), id, WholeLine(line))
      ensures r == if Occurrences(old(items), id) > 0 then Ok(()) else Err(Absent)
    {
      hide HasId;
      var reached := false;
      for i := 0 to |items|
        invariant |items| == |old(items)|
        invariant forall j | 0 <= j < i :: items[j] == RewriteAll(old(items), id, WholeLine(line))[j]
        invariant forall j | i <= j < |items| :: items[j] == old(items)[j]
        invariant reached <==> Occurrences(old(items)[..i], id) > 0
      {
        CountNext(old(items), id, i);
        if HasId(items[i], id) {
          ItemIsProperty(items[i], id);
          items := items[i := PropertyItem(WholeLine(line).Of(items[i].property))];
          reached := true;
        }
      }
      assert old(items)[..|old(items)|] == old(items);
      r := if reached then Ok(()) else Err(Absent);
    }

    /** Edit the parameters of every property of the identity. */
    method EditParametersOf(id: Bytes, edits: seq<ParameterEdit>) returns (r: Result<(), MutationError>)
      modifies `items
      ensures items == RewriteAll(old(items), id, Parameters(edits))
      ensures r == if Occurrences(old(items), id) > 0 then Ok(()) else Err(Absent)
    {
      hide HasId, Rewrite.Of;
      var reached := false;
      for i := 0 to |items|
        invariant |items| == |old(items)|
        invariant forall j | 0 <= j < i :: items[j] == RewriteAll(old(items), id, Parameters(edits))[j]
        invariant forall j | i <= j < |items| :: items[j] == old(items)[j]
        invariant reached <==> Occurrences(old(items)[..i], id) > 0
      {
        CountNext(old(items), id, i);
        if HasId(items[i], id) {
          ItemIsProperty(items[i], id);
          var guard := new PropertyMut(items[i].property);
          guard.ApplyParameterEdits(edits);
          items := items[i := PropertyItem(guard.property)];
          reached := true;
        }
      }
      assert old(items)[..|old(items)|] == old(items);
      r := if reached then Ok(()) else Err(Absent);
    }

    /** Nothing may follow an unterminated line, so the line before position `at` is terminated. */
    method TerminateLineAbove(at: nat)
      requires at <= |items| && (at > 0 ==> items[at - 1].PropertyItem?)
      modifies `begin, `items
      ensures at == 0 ==> items == old(items) && begin == old(begin).(layout := old(begin).layout.TerminateWith(CrLf))
      ensures at > 0 ==> begin == old(begin) && items == old(items)[at - 1 := Terminated(old(items)[at - 1])]
    {
      if at > 0 {
        var above := items[at - 1].property;
        items := items[at - 1 := PropertyItem(above.(layout := above.layout.TerminateWith(CANONICAL)))];
      } else {
        begin := begin.(layout := begin.layout.TerminateWith(CANONICAL));
      }
    }

    method InsertAfterProperties(line: ParsedLine)
      modifies `begin, `items
      ensures Stored() == Inserted(old(Stored()), line)
    {
      var at := InsertionPoint(items);
      TerminateLineAbove(at);
      items := items[..at] + [PropertyItem(NewProperty(line))] + items[at..];
      assert at > 0 ==> items == old(items)[..at - 1] + [Terminated(old(items)[at - 1])] + ([PropertyItem(NewProperty(line))] + old(items)[at..]);
    }

    method RemoveNamed(id: Bytes) returns (r: Result<(), MutationError>)
      modifies `items
      ensures items == WithoutId(old(items), id)
      ensures r == if Occurrences(old(items), id) > 0 then Ok(()) else Err(Absent)
    {
      var before := |items|;
      WithoutIdTakesAll(items, id);
      items := WithoutId(items, id);
      r := if |items| == before then Err(Absent) else Ok(());
    }

    /** Apply a change to every property of the identity, or refuse it and change nothing. */
    method Apply(id: Bytes, change: ProposedChange, limits: Limits) returns (r: Result<(), MutationError>)
      modifies this
      ensures r.Ok? <==> WellFormed(id, change, limits) && (change.Add? || Occurrences(old(items), id) > 0)
      ensures r.Ok? ==> Changed(old(Stored()), id, change, Stored())
      ensures r.Err? ==> Stored() == old(Stored())
      ensures r.Err? ==> if WellFormed(id, change, limits) then r.error == Absent else Refuses(id, change, limits, r.error)
    {
      hide HasId, IsOneLine, LineOf, EqIgnoreCase, NamesAComponentBoundary, Writable, RefusesLine, Inserted, Rewrite.Of;
      NothingToChange(items, id);
      match change {
        case Replace(replacement) =>
          if NamesAComponentBoundary(id) { return Err(ComponentBoundary); }
          var line := ReadNamedLine(id, replacement, limits);
          if line.Err? { return Err(line.error); }
          r := Overwrite(id, line.value);
        case Add(addition) =>
          if NamesAComponentBoundary(id) { return Err(ComponentBoundary); }
          var line := ReadNamedLine(id, addition, limits);
          if line.Err? { return Err(line.error); }
          InsertAfterProperties(line.value);
          return Ok(());
        case SetParameters(edits) =>
          if NamesAComponentBoundary(id) { return Err(ComponentBoundary); }
          var refused := RefuseUnwritableEdits(edits);
          if refused.Err? { return refused; }
          r := EditParametersOf(id, edits);
        case Remove =>
          r := RemoveNamed(id);
      }
    }

    /** Apply a change to the index-th property of the identity, or refuse it and change nothing. */
    method ApplyToOccurrence(id: Bytes, index: nat, change: ProposedChange, limits: Limits)
      returns (r: Result<(), MutationError>)
      modifies this
      ensures r.Ok? <==>
        WellFormed(id, change, limits)
        && (if change.Add? then index == Occurrences(old(items), id) else index < Occurrences(old(items), id))
      ensures r.Ok? ==> ChangedAt(old(Stored()), id, index, change, Stored())
      ensures r.Err? ==> Stored() == old(Stored())
      ensures r.Err? ==> r.error == Absent || Refuses(id, change, limits, r.error)
      ensures r.Err? && r.error == Absent ==> !(if change.Add? then index == Occurrences(old(items), id) else index < Occurrences(old(items), id))
    {
      hide HasId, IsOneLine, LineOf, EqIgnoreCase, NamesAComponentBoundary, Writable, Inserted, OccurrencePosition;
      OccurrencePositionIs(items, id, index);
      match change {
        case Add(addition) =>
          if NamesAComponentBoundary(id) { return Err(ComponentBoundary); }
          if index != Occurrences(items, id) { return Err(Absent); }
          var line := ReadNamedLine(id, addition, limits);
          if line.Err? { return Err(line.error); }
          InsertAfterProperties(line.value);
          return Ok(());
        case Replace(replacement) =>
          if NamesAComponentBoundary(id) { return Err(ComponentBoundary); }
          var line := ReadNamedLine(id, replacement, limits);
          if line.Err? { return Err(line.error); }
          var at := OccurrencePosition(items, id, index);
          if at.None? { return Err(Absent); }
          ItemIsProperty(items[at.value], id);
          items := items[at.value := PropertyItem(WholeLine(line.value).Of(items[at.value].property))];
          return Ok(());
        case SetParameters(edits) =>
          if NamesAComponentBoundary(id) { return Err(ComponentBoundary); }
          var refused := RefuseUnwritableEdits(edits);
          if refused.Err? { return refused; }
          var at := OccurrencePosition(items, id, index);
          if at.None? { return Err(Absent); }
          ItemIsProperty(items[at.value], id);
          var guard := new PropertyMut(items[at.value].property);
          guard.ApplyParameterEdits(edits);
          items := items[at.value := PropertyItem(guard.property)];
          return Ok(());
        case Remove =>
          var at := OccurrencePosition(items, id, index);
          if at.None? { return Err(Absent); }
          items := items[..at.value] + items[at.value + 1..];
          return Ok(());
      }
    }
  }

  /** The change one occurrence undergoes: no other entry of the component moves or changes. */
  ghost predicate ChangedAt(c: Component, id: Bytes, index: nat, change: ProposedChange, r: Component) {
    if change.Add? then r == Inserted(c, LineOf(change.line))
    else
      exists at | 0 <= at < |c.items| && HasId(c.items[at], id) && Occurrences(c.items[..at], id) == index ::
        r == c.(items := OneChanged(c.items, at, change))
  }

  ghost function OneChanged(items: seq<Item>, at: nat, change: ProposedChange): seq<Item>
    requires at < |items| && items[at].PropertyItem? && !change.Add?
  {
    match change
    case Replace(line) => items[at := PropertyItem(WholeLine(LineOf(line)).Of(items[at].property))]
    case SetParameters(edits) => items[at := PropertyItem(Parameters(edits).Of(items[at].property))]
    case Remove => items[..at] + items[at + 1..]
  }

  lemma {:induction false} ItemIsProperty(item: Item, id: Bytes)
    requires HasId(item, id)
    ensures item.PropertyItem?
  {
  }

  lemma {:induction false} CountNext(items: seq<Item>, id: Bytes, i: nat)
    requires i < |items|
    ensures Occurrences(items[..i + 1], id) == Occurrences(items[..i], id) + if HasId(items[i], id) then 1 else 0
  {
    hide HasId;
    assert items[..i + 1] == items[..i] + [items[i]];
    OccurrencesAppend(items[..i], [items[i]], id);
    assert [items[i]][1..] == [];
  }

  /** With no occurrence there is nothing for a rewrite or a removal to change. */
  lemma {:induction false} NothingToChange(items: seq<Item>, id: Bytes)
    ensures Occurrences(items, id) == 0 ==> WithoutId(items, id) == items && forall write :: RewriteAll(items, id, write) == items
  {
    hide HasId, Rewrite.Of;
    if Occurrences(items, id) == 0 {
      forall i | 0 <= i < |items| ensures !HasId(items[i], id) {
        CountNext(items, id, i);
        assert items == items[..i + 1] + items[i + 1..];
        OccurrencesAppend(items[..i + 1], items[i + 1..], id);
      }
      KeepsAll(items, id);
    }
  }

  lemma {:induction false} KeepsAll(items: seq<Item>, id: Bytes)
    requires forall i | 0 <= i < |items| :: !HasId(items[i], id)
    ensures WithoutId(items, id) == items
  {
    hide HasId;
    if items != [] { KeepsAll(items[1..], id); }
  }

  // -------------------------------------------------------------------------
  // Occurrence numbers
  // -------------------------------------------------------------------------

  /** Removing occurrence `index` moves every later one down by one, and no earlier one. */
  lemma {:induction false} RemovalShiftsLaterDown(items: seq<Item>, id: Bytes, index: nat, k: nat)
    requires index < Occurrences(items, id)
    ensures OccurrencePosition(items, id, index).Some?
    ensures var at := OccurrencePosition(items, id, index).value;
      var rest := items[..at] + items[at + 1..];
      && Occurrences(rest, id) == Occurrences(items, id) - 1
      && (k < index ==> OccurrencePosition(rest, id, k) == OccurrencePosition(items, id, k))
      && (k >= index ==> OccurrencePosition(rest, id, k) == Lowered(OccurrencePosition(items, id, k + 1)))
  {
    hide HasId;
    OccurrencePositionIs(items, id, index);
    var at := OccurrencePosition(items, id, index).value;
    RemovalShifts(items, id, at, k);
  }

  function Lowered(r: Option<nat>): Option<nat> {
    if r.Some? && r.value > 0 then Some(r.value - 1) else None
  }

  lemma {:induction false} RemovalShifts(items: seq<Item>, id: Bytes, at: nat, k: nat)
    requires at < |items| && HasId(items[at], id)
    ensures var rest := items[..at] + items[at + 1..];
      && Occurrences(rest, id) == Occurrences(items, id) - 1
      && (k < Occurrences(items[..at], id) ==> OccurrencePosition(rest, id, k) == OccurrencePosition(items, id, k))
      && (k >= Occurrences(items[..at], id) ==> OccurrencePosition(rest, id, k) == Lowered(OccurrencePosition(items, id, k + 1)))
    decreases at
  {
    hide HasId, Occurrences, OccurrencePosition;
    if at == 0 {
      RemovalOfFirst(items, id, k);
    } else {
      var n := if HasId(items[0], id) then 1 else 0;
      RemovalFront(items, at);
      RemovalShifts(items[1..], id, at - 1, if k >= n then k - n else 0);
      RemovalLater(items, id, at, k);
    }
  }

  lemma {:induction false} RemovalOfFirst(items: seq<Item>, id: Bytes, k: nat)
    requires items != [] && HasId(items[0], id)
    ensures var rest := items[..0] + items[1..];
      && Occurrences(rest, id) == Occurrences(items, id) - 1 && Occurrences(items[..0], id) == 0
      && OccurrencePosition(rest, id, k) == Lowered(OccurrencePosition(items, id, k + 1))
  {
    hide HasId;
    assert items[..0] + items[1..] == items[1..] && items[..0] == [];
  }

  lemma {:induction false} RemovalLater(items: seq<Item>, id: Bytes, at: nat, k: nat)
    requires 0 < at < |items| && HasId(items[at], id)
    requires var n := if HasId(items[0], id) then 1 else 0;
      var front, m := items[1..], if k >= n then k - n else 0;
      var shorter := front[..at - 1] + front[at..];
      && Occurrences(shorter, id) == Occurrences(front, id) - 1
      && (m < Occurrences(front[..at - 1], id) ==> OccurrencePosition(shorter, id, m) == OccurrencePosition(front, id, m))
      && (m >= Occurrences(front[..at - 1], id) ==> OccurrencePosition(shorter, id, m) == Lowered(OccurrencePosition(front, id, m + 1)))
    ensures var rest := items[..at] + items[at + 1..];
      && Occurrences(rest, id) == Occurrences(items, id) - 1
      && (k < Occurrences(items[..at], id) ==> OccurrencePosition(rest, id, k) == OccurrencePosition(items, id, k))
      && (k >= Occurrences(items[..at], id) ==> OccurrencePosition(rest, id, k) == Lowered(OccurrencePosition(items, id, k + 1)))
  {
    hide HasId, Occurrences, OccurrencePosition;
    var rest, front, n := items[..at] + items[at + 1..], items[1..], if HasId(items[0], id) then 1 else 0;
    RemovalFront(items, at);
    PositionFront(items, id, k);
    PositionFront(items, id, k + 1);
    PositionFront(rest, id, k);
    PositionFront(items[..at], id, k);
    if k >= n { FirstIsNotLater(front, id, k - n + 1); }
  }

  lemma {:induction false} RemovalFront(items: seq<Item>, at: nat)
    requires 0 < at < |items|
    ensures var rest, front := items[..at] + items[at + 1..], items[1..];
      && rest[0] == items[0] && rest[1..] == front[..at - 1] + front[at..]
      && items[..at][0] == items[0] && items[..at][1..] == front[..at - 1]
      && front[at - 1] == items[at]
  {
  }

  lemma {:induction false} PositionFront(items: seq<Item>, id: Bytes, k: nat)
    requires items != []
    ensures var n := if HasId(items[0], id) then 1 else 0;
      && Occurrences(items, id) == n + Occurrences(items[1..], id)
      && OccurrencePosition(items, id, k) == if k >= n then Shift(OccurrencePosition(items[1..], id, k - n)) else Some(0)
  {
  }

  lemma {:induction false} FirstIsNotLater(items: seq<Item>, id: Bytes, k: nat)
    requires k > 0
    ensures OccurrencePosition(items, id, k) != Some(0)
  {
    hide HasId;
  }

  /** An addition is the new last occurrence, and no other one moves among the entries before it. */
  lemma {:induction false} AdditionIsLast(c: Component, id: Bytes, line: ParsedLine)
    requires EqIgnoreCase(id, line.name)
    ensures var r := Inserted(c, line);
      && Occurrences(r.items, id) == Occurrences(c.items, id) + 1
      && OccurrencePosition(r.items, id, Occurrences(c.items, id)) == Some(InsertionPoint(c.items))
      && r.items[InsertionPoint(c.items)] == PropertyItem(NewProperty(line))
  {
    hide EqIgnoreCase, Occurrences, OccurrencePosition, NewProperty;
    var at, r, added := InsertionPoint(c.items), Inserted(c, line), PropertyItem(NewProperty(line));
    assert HasId(added, id) by { NewHasId(line, id); }
    var front, tail := r.items[..at], c.items[at..];
    assert r.items == front + ([added] + tail);
    OccurrencesAppend(front, [added] + tail, id);
    OccurrencesAppend([added], tail, id);
    OccurrencesOne(added, id);
    NoneAmongComponents(tail, id);
    assert c.items == c.items[..at] + tail;
    OccurrencesAppend(c.items[..at], tail, id);
    SameCount(c, at, front, id);
    OccurrencePositionIs(r.items, id, Occurrences(c.items, id));
  }

  lemma {:induction false} NewHasId(line: ParsedLine, id: Bytes)
    requires EqIgnoreCase(id, line.name)
    ensures HasId(PropertyItem(NewProperty(line)), id)
  {
  }

  lemma {:induction false} OccurrencesOne(item: Item, id: Bytes)
    ensures Occurrences([item], id) == if HasId(item, id) then 1 else 0
  {
    assert [item][1..] == [];
  }

  lemma {:induction false} NoneAmongComponents(items: seq<Item>, id: Bytes)
    requires forall i | 0 <= i < |items| :: items[i].ComponentItem?
    ensures Occurrences(items, id) == 0
  {
    if items != [] { NoneAmongComponents(items[1..], id); }
  }

  lemma {:induction false} SameCount(c: Component, at: nat, front: seq<Item>, id: Bytes)
    requires at == InsertionPoint(c.items)
    requires front == if at == 0 then [] else c.items[..at - 1] + [Terminated(c.items[at - 1])]
    ensures Occurrences(front, id) == Occurrences(c.items[..at], id)
  {
    hide EqIgnoreCase;
    if at > 0 {
      assert c.items[..at] == c.items[..at - 1] + [c.items[at - 1]];
      OccurrencesAppend(c.items[..at - 1], [c.items[at - 1]], id);
      OccurrencesAppend(c.items[..at - 1], [Terminated(c.items[at - 1])], id);
      OccurrencesOne(c.items[at - 1], id);
      OccurrencesOne(Terminated(c.items[at - 1]), id);
    }
  }
}
