/**
 Which octets a caller may hand over as a replacement line, by the grammar as it is written down:
 colon 58, semicolon 59, terminators CR LF, LF and CR.
 */
module Replacements {
  import opened Octets
  import opened Syntax
  import opened Budget
  import opened Grammar
  import opened HeaderMachine
  import opened Lexer
  import opened QuotedValues
  import opened Mutate

  predicate IsUnbroken(s: Bytes) {
    forall i | 0 <= i < |s| :: s[i] != 13 && s[i] != 10
  }

  lemma {:induction false} UnfoldedLine(content: Bytes, nl: Bytes)
    requires IsUnbroken(content) && (nl == [] || IsNewline(nl))
    ensures var l := ReadLogical(content + nl, 0);
      && l.content == content && l.folds == [] && l.rest == []
      && (if nl == [] then l.ending.None? else l.ending.Some? && l.ending.value.Octets() == nl)
  {
    hide ReadLogical, LineEnding.Octets;
    if nl == [] {
      AdvanceContent(content, []);
      AdvanceEnd(content, [], []);
    } else {
      UnfoldsAt(content, nl, []);
      assert nl + [] == nl && content + [] == content;
    }
  }

  lemma {:induction false} HeldLength(name: Bytes, ps: seq<Listing>, separated: bool, v: Bytes)
    requires forall i | 0 <= i < |ps| :: ListingIsWellFormed(ps[i])
    ensures HeaderLength(Header(name, AllHeld(ps), separated, v)) == |name| + |ListingsOctets(ps)|
  {
    hide ListingIsWellFormed, ListingsOctets, ParameterListSpans;
    AllHeldOctets(ps);
  }

  /**
   A line spelled by the grammar, terminated or not, is accepted exactly when it has a name and
   its header, its parameters and its value are within the bounds, and is read as what was spelled.
   */
  lemma {:induction false} SpelledLineIsOne(name: Bytes, ps: seq<Listing>, v: Bytes, nl: Bytes, limits: Limits)
    requires forall i | 0 <= i < |name| :: name[i] != 58 && name[i] != 59
    requires forall i | 0 <= i < |ps| :: ListingIsWellFormed(ps[i])
    requires IsUnbroken(name + ListingsOctets(ps) + [58] + v) && (nl == [] || IsNewline(nl))
    ensures var bytes := name + ListingsOctets(ps) + [58] + v + nl;
      && (IsOneLine(bytes, limits) <==>
          && name != [] && |ps| <= limits.grammar.maxParameters && |v| <= limits.maxValueBytes
          && |name| + |ListingsOctets(ps)| <= limits.grammar.maxHeaderBytes)
      && LineOf(bytes).name == name && LineOf(bytes).parameters == AllHeld(ps) && LineOf(bytes).value == v
      && (if nl == [] then LineOf(bytes).ending.None? else LineOf(bytes).ending.Some? && LineOf(bytes).ending.value.Octets() == nl)
  {
    hide ReadLogical, Split, HeaderLength, ListingsOctets, ListingIsWellFormed, IsUnbroken, LineEnding.Octets;
    var content := name + ListingsOctets(ps) + [58] + v;
    UnfoldedLine(content, nl);
    SpelledLineSplits(name, ps, v);
    HeldLength(name, ps, true, v);
    assert |content + nl| > 0;
  }

  /** Without a separator there is no line to put in place of another. */
  lemma {:induction false} UnseparatedIsRefused(name: Bytes, ps: seq<Listing>, nl: Bytes, limits: Limits)
    requires forall i | 0 <= i < |name| :: name[i] != 58 && name[i] != 59
    requires forall i | 0 <= i < |ps| :: ListingIsWellFormed(ps[i])
    requires IsUnbroken(name + ListingsOctets(ps)) && (nl == [] || IsNewline(nl))
    ensures !IsOneLine(name + ListingsOctets(ps) + nl, limits)
  {
    hide ReadLogical, Split, HeaderLength, ListingsOctets, ListingIsWellFormed, IsUnbroken, LineEnding.Octets;
    UnfoldedLine(name + ListingsOctets(ps), nl);
    UnseparatedLineSplits(name, ps);
  }

  /** Nor are two lines one, whatever they are. */
  lemma {:induction false} TwoLinesAreRefused(first: Bytes, nl: Bytes, more: Bytes, limits: Limits)
    requires IsUnbroken(first) && IsNewline(nl)
    requires more != [] && more[0] != 32 && more[0] != 9 && (nl == [13] ==> more[0] != 10)
    ensures !IsOneLine(first + (nl + more), limits)
  {
    hide ReadLogical, Split, HeaderLength, LineEnding.Octets;
    UnfoldsAt(first, nl, more);
  }

  /** What the two named policies let in: a header of 4 KiB or 64, 64 parameters or 1024, a value of 1 MiB or 64. */
  lemma {:induction false} NamedPoliciesAccept(name: Bytes, ps: seq<Listing>, v: Bytes, nl: Bytes)
    requires name != [] && forall i | 0 <= i < |name| :: name[i] != 58 && name[i] != 59
    requires forall i | 0 <= i < |ps| :: ListingIsWellFormed(ps[i])
    requires IsUnbroken(name + ListingsOctets(ps) + [58] + v) && (nl == [] || IsNewline(nl))
    ensures IsOneLine(name + ListingsOctets(ps) + [58] + v + nl, DEFAULT) <==>
      |name| + |ListingsOctets(ps)| <= 4096 && |ps| <= 64 && |v| <= 1024 * 1024
    ensures IsOneLine(name + ListingsOctets(ps) + [58] + v + nl, GENEROUS) <==>
      |name| + |ListingsOctets(ps)| <= 65_536 && |ps| <= 1024 && |v| <= 64 * 1024 * 1024
  {
    hide IsOneLine, LineOf, ListingsOctets, ListingIsWellFormed, IsUnbroken, LineEnding.Octets;
    SpelledLineIsOne(name, ps, v, nl, DEFAULT);
    SpelledLineIsOne(name, ps, v, nl, GENEROUS);
  }

  /** The bounds such a line crosses, which are the ones a refusal of it may name. */
  lemma {:induction false} SpelledLineCrosses(name: Bytes, ps: seq<Listing>, v: Bytes, nl: Bytes, e: ParseError, limits: Limits)
    requires forall i | 0 <= i < |name| :: name[i] != 58 && name[i] != 59
    requires forall i | 0 <= i < |ps| :: ListingIsWellFormed(ps[i])
    requires IsUnbroken(name + ListingsOctets(ps) + [58] + v) && (nl == [] || IsNewline(nl))
    ensures Crosses(ReadLogical(name + ListingsOctets(ps) + [58] + v + nl, 0), e, limits.grammar, limits.maxValueBytes)
      <==>
      || (e == HeaderTooLarge(limits.grammar.maxHeaderBytes) && |name| + |ListingsOctets(ps)| > limits.grammar.maxHeaderBytes)
      || (e == TooManyParameters(limits.grammar.maxParameters) && |ps| > limits.grammar.maxParameters)
      || (e == ValueTooLarge(limits.maxValueBytes) && |v| > limits.maxValueBytes)
  {
    hide ReadLogical, Split, HeaderLength, ListingsOctets, ListingIsWellFormed, IsUnbroken, LineEnding.Octets;
    UnfoldedLine(name + ListingsOctets(ps) + [58] + v, nl);
    SpelledLineSplits(name, ps, v);
    HeldLength(name, ps, true, v);
  }
}
