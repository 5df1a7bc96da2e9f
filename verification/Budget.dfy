/** The caller's bounds, and the ledger a parse keeps under them. */
module Budget {
  import opened Octets

  type u16 = x: int | 0 <= x <= U16_MAX
  type u32 = x: int | 0 <= x <= U32_MAX
  type u64 = x: int | 0 <= x <= U64_MAX

  datatype GrammarLimits = GrammarLimits(maxHeaderBytes: u32, maxParameters: u32, maxFoldsPerLine: u32)

  datatype Limits = Limits(
    grammar: GrammarLimits,
    maxInputBytes: u64,
    maxValueBytes: u32,
    maxComponentDepth: u16,
    maxItems: u32)

  // The two policies a caller can name.

  const DEFAULT: Limits := Limits(GrammarLimits(4096, 64, 16_384), 16_777_216, 1_048_576, 32, 100_000)
  const GENEROUS: Limits := Limits(GrammarLimits(65_536, 1024, 1_048_576), 536_870_912, 67_108_864, 64, 5_000_000)

  datatype ParseError =
    | TooManyFolds(limit: nat)
    | HeaderTooLarge(limit: nat)
    | TooManyParameters(limit: nat)
    | ValueTooLarge(limit: nat)
    | InputTooLarge(limit: nat)
    | TooManyItems(limit: nat)
    | TooDeep(limit: nat)

  /** A counter that stops at the most its width can say. */
  function Held(n: nat, most: nat): nat {
    if n > most then most else n
  }

  /** What a parse has used of its bounds so far. */
  class Meter {
    const limits: Limits

    var spent: nat
    var items: nat
    var depth: nat
    var exhausted: bool

    constructor (limits: Limits)
      ensures this.limits == limits
      ensures spent == items == depth == 0 && !exhausted
    {
      this.limits := limits;
      spent, items, depth, exhausted := 0, 0, 0, false;
    }

    /** Octets; once refused, refused for good. */
    method ChargeBytes(count: nat) returns (r: Result<(), ParseError>)
      modifies `spent, `exhausted
      ensures r.Ok? <==> !old(exhausted) && Held(old(spent) + count, U64_MAX) <= limits.maxInputBytes
      ensures exhausted <==> r.Err?
      ensures spent == if old(exhausted) then old(spent) else Held(old(spent) + count, U64_MAX)
      ensures r.Err? ==> r.error == InputTooLarge(limits.maxInputBytes)
    {
      if exhausted { return Err(InputTooLarge(limits.maxInputBytes)); }
      spent := if spent + count > U64_MAX then U64_MAX else spent + count;
      if spent > limits.maxInputBytes {
        exhausted := true;
        return Err(InputTooLarge(limits.maxInputBytes));
      }
      return Ok(());
    }

    /** An entry more, of either kind. */
    method ChargeItem() returns (r: Result<(), ParseError>)
      modifies `items
      ensures r.Ok? <==> Held(old(items) + 1, U32_MAX) <= limits.maxItems
      ensures items == if r.Ok? then Held(old(items) + 1, U32_MAX) else old(items)
      ensures r.Err? ==> r.error == TooManyItems(limits.maxItems)
    {
      var next := if items + 1 > U32_MAX then U32_MAX else items + 1;
      if next > limits.maxItems { return Err(TooManyItems(limits.maxItems)); }
      items := next;
      return Ok(());
    }

    /** One component more is open. */
    method Enter() returns (r: Result<(), ParseError>)
      modifies `depth
      ensures r.Ok? <==> Held(old(depth) + 1, U16_MAX) <= limits.maxComponentDepth
      ensures depth == if r.Ok? then Held(old(depth) + 1, U16_MAX) else old(depth)
      ensures r.Err? ==> r.error == TooDeep(limits.maxComponentDepth)
    {
      var next := if depth + 1 > U16_MAX then U16_MAX else depth + 1;
      if next > limits.maxComponentDepth { return Err(TooDeep(limits.maxComponentDepth)); }
      depth := next;
      return Ok(());
    }

    /** One fewer is. */
    method Leave()
      modifies `depth
      ensures depth == if old(depth) > 0 then old(depth) - 1 else 0
    {
      depth := if depth > 0 then depth - 1 else 0;
    }
  }
}
