/**
 Canonical refolding of a line the crate authored: where it is cut, and why the cuts lose
 nothing, stay inside section 3.1's width, never split a codepoint and read back as the line.
 */
module Refold {
  import opened Octets
  import opened Syntax
  import opened Grammar
  import opened RecordedFolds

  const REFOLD_WIDTH: nat := 74
  const MAX_CONTINUATION_OCTETS: nat := 3

  predicate IsContinuationOctet(o: octet) {
    0x80 <= o <= 0xBF
  }

  /** Whether cutting in front of index i separates no octet from the codepoint it continues. */
  predicate IsBoundary(bytes: Bytes, i: nat) {
    i >= |bytes| || !IsContinuationOctet(bytes[i])
  }

  /** What a cut has to be: the last boundary within a codepoint's reach of the allowance. */
  ghost predicate IsLastBoundary(bytes: Bytes, room: nat, r: Option<nat>) {
    match r
    case Some(c) =>
      && 0 < c <= room <= c + MAX_CONTINUATION_OCTETS
      && IsBoundary(bytes, c)
      && forall i | c < i <= room :: !IsBoundary(bytes, i)
    case None =>
      forall i | 0 < i <= room <= i + MAX_CONTINUATION_OCTETS :: !IsBoundary(bytes, i)
  }

  function FoldAt(bytes: Bytes, room: nat): Option<nat> {
    BackOff(bytes, room, if room < MAX_CONTINUATION_OCTETS then 0 else room - MAX_CONTINUATION_OCTETS)
  }

  function BackOff(bytes: Bytes, cut: nat, floor: nat): Option<nat>
    requires floor <= cut
  {
    if cut == 0 then None
    else if IsBoundary(bytes, cut) then Some(cut)
    else if cut == floor then None
    else BackOff(bytes, cut - 1, floor)
  }

  lemma {:induction false} BackOffFinds(bytes: Bytes, room: nat, cut: nat, floor: nat)
    requires floor <= cut <= room && floor == if room < MAX_CONTINUATION_OCTETS then 0 else room - MAX_CONTINUATION_OCTETS
    requires forall i | cut < i <= room :: !IsBoundary(bytes, i)
    ensures IsLastBoundary(bytes, room, BackOff(bytes, cut, floor))
    decreases cut
  {
    if cut != 0 && !IsBoundary(bytes, cut) && cut != floor {
      BackOffFinds(bytes, room, cut - 1, floor);
    }
  }

  /** FoldAt answers the last boundary the allowance offers, or that it offers none. */
  lemma {:induction false} FoldAtFinds(bytes: Bytes, room: nat)
    ensures IsLastBoundary(bytes, room, FoldAt(bytes, room))
  {
    BackOffFinds(bytes, room, room, if room < MAX_CONTINUATION_OCTETS then 0 else room - MAX_CONTINUATION_OCTETS);
  }

  // -------------------------------------------------------------------------
  // The physical lines a span is laid out on
  // -------------------------------------------------------------------------

  function Last(chunks: seq<Bytes>): Bytes
    requires chunks != []
  {
    chunks[|chunks| - 1]
  }

  function Extend(chunks: seq<Bytes>, more: Bytes): (r: seq<Bytes>)
    requires chunks != []
    ensures |r| == |chunks| && Last(r) == Last(chunks) + more
  {
    chunks[..|chunks| - 1] + [Last(chunks) + more]
  }

  predicate Fits(chunks: seq<Bytes>) {
    chunks != [] && |Last(chunks)| <= REFOLD_WIDTH
  }

  /** How much of `rest`, which does not fit, goes on the current physical line. */
  function CutOf(chunks: seq<Bytes>, rest: Bytes): (cut: nat)
    requires Fits(chunks) && |rest| > REFOLD_WIDTH - |Last(chunks)|
    ensures cut <= REFOLD_WIDTH - |Last(chunks)| < |rest|
    ensures cut == 0 ==> Last(chunks) != []
  {
    var room := REFOLD_WIDTH - |Last(chunks)|;
    FoldAtFinds(rest, room);
    match FoldAt(rest, room)
    case Some(boundary) => boundary
    case None => if |Last(chunks)| > 0 then 0 else room
  }

  /** The physical lines after a span, `chunks` being the ones before it. */
  function RefoldRest(chunks: seq<Bytes>, rest: Bytes): (r: seq<Bytes>)
    requires Fits(chunks)
    ensures Fits(r)
    decreases |rest|, |Last(chunks)|
  {
    if |rest| <= REFOLD_WIDTH - |Last(chunks)| then Extend(chunks, rest)
    else
      var cut := CutOf(chunks, rest);
      RefoldRest(Extend(chunks, rest[..cut]) + [[]], rest[cut..])
  }

  /** Leading whitespace would read as a continuation, so such a line starts by folding. */
  function OpenFold(chunks: seq<Bytes>, bytes: Bytes): seq<Bytes> {
    if Concat(chunks) == [] && bytes != [] && IsFoldWhitespace(bytes[0]) then chunks + [[]] else chunks
  }

  function RefoldSpan(chunks: seq<Bytes>, bytes: Bytes): (r: seq<Bytes>)
    requires Fits(chunks)
    ensures Fits(r)
  {
    RefoldRest(OpenFold(chunks, bytes), bytes)
  }

  function RefoldSpans(chunks: seq<Bytes>, spans: seq<Bytes>): (r: seq<Bytes>)
    requires Fits(chunks)
    ensures Fits(r)
    decreases |spans|
  {
    if spans == [] then chunks else RefoldSpans(RefoldSpan(chunks, spans[0]), spans[1..])
  }

  /** The physical lines of a whole refolded line. */
  function Refolded(spans: seq<Bytes>): (r: seq<Bytes>)
    ensures Fits(r)
  {
    RefoldSpans([[]], spans)
  }

  function Continuations(chunks: seq<Bytes>): Bytes {
    if chunks == [] then [] else [13, 10, 32] + chunks[0] + Continuations(chunks[1..])
  }

  /** The octets of those physical lines. */
  function Joined(chunks: seq<Bytes>): Bytes
    requires chunks != []
  {
    chunks[0] + Continuations(chunks[1..])
  }

  lemma {:induction false} ContinuationsAppend(a: seq<Bytes>, b: seq<Bytes>)
    ensures Continuations(a + b) == Continuations(a) + Continuations(b)
  {
    hide Continuations;
    if a == [] {
      assert a + b == b;
      NoContinuations();
    } else {
      ContinuationsAppend(a[1..], b);
      assert (a + b)[1..] == a[1..] + b && (a + b)[0] == a[0];
      ContinuationsFront(a);
      ContinuationsFront(a + b);
      var front := [13, 10, 32] + a[0];
      assert front + (Continuations(a[1..]) + Continuations(b)) == (front + Continuations(a[1..])) + Continuations(b);
    }
  }

  lemma {:induction false} ContinuationsFront(chunks: seq<Bytes>)
    requires chunks != []
    ensures Continuations(chunks) == ([13, 10, 32] + chunks[0]) + Continuations(chunks[1..])
  {
  }

  lemma {:induction false} NoContinuations()
    ensures Continuations([]) == []
  {
  }

  /** What extending and breaking do to the octets and to the content. */
  lemma {:induction false} JoinedExtend(chunks: seq<Bytes>, more: Bytes)
    requires chunks != []
    ensures Joined(Extend(chunks, more)) == Joined(chunks) + more
    ensures Concat(Extend(chunks, more)) == Concat(chunks) + more
  {
    var front, last := chunks[..|chunks| - 1], Last(chunks);
    assert chunks == front + [last];
    ConcatExtend(front, last, more);
    if front == [] {
      assert Extend(chunks, more)[1..] == [] == chunks[1..];
    } else {
      assert chunks[1..] == front[1..] + [last];
      assert Extend(chunks, more)[1..] == front[1..] + [last + more];
      ContinuationsAppend(front[1..], [last]);
      ContinuationsAppend(front[1..], [last + more]);
      assert [last][1..] == [] && [last + more][1..] == [];
      assert Continuations([last + more]) == Continuations([last]) + more;
    }
  }

  lemma {:induction false} JoinedBreak(chunks: seq<Bytes>)
    requires chunks != []
    ensures Joined(chunks + [[]]) == Joined(chunks) + [13, 10, 32]
    ensures Concat(chunks + [[]]) == Concat(chunks)
  {
    assert (chunks + [[]])[1..] == chunks[1..] + [[]];
    ContinuationsAppend(chunks[1..], [[]]);
    var one: seq<Bytes> := [[]];
    assert one[1..] == [];
    assert Continuations(one) == [13, 10, 32];
    ConcatSnoc(chunks, []);
  }

  // -------------------------------------------------------------------------
  // Nothing is lost, and every physical line is short and filled
  // -------------------------------------------------------------------------

  lemma {:induction false} RefoldRestConcat(chunks: seq<Bytes>, rest: Bytes)
    requires Fits(chunks)
    ensures Concat(RefoldRest(chunks, rest)) == Concat(chunks) + rest
    decreases |rest|, |Last(chunks)|
  {
    hide CutOf;
    if |rest| <= REFOLD_WIDTH - |Last(chunks)| {
      JoinedExtend(chunks, rest);
    } else {
      var cut := CutOf(chunks, rest);
      JoinedExtend(chunks, rest[..cut]);
      JoinedBreak(Extend(chunks, rest[..cut]));
      RefoldRestConcat(Extend(chunks, rest[..cut]) + [[]], rest[cut..]);
      assert rest == rest[..cut] + rest[cut..];
    }
  }

  lemma {:induction false} RefoldSpansConcat(chunks: seq<Bytes>, spans: seq<Bytes>)
    requires Fits(chunks)
    ensures Concat(RefoldSpans(chunks, spans)) == Concat(chunks) + Concat(spans)
    decreases |spans|
  {
    hide RefoldRest;
    if spans != [] {
      RefoldRestConcat(OpenFold(chunks, spans[0]), spans[0]);
      JoinedBreak(chunks);
      RefoldSpansConcat(RefoldSpan(chunks, spans[0]), spans[1..]);
    }
  }

  /**
   The shape of a layout in progress: nothing too wide, every physical line but the first and the
   last holds octets, and the first is empty only when whitespace was folded off it.
   */
  predicate Shaped(chunks: seq<Bytes>) {
    && chunks != []
    && (forall i | 0 <= i < |chunks| :: |chunks[i]| <= REFOLD_WIDTH)
    && (forall i | 1 <= i < |chunks| - 1 :: chunks[i] != [])
    && (chunks[0] != [] ==> !IsFoldWhitespace(chunks[0][0]))
  }

  /** Complete: no continuation is left empty. */
  predicate Complete(chunks: seq<Bytes>) {
    Shaped(chunks) && (|chunks| > 1 ==> Last(chunks) != [])
  }

  /** An octet may open the first physical line only if it is not whitespace. */
  predicate MayFollow(chunks: seq<Bytes>, rest: Bytes)
    requires chunks != []
  {
    |chunks| == 1 && chunks[0] == [] && rest != [] ==> !IsFoldWhitespace(rest[0])
  }

  lemma {:induction false} ExtendShaped(chunks: seq<Bytes>, more: Bytes)
    requires Shaped(chunks) && MayFollow(chunks, more) && |Last(chunks)| + |more| <= REFOLD_WIDTH
    ensures Shaped(Extend(chunks, more))
  {
    var r := Extend(chunks, more);
    assert forall i | 0 <= i < |r| - 1 :: r[i] == chunks[i];
  }

  lemma {:induction false} BreakShaped(chunks: seq<Bytes>, rest: Bytes, cut: nat)
    requires Shaped(chunks) && MayFollow(chunks, rest)
    requires cut < |rest| && |Last(chunks)| + cut <= REFOLD_WIDTH && (cut == 0 ==> Last(chunks) != [])
    ensures Shaped(Extend(chunks, rest[..cut]) + [[]])
    ensures MayFollow(Extend(chunks, rest[..cut]) + [[]], rest[cut..])
  {
    ExtendShaped(chunks, rest[..cut]);
  }

  lemma {:induction false} RefoldRestShaped(chunks: seq<Bytes>, rest: Bytes)
    requires Shaped(chunks) && MayFollow(chunks, rest)
    requires rest == [] ==> Complete(chunks)
    ensures Complete(RefoldRest(chunks, rest))
    ensures |RefoldRest(chunks, rest)| == 1 ==> RefoldRest(chunks, rest)[0] == chunks[0] + rest
    decreases |rest|, |Last(chunks)|
  {
    hide CutOf;
    if |rest| <= REFOLD_WIDTH - |Last(chunks)| {
      ExtendShaped(chunks, rest);
    } else {
      var cut := CutOf(chunks, rest);
      BreakShaped(chunks, rest, cut);
      RefoldRestGrows(Extend(chunks, rest[..cut]) + [[]], rest[cut..]);
      RefoldRestShaped(Extend(chunks, rest[..cut]) + [[]], rest[cut..]);
    }
  }

  lemma {:induction false} RefoldRestGrows(chunks: seq<Bytes>, rest: Bytes)
    requires Fits(chunks)
    ensures |RefoldRest(chunks, rest)| >= |chunks|
    ensures chunks[..|chunks| - 1] <= RefoldRest(chunks, rest)
    decreases |rest|, |Last(chunks)|
  {
    hide CutOf;
    if |rest| > REFOLD_WIDTH - |Last(chunks)| {
      var cut := CutOf(chunks, rest);
      var next := Extend(chunks, rest[..cut]) + [[]];
      RefoldRestGrows(next, rest[cut..]);
      assert chunks[..|chunks| - 1] == next[..|next| - 1][..|chunks| - 1];
    }
  }

  lemma {:induction false} LastInside(chunks: seq<Bytes>)
    requires chunks != []
    ensures |Concat(chunks)| >= |Last(chunks)|
  {
    assert chunks == chunks[..|chunks| - 1] + [Last(chunks)];
    ConcatSnoc(chunks[..|chunks| - 1], Last(chunks));
  }

  /** A complete layout that holds no octet yet is a single empty physical line. */
  lemma {:induction false} ConcatEmptyFirst(chunks: seq<Bytes>)
    requires Complete(chunks) && Concat(chunks) == []
    ensures chunks == [[]]
  {
    LastInside(chunks);
  }

  lemma {:induction false} RefoldSpansShaped(chunks: seq<Bytes>, spans: seq<Bytes>)
    requires Complete(chunks)
    ensures Complete(RefoldSpans(chunks, spans))
    decreases |spans|
  {
    hide RefoldRest;
    if spans != [] {
      var begun := OpenFold(chunks, spans[0]);
      if begun != chunks { ConcatEmptyFirst(chunks); }
      if chunks == [[]] { assert Concat(chunks) == [] by { assert chunks[1..] == []; } }
      if |chunks| == 1 && chunks[0] == [] { assert chunks == [[]]; }
      RefoldRestShaped(begun, spans[0]);
      RefoldSpansShaped(RefoldSpan(chunks, spans[0]), spans[1..]);
    }
  }

  /**
   A refolded line holds exactly the octets it was given; no physical line is wider than the
   allowance, none of its continuations is empty, and it never opens with bare whitespace.
   */
  lemma {:induction false} RefoldedShape(spans: seq<Bytes>)
    ensures Concat(Refolded(spans)) == Concat(spans)
    ensures Complete(Refolded(spans))
  {
    RefoldSpansConcat([[]], spans);
    assert Concat([[]]) == [] by { var one: seq<Bytes> := [[]]; assert one[1..] == []; }
    RefoldSpansShaped([[]], spans);
  }

  // -------------------------------------------------------------------------
  // No codepoint is split
  // -------------------------------------------------------------------------

  /** What every run of UTF-8 octets satisfies when it starts on a codepoint: 80 to BF only continue one. */
  predicate StartsOnCodepoint(s: Bytes) {
    && (s != [] ==> s[0] < 0x80 || s[0] > 0xBF)
    && forall i | 0 <= i < |s| - 3 :: !FourContinuations(s, i)
  }

  /** Every continuation starts on a codepoint, and every broken line is full to within one. */
  predicate Unsplit(chunks: seq<Bytes>) {
    && (forall i | 1 <= i < |chunks| :: chunks[i] != [] ==> chunks[i][0] < 0x80 || chunks[i][0] > 0xBF)
    && (forall i | 0 <= i < |chunks| - 1 :: chunks[i] != [] ==> |chunks[i]| >= 71)
  }

  predicate FourContinuations(s: Bytes, i: nat)
    requires i + 3 < |s|
  {
    && 0x80 <= s[i] <= 0xBF && 0x80 <= s[i + 1] <= 0xBF
    && 0x80 <= s[i + 2] <= 0xBF && 0x80 <= s[i + 3] <= 0xBF
  }

  lemma {:induction false} CutStartsOnCodepoint(rest: Bytes, cut: nat)
    requires StartsOnCodepoint(rest) && cut <= |rest| && IsBoundary(rest, cut)
    ensures StartsOnCodepoint(rest[cut..])
  {
    var s := rest[cut..];
    forall i | 0 <= i < |s| - 3 ensures !FourContinuations(s, i) {
      assert !FourContinuations(rest, cut + i);
    }
  }

  /** Among valid octets one of any four neighbours is a boundary, so an allowance that wide offers one. */
  lemma {:induction false} WideRoomOffersBoundary(rest: Bytes, room: nat)
    requires StartsOnCodepoint(rest) && MAX_CONTINUATION_OCTETS < room < |rest|
    ensures FoldAt(rest, room).Some?
  {
    hide FoldAt;
    FoldAtFinds(rest, room);
    assert !FourContinuations(rest, room - 3);
    var back := if IsBoundary(rest, room) then 0 else if IsBoundary(rest, room - 1) then 1 else if IsBoundary(rest, room - 2) then 2 else 3;
    assert IsBoundary(rest, room - back);
  }

  /** On such octets a cut is always at a boundary: the arm that splits is never taken. */
  lemma {:induction false} CutOnBoundary(chunks: seq<Bytes>, rest: Bytes)
    requires Fits(chunks) && |rest| > REFOLD_WIDTH - |Last(chunks)| && StartsOnCodepoint(rest)
    ensures IsBoundary(rest, CutOf(chunks, rest))
    ensures |Last(chunks)| + CutOf(chunks, rest) >= REFOLD_WIDTH - MAX_CONTINUATION_OCTETS
    ensures StartsOnCodepoint(rest[CutOf(chunks, rest)..])
  {
    hide FoldAt, StartsOnCodepoint;
    var room := REFOLD_WIDTH - |Last(chunks)|;
    FoldAtFinds(rest, room);
    if room > MAX_CONTINUATION_OCTETS { WideRoomOffersBoundary(rest, room); }
    FirstOctet(rest);
    CutStartsOnCodepoint(rest, CutOf(chunks, rest));
  }

  lemma {:induction false} ExtendUnsplit(chunks: seq<Bytes>, more: Bytes)
    requires chunks != [] && Unsplit(chunks)
    requires Last(chunks) == [] && more != [] ==> !IsContinuationOctet(more[0])
    ensures Unsplit(Extend(chunks, more))
  {
    var r := Extend(chunks, more);
    assert forall i | 0 <= i < |r| - 1 :: r[i] == chunks[i];
  }

  lemma {:induction false} RefoldRestUnsplit(chunks: seq<Bytes>, rest: Bytes)
    requires Fits(chunks) && Unsplit(chunks) && StartsOnCodepoint(rest)
    ensures Unsplit(RefoldRest(chunks, rest))
    decreases |rest|, |Last(chunks)|
  {
    hide CutOf, StartsOnCodepoint;
    assert rest != [] ==> !IsContinuationOctet(rest[0]) by { FirstOctet(rest); }
    if |rest| <= REFOLD_WIDTH - |Last(chunks)| {
      ExtendUnsplit(chunks, rest);
    } else {
      var cut := CutOf(chunks, rest);
      CutOnBoundary(chunks, rest);
      ExtendUnsplit(chunks, rest[..cut]);
      RefoldRestUnsplit(Extend(chunks, rest[..cut]) + [[]], rest[cut..]);
    }
  }

  lemma {:induction false} FirstOctet(s: Bytes)
    requires StartsOnCodepoint(s)
    ensures s != [] ==> !IsContinuationOctet(s[0])
  {
  }

  lemma {:induction false} RefoldSpansUnsplit(chunks: seq<Bytes>, spans: seq<Bytes>)
    requires Complete(chunks) && Unsplit(chunks)
    requires forall i | 0 <= i < |spans| :: StartsOnCodepoint(spans[i])
    ensures Unsplit(RefoldSpans(chunks, spans))
    decreases |spans|
  {
    hide RefoldRest, StartsOnCodepoint;
    if spans != [] {
      var begun := OpenFold(chunks, spans[0]);
      if begun != chunks { ConcatEmptyFirst(chunks); }
      RefoldRestUnsplit(begun, spans[0]);
      assert spans == [spans[0]] + spans[1..];
      RefoldSpansShaped(chunks, [spans[0]]);
      assert [spans[0]][1..] == [];
      assert RefoldSpans(chunks, [spans[0]]) == RefoldSpan(chunks, spans[0]);
      RefoldSpansUnsplit(RefoldSpan(chunks, spans[0]), spans[1..]);
    }
  }

  /** When every span is UTF-8 starting on a codepoint, no fold splits one. */
  lemma {:induction false} RefoldedUnsplit(spans: seq<Bytes>)
    requires forall i | 0 <= i < |spans| :: StartsOnCodepoint(spans[i])
    ensures Unsplit(Refolded(spans))
  {
    RefoldSpansUnsplit([[]], spans);
  }

  // -------------------------------------------------------------------------
  // The width of the physical lines, measured on the octets
  // -------------------------------------------------------------------------

  /** The widest run between terminators, `width` octets of the first having gone before. */
  function Widest(s: Bytes, width: nat): nat {
    if s == [] then width
    else if s[0] == 13 || s[0] == 10 then
      var w := Widest(s[1..], 0);
      if width < w then w else width
    else Widest(s[1..], width + 1)
  }

  lemma {:induction false} WidestRun(run: Bytes, s: Bytes, width: nat)
    requires LineFree(run)
    ensures Widest(run + s, width) == Widest(s, width + |run|)
  {
    if run == [] {
      assert run + s == s;
    } else {
      assert (run + s)[1..] == run[1..] + s;
      WidestRun(run[1..], s, width + 1);
    }
  }

  lemma {:induction false} WidestBreak(s: Bytes, width: nat)
    ensures Widest([13, 10, 32] + s, width) <= if width < Widest(s, 1) then Widest(s, 1) else width
  {
    var t, u, v := [13, 10, 32] + s, [LF, SP] + s, [SP] + s;
    assert t[1..] == u && u[1..] == v && v[1..] == s;
    assert Widest(v, 0) == Widest(s, 1);
    assert Widest(u, 0) == Widest(v, 0);
    assert t[0] == CR;
  }

  lemma {:induction false} WidestContinuations(chunks: seq<Bytes>, ending: Option<LineEnding>, width: nat)
    requires width <= REFOLD_WIDTH + 1
    requires forall i | 0 <= i < |chunks| :: |chunks[i]| <= REFOLD_WIDTH && LineFree(chunks[i])
    ensures Widest(Continuations(chunks) + EndingOctets(ending), width) <= REFOLD_WIDTH + 1
    decreases |chunks|
  {
    hide Widest, LineFree, EndingOctets;
    if chunks == [] {
      assert Continuations(chunks) + EndingOctets(ending) == EndingOctets(ending);
      WidestEnding(ending, width);
    } else {
      var rest := Continuations(chunks[1..]) + EndingOctets(ending);
      assert Continuations(chunks) + EndingOctets(ending) == [13, 10, 32] + (chunks[0] + rest);
      WidestBreak(chunks[0] + rest, width);
      WidestRun(chunks[0], rest, 1);
      WidestContinuations(chunks[1..], ending, 1 + |chunks[0]|);
    }
  }

  lemma {:induction false} LineFreeConcat(runs: seq<Bytes>)
    requires LineFree(Concat(runs))
    ensures forall i | 0 <= i < |runs| :: LineFree(runs[i])
  {
    if runs != [] {
      var rest := Concat(runs[1..]);
      assert forall i | 0 <= i < |runs[0]| :: runs[0][i] == Concat(runs)[i];
      assert forall i | 0 <= i < |rest| :: rest[i] == Concat(runs)[|runs[0]| + i];
      LineFreeConcat(runs[1..]);
      forall i | 0 <= i < |runs| ensures LineFree(runs[i]) {
        if i > 0 { assert runs[i] == runs[1..][i - 1]; }
      }
    }
  }

  /** Section 3.1's bound, on the octets written: no physical line over 75. */
  lemma {:induction false} RefoldedWidth(spans: seq<Bytes>, ending: Option<LineEnding>)
    requires LineFree(Concat(spans))
    ensures Widest(Joined(Refolded(spans)) + EndingOctets(ending), 0) <= 75
  {
    hide Refolded, Widest;
    var chunks, tail := Refolded(spans), EndingOctets(ending);
    RefoldedShape(spans);
    LineFreeConcat(chunks);
    var rest := Continuations(chunks[1..]) + tail;
    assert Joined(chunks) + tail == chunks[0] + rest;
    WidestRun(chunks[0], rest, 0);
    WidestContinuations(chunks[1..], ending, |chunks[0]|);
  }

  lemma {:induction false} WidestEnding(ending: Option<LineEnding>, w: nat)
    ensures Widest(EndingOctets(ending), w) == w
  {
    if ending.Some? {
      var e := ending.value.Octets();
      assert Widest([], 0) == 0;
      if |e| == 2 {
        assert e[1..] == [LF];
        assert e[1..][1..] == [];
      } else {
        assert e[1..] == [];
      }
    }
  }

  // -------------------------------------------------------------------------
  // How many folds a line is given
  // -------------------------------------------------------------------------

  const FULL: nat := REFOLD_WIDTH - MAX_CONTINUATION_OCTETS

  /** A physical line begun empty is cut no shorter than a codepoint short of the width. */
  lemma {:induction false} FreshCut(chunks: seq<Bytes>, rest: Bytes)
    requires Fits(chunks) && Last(chunks) == [] && |rest| > REFOLD_WIDTH
    ensures CutOf(chunks, rest) >= FULL
  {
    FoldAtFinds(rest, REFOLD_WIDTH);
  }

  /** What a span adds, when it begins on an empty physical line. */
  lemma {:induction false} FreshFolds(chunks: seq<Bytes>, rest: Bytes)
    requires Fits(chunks) && Last(chunks) == []
    ensures FULL * (|RefoldRest(chunks, rest)| - |chunks|) <= |rest|
    decreases |rest|
  {
    hide CutOf;
    if |rest| > REFOLD_WIDTH {
      var cut := CutOf(chunks, rest);
      FreshCut(chunks, rest);
      FreshFolds(Extend(chunks, rest[..cut]) + [[]], rest[cut..]);
    }
  }

  /** Wherever it begins, only its first cut can be short. */
  lemma {:induction false} SpanFolds(chunks: seq<Bytes>, rest: Bytes)
    requires Fits(chunks)
    ensures FULL * (|RefoldRest(chunks, rest)| - |chunks|) <= |rest| + FULL
  {
    hide CutOf;
    if |rest| > REFOLD_WIDTH - |Last(chunks)| {
      var cut := CutOf(chunks, rest);
      FreshFolds(Extend(chunks, rest[..cut]) + [[]], rest[cut..]);
    }
  }

  lemma {:induction false} OpenFoldFolds(chunks: seq<Bytes>, bytes: Bytes)
    requires Fits(chunks)
    ensures FULL * (|RefoldSpan(chunks, bytes)| - |chunks|) <= |bytes| + FULL
  {
    hide RefoldRest, Concat;
    if OpenFold(chunks, bytes) == chunks {
      SpanFolds(chunks, bytes);
    } else {
      FreshFolds(chunks + [[]], bytes);
    }
  }

  lemma {:induction false} SpansFolds(chunks: seq<Bytes>, spans: seq<Bytes>)
    requires Fits(chunks)
    ensures FULL * (|RefoldSpans(chunks, spans)| - |chunks|) <= |Concat(spans)| + FULL * |spans|
    decreases |spans|
  {
    hide RefoldSpan;
    if spans != [] {
      OpenFoldFolds(chunks, spans[0]);
      SpansFolds(RefoldSpan(chunks, spans[0]), spans[1..]);
    }
  }

  /** A refolded line has at most one fold for every 71 octets, and one more for every span. */
  lemma {:induction false} RefoldedFolds(spans: seq<Bytes>)
    ensures 71 * (|Refolded(spans)| - 1) <= |Concat(spans)| + 71 * |spans|
  {
    hide RefoldSpans, Concat;
    assert FULL == 71;
    SpansFolds([[]], spans);
  }

  // -------------------------------------------------------------------------
  // A refolded line reads back
  // -------------------------------------------------------------------------

  /** Where a reader of these physical lines sees folds. */
  function ChunkFolds(chunks: seq<Bytes>, col: nat): seq<FoldPoint> {
    if chunks == [] then [] else [FoldPoint(col, false, CrLf)] + ChunkFolds(chunks[1..], col + |chunks[0]|)
  }

  lemma {:induction false} ContinuationsReadBack(chunks: seq<Bytes>, col: nat, tail: Bytes)
    requires forall i | 0 <= i < |chunks| :: LineFree(chunks[i])
    ensures ReadLogical(Continuations(chunks) + tail, col)
      == Prepend(Concat(chunks), ChunkFolds(chunks, col), ReadLogical(tail, col + |Concat(chunks)|))
    decreases |chunks|
  {
    hide ReadLogical, Prepend;
    var m := ReadLogical(tail, col + |Concat(chunks)|);
    if chunks == [] {
      assert Continuations(chunks) + tail == tail;
      PrependNothing(m);
    } else {
      var f, rest := FoldPoint(col, false, CrLf), Continuations(chunks[1..]) + tail;
      ReadsRunAndFold([], f, chunks[0] + rest, col);
      ReadsRunOn(chunks[0], rest, col);
      ContinuationsReadBack(chunks[1..], col + |chunks[0]|, tail);
      var folds := ChunkFolds(chunks[1..], col + |chunks[0]|);
      PrependTwice(chunks[0], [], Concat(chunks[1..]), folds, m);
      PrependTwice([], [f], chunks[0] + Concat(chunks[1..]), [] + folds, m);
      assert [] + (chunks[0] + Concat(chunks[1..])) == Concat(chunks) && [f] + ([] + folds) == [f] + folds;
      OpensWithFold(chunks, f, tail);
    }
  }

  lemma {:induction false} OpensWithFold(chunks: seq<Bytes>, f: FoldPoint, tail: Bytes)
    requires chunks != [] && !f.tab && f.newline == CrLf
    ensures Continuations(chunks) + tail == [] + f.Octets() + (chunks[0] + (Continuations(chunks[1..]) + tail))
  {
    hide Continuations;
    ContinuationsFront(chunks);
    assert f.Octets() == [13, 10, 32];
  }

  lemma {:induction false} ReadsRunOn(run: Bytes, s: Bytes, col: nat)
    requires LineFree(run)
    ensures ReadLogical(run + s, col) == Prepend(run, [], ReadLogical(s, col + |run|))
  {
    hide ReadLogical;
    ReadsRun(run, s, col);
    NoFoldsInFront(ReadLogical(s, col + |run|));
  }

  /** Reading a refolded line gives back the octets it was made of, whatever they are, and goes on. */
  lemma {:induction false} RefoldedReadsBack(spans: seq<Bytes>, tail: Bytes)
    requires LineFree(Concat(spans))
    ensures var chunks := Refolded(spans);
      ReadLogical(Joined(chunks) + tail, 0)
      == Prepend(Concat(spans), ChunkFolds(chunks[1..], |chunks[0]|), ReadLogical(tail, |Concat(spans)|))
  {
    hide ReadLogical, Refolded, Prepend;
    var chunks := Refolded(spans);
    RefoldedShape(spans);
    LineFreeConcat(chunks);
    var rest := Continuations(chunks[1..]) + tail;
    assert Joined(chunks) + tail == chunks[0] + rest;
    ReadsRunOn(chunks[0], rest, 0);
    ContinuationsReadBack(chunks[1..], |chunks[0]|, tail);
    var folds := ChunkFolds(chunks[1..], |chunks[0]|);
    PrependTwice(chunks[0], [], Concat(chunks[1..]), folds, ReadLogical(tail, |Concat(spans)|));
    assert [] + folds == folds;
  }
}
