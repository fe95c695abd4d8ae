/** The chain stitcher, `postprocess_chain`: it walks the payload the chain
    synthesizer produced and, after each gadget's own stack window, inserts
    the bytes that satisfy that gadget's guard. */
module Stitch {
  import opened Base

  /** `prefix` followed by the bytes of `r`, or `r`'s failure. */
  function Prepend(prefix: seq<byte>, r: Result<seq<byte>>): Result<seq<byte>>
  {
    match r
    case Err(e) => Err(e)
    case Ok(s) => Ok(prefix + s)
  }

  lemma {:induction false} PrependTwice(a: seq<byte>, b: seq<byte>, r: Result<seq<byte>>)
    ensures Prepend(a, Prepend(b, r)) == Prepend(a + b, r)
  {
    if r.Ok? {
      assert a + (b + r.value) == (a + b) + r.value;
    }
  }

  /** Python slices within bounds are Dafny slices. */
  lemma {:induction false} PySlices<T>(s: seq<T>, n: int)
    requires 0 <= n <= |s|
    ensures PyTake(s, n) == s[..n] && PyDrop(s, n) == s[n..]
  {
  }

  lemma {:induction false} Concat4(a: seq<byte>, b: seq<byte>, c: seq<byte>, d: seq<byte>)
    ensures a + b + c + d == a + (b + c + d)
  {
  }

  /** One gadget of a synthesized chain: its address and how many bytes it
      pops off the stack (its own address slot included). */
  datatype Gadget = Gadget(addr: int, stackChange: int)

  /** A synthesized chain: its gadgets in order and its flattened payload. */
  datatype RawChain = RawChain(gadgets: seq<Gadget>, payload: seq<byte>)

  /** Every gadget pops at least its own 8-byte return slot. */
  ghost predicate WellFormed(gs: seq<Gadget>)
  {
    gs == [] || (gs[0].stackChange >= 8 && WellFormed(gs[1..]))
  }

  /** Every gadget address of `gs` has a recorded solution. */
  predicate AllKnown(gs: seq<Gadget>, sols: Solutions)
  {
    gs == [] || (gs[0].addr in sols && AllKnown(gs[1..], sols))
  }

  /** `WellFormed` and `AllKnown` say the same of every gadget. */
  lemma {:induction false} ChainFactsAt(gs: seq<Gadget>, sols: Solutions)
    ensures WellFormed(gs) <==> forall i :: 0 <= i < |gs| ==> gs[i].stackChange >= 8
    ensures AllKnown(gs, sols) <==> forall i :: 0 <= i < |gs| ==> gs[i].addr in sols
  {
    if gs != [] {
      ChainFactsAt(gs[1..], sols);
      assert forall i :: 1 <= i < |gs| ==> gs[i] == gs[1..][i - 1];
    }
  }

  /** The total stack change of the gadgets. */
  function StackTotal(gs: seq<Gadget>): int
  {
    if gs == [] then 0 else gs[0].stackChange + StackTotal(gs[1..])
  }

  function SolutionLength(sols: Solutions, addr: int): nat
  {
    if addr in sols then |sols[addr]| else 0
  }

  /** The total length of the solutions inserted for the gadgets. */
  function SolutionTotal(gs: seq<Gadget>, sols: Solutions): nat
  {
    if gs == [] then 0 else SolutionLength(sols, gs[0].addr) + SolutionTotal(gs[1..], sols)
  }

  /** The first gadget address of `gs` without a solution. */
  function FirstMissing(gs: seq<Gadget>, sols: Solutions): int
    requires !AllKnown(gs, sols)
  {
    if gs[0].addr !in sols then gs[0].addr
    else FirstMissing(gs[1..], sols)
  }

  /** What the loop of `postprocess_chain` appends for the gadgets `gs`,
      given the rest of the payload after the first 8 bytes. */
  function StitchGadgets(payload: seq<byte>, gs: seq<Gadget>, sols: Solutions): Result<seq<byte>>
    decreases |gs|
  {
    if gs == [] then
      if |payload| == 0 then Ok([]) else Err(PayloadLeftover)
    else
      var g := gs[0];
      var window := PyTake(payload, g.stackChange - 8);
      var rest := PyDrop(payload, g.stackChange - 8);
      if g.addr !in sols then Err(MissingSolution(g.addr))
      else Prepend(window + sols[g.addr] + PyTake(rest, 8), StitchGadgets(PyDrop(rest, 8), gs[1..], sols))
  }

  /** The stitched payload `postprocess_chain` returns for `chain`. */
  function Stitched(chain: RawChain, sols: Solutions): Result<seq<byte>>
  {
    Prepend(PyTake(chain.payload, 8), StitchGadgets(PyDrop(chain.payload, 8), chain.gadgets, sols))
  }

  /** `postprocess_chain` as written: a cursor over the payload and an
      accumulator that grow step by step. */
  method PostprocessChain(chain: RawChain, sols: Solutions) returns (r: Result<seq<byte>>)
    ensures r == Stitched(chain, sols)
  {
    var payload := chain.payload;
    var guarded := PyTake(payload, 8);
    payload := PyDrop(payload, 8);
    var gs := chain.gadgets;
    var i := 0;
    while i < |gs|
      invariant 0 <= i <= |gs|
      invariant Prepend(guarded, StitchGadgets(payload, gs[i..], sols)) == Stitched(chain, sols)
    {
      var g := gs[i];
      assert gs[i..][0] == g && gs[i..][1..] == gs[i + 1..];
      ghost var before, cursor := guarded, payload;
      var window := PyTake(payload, g.stackChange - 8);
      guarded := guarded + window;
      payload := PyDrop(payload, g.stackChange - 8);
      if g.addr !in sols {
        assert StitchGadgets(cursor, gs[i..], sols) == Err(MissingSolution(g.addr));
        assert Stitched(chain, sols) == Err(MissingSolution(g.addr));
        return Err(MissingSolution(g.addr));
      }
      var solution := sols[g.addr];
      guarded := guarded + solution;
      var next := PyTake(payload, 8);
      guarded := guarded + next;
      Concat4(before, window, solution, next);
      PrependTwice(before, window + solution + next, StitchGadgets(PyDrop(payload, 8), gs[i + 1..], sols));
      payload := PyDrop(payload, 8);
      i := i + 1;
    }
    assert gs[i..] == [];
    if |payload| != 0 {
      assert Stitched(chain, sols) == Err(PayloadLeftover);
      return Err(PayloadLeftover);
    }
    assert guarded + [] == guarded;
    r := Ok(guarded);
  }

  // ---------------------------------------------------------------------
  // Errors

  lemma {:induction false} StackTotalNonNegative(gs: seq<Gadget>)
    requires WellFormed(gs)
    ensures StackTotal(gs) >= 8 * |gs|
  {
    if gs != [] {
      StackTotalNonNegative(gs[1..]);
    }
  }

  lemma {:induction false} TailFacts(gs: seq<Gadget>, sols: Solutions)
    requires gs != []
    ensures WellFormed(gs) ==> WellFormed(gs[1..]) && gs[0].stackChange >= 8
    ensures AllKnown(gs, sols) ==> AllKnown(gs[1..], sols) && gs[0].addr in sols
  {
  }

  /** With every solution known, the loop fails exactly when the payload is
      longer than the gadgets' stack windows. */
  lemma {:induction false} StitchGadgetsFailsIff(payload: seq<byte>, gs: seq<Gadget>, sols: Solutions)
    requires WellFormed(gs) && AllKnown(gs, sols)
    ensures StitchGadgets(payload, gs, sols).Err? <==> |payload| > StackTotal(gs)
    ensures StitchGadgets(payload, gs, sols).Err? ==> StitchGadgets(payload, gs, sols).error == PayloadLeftover
    decreases |gs|
  {
    if gs != [] {
      TailFacts(gs, sols);
      StackTotalNonNegative(gs[1..]);
      var rest := PyDrop(payload, gs[0].stackChange - 8);
      StitchGadgetsFailsIff(PyDrop(rest, 8), gs[1..], sols);
    }
  }

  /** A missing solution is reported for the first gadget that lacks one. */
  lemma {:induction false} StitchGadgetsMissing(payload: seq<byte>, gs: seq<Gadget>, sols: Solutions)
    requires !AllKnown(gs, sols)
    ensures StitchGadgets(payload, gs, sols) == Err(MissingSolution(FirstMissing(gs, sols)))
    decreases |gs|
  {
    if gs[0].addr in sols {
      var rest := PyDrop(payload, gs[0].stackChange - 8);
      StitchGadgetsMissing(PyDrop(rest, 8), gs[1..], sols);
    }
  }

  /** `postprocess_chain` fails with KeyError on the first gadget address
      that has no solution; when all are known, its final assertion fails
      exactly when the payload is longer than 8 + the total stack change. */
  lemma {:induction false} StitchedFails(chain: RawChain, sols: Solutions)
    requires WellFormed(chain.gadgets)
    ensures !AllKnown(chain.gadgets, sols) ==>
      Stitched(chain, sols) == Err(MissingSolution(FirstMissing(chain.gadgets, sols)))
    ensures AllKnown(chain.gadgets, sols) ==>
      (Stitched(chain, sols).Err? <==> |chain.payload| > 8 + StackTotal(chain.gadgets))
    ensures AllKnown(chain.gadgets, sols) && Stitched(chain, sols).Err? ==>
      Stitched(chain, sols).error == PayloadLeftover
  {
    var tail := PyDrop(chain.payload, 8);
    if AllKnown(chain.gadgets, sols) {
      StitchGadgetsFailsIff(tail, chain.gadgets, sols);
      StackTotalNonNegative(chain.gadgets);
    } else {
      StitchGadgetsMissing(tail, chain.gadgets, sols);
    }
  }

  // ---------------------------------------------------------------------
  // Shape of a successful stitch

  /** The stitched payload starts with the raw payload's first 8 bytes, the
      address of the chain's first gadget. */
  lemma {:induction false} StitchedKeepsHead(chain: RawChain, sols: Solutions)
    requires Stitched(chain, sols).Ok?
    ensures |Stitched(chain, sols).value| >= |PyTake(chain.payload, 8)|
    ensures Stitched(chain, sols).value[..|PyTake(chain.payload, 8)|] == PyTake(chain.payload, 8)
    ensures |chain.payload| >= 8 ==> Stitched(chain, sols).value[..8] == chain.payload[..8]
  {
  }

  lemma {:induction false} StitchGadgetsLength(payload: seq<byte>, gs: seq<Gadget>, sols: Solutions)
    requires WellFormed(gs) && AllKnown(gs, sols) && |payload| == StackTotal(gs)
    ensures StitchGadgets(payload, gs, sols).Ok?
    ensures |StitchGadgets(payload, gs, sols).value| == |payload| + SolutionTotal(gs, sols)
    decreases |gs|
  {
    if gs != [] {
      TailFacts(gs, sols);
      StackTotalNonNegative(gs[1..]);
      var rest := PyDrop(payload, gs[0].stackChange - 8);
      StitchGadgetsLength(PyDrop(rest, 8), gs[1..], sols);
    }
  }

  /** A payload that fills the gadgets' stack windows exactly grows by the
      total length of the inserted solutions. */
  lemma {:induction false} StitchedLength(chain: RawChain, sols: Solutions)
    requires WellFormed(chain.gadgets) && AllKnown(chain.gadgets, sols)
    requires |chain.payload| == 8 + StackTotal(chain.gadgets)
    ensures Stitched(chain, sols).Ok?
    ensures |Stitched(chain, sols).value| == |chain.payload| + SolutionTotal(chain.gadgets, sols)
  {
    StackTotalNonNegative(chain.gadgets);
    StitchGadgetsLength(PyDrop(chain.payload, 8), chain.gadgets, sols);
  }

  /** Removes, after each gadget's `stackChange - 8` argument bytes, the span
      holding that gadget's solution: the inverse of the stitcher. */
  function UnstitchGadgets(s: seq<byte>, gs: seq<Gadget>, sols: Solutions): seq<byte>
    decreases |gs|
  {
    if gs == [] then s
    else
      var k := gs[0].stackChange - 8;
      var n := SolutionLength(sols, gs[0].addr);
      if k < 0 || |s| < k + n + 8 then s
      else s[..k] + s[k + n..k + n + 8] + UnstitchGadgets(s[k + n + 8..], gs[1..], sols)
  }

  function Unstitched(s: seq<byte>, gs: seq<Gadget>, sols: Solutions): seq<byte>
  {
    if |s| < 8 then s else s[..8] + UnstitchGadgets(s[8..], gs, sols)
  }

  /** One step of `UnstitchGadgets` on a stitched window `x sol y`. */
  lemma {:induction false} UnstitchStep(x: seq<byte>, sol: seq<byte>, y: seq<byte>, tail: seq<byte>, gs: seq<Gadget>, sols: Solutions)
    requires gs != [] && |x| == gs[0].stackChange - 8 && |y| == 8
    requires SolutionLength(sols, gs[0].addr) == |sol|
    ensures UnstitchGadgets(x + sol + y + tail, gs, sols) == x + y + UnstitchGadgets(tail, gs[1..], sols)
  {
    var s := x + sol + y + tail;
    var k, n := |x|, |sol|;
    assert s[..k] == x;
    assert s[k + n..k + n + 8] == y;
    assert s[k + n + 8..] == tail;
  }

  /** A payload is its argument bytes, its next 8 bytes and the rest. */
  lemma {:induction false} SplitWindow(p: seq<byte>, k: nat)
    requires k + 8 <= |p|
    ensures p == p[..k] + p[k..k + 8] + p[k + 8..]
  {
  }

  lemma {:induction false} UnstitchGadgetsInverse(payload: seq<byte>, gs: seq<Gadget>, sols: Solutions)
    requires WellFormed(gs) && AllKnown(gs, sols) && |payload| == StackTotal(gs)
    ensures StitchGadgets(payload, gs, sols).Ok?
    ensures UnstitchGadgets(StitchGadgets(payload, gs, sols).value, gs, sols) == payload
    decreases |gs|
  {
    if gs != [] {
      StitchGadgetsStep(payload, gs, sols);
      var g := gs[0];
      var k := g.stackChange - 8;
      var sol := sols[g.addr];
      var x, y, next := payload[..k], payload[k..g.stackChange], payload[g.stackChange..];
      UnstitchGadgetsInverse(next, gs[1..], sols);
      var tail := StitchGadgets(next, gs[1..], sols).value;
      UnstitchStep(x, sol, y, tail, gs, sols);
      SplitWindow(payload, k);
    }
  }

  /** On a payload of at least 8 bytes, the Python slices in `Stitched` are plain slices. */
  lemma {:induction false} StitchedSplit(chain: RawChain, sols: Solutions)
    requires |chain.payload| >= 8
    ensures Stitched(chain, sols) == Prepend(chain.payload[..8], StitchGadgets(chain.payload[8..], chain.gadgets, sols))
  {
    PySlices(chain.payload, 8);
  }

  /** Deleting every inserted solution span gives back the raw payload byte
      for byte. */
  lemma {:induction false} StitchRoundTrip(chain: RawChain, sols: Solutions)
    requires WellFormed(chain.gadgets) && AllKnown(chain.gadgets, sols)
    requires |chain.payload| == 8 + StackTotal(chain.gadgets)
    ensures Stitched(chain, sols).Ok?
    ensures Unstitched(Stitched(chain, sols).value, chain.gadgets, sols) == chain.payload
  {
    StackTotalNonNegative(chain.gadgets);
    StitchedSplit(chain, sols);
    var tail := chain.payload[8..];
    UnstitchGadgetsInverse(tail, chain.gadgets, sols);
    var out := chain.payload[..8] + StitchGadgets(tail, chain.gadgets, sols).value;
    assert out[..8] == chain.payload[..8];
    assert out[8..] == StitchGadgets(tail, chain.gadgets, sols).value;
    assert chain.payload == chain.payload[..8] + tail;
  }

  /** Where gadget `i`'s solution starts in the loop's output: after the full
      windows (stack change plus solution) of the gadgets before it and its
      own `stackChange - 8` argument bytes. */
  function SolutionOffset(gs: seq<Gadget>, sols: Solutions, i: nat): int
    requires i < |gs|
    decreases i
  {
    if i == 0 then gs[0].stackChange - 8
    else gs[0].stackChange + SolutionLength(sols, gs[0].addr) + SolutionOffset(gs[1..], sols, i - 1)
  }

  /** `sol` occurs in `out` starting at offset `off`. */
  ghost predicate Occurs(out: seq<byte>, off: int, sol: seq<byte>)
  {
    0 <= off && off + |sol| <= |out| && out[off..off + |sol|] == sol
  }

  lemma {:induction false} OccursShift(head: seq<byte>, tail: seq<byte>, off: int, sol: seq<byte>)
    requires Occurs(tail, off, sol)
    ensures Occurs(head + tail, |head| + off, sol)
  {
    assert (head + tail)[|head| + off..|head| + off + |sol|] == tail[off..off + |sol|];
  }

  /** One step of the loop on a payload that fills the windows exactly. */
  lemma {:induction false} StitchGadgetsStep(payload: seq<byte>, gs: seq<Gadget>, sols: Solutions)
    requires WellFormed(gs) && AllKnown(gs, sols) && |payload| == StackTotal(gs) && gs != []
    ensures 8 <= gs[0].stackChange <= |payload|
    ensures WellFormed(gs[1..]) && AllKnown(gs[1..], sols)
    ensures |payload[gs[0].stackChange..]| == StackTotal(gs[1..])
    ensures StitchGadgets(payload[gs[0].stackChange..], gs[1..], sols).Ok?
    ensures StitchGadgets(payload, gs, sols) ==
      Ok(payload[..gs[0].stackChange - 8] + sols[gs[0].addr] + payload[gs[0].stackChange - 8..gs[0].stackChange]
         + StitchGadgets(payload[gs[0].stackChange..], gs[1..], sols).value)
  {
    TailFacts(gs, sols);
    StackTotalNonNegative(gs[1..]);
    var k := gs[0].stackChange - 8;
    PySlices(payload, k);
    var rest := payload[k..];
    PySlices(rest, 8);
    assert rest[8..] == payload[k + 8..];
    assert rest[..8] == payload[k..k + 8];
    StitchGadgetsFailsIff(rest[8..], gs[1..], sols);
  }

  lemma {:induction false} OccursAfter(x: seq<byte>, sol: seq<byte>, y: seq<byte>, tail: seq<byte>)
    ensures Occurs(x + sol + y + tail, |x|, sol)
  {
    assert (x + sol + y + tail)[|x|..|x| + |sol|] == sol;
  }

  /** The first gadget's solution follows its argument window. */
  lemma {:induction false} PlacedFirst(payload: seq<byte>, gs: seq<Gadget>, sols: Solutions)
    requires WellFormed(gs) && AllKnown(gs, sols) && |payload| == StackTotal(gs) && gs != []
    ensures StitchGadgets(payload, gs, sols).Ok?
    ensures gs[0].addr in sols
    ensures Occurs(StitchGadgets(payload, gs, sols).value, gs[0].stackChange - 8, sols[gs[0].addr])
  {
    StitchGadgetsStep(payload, gs, sols);
    var sc := gs[0].stackChange;
    OccursAfter(payload[..sc - 8], sols[gs[0].addr], payload[sc - 8..sc],
                StitchGadgets(payload[sc..], gs[1..], sols).value);
  }

  /** A solution placed in the rest of the chain moves right by the first window. */
  lemma {:induction false} PlacedLater(payload: seq<byte>, gs: seq<Gadget>, sols: Solutions, off: int, sol: seq<byte>)
    requires WellFormed(gs) && AllKnown(gs, sols) && |payload| == StackTotal(gs) && gs != []
    requires 8 <= gs[0].stackChange <= |payload|
    requires StitchGadgets(payload[gs[0].stackChange..], gs[1..], sols).Ok?
    requires Occurs(StitchGadgets(payload[gs[0].stackChange..], gs[1..], sols).value, off, sol)
    ensures StitchGadgets(payload, gs, sols).Ok?
    ensures Occurs(StitchGadgets(payload, gs, sols).value,
                   gs[0].stackChange + SolutionLength(sols, gs[0].addr) + off, sol)
  {
    StitchGadgetsStep(payload, gs, sols);
    var sc := gs[0].stackChange;
    var head := payload[..sc - 8] + sols[gs[0].addr] + payload[sc - 8..sc];
    var tail := StitchGadgets(payload[sc..], gs[1..], sols).value;
    assert |head| == sc + SolutionLength(sols, gs[0].addr);
    OccursShift(head, tail, off, sol);
  }

  lemma {:induction false} SolutionPlacedGadgets(payload: seq<byte>, gs: seq<Gadget>, sols: Solutions, i: nat)
    requires WellFormed(gs) && AllKnown(gs, sols) && |payload| == StackTotal(gs)
    requires i < |gs|
    ensures StitchGadgets(payload, gs, sols).Ok?
    ensures gs[i].addr in sols
    ensures Occurs(StitchGadgets(payload, gs, sols).value, SolutionOffset(gs, sols, i), sols[gs[i].addr])
    decreases i
  {
    if i == 0 {
      PlacedFirst(payload, gs, sols);
    } else {
      TailFacts(gs, sols);
      StackTotalNonNegative(gs[1..]);
      var sc := gs[0].stackChange;
      assert StackTotal(gs) == sc + StackTotal(gs[1..]);
      var next := payload[sc..];
      assert gs[1..][i - 1] == gs[i];
      SolutionPlacedGadgets(next, gs[1..], sols, i - 1);
      var off := SolutionOffset(gs[1..], sols, i - 1);
      assert SolutionOffset(gs, sols, i) == sc + SolutionLength(sols, gs[0].addr) + off;
      PlacedLater(payload, gs, sols, off, sols[gs[i].addr]);
    }
  }

  /** Gadget `i`'s solution sits in the stitched payload right after the
      first 8 bytes and the windows of the gadgets before it. */
  lemma {:induction false} SolutionPlaced(chain: RawChain, sols: Solutions, i: nat)
    requires WellFormed(chain.gadgets) && AllKnown(chain.gadgets, sols)
    requires |chain.payload| == 8 + StackTotal(chain.gadgets)
    requires i < |chain.gadgets|
    ensures Stitched(chain, sols).Ok?
    ensures chain.gadgets[i].addr in sols
    ensures Occurs(Stitched(chain, sols).value, 8 + SolutionOffset(chain.gadgets, sols, i), sols[chain.gadgets[i].addr])
  {
    StackTotalNonNegative(chain.gadgets);
    var tail := chain.payload[8..];
    SolutionPlacedGadgets(tail, chain.gadgets, sols, i);
    OccursShift(chain.payload[..8], StitchGadgets(tail, chain.gadgets, sols).value,
                SolutionOffset(chain.gadgets, sols, i), sols[chain.gadgets[i].addr]);
  }
}
