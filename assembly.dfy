/** The tail of `get_gadgets`: check that the synthesized chains only use
    gadgets with a known guard solution, stitch each chain, build the
    one-gadget `mov rdx, rax` chain and join everything into the payload
    sent for the round. */
module Assembly {
  import opened Base
  import opened Stitch
  import Recovery

  /** The chains the synthesizer returned (open, read, write, in that order)
      and the address of the first gadget that moves `rax` into `rdx`, if
      there is one. */
  datatype Synthesis = Synthesis(chains: seq<RawChain>, moveGadget: Option<int>)

  /** Where the move chain goes: `guarded_chains.insert(2, mov_chain)`. */
  const MoveIndex: nat := 2

  function Pow256(n: nat): (p: nat)
    ensures p >= 1
  {
    if n == 0 then 1 else 256 * Pow256(n - 1)
  }

  /** The `n`-byte little-endian encoding of `x` (modulo 256^n). */
  function LittleEndian(x: nat, n: nat): (r: seq<byte>)
    ensures |r| == n
  {
    if n == 0 then [] else [(x % 256) as byte] + LittleEndian(x / 256, n - 1)
  }

  /** The unsigned integer a little-endian byte string encodes. */
  function FromLittleEndian(s: seq<byte>): (x: nat)
    ensures x < Pow256(|s|)
  {
    if s == [] then 0 else s[0] as nat + 256 * FromLittleEndian(s[1..])
  }

  lemma {:induction false} LittleEndianDecodes(x: nat, n: nat)
    requires x < Pow256(n)
    ensures FromLittleEndian(LittleEndian(x, n)) == x
  {
    if n > 0 {
      LittleEndianDecodes(x / 256, n - 1);
      assert LittleEndian(x, n)[1..] == LittleEndian(x / 256, n - 1);
    }
  }

  lemma {:induction false} LittleEndianEncodes(s: seq<byte>)
    ensures LittleEndian(FromLittleEndian(s), |s|) == s
  {
    if s != [] {
      var x := FromLittleEndian(s);
      assert x % 256 == s[0] as nat && x / 256 == FromLittleEndian(s[1..]);
      LittleEndianEncodes(s[1..]);
    }
  }

  /** `struct.pack("<Q", x)`: eight little-endian bytes that decode back to
      `x`, or an error for a value outside the unsigned 64-bit range. */
  function PackQ(x: int): (r: Result<seq<byte>>)
    ensures r.Ok? <==> 0 <= x < Pow256(8)
    ensures r.Ok? ==> |r.value| == 8 && FromLittleEndian(r.value) == x
    ensures r.Err? ==> r.error == PackOutOfRange(x)
  {
    if 0 <= x < Pow256(8) then
      LittleEndianDecodes(x, 8);
      Ok(LittleEndian(x, 8))
    else Err(PackOutOfRange(x))
  }

  /** Every gadget of every chain has a guard solution. */
  ghost predicate ChainsKnown(chains: seq<RawChain>, sols: Solutions)
  {
    forall c :: 0 <= c < |chains| ==> AllKnown(chains[c].gadgets, sols)
  }

  /** `ChainsKnown` spelled out gadget by gadget. */
  lemma ChainsKnownAt(chains: seq<RawChain>, sols: Solutions)
    ensures ChainsKnown(chains, sols) <==>
      forall c, j :: 0 <= c < |chains| && 0 <= j < |chains[c].gadgets| ==> chains[c].gadgets[j].addr in sols
  {
    forall c | 0 <= c < |chains| {
      ChainFactsAt(chains[c].gadgets, sols);
    }
  }

  /** The sanity check over the synthesized chains, chain by chain. */
  method ValidateChains(chains: seq<RawChain>, sols: Solutions) returns (ok: bool)
    ensures ok <==> ChainsKnown(chains, sols)
    ensures !ok <==> exists c, j :: 0 <= c < |chains| && 0 <= j < |chains[c].gadgets| && chains[c].gadgets[j].addr !in sols
  {
    ChainsKnownAt(chains, sols);
    for c := 0 to |chains|
      invariant forall c', j :: 0 <= c' < c && 0 <= j < |chains[c'].gadgets| ==> chains[c'].gadgets[j].addr in sols
    {
      var gs := chains[c].gadgets;
      for j := 0 to |gs|
        invariant forall j' :: 0 <= j' < j ==> gs[j'].addr in sols
      {
        if gs[j].addr !in sols {
          return false;
        }
      }
    }
    return true;
  }

  /** The stitched chains, in order, or the first chain's failure. */
  function StitchAll(chains: seq<RawChain>, sols: Solutions): (r: Result<seq<seq<byte>>>)
    ensures r.Ok? ==> |r.value| == |chains|
    ensures r.Ok? ==> forall c :: 0 <= c < |chains| ==> Stitched(chains[c], sols) == Ok(r.value[c])
  {
    if chains == [] then Ok([])
    else match Stitched(chains[0], sols)
      case Err(e) => Err(e)
      case Ok(first) =>
        match StitchAll(chains[1..], sols)
        case Err(e) => Err(e)
        case Ok(rest) =>
          assert forall c :: 1 <= c < |chains| ==> chains[c] == chains[1..][c - 1];
          Ok([first] + rest)
  }

  /** The payload `get_gadgets` returns for a round. */
  function FinalPayload(syn: Synthesis, sols: Solutions): Result<seq<byte>>
  {
    if !ChainsKnownCheck(syn.chains, sols) then Err(UnrecognizedGadget)
    else match StitchAll(syn.chains, sols)
      case Err(e) => Err(e)
      case Ok(guarded) =>
        match syn.moveGadget
        case None => Err(NoMoveGadget)
        case Some(m) =>
          match PackQ(m)
          case Err(e) => Err(e)
          case Ok(packed) =>
            if m !in sols then Err(MissingSolution(m))
            else Ok(Join(PyInsert(guarded, MoveIndex, packed + sols[m])))
  }

  /** `ChainsKnown`, computed. */
  function ChainsKnownCheck(chains: seq<RawChain>, sols: Solutions): (b: bool)
    ensures b <==> ChainsKnown(chains, sols)
  {
    ChainsKnownAt(chains, sols);
    forall c, j :: 0 <= c < |chains| && 0 <= j < |chains[c].gadgets| ==> chains[c].gadgets[j].addr in sols
  }

  /** The assembly steps of `get_gadgets` as written: validate, stitch each
      chain, build the move chain, insert it, join. */
  method AssemblePayload(syn: Synthesis, sols: Solutions) returns (r: Result<seq<byte>>)
    ensures r == FinalPayload(syn, sols)
  {
    var ok := ValidateChains(syn.chains, sols);
    if !ok {
      return Err(UnrecognizedGadget);
    }
    var guarded: seq<seq<byte>> := [];
    for c := 0 to |syn.chains|
      invariant |guarded| == c
      invariant forall c' :: 0 <= c' < c ==> Stitched(syn.chains[c'], sols) == Ok(guarded[c'])
    {
      var s := PostprocessChain(syn.chains[c], sols);
      if s.Err? {
        StitchAllFirstError(syn.chains, sols, c);
        return Err(s.error);
      }
      guarded := guarded + [s.value];
    }
    StitchAllOk(syn.chains, sols, guarded);
    if syn.moveGadget.None? {
      return Err(NoMoveGadget);
    }
    var m := syn.moveGadget.value;
    var packed := PackQ(m);
    if packed.Err? {
      return Err(packed.error);
    }
    if m !in sols {
      return Err(MissingSolution(m));
    }
    var moveChain := packed.value + sols[m];
    guarded := PyInsert(guarded, MoveIndex, moveChain);
    r := Ok(Join(guarded));
  }

  lemma {:induction false} StitchAllFirstError(chains: seq<RawChain>, sols: Solutions, c: nat)
    requires c < |chains| && Stitched(chains[c], sols).Err?
    requires forall c' :: 0 <= c' < c ==> Stitched(chains[c'], sols).Ok?
    ensures StitchAll(chains, sols) == Err(Stitched(chains[c], sols).error)
    decreases c
  {
    if c > 0 {
      forall c' | 0 <= c' < c - 1 ensures Stitched(chains[1..][c'], sols).Ok? {
        assert chains[1..][c'] == chains[c' + 1];
      }
      assert chains[1..][c - 1] == chains[c];
      StitchAllFirstError(chains[1..], sols, c - 1);
    }
  }

  lemma {:induction false} StitchAllOk(chains: seq<RawChain>, sols: Solutions, guarded: seq<seq<byte>>)
    requires |guarded| == |chains|
    requires forall c :: 0 <= c < |chains| ==> Stitched(chains[c], sols) == Ok(guarded[c])
    ensures StitchAll(chains, sols) == Ok(guarded)
  {
    if chains != [] {
      forall c | 0 <= c < |chains| - 1 ensures Stitched(chains[1..][c], sols) == Ok(guarded[1..][c]) {
        assert chains[1..][c] == chains[c + 1];
      }
      StitchAllOk(chains[1..], sols, guarded[1..]);
      assert guarded == [guarded[0]] + guarded[1..];
    }
  }

  /** For the three chains the solver builds, the payload is the stitched
      open and read chains, then the move gadget's address and solution,
      then the stitched write chain; its length is the sum of the parts. */
  lemma FinalPayloadShape(syn: Synthesis, sols: Solutions)
    requires |syn.chains| == 3 && FinalPayload(syn, sols).Ok?
    ensures syn.moveGadget.Some? && syn.moveGadget.value in sols
    ensures 0 <= syn.moveGadget.value < Pow256(8)
    ensures forall c :: 0 <= c < 3 ==> Stitched(syn.chains[c], sols).Ok?
    ensures var m := syn.moveGadget.value;
            var moveChain := LittleEndian(m, 8) + sols[m];
      && FinalPayload(syn, sols).value ==
           Stitched(syn.chains[0], sols).value + Stitched(syn.chains[1], sols).value
           + moveChain + Stitched(syn.chains[2], sols).value
      && |FinalPayload(syn, sols).value| ==
           |Stitched(syn.chains[0], sols).value| + |Stitched(syn.chains[1], sols).value|
           + 8 + |sols[m]| + |Stitched(syn.chains[2], sols).value|
  {
    var g := StitchAll(syn.chains, sols).value;
    var m := syn.moveGadget.value;
    var moveChain := LittleEndian(m, 8) + sols[m];
    var parts := PyInsert(g, MoveIndex, moveChain);
    assert parts == [g[0], g[1], moveChain, g[2]];
    JoinFour(g[0], g[1], moveChain, g[2]);
  }

  lemma JoinFour(a: seq<byte>, b: seq<byte>, c: seq<byte>, d: seq<byte>)
    ensures Join([a, b, c, d]) == a + b + c + d
  {
    calc {
      Join([a, b, c, d]);
      { assert [a, b, c, d][1..] == [b, c, d]; }
      a + Join([b, c, d]);
      { assert [b, c, d][1..] == [c, d]; }
      a + (b + Join([c, d]));
      { assert [c, d][1..] == [d]; }
      a + (b + (c + Join([d])));
      { assert [d][1..] == []; assert d + [] == d; }
      a + (b + (c + d));
      a + b + c + d;
    }
  }

  /** The round's payload is produced exactly when every chain gadget is
      known, every chain's payload fits its gadgets' stack windows, and a
      move gadget with a 64-bit address and a solution exists. */
  lemma FinalPayloadSucceeds(syn: Synthesis, sols: Solutions)
    requires forall c :: 0 <= c < |syn.chains| ==> WellFormed(syn.chains[c].gadgets)
    ensures FinalPayload(syn, sols).Ok? <==>
      && ChainsKnown(syn.chains, sols)
      && (forall c :: 0 <= c < |syn.chains| ==>
            |syn.chains[c].payload| <= 8 + StackTotal(syn.chains[c].gadgets))
      && syn.moveGadget.Some? && 0 <= syn.moveGadget.value < Pow256(8)
      && syn.moveGadget.value in sols
    ensures !ChainsKnown(syn.chains, sols) ==> FinalPayload(syn, sols) == Err(UnrecognizedGadget)
  {
    if ChainsKnown(syn.chains, sols) {
      forall c | 0 <= c < |syn.chains|
        ensures Stitched(syn.chains[c], sols).Ok? <==> |syn.chains[c].payload| <= 8 + StackTotal(syn.chains[c].gadgets)
      {
        StitchedFails(syn.chains[c], sols);
      }
      if StitchAll(syn.chains, sols).Err? {
        var c := FirstFailing(syn.chains, sols);
        StitchedFails(syn.chains[c], sols);
      }
    }
  }

  /** The index of a chain whose stitching fails, when `StitchAll` fails. */
  lemma {:induction false} FirstFailing(chains: seq<RawChain>, sols: Solutions) returns (c: nat)
    requires StitchAll(chains, sols).Err?
    ensures c < |chains| && Stitched(chains[c], sols).Err?
  {
    if Stitched(chains[0], sols).Err? {
      c := 0;
    } else {
      var c' := FirstFailing(chains[1..], sols);
      assert chains[1..][c'] == chains[c' + 1];
      c := c' + 1;
    }
  }

  /** One round of `get_gadgets`: recover and patch the guards, then
      assemble the payload from the chains the synthesizer built on the
      patched image. */
  method GetGadgets(funcs: seq<Recovery.GadgetFunction>, image: Recovery.LoadedImage, syn: Synthesis)
    returns (r: Result<seq<byte>>)
    modifies image
    ensures var spec := Recovery.RecoverAll(funcs, Recovery.RoundState(map[], old(image.memory)));
      && (spec.Err? ==> r == Err(spec.error))
      && (spec.Ok? ==> image.memory == spec.value.memory && r == FinalPayload(syn, spec.value.solutions))
  {
    var sols := Recovery.RecoverGuards(funcs, image);
    if sols.Err? {
      return Err(sols.error);
    }
    r := AssemblePayload(syn, sols.value);
  }
}
