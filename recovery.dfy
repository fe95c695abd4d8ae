/** The per-function part of `get_gadgets`: for every gadget function with a
    real body, find where its guard checks start, record the guard solution
    for every address before that point, and patch a `ret` over the first
    check. The symbolic-execution engine's results (the unconstrained paths,
    their guards, memory actions and solved bytes) are inputs here. */
module Recovery {
  import opened Base

  /** A symbolic variable, known by its name. */
  type VarName = string

  /** The kinds of recorded action the filter looks at. */
  datatype ActionType = Mem | Reg | Tmp | Exit
  datatype Access = Read | Write

  /** One recorded action of a path: what kind it is, the instruction that
      performed it and the symbolic variables in the data it moved. */
  datatype Action = Action(kind: ActionType, access: Access, insAddr: int, dataVars: set<VarName>)

  /** A path that ended unconstrained: the variable sets of its guard leaves
      (one leaf per symbolic guard, sorted by variable name), its recorded
      actions in program order, and the bytes the solver produced for the
      concatenated guard leaves. */
  datatype Path = Path(guardLeaves: seq<set<VarName>>, actions: seq<Action>, solution: seq<byte>)

  /** A function the CFG recovered, with its entry, its number of basic
      blocks and the unconstrained paths exploring it produced. */
  datatype GadgetFunction = GadgetFunction(addr: int, blockCount: nat, unconstrained: seq<Path>)

  /** The guard-solution table and the image's bytes, as one round builds them. */
  datatype RoundState = RoundState(solutions: Solutions, memory: map<int, byte>)

  /** The union of the guard leaves' variables. */
  function GuardVariables(leaves: seq<set<VarName>>): (vars: set<VarName>)
    ensures forall i :: 0 <= i < |leaves| ==> leaves[i] <= vars
    ensures forall v :: v in vars ==> exists i :: 0 <= i < |leaves| && v in leaves[i]
  {
    if leaves == [] then {} else leaves[0] + GuardVariables(leaves[1..])
  }

  predicate IsMemRead(a: Action)
  {
    a.kind == Mem && a.access == Read
  }

  /** The action filter: a memory read whose data mentions a guard variable. */
  predicate ReadsGuard(a: Action, vars: set<VarName>)
  {
    IsMemRead(a) && a.dataVars * vars != {}
  }

  /** The least instruction address among the actions that pass the filter. */
  function MinCheckRead(actions: seq<Action>, vars: set<VarName>): (r: Option<int>)
    ensures r.None? <==> forall j :: 0 <= j < |actions| ==> !ReadsGuard(actions[j], vars)
    ensures r.Some? ==> exists j :: 0 <= j < |actions| && ReadsGuard(actions[j], vars) && actions[j].insAddr == r.value
    ensures r.Some? ==> forall j :: 0 <= j < |actions| && ReadsGuard(actions[j], vars) ==> r.value <= actions[j].insAddr
  {
    if actions == [] then None
    else
      var rest := MinCheckRead(actions[1..], vars);
      assert forall j :: 1 <= j < |actions| ==> actions[j] == actions[1..][j - 1];
      if !ReadsGuard(actions[0], vars) then rest
      else match rest
        case None => Some(actions[0].insAddr)
        case Some(m) => Some(if actions[0].insAddr <= m then actions[0].insAddr else m)
  }

  /** `start_of_checks`: the first address of the guard checks on `path`.
      With no guard leaves the union of their variables cannot be formed,
      which fails on the first memory read; with no qualifying read, `min`
      has nothing to choose from. */
  function StartOfChecks(path: Path): (r: Result<int>)
    ensures r.Ok? ==> |path.guardLeaves| > 0
    ensures r.Ok? ==> exists j :: 0 <= j < |path.actions| && ReadsGuard(path.actions[j], GuardVariables(path.guardLeaves))
                                  && path.actions[j].insAddr == r.value
    ensures r.Ok? ==> forall j :: 0 <= j < |path.actions| && ReadsGuard(path.actions[j], GuardVariables(path.guardLeaves))
                                  ==> r.value <= path.actions[j].insAddr
    ensures r.Err? <==> (|path.guardLeaves| == 0 && exists j :: 0 <= j < |path.actions| && IsMemRead(path.actions[j]))
                        || forall j :: 0 <= j < |path.actions| ==> !ReadsGuard(path.actions[j], GuardVariables(path.guardLeaves))
    ensures r == Err(NoGuardVariables) <==>
              |path.guardLeaves| == 0 && exists j :: 0 <= j < |path.actions| && IsMemRead(path.actions[j])
    ensures r == Err(NoCheckRead) <==>
              !(|path.guardLeaves| == 0 && exists j :: 0 <= j < |path.actions| && IsMemRead(path.actions[j]))
              && forall j :: 0 <= j < |path.actions| ==> !ReadsGuard(path.actions[j], GuardVariables(path.guardLeaves))
    ensures r.Err? ==> r.error in {NoGuardVariables, NoCheckRead}
  {
    if |path.guardLeaves| == 0 && exists j :: 0 <= j < |path.actions| && IsMemRead(path.actions[j]) then
      Err(NoGuardVariables)
    else match MinCheckRead(path.actions, GuardVariables(path.guardLeaves))
      case None => Err(NoCheckRead)
      case Some(b) => Ok(b)
  }

  /** The addresses of Python's `range(lo, hi)`. */
  function AddrRange(lo: int, hi: int): (r: set<int>)
    ensures forall x :: x in r <==> lo <= x < hi
    decreases hi - lo
  {
    if hi <= lo then {} else {lo} + AddrRange(lo + 1, hi)
  }

  /** The table after `for a in range(entry, boundary): table[a] = sol`. */
  function FillRange(table: Solutions, entry: int, boundary: int, sol: seq<byte>): Solutions
  {
    map a | a in table.Keys + AddrRange(entry, boundary) :: if entry <= a < boundary then sol else table[a]
  }

  /** After the fill, every address of `[entry, boundary)` maps to `sol` and
      every other entry of the table is as it was; an empty range changes
      nothing. */
  lemma FillRangeEffect(table: Solutions, entry: int, boundary: int, sol: seq<byte>)
    ensures forall a :: entry <= a < boundary ==> a in FillRange(table, entry, boundary, sol)
                                                   && FillRange(table, entry, boundary, sol)[a] == sol
    ensures forall a :: !(entry <= a < boundary) ==>
              (a in FillRange(table, entry, boundary, sol) <==> a in table)
              && (a in table ==> FillRange(table, entry, boundary, sol)[a] == table[a])
    ensures boundary <= entry ==> FillRange(table, entry, boundary, sol) == table
  {
  }

  /** The table-filling loop of `get_gadgets`. */
  method FillSolutions(table: Solutions, entry: int, boundary: int, sol: seq<byte>) returns (filled: Solutions)
    ensures filled == FillRange(table, entry, boundary, sol)
    ensures forall a :: entry <= a < boundary ==> a in filled && filled[a] == sol
    ensures forall a :: a in filled && !(entry <= a < boundary) ==> a in table && filled[a] == table[a]
    ensures forall a :: a in table ==> a in filled
  {
    filled := table;
    var a := entry;
    while a < boundary
      invariant entry <= a
      invariant a <= boundary || a == entry
      invariant filled == FillRange(table, entry, a, sol)
      decreases boundary - a
    {
      filled := filled[a := sol];
      a := a + 1;
    }
    assert FillRange(table, entry, a, sol) == FillRange(table, entry, boundary, sol);
  }

  /** The image with the byte at `addr` overwritten by `ret`; the loader
      refuses an address outside the image. */
  function Patched(memory: map<int, byte>, addr: int): Result<map<int, byte>>
  {
    if addr in memory then Ok(memory[addr := RET]) else Err(UnmappedPatch(addr))
  }

  /** The patch writes `ret` at `addr`, leaves every other byte as it was,
      and applying it twice is the same as applying it once. */
  lemma PatchedEffect(memory: map<int, byte>, addr: int)
    ensures Patched(memory, addr).Ok? <==> addr in memory
    ensures Patched(memory, addr).Ok? ==>
      var m := Patched(memory, addr).value;
      && m.Keys == memory.Keys
      && m[addr] == RET
      && (forall a :: a in memory && a != addr ==> m[a] == memory[a])
      && Patched(m, addr) == Ok(m)
  {
    if addr in memory {
      var m := memory[addr := RET];
      assert m[addr := RET] == m;
    }
  }

  /** The loaded binary, whose bytes the solver patches in place. */
  class LoadedImage {
    var memory: map<int, byte>

    constructor (memory: map<int, byte>)
      ensures this.memory == memory
    {
      this.memory := memory;
    }

    /** `write_bytes(addr, b)` for a single byte. */
    method WriteByte(addr: int, b: byte) returns (ok: bool)
      modifies this
      ensures ok <==> addr in old(memory)
      ensures memory == if ok then old(memory)[addr := b] else old(memory)
    {
      ok := addr in memory;
      if ok {
        memory := memory[addr := b];
      }
    }
  }

  /** What processing one function does to the round's state. */
  function RecoverFunction(f: GadgetFunction, st: RoundState): Result<RoundState>
  {
    if f.blockCount <= 1 then Ok(st)
    else if |f.unconstrained| == 0 then Err(NoUnconstrainedPath)
    else
      var path := f.unconstrained[0];
      match StartOfChecks(path)
      case Err(e) => Err(e)
      case Ok(boundary) =>
        match Patched(st.memory, boundary)
        case Err(e) => Err(e)
        case Ok(m) => Ok(RoundState(FillRange(st.solutions, f.addr, boundary, path.solution), m))
  }

  /** What processing the functions in order does to the round's state. */
  function RecoverAll(funcs: seq<GadgetFunction>, st: RoundState): Result<RoundState>
    decreases |funcs|
  {
    if funcs == [] then Ok(st)
    else match RecoverFunction(funcs[0], st)
      case Err(e) => Err(e)
      case Ok(st') => RecoverAll(funcs[1..], st')
  }

  /** The loop of `get_gadgets` over the recovered functions. The table
      starts empty in every round. */
  method RecoverGuards(funcs: seq<GadgetFunction>, image: LoadedImage) returns (r: Result<Solutions>)
    modifies image
    ensures var spec := RecoverAll(funcs, RoundState(map[], old(image.memory)));
            && (r.Ok? <==> spec.Ok?)
            && (r.Ok? ==> r.value == spec.value.solutions && image.memory == spec.value.memory)
            && (r.Err? ==> r.error == spec.error)
  {
    var solutions: Solutions := map[];
    ghost var spec := RecoverAll(funcs, RoundState(map[], image.memory));
    for i := 0 to |funcs|
      invariant RecoverAll(funcs[i..], RoundState(solutions, image.memory)) == spec
    {
      var f := funcs[i];
      assert funcs[i..][0] == f && funcs[i..][1..] == funcs[i + 1..];
      if f.blockCount <= 1 {
        // malformed function
        continue;
      }
      if |f.unconstrained| == 0 {
        return Err(NoUnconstrainedPath);
      }
      var path := f.unconstrained[0];
      var startOfChecks := StartOfChecks(path);
      if startOfChecks.Err? {
        return Err(startOfChecks.error);
      }
      ghost var before := image.memory;
      solutions := FillSolutions(solutions, f.addr, startOfChecks.value, path.solution);
      var ok := image.WriteByte(startOfChecks.value, RET);
      if !ok {
        assert Patched(before, startOfChecks.value) == Err(UnmappedPatch(startOfChecks.value));
        return Err(UnmappedPatch(startOfChecks.value));
      }
    }
    assert funcs[|funcs|..] == [];
    r := Ok(solutions);
  }

  // ---------------------------------------------------------------------
  // What a round's table and image hold

  /** The check boundary of `f` if processing it gets that far. */
  function Boundary(f: GadgetFunction): Option<int>
  {
    if f.blockCount > 1 && |f.unconstrained| > 0 && StartOfChecks(f.unconstrained[0]).Ok?
    then Some(StartOfChecks(f.unconstrained[0]).value)
    else None
  }

  /** `f`'s fill loop writes its solution at `a`. */
  ghost predicate Covers(f: GadgetFunction, a: int)
  {
    Boundary(f).Some? && f.addr <= a < Boundary(f).value
  }

  function SolutionOf(f: GadgetFunction): seq<byte>
    requires |f.unconstrained| > 0
  {
    f.unconstrained[0].solution
  }

  lemma RecoverFunctionEffect(f: GadgetFunction, st: RoundState)
    requires RecoverFunction(f, st).Ok?
    ensures var st' := RecoverFunction(f, st).value;
      && (forall a :: Covers(f, a) ==> a in st'.solutions && st'.solutions[a] == SolutionOf(f))
      && (forall a :: !Covers(f, a) ==> (a in st'.solutions <==> a in st.solutions))
      && (forall a :: !Covers(f, a) && a in st.solutions ==> st'.solutions[a] == st.solutions[a])
      && st'.memory.Keys == st.memory.Keys
      && (Boundary(f).Some? ==> st'.memory == st.memory[Boundary(f).value := RET])
      && (Boundary(f).None? ==> st'.memory == st.memory)
  {
    if f.blockCount > 1 {
      var path := f.unconstrained[0];
      var b := StartOfChecks(path).value;
      FillRangeEffect(st.solutions, f.addr, b, path.solution);
      PatchedEffect(st.memory, b);
    }
  }

  /** Round isolation: every entry of a table built from `st` is either an
      entry of `st` left alone or the solution of a function that covers
      that address. Started from an empty table, nothing comes from an
      earlier round. */
  lemma {:induction false} RecoverAllProvenance(funcs: seq<GadgetFunction>, st: RoundState)
    requires RecoverAll(funcs, st).Ok?
    ensures var st' := RecoverAll(funcs, st).value;
      forall a :: a in st'.solutions ==>
        (a in st.solutions && st'.solutions[a] == st.solutions[a])
        || (exists i :: 0 <= i < |funcs| && Covers(funcs[i], a) && st'.solutions[a] == SolutionOf(funcs[i]))
    decreases |funcs|
  {
    if funcs != [] {
      var st1 := RecoverFunction(funcs[0], st).value;
      RecoverFunctionEffect(funcs[0], st);
      RecoverAllProvenance(funcs[1..], st1);
      var st' := RecoverAll(funcs, st).value;
      forall a | a in st'.solutions
        ensures (a in st.solutions && st'.solutions[a] == st.solutions[a])
                || (exists i :: 0 <= i < |funcs| && Covers(funcs[i], a) && st'.solutions[a] == SolutionOf(funcs[i]))
      {
        if exists i :: 0 <= i < |funcs[1..]| && Covers(funcs[1..][i], a) && st'.solutions[a] == SolutionOf(funcs[1..][i]) {
          var i :| 0 <= i < |funcs[1..]| && Covers(funcs[1..][i], a) && st'.solutions[a] == SolutionOf(funcs[1..][i]);
          assert funcs[1..][i] == funcs[i + 1];
        } else if Covers(funcs[0], a) {
        }
      }
    }
  }

  /** Every address a function covers ends up in the table, holding that
      function's solution unless a later function covers it too. */
  lemma {:induction false} RecoverAllCoverage(funcs: seq<GadgetFunction>, st: RoundState, i: nat, a: int)
    requires RecoverAll(funcs, st).Ok?
    requires i < |funcs| && Covers(funcs[i], a)
    ensures a in RecoverAll(funcs, st).value.solutions
    ensures (forall j :: i < j < |funcs| ==> !Covers(funcs[j], a)) ==>
              RecoverAll(funcs, st).value.solutions[a] == SolutionOf(funcs[i])
    decreases |funcs|
  {
    var st1 := RecoverFunction(funcs[0], st).value;
    RecoverFunctionEffect(funcs[0], st);
    if i == 0 {
      KeptByLater(funcs[1..], st1, a);
    } else {
      assert funcs[1..][i - 1] == funcs[i];
      RecoverAllCoverage(funcs[1..], st1, i - 1, a);
      if forall j :: i < j < |funcs| ==> !Covers(funcs[j], a) {
        forall j | i - 1 < j < |funcs[1..]| ensures !Covers(funcs[1..][j], a) {
          assert funcs[1..][j] == funcs[j + 1];
        }
      }
    }
  }

  /** An entry stays in the table through later functions, and keeps its
      value if none of them covers its address. */
  lemma {:induction false} KeptByLater(funcs: seq<GadgetFunction>, st: RoundState, a: int)
    requires RecoverAll(funcs, st).Ok? && a in st.solutions
    ensures a in RecoverAll(funcs, st).value.solutions
    ensures (forall j :: 0 <= j < |funcs| ==> !Covers(funcs[j], a)) ==>
              RecoverAll(funcs, st).value.solutions[a] == st.solutions[a]
    decreases |funcs|
  {
    if funcs != [] {
      var st1 := RecoverFunction(funcs[0], st).value;
      RecoverFunctionEffect(funcs[0], st);
      KeptByLater(funcs[1..], st1, a);
      if forall j :: 0 <= j < |funcs| ==> !Covers(funcs[j], a) {
        forall j | 0 <= j < |funcs[1..]| ensures !Covers(funcs[1..][j], a) {
          assert funcs[1..][j] == funcs[j + 1];
        }
      }
    }
  }

  /** The image keeps its addresses; a byte changes only to `ret`, and only
      at the check boundary of some function; every such boundary holds `ret`. */
  lemma {:induction false} RecoverAllPatches(funcs: seq<GadgetFunction>, st: RoundState)
    requires RecoverAll(funcs, st).Ok?
    ensures var m := RecoverAll(funcs, st).value.memory;
      && m.Keys == st.memory.Keys
      && (forall a :: a in m ==> m[a] == st.memory[a]
                                 || (m[a] == RET && exists i :: 0 <= i < |funcs| && Boundary(funcs[i]) == Some(a)))
      && (forall i :: 0 <= i < |funcs| && Boundary(funcs[i]).Some? ==>
                        Boundary(funcs[i]).value in m && m[Boundary(funcs[i]).value] == RET)
    decreases |funcs|
  {
    if funcs != [] {
      var st1 := RecoverFunction(funcs[0], st).value;
      RecoverFunctionEffect(funcs[0], st);
      RecoverAllPatches(funcs[1..], st1);
      var m := RecoverAll(funcs, st).value.memory;
      forall a | a in m
        ensures m[a] == st.memory[a] || (m[a] == RET && exists i :: 0 <= i < |funcs| && Boundary(funcs[i]) == Some(a))
      {
        if exists i :: 0 <= i < |funcs[1..]| && Boundary(funcs[1..][i]) == Some(a) {
          var i :| 0 <= i < |funcs[1..]| && Boundary(funcs[1..][i]) == Some(a);
          assert funcs[1..][i] == funcs[i + 1];
        }
      }
      forall i | 0 <= i < |funcs| && Boundary(funcs[i]).Some?
        ensures Boundary(funcs[i]).value in m && m[Boundary(funcs[i]).value] == RET
      {
        if i > 0 {
          assert funcs[1..][i - 1] == funcs[i];
        }
      }
    }
  }
}
