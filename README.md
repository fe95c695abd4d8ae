# ropsynth solver: guard bookkeeping and chain stitching in Dafny

This project models the deterministic core of the SECCON 2016 qualifier
"ropsynth" solver (`solve.py`). The remote service sends x86-64 gadgets. Each
gadget ends in a hidden guard: checks on the stack words that follow its
return. The solver recovers the bytes that pass each guard. It patches a
`ret` over the first check so the chain synthesizer sees a clean gadget. It
then has the synthesizer build open/read/write chains and stitches the guard
bytes back into them. The symbolic-execution engine, the CFG recovery and the
chain synthesizer are not modelled; their results are inputs.

Modules, one per part of the solver:

- `Base` (`base.dfy`): bytes, the `Failure`s the solver raises (one per raise site
  of the solver), and Python's slicing (`s[:n]`, `s[n:]` with negative and
  out-of-range bounds), `list.insert` and `"".join`.
- `Sanitize` (`sanitize.dfy`): the replace-and-pad part of `make_elf`.
  `Replace` is Python's leftmost, non-overlapping `str.replace`.
- `Stitch` (`stitch.dfy`): `postprocess_chain`. `Stitched` is its
  specification. `PostprocessChain` is the cursor loop as written, proved
  equal to it. `Unstitched` is its inverse.
- `Recovery` (`recovery.dfy`): the per-function loop of `get_gadgets`. It
  skips malformed functions, finds `start_of_checks`, fills the
  guard-solution table and patches the image. The image is the class
  `LoadedImage`, whose byte map is updated in place.
- `Assembly` (`assembly.dfy`): the tail of `get_gadgets`. It validates the
  chains, stitches them, builds the `mov rdx, rax` chain with
  `struct.pack("<Q", ...)`, inserts it at index 2 and joins. `GetGadgets`
  runs one whole round.

Where the design description and the code disagree, the model follows the
code:

- The design says a function with no symbolic guards must not fail. The code
  fails: `frozenset.union()` with no arguments raises TypeError on the first
  memory read, and `min()` of nothing raises ValueError.
  `Recovery.StartOfChecks` models both failures.
- The design says the solution bytes are one string per function. The code
  calls `any_str` once per address. The model uses one `solution` per path,
  so the solver is treated as deterministic.

## Model

| member | source | states |
|---|---|---|
| `Sanitize.MakeElfBytes` | examples/secconquals2016_ropsynth/solve.py:28-32 | The loop over run lengths 19..2, the `ret hlt` fix and the padding give exactly `Sanitized(gadgets)`. The page is `max(len, 4096)` long. Its prefix differs from the input only where `hlt` became `int3`. It holds no `hlt hlt` and no `ret hlt` pair. |
| `Sanitize.SanitizedProperties` | examples/secconquals2016_ropsynth/solve.py:28-32 | Length is `max(len, 4096)`. The first `len` bytes are the input with some `0xF4` turned into `0xCC` and every other byte kept. The fill bytes are all `0xCC`. No two `0xF4` are adjacent and no `0xC3` is followed by `0xF4`. |
| `Sanitize.ReplaceOnlyHltToInt3` | examples/secconquals2016_ropsynth/solve.py:29-30 | A `str.replace` whose pattern and replacement differ only by `hlt`→`int3` keeps the length and changes only `hlt` bytes, into `int3`. |
| `Sanitize.ReplaceRunsOnlyHltToInt3` | examples/secconquals2016_ropsynth/solve.py:28-29 | The whole run loop keeps the length and only turns `hlt` into `int3`. |
| `Sanitize.ReplaceRunsNoAdjacentHlt` | examples/secconquals2016_ropsynth/solve.py:28-29 | Once the loop has done run length 2, no two `hlt` bytes are adjacent. |
| `Sanitize.ReplacePairRemovesPair` | examples/secconquals2016_ropsynth/solve.py:29-30 | After leftmost non-overlapping replacement of a pair `x y` by `p q` (with `p != y`, `q != x`, `q != y`), no `x y` pair remains. |
| `Sanitize.LJustShape` | examples/secconquals2016_ropsynth/solve.py:32 | `ljust(4096, "\xcc")` keeps the input as prefix, has length `max(len, 4096)` and fills with `0xCC`. |
| `Stitch.PostprocessChain` | examples/secconquals2016_ropsynth/solve.py:38-67 | The cursor/accumulator loop returns exactly `Stitched(chain, sols)`, including its KeyError and final-assert failures. |
| `Stitch.StitchedKeepsHead` | examples/secconquals2016_ropsynth/solve.py:52-53 | A successful stitch starts with the raw payload's first 8 bytes, the first gadget's address. |
| `Stitch.StitchedFails` | examples/secconquals2016_ropsynth/solve.py:54-66 | If some gadget has no solution, the result is KeyError on the first such address. If all are known and every `stack_change ≥ 8`, the final `assert len(payload) == 0` fails exactly when the raw payload is longer than `8 + Σ stack_change`. |
| `Stitch.StitchGadgetsFailsIff` | examples/secconquals2016_ropsynth/solve.py:54-66 | With all solutions known and every `stack_change ≥ 8`, the loop fails exactly when the remaining payload exceeds the gadgets' total stack change, and only through the final assertion. |
| `Stitch.StitchGadgetsMissing` | examples/secconquals2016_ropsynth/solve.py:62 | `guard_solutions[g.addr]` raises for the first gadget without a solution. |
| `Stitch.StitchedLength` | examples/secconquals2016_ropsynth/solve.py:52-67 | Suppose every `stack_change ≥ 8` and `len(raw) == 8 + Σ stack_change`. Then the stitch succeeds and its length is `len(raw) + Σ len(sol[g.addr])`. |
| `Stitch.StitchRoundTrip` | examples/secconquals2016_ropsynth/solve.py:52-67 | Under the same conditions, deleting every inserted solution span gives back the raw payload byte for byte. |
| `Stitch.UnstitchGadgetsInverse` | examples/secconquals2016_ropsynth/solve.py:54-64 | The per-gadget part of the round trip: un-stitching the loop's output gives back the payload after the first 8 bytes. |
| `Stitch.SolutionPlaced` | examples/secconquals2016_ropsynth/solve.py:54-64 | Gadget `i`'s solution sits in the stitched payload right after the first 8 bytes, the earlier gadgets' windows (stack change plus solution) and its own `stack_change - 8` bytes. |
| `Stitch.SolutionPlacedGadgets` | examples/secconquals2016_ropsynth/solve.py:54-64 | The same placement, within the loop's output. |
| `Recovery.GuardVariables` | examples/secconquals2016_ropsynth/solve.py:127 | The union of the guard leaves' variables contains each leaf's variables and nothing else. |
| `Recovery.MinCheckRead` | examples/secconquals2016_ropsynth/solve.py:123-129 | The result is None exactly when no action is a memory read touching a guard variable. Otherwise it is the `ins_addr` of such an action, and no other such action has a smaller one. |
| `Recovery.StartOfChecks` | examples/secconquals2016_ropsynth/solve.py:123-129 | `start_of_checks` is the least `ins_addr` of the qualifying reads. It fails with TypeError (`NoGuardVariables`) exactly when there are no guard leaves and some memory read exists, and otherwise with ValueError (`NoCheckRead`) exactly when no read qualifies. |
| `Recovery.FillRangeEffect` | examples/secconquals2016_ropsynth/solve.py:134-135 | After the fill, every `a` in `[f.addr, start_of_checks)` maps to the solution. Every other entry is unchanged. An empty range changes nothing. |
| `Recovery.FillSolutions` | examples/secconquals2016_ropsynth/solve.py:134-135 | The table-filling loop computes `FillRange`: the range maps to the solution, and other keys keep their presence and value. |
| `Recovery.PatchedEffect` | examples/secconquals2016_ropsynth/solve.py:141 | The patch puts `0xC3` at the boundary and keeps every other byte and the image's addresses. Applying it twice equals applying it once. It fails only outside the image. |
| `Recovery.LoadedImage.WriteByte` | examples/secconquals2016_ropsynth/solve.py:141 | `write_bytes` sets exactly that byte of the image in place. |
| `Recovery.RecoverGuards` | examples/secconquals2016_ropsynth/solve.py:81-142 | The loop over functions is proved equal to `RecoverAll` from an empty table: same failure, same table, same patched image. |
| `Recovery.RecoverFunctionEffect` | examples/secconquals2016_ropsynth/solve.py:83-141 | A function with ≤1 block, or none reaching a boundary, leaves table and image unchanged. Otherwise its range gets its solution, the rest of the table is untouched, and the image changes only at the boundary, to `ret`. |
| `Recovery.RecoverAllProvenance` | examples/secconquals2016_ropsynth/solve.py:81-135 | Round isolation: each entry of the final table is either an entry of the starting table, left alone, or the solution of a function of this round that covers that address. |
| `Recovery.RecoverAllCoverage` | examples/secconquals2016_ropsynth/solve.py:82-135 | Every address some function covers is in the table. It holds that function's solution when no later function covers it. |
| `Recovery.KeptByLater` | examples/secconquals2016_ropsynth/solve.py:82-135 | An entry survives later functions and keeps its value when none of them covers it. |
| `Recovery.RecoverAllPatches` | examples/secconquals2016_ropsynth/solve.py:82-141 | The image keeps its addresses. A byte changes only to `ret` and only at some function's boundary. Every boundary ends up holding `ret`. |
| `Assembly.PackQ` | examples/secconquals2016_ropsynth/solve.py:172 | `struct.pack("<Q", x)` succeeds exactly for `0 <= x < 2^64`. It gives 8 bytes that decode back to `x`, and fails with struct.error otherwise. |
| `Assembly.LittleEndianDecodes` | examples/secconquals2016_ropsynth/solve.py:172 | Decoding the `n`-byte little-endian encoding of `x < 256^n` gives `x`. |
| `Assembly.LittleEndianEncodes` | examples/secconquals2016_ropsynth/solve.py:172 | Encoding the decoded value of a byte string at its own length gives the string back. |
| `Assembly.ValidateChains` | examples/secconquals2016_ropsynth/solve.py:162-163 | Validation fails if and only if some chain uses a gadget address with no solution. |
| `Assembly.ChainsKnownAt` | examples/secconquals2016_ropsynth/solve.py:162-163 | The sanity check's condition, "every gadget address of every chain has a solution", holds exactly when each chain has all its solutions known, the precondition the stitching lemmas use. |
| `Assembly.StitchAll` | examples/secconquals2016_ropsynth/solve.py:166 | The list comprehension gives one stitched payload per chain, in order, each equal to that chain's `Stitched`. |
| `Assembly.AssemblePayload` | examples/secconquals2016_ropsynth/solve.py:162-178 | Validate, stitch each chain with `PostprocessChain`, build, insert and join: the result is exactly `FinalPayload`, failures included. |
| `Assembly.FinalPayloadShape` | examples/secconquals2016_ropsynth/solve.py:171-178 | For the three chains, the payload is `open ++ read ++ (le64(mov) ++ sol[mov]) ++ write`. Its length is the sum of the parts, with 8 bytes for the address. |
| `Assembly.FinalPayloadSucceeds` | examples/secconquals2016_ropsynth/solve.py:162-178 | Assume every chain's `stack_change ≥ 8`. The payload is produced exactly when every chain gadget is known, every payload fits its gadgets' windows, and a move gadget exists with a 64-bit address and a solution. An unknown gadget fails validation first. |
| `Assembly.GetGadgets` | examples/secconquals2016_ropsynth/solve.py:69-179 | One round: a recovery failure stops the round. Otherwise the image is `RecoverAll`'s and the payload is `FinalPayload` over the round's own table. |
| `Base.JoinLength` | examples/secconquals2016_ropsynth/solve.py:178 | The length of `"".join(parts)` is the sum of the parts' lengths. |

## Left out

- angr project loading, CFG recovery and path exploration (solve.py:74-108) are not modelled. Each function arrives with its block count and the unconstrained paths exploration produced. In the solver a function is explored after the earlier functions' `ret` patches (solve.py:141), so the patched image can affect later explorations; precomputed results do not capture that.
- claripy is not modelled: the symbolic stack words, leaf extraction and sorting by variable name (solve.py:95-96, 112-115), and the solver's `any_str` (solve.py:135). A path carries its guard leaves' variable sets, in sorted order, and the solved bytes.
- angrop's gadget discovery, `do_syscall` synthesis and the `reg_moves` search (solve.py:147-158, 171) are not modelled. Chains arrive as gadget lists with stack changes plus a payload. The move gadget arrives as an optional address, and its absence is the StopIteration failure.
- The synthesizer's dependence on the patched image is not captured: `Assembly.GetGadgets` takes the synthesized chains as a parameter.
- Base64 decoding and encoding, reading `nop.elf`, the template substitution and writing `gadgets.elf` (solve.py:27, 33-36) are library calls and file I/O. The `print`s are output only.
- The `test()` protocol loop over five rounds is pipe I/O (solve.py:181-215): framing reads, `time.sleep`, the status and flag checks. Each round is one `GetGadgets` call, which starts from an empty table.
- `clear_cache()` (solve.py:142) is an engine side effect with no observable logic here.
- Recovery.LoadedImage.WriteByte: the image is a map from mapped addresses to bytes. A write outside it is reported as a failure, standing for the loader's refusal; the loader's exact exception is not modelled.
- Sanitize.Replace: Python's `str.replace` with an empty pattern is not modelled. The solver only uses non-empty constant patterns.
- Stitch.StitchedFails, Stitch.StitchGadgetsFailsIff, Stitch.StitchedLength, Stitch.StitchRoundTrip, Stitch.UnstitchGadgetsInverse, Stitch.SolutionPlaced, Stitch.SolutionPlacedGadgets and Assembly.FinalPayloadSucceeds assume `stack_change >= 8` for every gadget; all but the first two also assume an exact payload length. A gadget with a smaller stack change makes Python slice from the end of the payload, so a longer payload can still pass the final assertion. A too-short payload is silently truncated by Python slicing. `Stitched` models that truncation, but these properties are not claimed for it.
