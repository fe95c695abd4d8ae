/** Shared vocabulary of the ropsynth solver model: bytes, the failures the
    solver can raise, and Python's slicing and byte-string helpers. */
module Base {

  /** One byte of a Python 2 byte string. */
  newtype byte = x: int | 0 <= x < 256

  /** The x86 `ret` opcode. */
  const RET: byte := 0xC3

  /** Every way a round of the solver can stop. Each constructor stands for
      the Python exception the solver raises at that point. */
  datatype Failure =
    | PayloadLeftover           // `assert len(payload) == 0` after stitching
    | MissingSolution(addr: int) // KeyError on `guard_solutions[addr]`
    | NoUnconstrainedPath       // IndexError on `pg.unconstrained[0]`
    | NoGuardVariables          // TypeError from `frozenset.union()` with no guard leaves
    | NoCheckRead               // ValueError from `min()` of no qualifying read
    | UnmappedPatch(addr: int)  // the loader refuses a write outside the image
    | UnrecognizedGadget        // the sanity `assert` over the synthesized chains
    | NoMoveGadget              // StopIteration from `next(...)` finding no `mov rdx, rax`
    | PackOutOfRange(value: int) // struct.error from `struct.pack("<Q", value)`

  /** The guard-solution table: guard-satisfying bytes per instruction address. */
  type Solutions = map<int, seq<byte>>

  datatype Result<T> = Ok(value: T) | Err(error: Failure)

  datatype Option<T> = None | Some(value: T)

  /** The index Python uses for a slice bound `n` on a sequence of length `len`:
      a negative bound counts from the end, and the result is clamped to the
      sequence. */
  function SliceIndex(n: int, len: nat): (k: nat)
    ensures k <= len
    ensures 0 <= n <= len ==> k == n
    ensures n > len ==> k == len
    ensures n < 0 ==> k == if n + len < 0 then 0 else n + len
  {
    if n < 0 then (if n + len < 0 then 0 else n + len)
    else if n > len then len
    else n
  }

  /** Python's `s[:n]`. */
  function PyTake<T>(s: seq<T>, n: int): seq<T>
  {
    s[..SliceIndex(n, |s|)]
  }

  /** Python's `s[n:]`. */
  function PyDrop<T>(s: seq<T>, n: int): seq<T>
  {
    s[SliceIndex(n, |s|)..]
  }

  /** `n` copies of one byte, Python's `c * n`. */
  function Repeat(c: byte, n: nat): (r: seq<byte>)
    ensures |r| == n
    ensures forall i :: 0 <= i < n ==> r[i] == c
  {
    if n == 0 then [] else [c] + Repeat(c, n - 1)
  }

  /** Python's `"".join(parts)`. */
  function Join(parts: seq<seq<byte>>): seq<byte>
  {
    if parts == [] then [] else parts[0] + Join(parts[1..])
  }

  /** Python's `xs.insert(i, x)` for `0 <= i`: an index past the end appends. */
  function PyInsert<T>(xs: seq<T>, i: nat, x: T): (r: seq<T>)
    ensures |r| == |xs| + 1
    ensures i <= |xs| ==> r[i] == x && r[..i] == xs[..i] && r[i + 1..] == xs[i..]
    ensures i > |xs| ==> r == xs + [x]
  {
    if i <= |xs| then xs[..i] + [x] + xs[i..] else xs + [x]
  }

  /** The sum of the lengths of `parts`. */
  function TotalLength(parts: seq<seq<byte>>): nat
  {
    if parts == [] then 0 else |parts[0]| + TotalLength(parts[1..])
  }

  lemma {:induction false} JoinLength(parts: seq<seq<byte>>)
    ensures |Join(parts)| == TotalLength(parts)
  {
    if parts != [] {
      JoinLength(parts[1..]);
    }
  }
}
