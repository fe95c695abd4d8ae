/** The byte clean-up `make_elf` applies to the received gadget bytes before
    they are embedded in the template ELF: runs of `hlt` become runs of
    `int3`, a `hlt` right after a `ret` becomes `int3`, and the result is
    padded with `int3` to one page. */
module Sanitize {
  import opened Base

  const HLT: byte := 0xF4
  const INT3: byte := 0xCC
  const PageSize: nat := 4096
  /** The loop runs `for i in reversed(range(2, 20))`: run lengths 19 down to 2. */
  const LongestRun: nat := 19

  /** Python's `s.replace(pat, rep)`: scan from the left, replace every
      non-overlapping occurrence of `pat`. */
  function Replace(s: seq<byte>, pat: seq<byte>, rep: seq<byte>): seq<byte>
    requires |pat| > 0
    decreases |s|
  {
    if |s| < |pat| then s
    else if s[..|pat|] == pat then rep + Replace(s[|pat|..], pat, rep)
    else [s[0]] + Replace(s[1..], pat, rep)
  }

  /** Python's `s.ljust(width, fill)`. */
  function LJust(s: seq<byte>, width: nat, fill: byte): seq<byte>
  {
    if |s| >= width then s else s + Repeat(fill, width - |s|)
  }

  /** The `hlt`-run substitutions for run lengths `n` down to 2, in that order. */
  function ReplaceRuns(s: seq<byte>, n: nat): seq<byte>
    decreases n
  {
    if n < 2 then s
    else ReplaceRuns(Replace(s, Repeat(HLT, n), Repeat(INT3, n)), n - 1)
  }

  /** The bytes `make_elf` builds from the decoded gadget bytes. */
  function Sanitized(gadgets: seq<byte>): seq<byte>
  {
    LJust(Replace(ReplaceRuns(gadgets, LongestRun), [RET, HLT], [RET, INT3]), PageSize, INT3)
  }

  /** `b` is `a` with some `hlt` bytes turned into `int3` and nothing else changed. */
  ghost predicate OnlyHltToInt3(a: seq<byte>, b: seq<byte>)
  {
    |a| == |b| && forall i :: 0 <= i < |a| ==> a[i] == b[i] || (a[i] == HLT && b[i] == INT3)
  }

  /** No byte `x` is directly followed by a byte `y` in `s`. */
  ghost predicate NoPair(s: seq<byte>, x: byte, y: byte)
  {
    forall i :: 0 <= i < |s| - 1 ==> !(s[i] == x && s[i + 1] == y)
  }

  lemma OnlyHltToInt3Trans(a: seq<byte>, b: seq<byte>, c: seq<byte>)
    requires OnlyHltToInt3(a, b) && OnlyHltToInt3(b, c)
    ensures OnlyHltToInt3(a, c)
  {
  }

  lemma OnlyHltToInt3Concat(a1: seq<byte>, b1: seq<byte>, a2: seq<byte>, b2: seq<byte>)
    requires OnlyHltToInt3(a1, b1) && OnlyHltToInt3(a2, b2)
    ensures OnlyHltToInt3(a1 + a2, b1 + b2)
  {
    forall i | 0 <= i < |a1 + a2|
      ensures (a1 + a2)[i] == (b1 + b2)[i] || ((a1 + a2)[i] == HLT && (b1 + b2)[i] == INT3)
    {
      if i >= |a1| {
        assert (a1 + a2)[i] == a2[i - |a1|] && (b1 + b2)[i] == b2[i - |a1|];
      }
    }
  }

  /** A replacement whose pattern and replacement only differ by `hlt` turned
      into `int3` changes the whole string in that way only. */
  lemma {:induction false} ReplaceOnlyHltToInt3(s: seq<byte>, pat: seq<byte>, rep: seq<byte>)
    requires |pat| > 0 && OnlyHltToInt3(pat, rep)
    ensures OnlyHltToInt3(s, Replace(s, pat, rep))
    decreases |s|
  {
    if |s| < |pat| {
    } else if s[..|pat|] == pat {
      ReplaceOnlyHltToInt3(s[|pat|..], pat, rep);
      OnlyHltToInt3Concat(s[..|pat|], rep, s[|pat|..], Replace(s[|pat|..], pat, rep));
      assert s == s[..|pat|] + s[|pat|..];
    } else {
      ReplaceOnlyHltToInt3(s[1..], pat, rep);
      OnlyHltToInt3Concat([s[0]], [s[0]], s[1..], Replace(s[1..], pat, rep));
      assert s == [s[0]] + s[1..];
    }
  }

  /** The first byte of a two-byte replacement's result: the replacement's
      first byte if the pattern starts the input, else the input's first byte. */
  lemma ReplaceHead(s: seq<byte>, x: byte, y: byte, rep: seq<byte>)
    requires |s| > 0 && |rep| == 2
    ensures |Replace(s, [x, y], rep)| > 0
    ensures Replace(s, [x, y], rep)[0] ==
            if |s| >= 2 && s[0] == x && s[1] == y then rep[0] else s[0]
  {
    if |s| >= 2 && s[0] == x && s[1] == y {
      assert s[..2] == [x, y];
    } else if |s| >= 2 {
      assert s[..2] != [x, y];
    }
  }

  /** Replacing the pair `x y` by `p q` leaves no `x y` pair behind, as long
      as the replacement cannot form a new one with its neighbours. */
  lemma {:induction false} ReplacePairRemovesPair(s: seq<byte>, x: byte, y: byte, p: byte, q: byte)
    requires p != y && q != x && q != y
    ensures NoPair(Replace(s, [x, y], [p, q]), x, y)
    decreases |s|
  {
    var r := Replace(s, [x, y], [p, q]);
    if |s| < 2 {
    } else if s[..2] == [x, y] {
      var t := s[2..];
      var rt := Replace(t, [x, y], [p, q]);
      ReplacePairRemovesPair(t, x, y, p, q);
      assert r == [p, q] + rt;
      forall i | 0 <= i < |r| - 1 ensures !(r[i] == x && r[i + 1] == y) {
        if i >= 2 {
          assert r[i] == rt[i - 2] && r[i + 1] == rt[i - 1];
        }
      }
    } else {
      var t := s[1..];
      var rt := Replace(t, [x, y], [p, q]);
      ReplacePairRemovesPair(t, x, y, p, q);
      assert r == [s[0]] + rt;
      forall i | 0 <= i < |r| - 1 ensures !(r[i] == x && r[i + 1] == y) {
        if i == 0 {
          ReplaceHead(t, x, y, [p, q]);
          if s[0] == x {
            assert s[1] != y by { assert s[..2] == [s[0], s[1]]; }
          }
        } else {
          assert r[i] == rt[i - 1] && r[i + 1] == rt[i];
        }
      }
    }
  }

  lemma NoPairKept(a: seq<byte>, b: seq<byte>, x: byte, y: byte)
    requires OnlyHltToInt3(a, b) && NoPair(a, x, y) && x == HLT && y == HLT
    ensures NoPair(b, x, y)
  {
  }

  /** Each step of the run loop only turns `hlt` into `int3`. */
  lemma {:induction false} ReplaceRunsOnlyHltToInt3(s: seq<byte>, n: nat)
    ensures OnlyHltToInt3(s, ReplaceRuns(s, n))
    decreases n
  {
    if n >= 2 {
      var s' := Replace(s, Repeat(HLT, n), Repeat(INT3, n));
      ReplaceOnlyHltToInt3(s, Repeat(HLT, n), Repeat(INT3, n));
      ReplaceRunsOnlyHltToInt3(s', n - 1);
      OnlyHltToInt3Trans(s, s', ReplaceRuns(s', n - 1));
    }
  }

  /** After the run loop has reached length 2, no two `hlt` bytes are adjacent. */
  lemma {:induction false} ReplaceRunsNoAdjacentHlt(s: seq<byte>, n: nat)
    requires n >= 2
    ensures NoPair(ReplaceRuns(s, n), HLT, HLT)
    decreases n
  {
    var s' := Replace(s, Repeat(HLT, n), Repeat(INT3, n));
    if n == 2 {
      assert Repeat(HLT, 2) == [HLT, HLT] && Repeat(INT3, 2) == [INT3, INT3];
      ReplacePairRemovesPair(s, HLT, HLT, INT3, INT3);
      assert ReplaceRuns(s', 1) == s';
    } else {
      ReplaceRunsNoAdjacentHlt(s', n - 1);
    }
  }

  /** Padding keeps the input as a prefix and fills up to `width` with `fill`. */
  lemma LJustShape(s: seq<byte>, width: nat, fill: byte)
    ensures |LJust(s, width, fill)| == if |s| >= width then |s| else width
    ensures LJust(s, width, fill)[..|s|] == s
    ensures forall i :: |s| <= i < |LJust(s, width, fill)| ==> LJust(s, width, fill)[i] == fill
  {
  }

  /** What `make_elf` guarantees about the page it builds from `gadgets`:
      the page is `max(|gadgets|, 4096)` bytes long; its first `|gadgets|`
      bytes are the gadgets with some `hlt` turned into `int3` and no other
      change; the rest is `int3`; and nowhere do two `hlt` bytes, or a `ret`
      and a `hlt`, follow each other. */
  lemma SanitizedProperties(gadgets: seq<byte>)
    ensures |Sanitized(gadgets)| == if |gadgets| >= PageSize then |gadgets| else PageSize
    ensures OnlyHltToInt3(gadgets, Sanitized(gadgets)[..|gadgets|])
    ensures forall i :: |gadgets| <= i < |Sanitized(gadgets)| ==> Sanitized(gadgets)[i] == INT3
    ensures NoPair(Sanitized(gadgets), HLT, HLT)
    ensures NoPair(Sanitized(gadgets), RET, HLT)
  {
    var runs := ReplaceRuns(gadgets, LongestRun);
    var fixed := Replace(runs, [RET, HLT], [RET, INT3]);
    ReplaceRunsOnlyHltToInt3(gadgets, LongestRun);
    ReplaceRunsNoAdjacentHlt(gadgets, LongestRun);
    ReplaceOnlyHltToInt3(runs, [RET, HLT], [RET, INT3]);
    OnlyHltToInt3Trans(gadgets, runs, fixed);
    NoPairKept(runs, fixed, HLT, HLT);
    ReplacePairRemovesPair(runs, RET, HLT, RET, INT3);
    LJustShape(fixed, PageSize, INT3);
    var out := Sanitized(gadgets);
    forall i | 0 <= i < |out| - 1 ensures !(out[i] == HLT && out[i + 1] == HLT) && !(out[i] == RET && out[i + 1] == HLT) {
      if i + 1 < |fixed| {
        assert out[i] == fixed[i] && out[i + 1] == fixed[i + 1];
      } else {
        assert out[i + 1] == INT3;
      }
    }
  }

  /** The replace-and-pad part of `make_elf`, as the source runs it: the
      bytes are reassigned once per run length from 19 down to 2, then once
      for `ret hlt`, then padded. */
  method MakeElfBytes(gadgets: seq<byte>) returns (page: seq<byte>)
    ensures page == Sanitized(gadgets)
    ensures |page| == if |gadgets| >= PageSize then |gadgets| else PageSize
    ensures OnlyHltToInt3(gadgets, page[..|gadgets|])
    ensures NoPair(page, HLT, HLT) && NoPair(page, RET, HLT)
  {
    var bytes := gadgets;
    var i := LongestRun;
    while i >= 2
      invariant 1 <= i <= LongestRun
      invariant ReplaceRuns(bytes, i) == ReplaceRuns(gadgets, LongestRun)
      decreases i
    {
      bytes := Replace(bytes, Repeat(HLT, i), Repeat(INT3, i));
      i := i - 1;
    }
    bytes := Replace(bytes, [RET, HLT], [RET, INT3]);
    page := LJust(bytes, PageSize, INT3);
    SanitizedProperties(gadgets);
  }
}
