/**
 * Kernel heap (kernel/mm/heap.c).
 *
 * The source threads every block of the arena on one address-ordered,
 * doubly linked list: each block starts with a 32-byte header holding its
 * size (header included), a free flag and the two links.  The model keeps
 * that list as a sequence of `(size, free)` blocks laid end to end from
 * `heap_start`; a block's address is the start plus the sizes before it,
 * and the pointer handed to callers is that address plus the header.
 * The live allocations are summarised as a map from data pointer to block
 * size, so that every operation can say which allocations it adds, resizes
 * or removes and that it leaves all others alone.
 */
module Heap {
  import opened Wrappers
  import Memory

  /** sizeof(heap_block_t): size, free flag (padded to 8), next, prev. */
  const HEADER: nat := 32
  /** A block is split only when it exceeds the request by more than this. */
  const SLACK: nat := 16
  const PAGE_SIZE: nat := Memory.PAGE_SIZE
  const U64: nat := Memory.U64
  /** Largest request whose header and rounding stay below 2^64. */
  const MAX_REQUEST: nat := U64 - HEADER - 8

  datatype Block = Block(size: nat, free: bool)

  // ---------------------------------------------------------------------
  // Sizes and addresses
  // ---------------------------------------------------------------------

  /** What a block contributes to a sum: its bytes, its bytes when in use, or one per block in use. */
  datatype Measure = Bytes | UsedBytes | UsedBlocks

  function Weight(b: Block, m: Measure): nat
  {
    match m
    case Bytes => b.size
    case UsedBytes => if b.free then 0 else b.size
    case UsedBlocks => if b.free then 0 else 1
  }

  /** The sum of the blocks' weights, taken from the back. */
  function Sum(bs: seq<Block>, m: Measure): nat
  {
    if bs == [] then 0 else Sum(bs[..|bs| - 1], m) + Weight(bs[|bs| - 1], m)
  }

  lemma {:induction false} SumConcat(x: seq<Block>, y: seq<Block>, m: Measure)
    ensures Sum(x + y, m) == Sum(x, m) + Sum(y, m)
    decreases |y|
  {
    if y == [] {
      assert x + y == x;
    } else {
      var y' := y[..|y| - 1];
      assert (x + y)[..|x + y| - 1] == x + y';
      assert (x + y)[|x + y| - 1] == y[|y| - 1];
      SumConcat(x, y', m);
    }
  }

  /** The bytes in use never exceed the bytes of the arena. */
  lemma {:induction false} UsedWithinTotal(bs: seq<Block>)
    ensures Sum(bs, UsedBytes) <= Sum(bs, Bytes)
    ensures Sum(bs, UsedBlocks) <= |bs|
    decreases |bs|
  {
    if bs != [] {
      UsedWithinTotal(bs[..|bs| - 1]);
    }
  }

  /** Address of block i of an arena that starts at a. */
  function Addr(a: nat, bs: seq<Block>, i: nat): nat
    requires i <= |bs|
  {
    a + Sum(bs[..i], Bytes)
  }

  lemma AddrNext(a: nat, bs: seq<Block>, i: nat)
    requires i < |bs|
    ensures Addr(a, bs, i + 1) == Addr(a, bs, i) + bs[i].size
  {
    assert bs[..i + 1][..i] == bs[..i];
  }

  lemma AddrEnd(a: nat, bs: seq<Block>)
    ensures Addr(a, bs, |bs|) == a + Sum(bs, Bytes)
  {
    assert bs[..|bs|] == bs;
  }

  /** Every block has a positive size, so addresses strictly increase. */
  ghost predicate Positive(bs: seq<Block>)
  {
    forall i :: 0 <= i < |bs| ==> bs[i].size > 0
  }

  /** Every block is at least as large as its header. */
  ghost predicate Sized(bs: seq<Block>)
  {
    forall i :: 0 <= i < |bs| ==> bs[i].size >= HEADER
  }

  /** No two neighbours are both free. */
  ghost predicate Coalesced(bs: seq<Block>)
  {
    forall i :: 0 <= i < |bs| - 1 ==> !(bs[i].free && bs[i + 1].free)
  }

  lemma {:induction false} AddrMono(a: nat, bs: seq<Block>, i: nat, j: nat)
    requires Positive(bs) && i < j <= |bs|
    ensures Addr(a, bs, i) + bs[i].size <= Addr(a, bs, j)
    decreases j - i
  {
    AddrNext(a, bs, i);
    if i + 1 < j {
      AddrMono(a, bs, i + 1, j);
    }
  }

  lemma AddrWithin(a: nat, bs: seq<Block>, i: nat)
    requires Positive(bs) && i < |bs|
    ensures a <= Addr(a, bs, i) && Addr(a, bs, i) + bs[i].size <= a + Sum(bs, Bytes)
  {
    AddrMono(a, bs, i, |bs|);
    AddrEnd(a, bs);
  }

  // ---------------------------------------------------------------------
  // The live allocations
  // ---------------------------------------------------------------------

  /** Data pointer to block size, for every block in use. */
  ghost function Allocs(a: nat, bs: seq<Block>): map<nat, nat>
    decreases |bs|
  {
    if bs == [] then map[]
    else
      var init := bs[..|bs| - 1];
      var b := bs[|bs| - 1];
      if b.free then Allocs(a, init)
      else Allocs(a, init)[a + Sum(init, Bytes) + HEADER := b.size]
  }

  lemma {:induction false} AllocsConcat(a: nat, x: seq<Block>, y: seq<Block>)
    ensures Allocs(a, x + y) == Allocs(a, x) + Allocs(a + Sum(x, Bytes), y)
    decreases |y|
  {
    if y == [] {
      assert x + y == x;
    } else {
      var y' := y[..|y| - 1];
      var b := y[|y| - 1];
      assert (x + y)[..|x + y| - 1] == x + y';
      assert (x + y)[|x + y| - 1] == b;
      AllocsConcat(a, x, y');
      SumConcat(x, y', Bytes);
    }
  }

  /** Every pointer of an arena at a lies past the first header and before the end plus a header. */
  lemma {:induction false} AllocsRange(a: nat, bs: seq<Block>, k: nat)
    requires k in Allocs(a, bs)
    ensures a + HEADER <= k
    ensures Positive(bs) ==> k < a + Sum(bs, Bytes) + HEADER
    decreases |bs|
  {
    var init := bs[..|bs| - 1];
    var b := bs[|bs| - 1];
    if k in Allocs(a, init) && (b.free || k != a + Sum(init, Bytes) + HEADER) {
      AllocsRange(a, init, k);
    }
  }

  /** A block in use is in the map under its pointer, with its size. */
  lemma AllocsAt(a: nat, bs: seq<Block>, i: nat)
    requires i < |bs| && !bs[i].free && bs[i].size > 0
    ensures Addr(a, bs, i) + HEADER in Allocs(a, bs)
    ensures Allocs(a, bs)[Addr(a, bs, i) + HEADER] == bs[i].size
  {
    var x := bs[..i + 1];
    var y := bs[i + 1..];
    assert bs == x + y;
    AllocsConcat(a, x, y);
    assert x[..|x| - 1] == bs[..i];
    AddrNext(a, bs, i);
    assert x == bs[..i + 1];
    var p := Addr(a, bs, i) + HEADER;
    if p in Allocs(a + Sum(x, Bytes), y) {
      AllocsRange(a + Sum(x, Bytes), y, p);
    }
  }

  /** Every pointer in the map is the pointer of a block in use. */
  lemma {:induction false} AllocsOnly(a: nat, bs: seq<Block>, k: nat) returns (i: nat)
    requires k in Allocs(a, bs)
    ensures i < |bs| && !bs[i].free && Addr(a, bs, i) + HEADER == k
    decreases |bs|
  {
    var init := bs[..|bs| - 1];
    var b := bs[|bs| - 1];
    if !b.free && k == a + Sum(init, Bytes) + HEADER {
      i := |bs| - 1;
    } else {
      i := AllocsOnly(a, init, k);
      assert init[..i] == bs[..i];
    }
  }

  // ---------------------------------------------------------------------
  // Replacing a run of blocks
  // ---------------------------------------------------------------------

  /** Blocks i..j of bs replaced by mid. */
  function Replace(bs: seq<Block>, i: nat, j: nat, mid: seq<Block>): seq<Block>
    requires i <= j <= |bs|
  {
    bs[..i] + mid + bs[j..]
  }

  lemma ReplaceSum(bs: seq<Block>, i: nat, j: nat, mid: seq<Block>, m: Measure)
    requires i <= j <= |bs|
    ensures Sum(Replace(bs, i, j, mid), m) + Sum(bs[i..j], m) == Sum(bs, m) + Sum(mid, m)
  {
    assert bs == bs[..i] + bs[i..j] + bs[j..];
    SumConcat(bs[..i] + bs[i..j], bs[j..], m);
    SumConcat(bs[..i], bs[i..j], m);
    SumConcat(bs[..i] + mid, bs[j..], m);
    SumConcat(bs[..i], mid, m);
  }

  lemma ReplacePositive(bs: seq<Block>, i: nat, j: nat, mid: seq<Block>)
    requires i <= j <= |bs| && Positive(bs) && Positive(mid)
    ensures Positive(Replace(bs, i, j, mid))
  {
    var r := Replace(bs, i, j, mid);
    forall k | 0 <= k < |r| ensures r[k].size > 0 {
      if k >= i + |mid| {
        assert r[k] == bs[k - i - |mid| + j];
      }
    }
  }

  lemma ReplaceSized(bs: seq<Block>, i: nat, j: nat, mid: seq<Block>)
    requires i <= j <= |bs| && Sized(bs) && Sized(mid)
    ensures Sized(Replace(bs, i, j, mid))
  {
    var r := Replace(bs, i, j, mid);
    forall k | 0 <= k < |r| ensures r[k].size >= HEADER {
      if k >= i + |mid| {
        assert r[k] == bs[k - i - |mid| + j];
      }
    }
  }

  /** The blocks before the replaced run keep their addresses. */
  lemma ReplaceAddr(a: nat, bs: seq<Block>, i: nat, j: nat, mid: seq<Block>, k: nat)
    requires i <= j <= |bs| && k <= i
    ensures Addr(a, Replace(bs, i, j, mid), k) == Addr(a, bs, k)
  {
    assert Replace(bs, i, j, mid)[..k] == bs[..k];
  }

  lemma AllocsConcat3(a: nat, s: seq<Block>, x: seq<Block>, m: seq<Block>, y: seq<Block>)
    requires s == x + m + y
    ensures Allocs(a, s)
         == Allocs(a, x) + Allocs(a + Sum(x, Bytes), m) + Allocs(a + Sum(x, Bytes) + Sum(m, Bytes), y)
  {
    var xm := x + m;
    SumConcat(x, m, Bytes);
    var c := a + Sum(xm, Bytes);
    assert c == a + Sum(x, Bytes) + Sum(m, Bytes);
    AllocsConcat(a, xm, y);
    AllocsConcat(a, x, m);
  }

  /**
   * The live allocations outside the replaced run are untouched: the map is
   * the part before, the replacement's own part, and the part after.
   */
  lemma AllocsReplace(a: nat, bs: seq<Block>, i: nat, j: nat, mid: seq<Block>)
    requires i <= j <= |bs| && Sum(mid, Bytes) == Sum(bs[i..j], Bytes)
    ensures Allocs(a, Replace(bs, i, j, mid))
         == Allocs(a, bs[..i]) + Allocs(Addr(a, bs, i), mid) + Allocs(Addr(a, bs, j), bs[j..])
    ensures Allocs(a, bs)
         == Allocs(a, bs[..i]) + Allocs(Addr(a, bs, i), bs[i..j]) + Allocs(Addr(a, bs, j), bs[j..])
  {
    AddrSplit(a, bs, i, j);
    AllocsConcat3(a, Replace(bs, i, j, mid), bs[..i], mid, bs[j..]);
    AllocsSplit3(a, bs, i, j);
  }

  lemma AddrSplit(a: nat, bs: seq<Block>, i: nat, j: nat)
    requires i <= j <= |bs|
    ensures Addr(a, bs, j) == Addr(a, bs, i) + Sum(bs[i..j], Bytes)
  {
    assert bs[..j] == bs[..i] + bs[i..j];
    SumConcat(bs[..i], bs[i..j], Bytes);
  }

  lemma AllocsSplit3(a: nat, bs: seq<Block>, i: nat, j: nat)
    requires i <= j <= |bs|
    ensures Allocs(a, bs)
         == Allocs(a, bs[..i]) + Allocs(Addr(a, bs, i), bs[i..j]) + Allocs(Addr(a, bs, j), bs[j..])
  {
    var x, m, y := bs[..i], bs[i..j], bs[j..];
    assert bs == x + m + y;
    AddrSplit(a, bs, i, j);
    assert Addr(a, bs, i) == a + Sum(x, Bytes);
    assert Addr(a, bs, j) == a + Sum(x, Bytes) + Sum(m, Bytes);
    AllocsConcat3(a, bs, x, m, y);
  }


  /** Pointers of the blocks before i lie below block i's pointer. */
  lemma AllocsBelow(a: nat, bs: seq<Block>, i: nat, k: nat)
    requires i <= |bs| && Positive(bs) && k in Allocs(a, bs[..i])
    ensures k < Addr(a, bs, i) + HEADER
  {
    assert Positive(bs[..i]);
    AllocsRange(a, bs[..i], k);
  }

  /** Pointers of the blocks from j on lie at or above block j's pointer. */
  lemma AllocsAbove(a: nat, bs: seq<Block>, j: nat, k: nat)
    requires j <= |bs| && k in Allocs(Addr(a, bs, j), bs[j..])
    ensures Addr(a, bs, j) + HEADER <= k
  {
    AllocsRange(Addr(a, bs, j), bs[j..], k);
  }

  lemma UnionUpdate(x: map<nat, nat>, m: map<nat, nat>, m': map<nat, nat>, y: map<nat, nat>, p: nat, v: nat)
    requires m' == m[p := v] && p !in y
    ensures x + m' + y == (x + m + y)[p := v]
  {
  }

  lemma UnionRemove(x: map<nat, nat>, m: map<nat, nat>, m': map<nat, nat>, y: map<nat, nat>, p: nat)
    requires m' == m - {p} && p !in x && p !in y
    ensures x + m' + y == (x + m + y) - {p}
  {
  }

  lemma SumOne(b: Block, m: Measure)
    ensures Sum([b], m) == Weight(b, m)
  {
    assert [b][..0] == [];
  }

  lemma SumTwo(b: Block, c: Block, m: Measure)
    ensures Sum([b, c], m) == Weight(b, m) + Weight(c, m)
  {
    assert [b, c][..1] == [b];
    SumOne(b, m);
  }

  lemma AllocsOne(a: nat, b: Block)
    ensures Allocs(a, [b]) == if b.free then map[] else map[a + HEADER := b.size]
  {
    assert [b][..0] == [];
  }

  lemma AllocsTwo(a: nat, b: Block, c: Block)
    ensures Allocs(a, [b, c]) == if c.free then Allocs(a, [b]) else Allocs(a, [b])[a + b.size + HEADER := c.size]
  {
    assert [b, c][..1] == [b];
    SumOne(b, Bytes);
  }

  // ---------------------------------------------------------------------
  // The three list edits: split_block, marking, merging with the next block
  // ---------------------------------------------------------------------

  /** split_block: the first n bytes stay with the block, the rest become a new free block after it. */
  function Split(bs: seq<Block>, i: nat, n: nat): (r: seq<Block>)
    requires i < |bs| && 0 < n < bs[i].size
    ensures |r| == |bs| + 1
  {
    Replace(bs, i, i + 1, [Block(n, bs[i].free), Block(bs[i].size - n, true)])
  }

  /** Setting the free flag of block i. */
  function SetFree(bs: seq<Block>, i: nat, f: bool): (r: seq<Block>)
    requires i < |bs|
    ensures |r| == |bs|
  {
    Replace(bs, i, i + 1, [Block(bs[i].size, f)])
  }

  /** Block i absorbs block i + 1 and keeps its own flag. */
  function MergeNext(bs: seq<Block>, i: nat): (r: seq<Block>)
    requires i + 1 < |bs|
    ensures |r| == |bs| - 1
  {
    Replace(bs, i, i + 2, [Block(bs[i].size + bs[i + 1].size, bs[i].free)])
  }

  /** What a one-block replacement does to a sum. */
  lemma ReplaceOneSum(bs: seq<Block>, i: nat, mid: seq<Block>, m: Measure)
    requires i < |bs|
    ensures Sum(Replace(bs, i, i + 1, mid), m) + Weight(bs[i], m) == Sum(bs, m) + Sum(mid, m)
  {
    assert bs[i..i + 1] == [bs[i]];
    SumOne(bs[i], m);
    ReplaceSum(bs, i, i + 1, mid, m);
  }

  /** Splitting moves the cut-off part of block i into a new free block. */
  lemma SplitSum(bs: seq<Block>, i: nat, n: nat, m: Measure)
    requires i < |bs| && 0 < n < bs[i].size
    ensures Sum(Split(bs, i, n), m) + Weight(bs[i], m)
         == Sum(bs, m) + Weight(Block(n, bs[i].free), m) + Weight(Block(bs[i].size - n, true), m)
  {
    var mid := [Block(n, bs[i].free), Block(bs[i].size - n, true)];
    SumTwo(mid[0], mid[1], m);
    ReplaceOneSum(bs, i, mid, m);
  }

  lemma SplitPositive(bs: seq<Block>, i: nat, n: nat)
    requires i < |bs| && 0 < n < bs[i].size && Positive(bs)
    ensures Positive(Split(bs, i, n))
  {
    ReplacePositive(bs, i, i + 1, [Block(n, bs[i].free), Block(bs[i].size - n, true)]);
  }

  /**
   * Splitting changes the map of live allocations only when the split block
   * is in use, whose size drops to n; the split block keeps its address.
   */
  lemma SplitAllocs(a: nat, bs: seq<Block>, i: nat, n: nat)
    requires i < |bs| && 0 < n < bs[i].size
    ensures Allocs(a, Split(bs, i, n))
         == if bs[i].free then Allocs(a, bs) else Allocs(a, bs)[Addr(a, bs, i) + HEADER := n]
    ensures Addr(a, Split(bs, i, n), i) == Addr(a, bs, i)
  {
    var b := bs[i];
    var mid := [Block(n, b.free), Block(b.size - n, true)];
    assert bs[i..i + 1] == [b];
    SumOne(b, Bytes);
    SumTwo(mid[0], mid[1], Bytes);
    ReplaceAddr(a, bs, i, i + 1, mid, i);
    AllocsReplace(a, bs, i, i + 1, mid);
    var A := Addr(a, bs, i);
    AllocsOne(A, b);
    AllocsTwo(A, mid[0], mid[1]);
    AllocsOne(A, mid[0]);
    if !b.free {
      AddrNext(a, bs, i);
      if A + HEADER in Allocs(Addr(a, bs, i + 1), bs[i + 1..]) {
        AllocsAbove(a, bs, i + 1, A + HEADER);
      }
      UnionUpdate(Allocs(a, bs[..i]), Allocs(A, [b]), Allocs(A, mid), Allocs(Addr(a, bs, i + 1), bs[i + 1..]), A + HEADER, n);
    }
  }

  lemma SetFreeSum(bs: seq<Block>, i: nat, f: bool, m: Measure)
    requires i < |bs|
    ensures Sum(SetFree(bs, i, f), m) + Weight(bs[i], m) == Sum(bs, m) + Weight(Block(bs[i].size, f), m)
  {
    SumOne(Block(bs[i].size, f), m);
    ReplaceOneSum(bs, i, [Block(bs[i].size, f)], m);
  }

  lemma SetFreeShape(bs: seq<Block>, i: nat, f: bool)
    requires i < |bs|
    ensures forall k :: 0 <= k < |bs| && k != i ==> SetFree(bs, i, f)[k] == bs[k]
    ensures SetFree(bs, i, f)[i] == Block(bs[i].size, f)
    ensures Positive(bs) ==> Positive(SetFree(bs, i, f))
    ensures Sized(bs) ==> Sized(SetFree(bs, i, f))
  {
  }

  /** Marking a free block used adds its pointer, which was not live, with its size. */
  lemma ClaimAllocs(a: nat, bs: seq<Block>, i: nat)
    requires i < |bs| && bs[i].free && Positive(bs)
    ensures Addr(a, bs, i) + HEADER !in Allocs(a, bs)
    ensures Allocs(a, SetFree(bs, i, false)) == Allocs(a, bs)[Addr(a, bs, i) + HEADER := bs[i].size]
    ensures Addr(a, SetFree(bs, i, false), i) == Addr(a, bs, i)
  {
    var b := bs[i];
    var mid := [Block(b.size, false)];
    assert bs[i..i + 1] == [b];
    SumOne(b, Bytes);
    SumOne(mid[0], Bytes);
    ReplaceAddr(a, bs, i, i + 1, mid, i);
    AllocsReplace(a, bs, i, i + 1, mid);
    var A := Addr(a, bs, i);
    AllocsOne(A, b);
    AllocsOne(A, mid[0]);
    AddrNext(a, bs, i);
    if A + HEADER in Allocs(Addr(a, bs, i + 1), bs[i + 1..]) {
      AllocsAbove(a, bs, i + 1, A + HEADER);
    }
    if A + HEADER in Allocs(a, bs[..i]) {
      AllocsBelow(a, bs, i, A + HEADER);
    }
    UnionUpdate(Allocs(a, bs[..i]), Allocs(A, [b]), Allocs(A, mid), Allocs(Addr(a, bs, i + 1), bs[i + 1..]), A + HEADER, b.size);
  }

  /** Marking a block in use free removes its pointer and nothing else. */
  lemma ReleaseAllocs(a: nat, bs: seq<Block>, i: nat)
    requires i < |bs| && !bs[i].free && Positive(bs)
    ensures Allocs(a, SetFree(bs, i, true)) == Allocs(a, bs) - {Addr(a, bs, i) + HEADER}
  {
    var b := bs[i];
    var mid := [Block(b.size, true)];
    assert bs[i..i + 1] == [b];
    SumOne(b, Bytes);
    SumOne(mid[0], Bytes);
    AllocsReplace(a, bs, i, i + 1, mid);
    var A := Addr(a, bs, i);
    AllocsOne(A, b);
    AllocsOne(A, mid[0]);
    AddrNext(a, bs, i);
    if A + HEADER in Allocs(Addr(a, bs, i + 1), bs[i + 1..]) {
      AllocsAbove(a, bs, i + 1, A + HEADER);
    }
    if A + HEADER in Allocs(a, bs[..i]) {
      AllocsBelow(a, bs, i, A + HEADER);
    }
    UnionRemove(Allocs(a, bs[..i]), Allocs(A, [b]), Allocs(A, mid), Allocs(Addr(a, bs, i + 1), bs[i + 1..]), A + HEADER);
  }

  lemma MergeSum(bs: seq<Block>, i: nat, m: Measure)
    requires i + 1 < |bs|
    ensures Sum(MergeNext(bs, i), m) + Weight(bs[i], m) + Weight(bs[i + 1], m)
         == Sum(bs, m) + Weight(Block(bs[i].size + bs[i + 1].size, bs[i].free), m)
  {
    var mid := [Block(bs[i].size + bs[i + 1].size, bs[i].free)];
    assert bs[i..i + 2] == [bs[i], bs[i + 1]];
    SumTwo(bs[i], bs[i + 1], m);
    SumOne(mid[0], m);
    ReplaceSum(bs, i, i + 2, mid, m);
  }

  lemma MergeShape(bs: seq<Block>, i: nat)
    requires i + 1 < |bs|
    ensures forall k :: 0 <= k < i ==> MergeNext(bs, i)[k] == bs[k]
    ensures MergeNext(bs, i)[i] == Block(bs[i].size + bs[i + 1].size, bs[i].free)
    ensures forall k :: i < k < |bs| - 1 ==> MergeNext(bs, i)[k] == bs[k + 1]
    ensures Positive(bs) ==> Positive(MergeNext(bs, i))
    ensures Sized(bs) ==> Sized(MergeNext(bs, i))
  {
    var r := MergeNext(bs, i);
    forall k | i < k < |bs| - 1 ensures r[k] == bs[k + 1] {
      assert r[k] == bs[i + 2..][k - i - 1];
    }
  }

  /** The map before and after absorbing the next block, as three parts. */
  lemma MergeParts(a: nat, bs: seq<Block>, i: nat)
    requires i + 1 < |bs|
    ensures Allocs(a, MergeNext(bs, i))
         == Allocs(a, bs[..i]) + Allocs(Addr(a, bs, i), [Block(bs[i].size + bs[i + 1].size, bs[i].free)])
            + Allocs(Addr(a, bs, i + 2), bs[i + 2..])
    ensures Allocs(a, bs)
         == Allocs(a, bs[..i]) + Allocs(Addr(a, bs, i), [bs[i], bs[i + 1]]) + Allocs(Addr(a, bs, i + 2), bs[i + 2..])
    ensures Addr(a, MergeNext(bs, i), i) == Addr(a, bs, i)
  {
    var mid := [Block(bs[i].size + bs[i + 1].size, bs[i].free)];
    assert bs[i..i + 2] == [bs[i], bs[i + 1]];
    SumTwo(bs[i], bs[i + 1], Bytes);
    SumOne(mid[0], Bytes);
    ReplaceAddr(a, bs, i, i + 2, mid, i);
    AllocsReplace(a, bs, i, i + 2, mid);
  }

  /**
   * Absorbing a free next block changes the map only when block i is in
   * use, whose size grows by the next block's; block i keeps its address.
   */
  lemma MergeAllocs(a: nat, bs: seq<Block>, i: nat)
    requires i + 1 < |bs| && bs[i + 1].free && Positive(bs)
    ensures Allocs(a, MergeNext(bs, i))
         == if bs[i].free then Allocs(a, bs) else Allocs(a, bs)[Addr(a, bs, i) + HEADER := bs[i].size + bs[i + 1].size]
    ensures Addr(a, MergeNext(bs, i), i) == Addr(a, bs, i)
  {
    MergeParts(a, bs, i);
    var b, c := bs[i], bs[i + 1];
    var A := Addr(a, bs, i);
    AllocsTwo(A, b, c);
    AllocsOne(A, b);
    AllocsOne(A, Block(b.size + c.size, b.free));
    if !b.free {
      MergeUsedAllocs(a, bs, i);
    }
  }

  lemma MergeUsedAllocs(a: nat, bs: seq<Block>, i: nat)
    requires i + 1 < |bs| && bs[i + 1].free && !bs[i].free && Positive(bs)
    requires Allocs(a, MergeNext(bs, i))
          == Allocs(a, bs[..i]) + map[Addr(a, bs, i) + HEADER := bs[i].size + bs[i + 1].size]
             + Allocs(Addr(a, bs, i + 2), bs[i + 2..])
    requires Allocs(a, bs)
          == Allocs(a, bs[..i]) + map[Addr(a, bs, i) + HEADER := bs[i].size] + Allocs(Addr(a, bs, i + 2), bs[i + 2..])
    ensures Allocs(a, MergeNext(bs, i)) == Allocs(a, bs)[Addr(a, bs, i) + HEADER := bs[i].size + bs[i + 1].size]
  {
    var p := Addr(a, bs, i) + HEADER;
    AddrNext(a, bs, i);
    AddrNext(a, bs, i + 1);
    if p in Allocs(Addr(a, bs, i + 2), bs[i + 2..]) {
      AllocsAbove(a, bs, i + 2, p);
    }
    UnionUpdate(Allocs(a, bs[..i]), map[p := bs[i].size], map[p := bs[i].size + bs[i + 1].size],
      Allocs(Addr(a, bs, i + 2), bs[i + 2..]), p, bs[i].size + bs[i + 1].size);
  }

  lemma SplitShape(bs: seq<Block>, i: nat, n: nat)
    requires i < |bs| && 0 < n < bs[i].size
    ensures forall k :: 0 <= k < i ==> Split(bs, i, n)[k] == bs[k]
    ensures Split(bs, i, n)[i] == Block(n, bs[i].free)
    ensures Split(bs, i, n)[i + 1] == Block(bs[i].size - n, true)
    ensures forall k :: i + 1 < k < |bs| + 1 ==> Split(bs, i, n)[k] == bs[k - 1]
    ensures Sized(bs) && n >= HEADER && bs[i].size - n >= HEADER ==> Sized(Split(bs, i, n))
  {
    var r := Split(bs, i, n);
    forall k | i + 1 < k < |bs| + 1 ensures r[k] == bs[k - 1] {
      assert r[k] == bs[i + 1..][k - i - 2];
    }
  }

  // ---------------------------------------------------------------------
  // Alignment arithmetic
  // ---------------------------------------------------------------------

  /** Multiples of a that are at least a. */
  lemma {:induction false} MulGe(c: nat, a: nat)
    requires c >= 1
    ensures c * a >= a
  {
    if c > 1 {
      MulGe(c - 1, a);
      assert c * a == (c - 1) * a + a;
    }
  }

  /** The only multiple of a in [0, a) is 0. */
  lemma MulSmall(c: int, a: nat)
    requires a > 0 && 0 <= c * a < a
    ensures c == 0
  {
    if c >= 1 {
      MulGe(c, a);
    }
  }

  lemma MulMod(k: nat, a: nat)
    requires a > 0
    ensures (k * a) % a == 0
  {
    var m := k * a;
    assert m == (m / a) * a + m % a;
    assert (k - m / a) * a == m % a;
    MulSmall(k - m / a, a);
  }

  /** `(x + a - 1) & ~(a - 1)`: x rounded up to a multiple of the power of two a. */
  function AlignUp(x: nat, a: nat): (r: nat)
    requires a > 0
    ensures r % a == 0 && x <= r < x + a
  {
    var q := (x + a - 1) / a;
    MulMod(q, a);
    assert q * a + (x + a - 1) % a == x + a - 1;
    q * a
  }

  lemma ModOfDiff(d: nat, r: nat, a: nat)
    requires a > 0 && r % a == 0 && d <= r < d + a
    ensures (r == d) <==> d % a == 0
  {
    if d % a == 0 && r != d {
      var q1 := r / a; var q2 := d / a;
      assert r == q1 * a && d == q2 * a;
      assert (q1 - q2) * a == r - d;
      MulSmall(q1 - q2, a);
    }
  }

  /** Bytes from d up to the next multiple of a. */
  function Padding(d: nat, a: nat): (r: nat)
    requires a > 0
    ensures r < a && (d + r) % a == 0
    ensures r == 0 <==> d % a == 0
  {
    ModOfDiff(d, AlignUp(d, a), a);
    AlignUp(d, a) - d
  }

  predicate IsPow2(a: nat)
    decreases a
  {
    a == 1 || (a > 1 && a % 2 == 0 && IsPow2(a / 2))
  }

  /** kmalloc's request: the size plus a header, rounded up to 8 bytes. */
  function Request(size: nat): (r: nat)
    ensures size + HEADER <= r < size + HEADER + 8 && r % 8 == 0
  {
    AlignUp(size + HEADER, 8)
  }

  // ---------------------------------------------------------------------
  // First fit
  // ---------------------------------------------------------------------

  /**
   * find_free_block's condition: the block is free and holds need bytes, and for
   * an alignment above one also the padding that aligns its data pointer.
   */
  predicate Fits(addr: nat, b: Block, need: nat, align: nat)
  {
    b.free && b.size >= need && (align > 1 ==> b.size >= need + Padding(addr + HEADER, align))
  }

  /** The first block from index `from` on that fits, or |bs| when none does. */
  function FirstFit(a: nat, bs: seq<Block>, need: nat, align: nat, from: nat): (r: nat)
    requires from <= |bs|
    ensures from <= r <= |bs|
    ensures r < |bs| ==> Fits(Addr(a, bs, r), bs[r], need, align)
    ensures forall k :: from <= k < r ==> !Fits(Addr(a, bs, k), bs[k], need, align)
    decreases |bs| - from
  {
    if from == |bs| then |bs|
    else if Fits(Addr(a, bs, from), bs[from], need, align) then from
    else FirstFit(a, bs, need, align, from + 1)
  }

  /** The block whose header sits at addr, searching from index `from`. */
  function IndexOf(a: nat, bs: seq<Block>, addr: nat, from: nat): (r: Option<nat>)
    requires from <= |bs|
    ensures r.Some? ==> from <= r.value < |bs| && Addr(a, bs, r.value) == addr
    ensures r.None? ==> forall k :: from <= k < |bs| ==> Addr(a, bs, k) != addr
    decreases |bs| - from
  {
    if from == |bs| then None
    else if Addr(a, bs, from) == addr then Some(from)
    else IndexOf(a, bs, addr, from + 1)
  }

  /** With positive sizes a header address names at most one block. */
  lemma IndexOfUnique(a: nat, bs: seq<Block>, i: nat)
    requires Positive(bs) && i < |bs|
    ensures IndexOf(a, bs, Addr(a, bs, i), 0) == Some(i)
  {
    var r := IndexOf(a, bs, Addr(a, bs, i), 0);
    if r.Some? && r.value != i {
      if r.value < i {
        AddrMono(a, bs, r.value, i);
      } else {
        AddrMono(a, bs, i, r.value);
      }
    }
  }

  /** A pointer is live exactly when its header names a block in use. */
  lemma LiveIff(a: nat, bs: seq<Block>, p: nat)
    requires Positive(bs)
    ensures p in Allocs(a, bs) <==>
      p >= HEADER && IndexOf(a, bs, p - HEADER, 0).Some? && !bs[IndexOf(a, bs, p - HEADER, 0).value].free
  {
    if p in Allocs(a, bs) {
      LiveHasBlock(a, bs, p);
    }
    if p >= HEADER && IndexOf(a, bs, p - HEADER, 0).Some? {
      var i := IndexOf(a, bs, p - HEADER, 0).value;
      if !bs[i].free {
        AllocsAt(a, bs, i);
      }
    }
  }

  lemma LiveHasBlock(a: nat, bs: seq<Block>, p: nat)
    requires Positive(bs) && p in Allocs(a, bs)
    ensures p >= HEADER && IndexOf(a, bs, p - HEADER, 0).Some? && !bs[IndexOf(a, bs, p - HEADER, 0).value].free
  {
    var i := AllocsOnly(a, bs, p);
    IndexOfUnique(a, bs, i);
  }


  // ---------------------------------------------------------------------
  // Taking a free block, and freeing one
  // ---------------------------------------------------------------------

  /** No two neighbours are both free, except possibly block i with a neighbour. */
  ghost predicate CoalescedBut(bs: seq<Block>, i: nat)
  {
    forall k :: 0 <= k < |bs| - 1 && k != i && k + 1 != i ==> !(bs[k].free && bs[k + 1].free)
  }

  /**
   * The allocation step shared by kmalloc, kmalloc_aligned and krealloc:
   * block i is split at n when it is larger than limit, and its first part
   * is marked in use.
   */
  function Claim(bs: seq<Block>, i: nat, n: nat, limit: nat): (r: seq<Block>)
    requires i < |bs| && 0 < n <= limit
  {
    if bs[i].size > limit then SetFree(Split(bs, i, n), i, false) else SetFree(bs, i, false)
  }

  /** The size of the claimed block. */
  function Claimed(b: Block, n: nat, limit: nat): nat
  {
    if b.size > limit then n else b.size
  }

  /** Claiming a free block makes its pointer live with the claimed size and touches no other allocation. */
  lemma ClaimLive(a: nat, bs: seq<Block>, i: nat, n: nat, limit: nat)
    requires i < |bs| && 0 < n <= limit && bs[i].free && Positive(bs)
    ensures Addr(a, bs, i) + HEADER !in Allocs(a, bs)
    ensures Allocs(a, Claim(bs, i, n, limit)) == Allocs(a, bs)[Addr(a, bs, i) + HEADER := Claimed(bs[i], n, limit)]
    ensures Addr(a, Claim(bs, i, n, limit), i) == Addr(a, bs, i)
    ensures Claim(bs, i, n, limit)[i] == Block(Claimed(bs[i], n, limit), false)
  {
    ClaimAllocs(a, bs, i);
    if bs[i].size > limit {
      var bs1 := Split(bs, i, n);
      SplitAllocs(a, bs, i, n);
      SplitPositive(bs, i, n);
      SplitShape(bs, i, n);
      ClaimAllocs(a, bs1, i);
    }
  }

  /** Claiming keeps the arena's size and adds one block in use and its bytes. */
  lemma ClaimSums(bs: seq<Block>, i: nat, n: nat, limit: nat)
    requires i < |bs| && 0 < n <= limit && bs[i].free && Positive(bs)
    ensures Positive(Claim(bs, i, n, limit))
    ensures Sum(Claim(bs, i, n, limit), Bytes) == Sum(bs, Bytes)
    ensures Sum(Claim(bs, i, n, limit), UsedBlocks) == Sum(bs, UsedBlocks) + 1
    ensures Sum(Claim(bs, i, n, limit), UsedBytes) == Sum(bs, UsedBytes) + Claimed(bs[i], n, limit)
  {
    if bs[i].size > limit {
      var bs1 := Split(bs, i, n);
      SplitSum(bs, i, n, Bytes); SplitSum(bs, i, n, UsedBlocks); SplitSum(bs, i, n, UsedBytes);
      SplitPositive(bs, i, n);
      SplitShape(bs, i, n);
      SetFreeSum(bs1, i, false, Bytes); SetFreeSum(bs1, i, false, UsedBlocks); SetFreeSum(bs1, i, false, UsedBytes);
      SetFreeShape(bs1, i, false);
    } else {
      SetFreeSum(bs, i, false, Bytes); SetFreeSum(bs, i, false, UsedBlocks); SetFreeSum(bs, i, false, UsedBytes);
      SetFreeShape(bs, i, false);
    }
  }

  /** Block i may be claimed without leaving two free neighbours. */
  ghost predicate Ready(bs: seq<Block>, i: nat)
  {
    CoalescedBut(bs, i) && (i + 1 < |bs| ==> !bs[i + 1].free)
  }

  /** Everything Take needs to know about claiming block i. */
  lemma ClaimFacts(a: nat, bs: seq<Block>, i: nat, n: nat, limit: nat)
    requires i < |bs| && 0 < n <= limit && bs[i].free && Positive(bs)
    ensures Addr(a, bs, i) + HEADER !in Allocs(a, bs)
    ensures Allocs(a, Claim(bs, i, n, limit)) == Allocs(a, bs)[Addr(a, bs, i) + HEADER := Claimed(bs[i], n, limit)]
    ensures Claim(bs, i, n, limit)[i] == Block(Claimed(bs[i], n, limit), false)
    ensures Addr(a, Claim(bs, i, n, limit), i) == Addr(a, bs, i)
    ensures Positive(Claim(bs, i, n, limit))
    ensures Sum(Claim(bs, i, n, limit), Bytes) == Sum(bs, Bytes)
    ensures Sum(Claim(bs, i, n, limit), UsedBlocks) == Sum(bs, UsedBlocks) + 1
    ensures Sum(Claim(bs, i, n, limit), UsedBytes) == Sum(bs, UsedBytes) + Claimed(bs[i], n, limit)
    ensures Sum(Claim(bs, i, n, limit), UsedBytes) <= Sum(bs, Bytes)
    ensures Ready(bs, i) ==> Coalesced(Claim(bs, i, n, limit))
    ensures Sized(bs) && n >= HEADER && limit >= n + HEADER ==> Sized(Claim(bs, i, n, limit))
  {
    ClaimLive(a, bs, i, n, limit);
    ClaimSums(bs, i, n, limit);
    UsedWithinTotal(Claim(bs, i, n, limit));
    if Ready(bs, i) {
      ClaimCoalesced(bs, i, n, limit);
    }
    if Sized(bs) && n >= HEADER && limit >= n + HEADER {
      ClaimSized(bs, i, n, limit);
    }
  }

  lemma CoalescedReady(bs: seq<Block>, i: nat)
    requires i < |bs| && bs[i].free && Coalesced(bs)
    ensures Ready(bs, i)
  {
  }

  /**
   * Claiming a free block whose next block is in use leaves no two free
   * neighbours: the split-off remainder sits before that block.
   */
  lemma ClaimCoalesced(bs: seq<Block>, i: nat, n: nat, limit: nat)
    requires i < |bs| && 0 < n <= limit && bs[i].free
    requires Ready(bs, i)
    ensures Coalesced(Claim(bs, i, n, limit))
  {
    var r := Claim(bs, i, n, limit);
    if bs[i].size > limit {
      var bs1 := Split(bs, i, n);
      SplitShape(bs, i, n);
      SetFreeShape(bs1, i, false);
      forall k | 0 <= k < |r| - 1 ensures !(r[k].free && r[k + 1].free) {
        if k > i + 1 {
          assert r[k] == bs[k - 1] && r[k + 1] == bs[k];
        }
      }
    } else {
      SetFreeShape(bs, i, false);
    }
  }

  /** Claiming keeps every block at least a header long when both parts are. */
  lemma ClaimSized(bs: seq<Block>, i: nat, n: nat, limit: nat)
    requires i < |bs| && 0 < n <= limit && Sized(bs)
    requires n >= HEADER && limit >= n + HEADER
    ensures Sized(Claim(bs, i, n, limit))
  {
    if bs[i].size > limit {
      SplitShape(bs, i, n);
      SetFreeShape(Split(bs, i, n), i, false);
    } else {
      SetFreeShape(bs, i, false);
    }
  }

  /** merge_adjacent_blocks: block i absorbs a free next block, then a free previous block absorbs it. */
  function MergeAround(bs: seq<Block>, i: nat): (r: seq<Block>)
    requires i < |bs|
  {
    var b1 := if i + 1 < |bs| && bs[i + 1].free then MergeNext(bs, i) else bs;
    if 0 < i && b1[i - 1].free then MergeNext(b1, i - 1) else b1
  }

  /** Merging two free neighbours keeps the allocations, the sums and the sizes' bounds. */
  lemma MergeFree(a: nat, bs: seq<Block>, i: nat)
    requires i + 1 < |bs| && bs[i].free && bs[i + 1].free && Positive(bs)
    ensures Allocs(a, MergeNext(bs, i)) == Allocs(a, bs)
    ensures Positive(MergeNext(bs, i)) && MergeNext(bs, i)[i].free
    ensures Sized(bs) ==> Sized(MergeNext(bs, i))
    ensures forall m :: Sum(MergeNext(bs, i), m) == Sum(bs, m)
  {
    MergeAllocs(a, bs, i);
    MergeShape(bs, i);
    forall m ensures Sum(MergeNext(bs, i), m) == Sum(bs, m) {
      MergeSum(bs, i, m);
    }
  }

  /** Merging around a free block keeps the allocations, the sums and the positive sizes. */
  lemma MergeAroundLive(a: nat, bs: seq<Block>, i: nat)
    requires i < |bs| && bs[i].free && Positive(bs)
    ensures Allocs(a, MergeAround(bs, i)) == Allocs(a, bs)
    ensures Positive(MergeAround(bs, i))
    ensures Sized(bs) ==> Sized(MergeAround(bs, i))
    ensures forall m :: Sum(MergeAround(bs, i), m) == Sum(bs, m)
  {
    var b1 := bs;
    if i + 1 < |bs| && bs[i + 1].free {
      b1 := MergeNext(bs, i);
      MergeFree(a, bs, i);
    }
    assert b1[i].free;
    if 0 < i && b1[i - 1].free {
      MergeFree(a, b1, i - 1);
    }
  }

  /** Freeing block i of a list with no two free neighbours and merging around it leaves none. */
  lemma MergeAroundCoalesced(bs: seq<Block>, i: nat)
    requires i < |bs| && bs[i].free && CoalescedBut(bs, i)
    ensures Coalesced(MergeAround(bs, i))
  {
    var b1 := bs;
    var j := i;
    if i + 1 < |bs| && bs[i + 1].free {
      b1 := MergeNext(bs, i);
      MergeShape(bs, i);
      forall k | 0 <= k < |b1| - 1 && k != i && k + 1 != i ensures !(b1[k].free && b1[k + 1].free) {
        if k > i {
          assert b1[k] == bs[k + 1] && b1[k + 1] == bs[k + 2];
        }
      }
      assert i + 1 < |b1| ==> !b1[i + 1].free;
    }
    assert CoalescedBut(b1, i) && b1[i].free && (i + 1 < |b1| ==> !b1[i + 1].free);
    if 0 < i && b1[i - 1].free {
      var r := MergeNext(b1, i - 1);
      MergeShape(b1, i - 1);
      forall k | 0 <= k < |r| - 1 ensures !(r[k].free && r[k + 1].free) {
        if k >= i {
          assert r[k] == b1[k + 1] && r[k + 1] == b1[k + 2];
        } else if k == i - 1 {
          assert r[k + 1] == b1[i + 1];
        }
      }
    }
  }

  /** kmalloc_aligned's request: size, header and alignment, rounded up to 8 bytes. */
  function AlignedRequest(size: nat, align: nat): (r: nat)
    ensures size + HEADER + align <= r < size + HEADER + align + 8
  {
    AlignUp(size + HEADER + align, 8)
  }

  /** The block kmalloc_aligned as written picks, and its data pointer before any padding. */
  function AlignedPick(a: nat, bs: seq<Block>, size: nat, align: nat): nat
  {
    FirstFit(a, bs, AlignedRequest(size, align), align, 0)
  }

  function AlignedData(a: nat, bs: seq<Block>, size: nat, align: nat): nat
  {
    Addr(a, bs, AlignedPick(a, bs, size, align)) + HEADER
  }

  /**
   * The corrected padding: none when the data pointer is already aligned,
   * otherwise the padding of the pointer one header further on plus that
   * header, so that the padding block always has room for its header.
   */
  function WidenedPadding(d: nat, a: nat): (c: nat)
    requires a > 0
    ensures (d + c) % a == 0
    ensures c == 0 <==> d % a == 0
    ensures c > 0 ==> HEADER <= c < HEADER + a
  {
    if Padding(d, a) == 0 then 0 else Padding(d + HEADER, a) + HEADER
  }

  /** kmalloc_aligned carves a padding block only when the padding holds a header. */
  predicate Carved(padding: nat)
  {
    padding == 0 || padding >= HEADER
  }

  /**
   * Carving a padding block off the front of a free block of a list with no
   * two free neighbours leaves at most the carved-out pair free together, and
   * the block after them in use.
   */
  lemma CarveCoalesced(bs: seq<Block>, i: nat, p: nat)
    requires i < |bs| && 0 < p < bs[i].size && bs[i].free && Coalesced(bs)
    ensures Ready(Split(bs, i, p), i + 1)
  {
    var r := Split(bs, i, p);
    SplitShape(bs, i, p);
    forall k | 0 <= k < |r| - 1 && k != i + 1 && k + 1 != i + 1 ensures !(r[k].free && r[k + 1].free) {
      if k > i + 1 {
        assert r[k] == bs[k - 1] && r[k + 1] == bs[k];
      } else if k + 1 < i {
        assert r[k] == bs[k] && r[k + 1] == bs[k + 1];
      } else {
        assert k + 1 == i;
      }
    }
  }

  lemma SetFreeCoalescedBut(bs: seq<Block>, i: nat)
    requires i < |bs| && Coalesced(bs)
    ensures CoalescedBut(SetFree(bs, i, true), i)
  {
    SetFreeShape(bs, i, true);
  }

  /** The size of the free block right after ptr's block, or 0 when that block is missing or in use. */
  ghost function NextFree(a: nat, bs: seq<Block>, ptr: nat): nat
    requires Positive(bs) && ptr in Allocs(a, bs)
  {
    var i := BlockOf(a, bs, ptr);
    if i + 1 < |bs| && bs[i + 1].free then bs[i + 1].size else 0
  }

  /** krealloc keeps the pointer: the block already holds size bytes, or can by absorbing a free successor. */
  ghost predicate InPlace(a: nat, bs: seq<Block>, ptr: nat, size: nat)
    requires Positive(bs) && ptr in Allocs(a, bs)
  {
    var s := Allocs(a, bs)[ptr];
    s < HEADER || s + NextFree(a, bs, ptr) >= size + HEADER
  }

  lemma InPlaceAt(a: nat, bs: seq<Block>, ptr: nat, size: nat)
    requires Positive(bs) && ptr in Allocs(a, bs)
    ensures var i := BlockOf(a, bs, ptr);
      InPlace(a, bs, ptr, size) <==>
        bs[i].size < HEADER || bs[i].size + (if i + 1 < |bs| && bs[i + 1].free then bs[i + 1].size else 0) >= size + HEADER
  {
  }

  /** `x -= n` on a size_t. */
  function Sub(x: nat, n: nat): (r: nat)
    requires x < U64
    ensures r < U64
    ensures n <= x ==> r == x - n
  {
    (x - n) % U64
  }

  /** alloc_count counts the live allocations. */
  lemma {:induction false} AllocsCount(a: nat, bs: seq<Block>)
    requires Positive(bs)
    ensures |Allocs(a, bs).Keys| == Sum(bs, UsedBlocks)
    decreases |bs|
  {
    if bs != [] {
      var init := bs[..|bs| - 1];
      assert Positive(init);
      AllocsCount(a, init);
      var k := a + Sum(init, Bytes) + HEADER;
      if k in Allocs(a, init) {
        AllocsRange(a, init, k);
      }
      if !bs[|bs| - 1].free {
        assert Allocs(a, bs).Keys == Allocs(a, init).Keys + {k};
      }
    }
  }

  /** What freeing block i and merging it with its free neighbours does to the list. */
  lemma ReleaseFacts(a: nat, bs: seq<Block>, i: nat)
    requires i < |bs| && !bs[i].free && Positive(bs)
    ensures Allocs(a, MergeAround(SetFree(bs, i, true), i)) == Allocs(a, bs) - {Addr(a, bs, i) + HEADER}
    ensures Positive(MergeAround(SetFree(bs, i, true), i))
    ensures Sum(MergeAround(SetFree(bs, i, true), i), Bytes) == Sum(bs, Bytes)
    ensures Sum(MergeAround(SetFree(bs, i, true), i), UsedBytes) + bs[i].size == Sum(bs, UsedBytes)
    ensures Sum(MergeAround(SetFree(bs, i, true), i), UsedBlocks) + 1 == Sum(bs, UsedBlocks)
    ensures Coalesced(bs) ==> Coalesced(MergeAround(SetFree(bs, i, true), i))
    ensures Sized(bs) ==> Sized(MergeAround(SetFree(bs, i, true), i))
  {
    ReleaseAllocs(a, bs, i);
    SetFreeSum(bs, i, true, Bytes);
    SetFreeSum(bs, i, true, UsedBytes);
    SetFreeSum(bs, i, true, UsedBlocks);
    SetFreeShape(bs, i, true);
    var fb := SetFree(bs, i, true);
    MergeAroundLive(a, fb, i);
    if Coalesced(bs) {
      SetFreeCoalescedBut(bs, i);
      MergeAroundCoalesced(fb, i);
    }
  }

  /** krealloc's in-place shrink of the used block i to req bytes: split off the excess when it is large. */
  function Shrunk(bs: seq<Block>, i: nat, req: nat): (r: seq<Block>)
    requires i < |bs| && 0 < req
  {
    if bs[i].size > req + HEADER + SLACK then Split(bs, i, req) else bs
  }

  /** krealloc's in-place growth: absorb the free next block, then shrink to req. */
  function Grown(bs: seq<Block>, i: nat, req: nat): (r: seq<Block>)
    requires i + 1 < |bs| && 0 < req
  {
    Shrunk(MergeNext(bs, i), i, req)
  }

  /** The corrected shrink: a split-off remainder is merged with its neighbours as a freed block would be. */
  function ShrunkFixed(bs: seq<Block>, i: nat, req: nat): (r: seq<Block>)
    requires i < |bs| && 0 < req
  {
    if bs[i].size > req + HEADER + SLACK then MergeAround(Split(bs, i, req), i + 1) else bs
  }

  lemma ShrunkFacts(a: nat, bs: seq<Block>, i: nat, req: nat)
    requires i < |bs| && !bs[i].free && 0 < req && Positive(bs)
    ensures Positive(Shrunk(bs, i, req)) && |Shrunk(bs, i, req)| > i
    ensures Shrunk(bs, i, req)[i].size == (if bs[i].size > req + HEADER + SLACK then req else bs[i].size)
    ensures Allocs(a, Shrunk(bs, i, req)) == Allocs(a, bs)[Addr(a, bs, i) + HEADER := Shrunk(bs, i, req)[i].size]
    ensures Sum(Shrunk(bs, i, req), Bytes) == Sum(bs, Bytes)
    ensures Sum(Shrunk(bs, i, req), UsedBlocks) == Sum(bs, UsedBlocks)
    ensures Sum(Shrunk(bs, i, req), UsedBytes) + bs[i].size == Sum(bs, UsedBytes) + Shrunk(bs, i, req)[i].size
    ensures Sized(bs) && req >= HEADER ==> Sized(Shrunk(bs, i, req))
  {
    AllocsAt(a, bs, i);
    if bs[i].size > req + HEADER + SLACK {
      SplitAllocs(a, bs, i, req);
      SplitShape(bs, i, req);
      SplitPositive(bs, i, req);
      SplitSum(bs, i, req, Bytes);
      SplitSum(bs, i, req, UsedBytes);
      SplitSum(bs, i, req, UsedBlocks);
    }
  }

  /** The shrink keeps the list coalesced when the block's successor is in use. */
  lemma ShrunkCoalesced(bs: seq<Block>, i: nat, req: nat)
    requires i < |bs| && !bs[i].free && 0 < req && Coalesced(bs)
    requires i + 1 < |bs| ==> !bs[i + 1].free
    ensures Coalesced(Shrunk(bs, i, req))
  {
    if bs[i].size > req + HEADER + SLACK {
      SplitShape(bs, i, req);
    }
  }

  lemma GrownFacts(a: nat, bs: seq<Block>, i: nat, req: nat)
    requires i + 1 < |bs| && !bs[i].free && bs[i + 1].free && 0 < req && Positive(bs)
    ensures Positive(Grown(bs, i, req)) && |Grown(bs, i, req)| > i
    ensures var s := bs[i].size + bs[i + 1].size;
      Grown(bs, i, req)[i].size == (if s > req + HEADER + SLACK then req else s)
    ensures Allocs(a, Grown(bs, i, req)) == Allocs(a, bs)[Addr(a, bs, i) + HEADER := Grown(bs, i, req)[i].size]
    ensures Sum(Grown(bs, i, req), Bytes) == Sum(bs, Bytes)
    ensures Sum(Grown(bs, i, req), UsedBlocks) == Sum(bs, UsedBlocks)
    ensures Sum(Grown(bs, i, req), UsedBytes) + bs[i].size == Sum(bs, UsedBytes) + Grown(bs, i, req)[i].size
    ensures Sized(bs) && req >= HEADER ==> Sized(Grown(bs, i, req))
    ensures Coalesced(bs) ==> Coalesced(Grown(bs, i, req))
  {
    var m := MergeNext(bs, i);
    MergeUsedFacts(a, bs, i);
    ShrunkFacts(a, m, i, req);
    if Coalesced(bs) {
      ShrunkCoalesced(m, i, req);
    }
  }

  /** A used block absorbing its free successor. */
  lemma MergeUsedFacts(a: nat, bs: seq<Block>, i: nat)
    requires i + 1 < |bs| && !bs[i].free && bs[i + 1].free && Positive(bs)
    ensures Positive(MergeNext(bs, i))
    ensures MergeNext(bs, i)[i] == Block(bs[i].size + bs[i + 1].size, false)
    ensures Allocs(a, MergeNext(bs, i)) == Allocs(a, bs)[Addr(a, bs, i) + HEADER := bs[i].size + bs[i + 1].size]
    ensures Addr(a, MergeNext(bs, i), i) == Addr(a, bs, i)
    ensures Sum(MergeNext(bs, i), Bytes) == Sum(bs, Bytes)
    ensures Sum(MergeNext(bs, i), UsedBlocks) == Sum(bs, UsedBlocks)
    ensures Sum(MergeNext(bs, i), UsedBytes) + bs[i].size == Sum(bs, UsedBytes) + bs[i].size + bs[i + 1].size
    ensures Sized(bs) ==> Sized(MergeNext(bs, i))
    ensures Coalesced(bs) ==> Coalesced(MergeNext(bs, i)) && (i + 1 < |bs| - 1 ==> !MergeNext(bs, i)[i + 1].free)
  {
    MergeAllocs(a, bs, i);
    MergeShape(bs, i);
    MergeSum(bs, i, Bytes);
    MergeSum(bs, i, UsedBytes);
    MergeSum(bs, i, UsedBlocks);
  }

  /** After a split of the used block i, the free remainder absorbs the free block that followed. */
  lemma RemainderMerge(a: nat, bs: seq<Block>, i: nat, req: nat)
    requires i + 1 < |bs| && !bs[i].free && bs[i + 1].free && 0 < req && bs[i].size > req + HEADER + SLACK
    requires Positive(bs)
    ensures var t := Split(bs, i, req);
      Allocs(a, MergeNext(t, i + 1)) == Allocs(a, t) && MergeNext(t, i + 1)[i] == t[i]
      && Sum(MergeNext(t, i + 1), Bytes) == Sum(t, Bytes)
      && Sum(MergeNext(t, i + 1), UsedBytes) == Sum(t, UsedBytes)
      && Sum(MergeNext(t, i + 1), UsedBlocks) == Sum(t, UsedBlocks)
      && Positive(MergeNext(t, i + 1))
      && (Sized(t) ==> Sized(MergeNext(t, i + 1)))
      && (Coalesced(bs) ==> Coalesced(MergeNext(t, i + 1)))
  {
    var t := Split(bs, i, req);
    SplitShape(bs, i, req);
    SplitPositive(bs, i, req);
    MergeAllocs(a, t, i + 1);
    MergeShape(t, i + 1);
    MergeSum(t, i + 1, Bytes);
    MergeSum(t, i + 1, UsedBytes);
    MergeSum(t, i + 1, UsedBlocks);
  }

  lemma ShrunkFixedFacts(a: nat, bs: seq<Block>, i: nat, req: nat)
    requires i < |bs| && !bs[i].free && 0 < req && Positive(bs)
    ensures Positive(ShrunkFixed(bs, i, req)) && |ShrunkFixed(bs, i, req)| > i
    ensures ShrunkFixed(bs, i, req)[i].size == Shrunk(bs, i, req)[i].size
    ensures Allocs(a, ShrunkFixed(bs, i, req)) == Allocs(a, bs)[Addr(a, bs, i) + HEADER := Shrunk(bs, i, req)[i].size]
    ensures Sum(ShrunkFixed(bs, i, req), Bytes) == Sum(bs, Bytes)
    ensures Sum(ShrunkFixed(bs, i, req), UsedBlocks) == Sum(bs, UsedBlocks)
    ensures Sum(ShrunkFixed(bs, i, req), UsedBytes) + bs[i].size == Sum(bs, UsedBytes) + Shrunk(bs, i, req)[i].size
    ensures Sized(bs) && req >= HEADER ==> Sized(ShrunkFixed(bs, i, req))
    ensures Coalesced(bs) ==> Coalesced(ShrunkFixed(bs, i, req))
  {
    ShrunkFacts(a, bs, i, req);
    if bs[i].size > req + HEADER + SLACK {
      var t := Split(bs, i, req);
      SplitShape(bs, i, req);
      if i + 1 < |bs| && bs[i + 1].free {
        RemainderMerge(a, bs, i, req);
      } else if Coalesced(bs) {
        ShrunkCoalesced(bs, i, req);
      }
    }
  }


  /** The block whose data pointer is ptr. */
  ghost function BlockOf(a: nat, bs: seq<Block>, ptr: nat): (i: nat)
    requires Positive(bs) && ptr in Allocs(a, bs)
    ensures i < |bs| && !bs[i].free && Addr(a, bs, i) + HEADER == ptr && bs[i].size == Allocs(a, bs)[ptr]
    ensures IndexOf(a, bs, ptr - HEADER, 0) == Some(i)
  {
    LiveIff(a, bs, ptr);
    var i := IndexOf(a, bs, ptr - HEADER, 0).value;
    AllocsAt(a, bs, i);
    i
  }

  lemma LiveSize(a: nat, bs: seq<Block>, ptr: nat)
    requires Positive(bs)
    ensures ptr in Allocs(a, bs) ==> a + HEADER <= ptr < a + Sum(bs, Bytes) + HEADER
    ensures ptr in Allocs(a, bs) ==>
      (IndexOf(a, bs, ptr - HEADER, 0).Some? && bs[IndexOf(a, bs, ptr - HEADER, 0).value].size == Allocs(a, bs)[ptr])
  {
    if ptr in Allocs(a, bs) {
      AllocsRange(a, bs, ptr);
      var i := BlockOf(a, bs, ptr);
    }
  }

  /** `size - sizeof(heap_block_t)` in size_t arithmetic. */
  function SizeLessHeader(size: nat): (r: nat)
    ensures size >= HEADER ==> r + HEADER == size
  {
    if size >= HEADER then size - HEADER else size + U64 - HEADER
  }

  /** No block of bs fits the request. */
  ghost predicate NoneFits(a: nat, bs: seq<Block>, need: nat, align: nat)
  {
    forall k :: 0 <= k < |bs| ==> !Fits(Addr(a, bs, k), bs[k], need, align)
  }

  /** What kfree does with a pointer: nothing for NULL, a panic, or the free. */
  datatype FreeOutcome = Ignored | Freed | PanicOutsideHeap | PanicDoubleFree

  // ---------------------------------------------------------------------
  // The heap
  // ---------------------------------------------------------------------

  class HeapState {
    /** heap_start, heap_size, heap_end */
    var start: nat
    var heapSize: nat
    var heapEnd: nat
    /** heap_used and alloc_count, both size_t */
    var used: nat
    var count: nat
    /** The block list from free_list on, in address order. */
    var blocks: seq<Block>

    /** The blocks tile [heap_start, heap_end) and alloc_count counts the blocks in use. */
    ghost predicate Valid()
      reads this
    {
      heapEnd == start + heapSize && heapEnd + HEADER <= U64
      && Sum(blocks, Bytes) == heapSize && Positive(blocks)
      && used < U64 && count == Sum(blocks, UsedBlocks)
    }

    /** The live allocations: data pointer to block size. */
    ghost function Live(): map<nat, nat>
      reads this
    {
      Allocs(start, blocks)
    }

    /** heap_used is the number of bytes in blocks in use. */
    ghost predicate Accounted()
      reads this
    {
      used == Sum(blocks, UsedBytes)
    }

    /** The header of ptr lies outside [heap_start, heap_end); below the header size it wraps to the top. */
    predicate Outside(ptr: nat)
      reads this
    {
      ptr < start + HEADER || ptr >= heapEnd + HEADER
    }

    /** NULL, a pointer whose header is outside the heap, or one whose header is a block's. */
    ghost predicate Addressable(ptr: nat)
      reads this
    {
      ptr == 0 || Outside(ptr) || IndexOf(start, blocks, ptr - HEADER, 0).Some?
    }

    twostate predicate SameArena()
      reads this
    {
      start == old(start) && heapSize == old(heapSize) && heapEnd == old(heapEnd)
    }

    /**
     * heap_init as written: the start is rounded up to a page, but the block
     * keeps the full size, so the arena runs up to a page past the caller's
     * region.
     */
    constructor Init(s0: nat, size: nat)
      requires HEADER <= size && AlignUp(s0, PAGE_SIZE) + size + HEADER <= U64
      ensures start == AlignUp(s0, PAGE_SIZE) && start % PAGE_SIZE == 0
      ensures heapSize == size && heapEnd == start + size
      ensures blocks == [Block(size, true)] && used == 0 && count == 0
      ensures Valid() && Accounted() && Coalesced(blocks) && Sized(blocks) && Live() == map[]
    {
      start := AlignUp(s0, PAGE_SIZE);
      heapSize := size;
      heapEnd := AlignUp(s0, PAGE_SIZE) + size;
      used := 0;
      count := 0;
      blocks := [Block(size, true)];
      new;
      SumOne(Block(size, true), Bytes);
      SumOne(Block(size, true), UsedBytes);
      SumOne(Block(size, true), UsedBlocks);
      AllocsOne(start, Block(size, true));
    }

    /**
     * heap_init with the size reduced by the bytes skipped to align the
     * start, so that the arena stays inside [s0, s0 + size); an arena left
     * too small for one header holds no block.
     */
    constructor InitWithin(s0: nat, size: nat)
      requires AlignUp(s0, PAGE_SIZE) + size + HEADER <= U64
      ensures start == AlignUp(s0, PAGE_SIZE) && start % PAGE_SIZE == 0
      ensures s0 <= start
      ensures start + HEADER <= s0 + size ==> heapEnd == s0 + size && blocks == [Block(heapSize, true)]
      ensures start + HEADER > s0 + size ==> heapSize == 0 && blocks == []
      ensures used == 0 && count == 0
      ensures Valid() && Accounted() && Coalesced(blocks) && Sized(blocks) && Live() == map[]
    {
      start := AlignUp(s0, PAGE_SIZE);
      used := 0;
      count := 0;
      if AlignUp(s0, PAGE_SIZE) + HEADER <= s0 + size {
        heapSize := s0 + size - AlignUp(s0, PAGE_SIZE);
        heapEnd := s0 + size;
        blocks := [Block(s0 + size - AlignUp(s0, PAGE_SIZE), true)];
      } else {
        heapSize := 0;
        heapEnd := AlignUp(s0, PAGE_SIZE);
        blocks := [];
      }
      new;
      if blocks != [] {
        SumOne(blocks[0], Bytes);
        SumOne(blocks[0], UsedBytes);
        SumOne(blocks[0], UsedBlocks);
        AllocsOne(start, blocks[0]);
      }
    }

    /** find_free_block: the first block in list order that fits, or |blocks| for NULL. */
    method FindFreeBlock(need: nat, align: nat) returns (i: nat)
      ensures i <= |blocks|
      ensures i < |blocks| ==> Fits(Addr(start, blocks, i), blocks[i], need, align)
      ensures forall k :: 0 <= k < i ==> !Fits(Addr(start, blocks, k), blocks[k], need, align)
    {
      i := 0;
      var addr := start;
      while i < |blocks|
        invariant i <= |blocks| && addr == Addr(start, blocks, i)
        invariant forall k :: 0 <= k < i ==> !Fits(Addr(start, blocks, k), blocks[k], need, align)
      {
        var b := blocks[i];
        if b.free && b.size >= need {
          if align > 1 {
            var data := addr + HEADER;
            var padding := Padding(data, align);
            if b.size >= need + padding {
              return;
            }
          } else {
            return;
          }
        }
        AddrNext(start, blocks, i);
        addr := addr + b.size;
        i := i + 1;
      }
    }

    /** split_block: the new free block at block + n takes the rest and is linked after the block. */
    method SplitBlock(i: nat, n: nat)
      requires i < |blocks| && 0 < n < blocks[i].size
      modifies this
      ensures blocks == Split(old(blocks), i, n)
      ensures SameArena() && used == old(used) && count == old(count)
    {
      blocks := Split(blocks, i, n);
    }

    /** merge_adjacent_blocks: absorb a free next block, then be absorbed by a free previous block. */
    method MergeAdjacentBlocks(i: nat) returns (merged: bool)
      requires i < |blocks|
      modifies this
      ensures blocks == MergeAround(old(blocks), i)
      ensures merged == ((i + 1 < |old(blocks)| && old(blocks)[i + 1].free) || (0 < i && old(blocks)[i - 1].free))
      ensures SameArena() && used == old(used) && count == old(count)
    {
      merged := false;
      if i + 1 < |blocks| && blocks[i + 1].free {
        MergeShape(blocks, i);
        blocks := MergeNext(blocks, i);
        merged := true;
      }
      if 0 < i && blocks[i - 1].free {
        blocks := MergeNext(blocks, i - 1);
        merged := true;
      }
    }
  
    /** The claim step of kmalloc and kmalloc_aligned: split block i at n above limit, mark it used, count it. */
    method Take(i: nat, n: nat, limit: nat) returns (r: nat)
      requires Valid() && i < |blocks| && blocks[i].free && 0 < n <= limit
      modifies this
      ensures Valid() && SameArena()
      ensures blocks == Claim(old(blocks), i, n, limit)
      ensures r == Addr(start, old(blocks), i) + HEADER && r !in old(Live())
      ensures Live() == old(Live())[r := Claimed(old(blocks)[i], n, limit)]
      ensures used == Memory.Inc(old(used), Claimed(old(blocks)[i], n, limit)) && count == old(count) + 1
      ensures old(Accounted()) ==> Accounted()
      ensures old(Ready(blocks, i)) ==> Coalesced(blocks)
      ensures old(Sized(blocks)) && n >= HEADER && limit >= n + HEADER ==> Sized(blocks)
    {
      ClaimFacts(start, blocks, i, n, limit);
      ghost var bs0 := blocks;
      ghost var live := Allocs(start, Claim(bs0, i, n, limit));
      if blocks[i].size > limit {
        SplitBlock(i, n);
      }
      blocks := SetFree(blocks, i, false);
      assert blocks == Claim(bs0, i, n, limit);
      used := Memory.Inc(used, blocks[i].size);
      count := count + 1;
      r := Addr(start, blocks, i) + HEADER;
      assert Live() == live;
    }

    /**
     * kmalloc: NULL for size 0 or when no block fits; otherwise the first
     * block that fits, split when much larger, becomes a new allocation of at
     * least size + header bytes and nothing else changes.
     */
    method Kmalloc(size: nat) returns (r: nat)
      requires Valid() && size <= MAX_REQUEST
      modifies this
      ensures Valid() && SameArena()
      ensures r == 0 <==> size == 0 || NoneFits(old(start), old(blocks), Request(size), 8)
      ensures r == 0 ==> blocks == old(blocks) && used == old(used) && count == old(count)
      ensures r != 0 ==> r == Addr(start, old(blocks), FirstFit(start, old(blocks), Request(size), 8, 0)) + HEADER
      ensures r != 0 ==> r !in old(Live()) && r in Live() && size + HEADER <= Live()[r]
      ensures r != 0 ==> Live() == old(Live())[r := Live()[r]]
      ensures r != 0 ==> used == Memory.Inc(old(used), Live()[r]) && count == old(count) + 1
      ensures old(Coalesced(blocks)) ==> Coalesced(blocks)
      ensures old(Sized(blocks)) ==> Sized(blocks)
      ensures old(Accounted()) ==> Accounted()
    {
      if size == 0 {
        return 0;
      }
      var req := Request(size);
      var i := FindFreeBlock(req, 8);
      if i == |blocks| {
        return 0;
      }
      if Coalesced(blocks) {
        CoalescedReady(blocks, i);
      }
      r := Take(i, req, req + HEADER + SLACK);
    }
  
    /**
     * The padding block of kmalloc_aligned: block i keeps the first p bytes
     * and the free block after it, p bytes further on, is the one to claim.
     */
    method CarvePadding(i: nat, p: nat)
      requires Valid() && i < |blocks| && blocks[i].free && 0 < p < blocks[i].size
      modifies this
      ensures Valid() && SameArena() && used == old(used) && count == old(count)
      ensures blocks == Split(old(blocks), i, p) && Live() == old(Live())
      ensures i + 1 < |blocks| && blocks[i + 1] == Block(old(blocks)[i].size - p, true)
      ensures Addr(start, blocks, i + 1) == Addr(start, old(blocks), i) + p
      ensures old(Coalesced(blocks)) ==> Ready(blocks, i + 1)
      ensures old(Sized(blocks)) && p >= HEADER && old(blocks)[i].size - p >= HEADER ==> Sized(blocks)
      ensures old(Accounted()) ==> Accounted()
    {
      if Coalesced(blocks) {
        CarveCoalesced(blocks, i, p);
      }
      SplitAllocs(start, blocks, i, p);
      SplitSum(blocks, i, p, Bytes);
      SplitSum(blocks, i, p, UsedBlocks);
      SplitSum(blocks, i, p, UsedBytes);
      SplitPositive(blocks, i, p);
      SplitShape(blocks, i, p);
      AddrNext(start, Split(blocks, i, p), i);
      SplitBlock(i, p);
    }

    /** Carve a padding block of p bytes off block i when p > 0, then claim the block that follows it. */
    method TakeAligned(i: nat, p: nat, n: nat, limit: nat) returns (r: nat)
      requires Valid() && i < |blocks| && blocks[i].free && 0 < n <= limit && p + n <= blocks[i].size
      modifies this
      ensures Valid() && SameArena()
      ensures r == Addr(start, old(blocks), i) + p + HEADER
      ensures r !in old(Live()) && r in Live() && n <= Live()[r]
      ensures Live() == old(Live())[r := Live()[r]]
      ensures used == Memory.Inc(old(used), Live()[r]) && count == old(count) + 1
      ensures p == 0 ==> blocks == Claim(old(blocks), i, n, limit)
      ensures old(Coalesced(blocks)) ==> Coalesced(blocks)
      ensures (old(Sized(blocks)) && n >= HEADER && limit >= n + HEADER
               && (p == 0 || (p >= HEADER && old(blocks)[i].size - p >= HEADER))) ==> Sized(blocks)
      ensures old(Accounted()) ==> Accounted()
    {
      var j := i;
      if p > 0 {
        CarvePadding(i, p);
        j := i + 1;
      } else if Coalesced(blocks) {
        CoalescedReady(blocks, i);
      }
      r := Take(j, n, limit);
    }

    /**
     * kmalloc_aligned as written.  A padding block is carved in front only
     * when the padding holds a header; a smaller padding is dropped and the
     * unaligned data pointer is returned.  The padding block is split at
     * size + header when it exceeds that by more than 16 bytes, which can
     * leave a remainder smaller than a header.
     */
    method KmallocAligned(size: nat, align: nat) returns (r: nat)
      requires Valid() && align > 0 && size + align <= MAX_REQUEST
      modifies this
      ensures Valid() && SameArena()
      ensures r == 0 <==> size == 0 || !IsPow2(align) || NoneFits(old(start), old(blocks), AlignedRequest(size, align), align)
      ensures r == 0 ==> blocks == old(blocks) && used == old(used) && count == old(count)
      ensures r != 0 ==> r !in old(Live()) && r in Live() && size + HEADER <= Live()[r]
      ensures r != 0 ==> Live() == old(Live())[r := Live()[r]]
      ensures r != 0 ==> used == Memory.Inc(old(used), Live()[r]) && count == old(count) + 1
      ensures r != 0 ==> (r % align == 0 <==> Carved(Padding(AlignedData(start, old(blocks), size, align), align)))
      ensures r != 0 && Padding(AlignedData(start, old(blocks), size, align), align) == 0 ==>
        blocks == Claim(old(blocks), AlignedPick(start, old(blocks), size, align), size + HEADER, size + HEADER + SLACK)
      ensures old(Coalesced(blocks)) ==> Coalesced(blocks)
      ensures old(Accounted()) ==> Accounted()
    {
      if size == 0 || !IsPow2(align) {
        return 0;
      }
      var req := AlignedRequest(size, align);
      var i := FindFreeBlock(req, align);
      if i == |blocks| {
        return 0;
      }
      assert i == AlignedPick(start, blocks, size, align);
      r := TakePadded(i, size, align);
    }

    /** The claim of block i as written: a padding block only when the padding holds a header. */
    method TakePadded(i: nat, size: nat, align: nat) returns (r: nat)
      requires Valid() && i < |blocks| && 0 < size && align > 0 && i == AlignedPick(start, blocks, size, align)
      requires Fits(Addr(start, blocks, i), blocks[i], AlignedRequest(size, align), align)
      modifies this
      ensures Valid() && SameArena() && r >= HEADER
      ensures r !in old(Live()) && r in Live() && size + HEADER <= Live()[r]
      ensures Live() == old(Live())[r := Live()[r]]
      ensures used == Memory.Inc(old(used), Live()[r]) && count == old(count) + 1
      ensures r % align == 0 <==> Carved(Padding(AlignedData(start, old(blocks), size, align), align))
      ensures Padding(AlignedData(start, old(blocks), size, align), align) == 0 ==>
        blocks == Claim(old(blocks), i, size + HEADER, size + HEADER + SLACK)
      ensures old(Coalesced(blocks)) ==> Coalesced(blocks)
      ensures old(Accounted()) ==> Accounted()
    {
      var data := Addr(start, blocks, i) + HEADER;
      assert data == AlignedData(start, blocks, size, align);
      ghost var bs0 := blocks;
      var padding := Padding(data, align);
      if padding > 0 && padding >= HEADER {
        r := TakeAligned(i, padding, size + HEADER, size + HEADER + SLACK);
        assert r == data + padding && (data + padding) % align == 0;
      } else {
        r := TakeAligned(i, 0, size + HEADER, size + HEADER + SLACK);
        assert r == data && (data % align == 0 <==> padding == 0);
        assert blocks == Claim(bs0, i, size + HEADER, size + HEADER + SLACK);
      }
    }

    /**
     * kmalloc_aligned corrected: align 0 is refused with the other
     * non-powers of two, a nonzero padding is widened past a header so the
     * padding block always exists, the request covers that widening, and
     * the split leaves a remainder of more than a header.
     */
    method KmallocAlignedFixed(size: nat, align: nat) returns (r: nat)
      requires Valid() && size + align + HEADER <= MAX_REQUEST
      modifies this
      ensures Valid() && SameArena()
      ensures r == 0 <==> size == 0 || !IsPow2(align)
                          || NoneFits(old(start), old(blocks), AlignedRequest(size + HEADER, align), align)
      ensures r == 0 ==> blocks == old(blocks) && used == old(used) && count == old(count)
      ensures r != 0 ==> r % align == 0
      ensures r != 0 ==> r !in old(Live()) && r in Live() && size + HEADER <= Live()[r]
      ensures r != 0 ==> Live() == old(Live())[r := Live()[r]]
      ensures r != 0 ==> used == Memory.Inc(old(used), Live()[r]) && count == old(count) + 1
      ensures old(Coalesced(blocks)) ==> Coalesced(blocks)
      ensures old(Sized(blocks)) ==> Sized(blocks)
      ensures old(Accounted()) ==> Accounted()
    {
      if size == 0 || !IsPow2(align) {
        return 0;
      }
      var req := AlignedRequest(size + HEADER, align);
      var i := FindFreeBlock(req, align);
      if i == |blocks| {
        return 0;
      }
      r := TakeWidened(i, size, align);
    }

    /** The corrected claim of block i: the padding widened past a header, then the block after it. */
    method TakeWidened(i: nat, size: nat, align: nat) returns (r: nat)
      requires Valid() && i < |blocks| && 0 < size && align > 0
      requires Fits(Addr(start, blocks, i), blocks[i], AlignedRequest(size + HEADER, align), align)
      modifies this
      ensures Valid() && SameArena() && r >= HEADER && r % align == 0
      ensures r !in old(Live()) && r in Live() && size + HEADER <= Live()[r]
      ensures Live() == old(Live())[r := Live()[r]]
      ensures used == Memory.Inc(old(used), Live()[r]) && count == old(count) + 1
      ensures old(Coalesced(blocks)) ==> Coalesced(blocks)
      ensures old(Sized(blocks)) ==> Sized(blocks)
      ensures old(Accounted()) ==> Accounted()
    {
      var data := Addr(start, blocks, i) + HEADER;
      var carve := WidenedPadding(data, align);
      r := TakeAligned(i, carve, size + HEADER, size + 2 * HEADER + SLACK);
    }
  
    /** The tail of kfree once the block is known to be in use: mark it free, reverse the statistics, merge. */
    method Release(i: nat)
      requires Valid() && i < |blocks| && !blocks[i].free
      modifies this
      ensures Valid() && SameArena()
      ensures blocks == MergeAround(SetFree(old(blocks), i, true), i)
      ensures Live() == old(Live()) - {Addr(start, old(blocks), i) + HEADER} && count == old(count) - 1
      ensures used == Sub(old(used), old(blocks)[i].size)
      ensures old(Coalesced(blocks)) ==> Coalesced(blocks)
      ensures old(Sized(blocks)) ==> Sized(blocks)
      ensures old(Accounted()) ==> Accounted()
    {
      ReleaseFacts(start, blocks, i);
      used := Sub(used, blocks[i].size);
      count := count - 1;
      blocks := SetFree(blocks, i, true);
      var merged := MergeAdjacentBlocks(i);
    }

    /**
     * kfree: NULL is ignored; a header outside the heap and a block already
     * free are kernel panics, which change nothing here; otherwise the block
     * is marked free, the statistics are reversed and it merges with free
     * neighbours.
     */
    method Kfree(ptr: nat) returns (outcome: FreeOutcome)
      requires Valid() && Addressable(ptr)
      modifies this
      ensures Valid() && SameArena()
      ensures outcome == Ignored <==> ptr == 0
      ensures outcome == PanicOutsideHeap <==> ptr != 0 && Outside(ptr)
      ensures outcome == Freed <==> ptr in old(Live())
      ensures outcome != Freed ==> blocks == old(blocks) && used == old(used) && count == old(count)
      ensures outcome == Freed ==> Live() == old(Live()) - {ptr} && count == old(count) - 1
      ensures outcome == Freed ==> used == Sub(old(used), old(Live())[ptr])
      ensures old(Coalesced(blocks)) ==> Coalesced(blocks)
      ensures old(Sized(blocks)) ==> Sized(blocks)
      ensures old(Accounted()) ==> Accounted()
    {
      LiveIff(start, blocks, ptr);
      LiveSize(start, blocks, ptr);
      if ptr == 0 {
        return Ignored;
      }
      if Outside(ptr) {
        return PanicOutsideHeap;
      }
      var i := IndexOf(start, blocks, ptr - HEADER, 0).value;
      if blocks[i].free {
        return PanicDoubleFree;
      }
      Release(i);
      outcome := Freed;
    }

    /** ksize: 0 for NULL and for a header outside the heap, else the block size less the header (size_t). */
    function Ksize(ptr: nat): (r: nat)
      requires Valid() && Addressable(ptr)
      reads this
      ensures ptr == 0 || Outside(ptr) ==> r == 0
      ensures ptr in Live() && Live()[ptr] >= HEADER ==> r + HEADER == Live()[ptr]
    {
      LiveSize(start, blocks, ptr);
      if ptr == 0 || Outside(ptr) then 0
      else
        var i := IndexOf(start, blocks, ptr - HEADER, 0).value;
        LiveSize(start, blocks, ptr);
        SizeLessHeader(blocks[i].size)
    }

    /** heap_get_info: total size, bytes in use and the number of allocations. */
    function HeapGetInfo(): (r: (nat, nat, nat))
      requires Valid()
      reads this
      ensures r == (heapSize, used, count)
      ensures r.2 == |Live().Keys|
      ensures Accounted() ==> r.1 <= r.0
    {
      AllocsCount(start, blocks);
      UsedWithinTotal(blocks);
      (heapSize, used, count)
    }
  
    /**
     * krealloc's shrink path, taken when size fits the block: split off the
     * excess when it is large. The subtraction from heap_used at
     * kernel/mm/heap.c:266 happens after the split and subtracts zero.
     */
    method ShrinkBlock(ptr: nat, size: nat) returns (ghost shrunk: bool)
      requires Valid() && ptr in Live() && 0 < size <= SizeLessHeader(Live()[ptr])
      modifies this
      ensures Valid() && SameArena()
      ensures shrunk <==> old(Live())[ptr] > Request(size) + HEADER + SLACK
      ensures blocks == Shrunk(old(blocks), BlockOf(old(start), old(blocks), ptr), Request(size))
      ensures ptr in Live() && Live() == old(Live())[ptr := Live()[ptr]]
      ensures shrunk ==> Live()[ptr] < old(Live())[ptr]
      ensures !shrunk ==> blocks == old(blocks)
      ensures used == old(used) && count == old(count)
      ensures Sum(blocks, UsedBytes) + old(Live())[ptr] == old(Sum(blocks, UsedBytes)) + Live()[ptr]
      ensures old(Sized(blocks)) ==> size + HEADER <= Live()[ptr] && Sized(blocks)
    {
      var i := BlockIndex(ptr);
      var req := Request(size);
      ShrunkFacts(start, blocks, i, req);
      shrunk := blocks[i].size > req + HEADER + SLACK;
      if blocks[i].size > req + HEADER + SLACK {
        SplitBlock(i, req);
        used := Sub(used, blocks[i].size - req);
      }
    }

    /**
     * krealloc's merge path, taken when the block is too small but it and its
     * free successor together hold size: absorb the successor, split off a
     * large excess, and leave heap_used alone.
     */
    method GrowBlock(ptr: nat, size: nat)
      requires Valid() && ptr in Live() && 0 < size <= MAX_REQUEST
      requires NextFree(start, blocks, ptr) > 0 && Live()[ptr] < size + HEADER <= Live()[ptr] + NextFree(start, blocks, ptr)
      modifies this
      ensures Valid() && SameArena()
      ensures blocks == Grown(old(blocks), BlockOf(old(start), old(blocks), ptr), Request(size))
      ensures ptr in Live() && Live() == old(Live())[ptr := Live()[ptr]]
      ensures Live()[ptr] == blocks[BlockOf(old(start), old(blocks), ptr)].size
      ensures size + HEADER <= Live()[ptr]
      ensures used == old(used) && count == old(count)
      ensures Sum(blocks, UsedBytes) + old(Live())[ptr] == old(Sum(blocks, UsedBytes)) + Live()[ptr]
      ensures old(Coalesced(blocks)) ==> Coalesced(blocks)
      ensures old(Sized(blocks)) ==> Sized(blocks)
    {
      var i := BlockIndex(ptr);
      var req := Request(size);
      GrownFacts(start, blocks, i, req);
      MergeShape(blocks, i);
      ghost var bs0 := blocks;
      ghost var live := Allocs(start, Grown(bs0, i, req));
      blocks := MergeNext(blocks, i);
      if blocks[i].size > req + HEADER + SLACK {
        SplitBlock(i, req);
      }
      assert blocks == Grown(bs0, i, req);
      assert Live() == live;
    }

    /** The corrected shrink: the remainder merges with a free successor and heap_used drops by what was released. */
    method ShrinkBlockFixed(ptr: nat, size: nat)
      requires Valid() && ptr in Live() && 0 < size <= SizeLessHeader(Live()[ptr])
      modifies this
      ensures Valid() && SameArena()
      ensures blocks == ShrunkFixed(old(blocks), BlockOf(old(start), old(blocks), ptr), Request(size))
      ensures ptr in Live() && Live() == old(Live())[ptr := Live()[ptr]]
      ensures Live()[ptr] <= old(Live())[ptr] && count == old(count)
      ensures used == Sub(old(used), old(Live())[ptr] - Live()[ptr])
      ensures old(Accounted()) ==> Accounted()
      ensures old(Coalesced(blocks)) ==> Coalesced(blocks)
      ensures old(Sized(blocks)) ==> size + HEADER <= Live()[ptr] && Sized(blocks)
    {
      var i := BlockIndex(ptr);
      var req := Request(size);
      ShrunkFixedFacts(start, blocks, i, req);
      ghost var bs0 := blocks;
      ghost var live := Allocs(start, ShrunkFixed(bs0, i, req));
      ghost var live0 := Live();
      ghost var used0 := used;
      ghost var size1 := if bs0[i].size > req + HEADER + SLACK then req else bs0[i].size;
      assert used0 < U64 && live0[ptr] == bs0[i].size;
      assert Addr(start, bs0, i) + HEADER == ptr;
      assert live == live0[ptr := size1];
      ShrinkFixedCore(i, req);
      assert blocks == ShrunkFixed(bs0, i, req);
      assert Live() == live;
      assert used == Sub(used0, live0[ptr] - live[ptr]);
    }

    /** The corrected shrink on block i: split and merge when the excess is large enough. */
    method ShrinkFixedCore(i: nat, req: nat)
      requires i < |blocks| && 0 < req && used < U64
      modifies this
      ensures blocks == ShrunkFixed(old(blocks), i, req)
      ensures used == (if old(blocks)[i].size > req + HEADER + SLACK then Sub(old(used), old(blocks)[i].size - req) else old(used))
      ensures SameArena() && count == old(count)
    {
      if blocks[i].size > req + HEADER + SLACK {
        SplitMerge(i, req);
      }
    }

    /** The split of the corrected shrink: the remainder is released from heap_used and merged. */
    method SplitMerge(i: nat, req: nat)
      requires i < |blocks| && 0 < req < blocks[i].size && used < U64
      modifies this
      ensures blocks == MergeAround(Split(old(blocks), i, req), i + 1)
      ensures used == Sub(old(used), old(blocks)[i].size - req)
      ensures SameArena() && count == old(count)
    {
      var s := blocks[i].size;
      SplitBlock(i, req);
      used := Sub(used, s - req);
      SplitShape(old(blocks), i, req);
      var merged := MergeAdjacentBlocks(i + 1);
    }

    /** The corrected growth: heap_used rises by what the block gained. */
    method GrowBlockFixed(ptr: nat, size: nat)
      requires Valid() && ptr in Live() && 0 < size <= MAX_REQUEST
      requires NextFree(start, blocks, ptr) > 0 && Live()[ptr] < size + HEADER <= Live()[ptr] + NextFree(start, blocks, ptr)
      modifies this
      ensures Valid() && SameArena()
      ensures blocks == Grown(old(blocks), BlockOf(old(start), old(blocks), ptr), Request(size))
      ensures ptr in Live() && Live() == old(Live())[ptr := Live()[ptr]]
      ensures size + HEADER <= Live()[ptr] && count == old(count)
      ensures used == Memory.Inc(old(used), Live()[ptr] - old(Live())[ptr])
      ensures old(Accounted()) ==> Accounted()
      ensures old(Coalesced(blocks)) ==> Coalesced(blocks)
      ensures old(Sized(blocks)) ==> Sized(blocks)
    {
      var i := BlockIndex(ptr);
      var s := blocks[i].size;
      GrowBlock(ptr, size);
      UsedWithinTotal(blocks);
      used := Memory.Inc(used, blocks[i].size - s);
    }

    /** The header of a live pointer, `ptr - sizeof(heap_block_t)`, as a block index. */
    function BlockIndex(ptr: nat): (i: nat)
      requires Valid() && ptr in Live()
      reads this
      ensures i == BlockOf(start, blocks, ptr)
    {
      var _ := BlockOf(start, blocks, ptr);
      IndexOf(start, blocks, ptr - HEADER, 0).value
    }

    /** krealloc's last resort: allocate a new block, then free the old one. */
    method Move(ptr: nat, size: nat) returns (r: nat)
      requires Valid() && ptr in Live() && 0 < size <= MAX_REQUEST
      modifies this
      ensures Valid() && SameArena()
      ensures r == 0 ==> blocks == old(blocks) && used == old(used) && count == old(count)
      ensures r != 0 ==> r !in old(Live()) && r in Live() && size + HEADER <= Live()[r]
      ensures r != 0 ==> Live() == (old(Live()) - {ptr})[r := Live()[r]]
      ensures old(Coalesced(blocks)) ==> Coalesced(blocks)
      ensures old(Sized(blocks)) ==> Sized(blocks)
      ensures old(Accounted()) ==> Accounted()
    {
      r := Kmalloc(size);
      if r != 0 {
        LiveIff(start, blocks, ptr);
        var outcome := Kfree(ptr);
      }
    }

    /**
     * krealloc as written: NULL allocates, size 0 frees, and Resize does the
     * rest.
     */
    method Krealloc(ptr: nat, size: nat) returns (r: nat, ghost shrunk: bool, ghost grown: bool)
      requires Valid() && size <= MAX_REQUEST && (ptr == 0 || ptr in Live())
      modifies this
      ensures Valid() && SameArena()
      ensures ptr == 0 ==> (r == 0 <==> size == 0 || NoneFits(old(start), old(blocks), Request(size), 8))
      ensures size == 0 ==> r == 0 && Live() == old(Live()) - {ptr}
      ensures r == 0 && size > 0 ==> blocks == old(blocks) && used == old(used) && count == old(count)
      ensures r != 0 ==> r in Live() && Live() == (old(Live()) - {ptr})[r := Live()[r]]
      ensures r != 0 && r != ptr ==> r !in old(Live())
      ensures r != 0 && old(Sized(blocks)) ==> size + HEADER <= Live()[r]
      ensures ptr != 0 && size > 0 ==> (r == ptr <==> InPlace(old(start), old(blocks), ptr, size))
      ensures shrunk <==> ptr != 0 && size > 0 && old(Live())[ptr] > Request(size) + HEADER + SLACK
      ensures shrunk ==> blocks == Split(old(blocks), BlockOf(old(start), old(blocks), ptr), Request(size))
      ensures grown ==> ptr in old(Live()) && r == ptr && ptr in Live() && Live()[ptr] > old(Live())[ptr]
      ensures shrunk || grown ==> used == old(used) && count == old(count)
      ensures shrunk && old(Accounted()) ==> used > Sum(blocks, UsedBytes)
      ensures grown && old(Accounted()) ==> used < Sum(blocks, UsedBytes)
      ensures !shrunk && !grown && old(Accounted()) ==> Accounted()
      ensures !shrunk && old(Coalesced(blocks)) ==> Coalesced(blocks)
      ensures old(Sized(blocks)) ==> Sized(blocks)
    {
      if ptr == 0 {
        LiveSize(start, blocks, ptr);
        r := Kmalloc(size);
        return r, false, false;
      }
      if size == 0 {
        LiveIff(start, blocks, ptr);
        var outcome := Kfree(ptr);
        return 0, false, false;
      }
      r, shrunk, grown := Resize(ptr, size);
    }

    /**
     * krealloc of a live pointer to a nonzero size: a block that is big
     * enough, or can absorb a free successor, is resized in place, anything
     * else moves to a new block (the copy of the contents is not modelled).
     * The in-place paths leave heap_used unchanged and the shrink path can
     * leave its remainder beside a free block.
     */
    method Resize(ptr: nat, size: nat) returns (r: nat, ghost shrunk: bool, ghost grown: bool)
      requires Valid() && 0 < size <= MAX_REQUEST && ptr in Live()
      modifies this
      ensures Valid() && SameArena()
      ensures r == 0 ==> blocks == old(blocks) && used == old(used) && count == old(count)
      ensures r != 0 ==> r in Live() && Live() == (old(Live()) - {ptr})[r := Live()[r]]
      ensures r != 0 && r != ptr ==> r !in old(Live())
      ensures r != 0 && old(Sized(blocks)) ==> size + HEADER <= Live()[r]
      ensures r == ptr <==> InPlace(old(start), old(blocks), ptr, size)
      ensures shrunk <==> old(Live())[ptr] > Request(size) + HEADER + SLACK
      ensures shrunk ==> blocks == Split(old(blocks), BlockOf(old(start), old(blocks), ptr), Request(size))
      ensures grown ==> r == ptr && Live()[ptr] > old(Live())[ptr]
      ensures shrunk || grown ==> used == old(used) && count == old(count)
      ensures shrunk && old(Accounted()) ==> used > Sum(blocks, UsedBytes)
      ensures grown && old(Accounted()) ==> used < Sum(blocks, UsedBytes)
      ensures !shrunk && !grown && old(Accounted()) ==> Accounted()
      ensures !shrunk && old(Coalesced(blocks)) ==> Coalesced(blocks)
      ensures old(Sized(blocks)) ==> Sized(blocks)
    {
      var i := BlockIndex(ptr);
      InPlaceAt(start, blocks, ptr, size);
      var current := SizeLessHeader(blocks[i].size);
      if size <= current || (i + 1 < |blocks| && blocks[i + 1].free && blocks[i].size + blocks[i + 1].size >= size + HEADER) {
        shrunk, grown := ResizeInPlace(ptr, size);
        return ptr, shrunk, grown;
      }
      r := Move(ptr, size);
      return r, false, false;
    }

    /** krealloc's two in-place paths: shrink when size fits the block, otherwise absorb the free successor. */
    method ResizeInPlace(ptr: nat, size: nat) returns (ghost shrunk: bool, ghost grown: bool)
      requires Valid() && 0 < size <= MAX_REQUEST && ptr in Live() && InPlace(start, blocks, ptr, size)
      modifies this
      ensures Valid() && SameArena()
      ensures ptr in Live() && Live() == old(Live())[ptr := Live()[ptr]]
      ensures old(Sized(blocks)) ==> size + HEADER <= Live()[ptr]
      ensures shrunk <==> old(Live())[ptr] > Request(size) + HEADER + SLACK
      ensures shrunk ==> blocks == Split(old(blocks), BlockOf(old(start), old(blocks), ptr), Request(size))
      ensures grown ==> Live()[ptr] > old(Live())[ptr]
      ensures used == old(used) && count == old(count)
      ensures shrunk && old(Accounted()) ==> used > Sum(blocks, UsedBytes)
      ensures grown && old(Accounted()) ==> used < Sum(blocks, UsedBytes)
      ensures !shrunk && !grown ==> blocks == old(blocks)
      ensures !shrunk && old(Coalesced(blocks)) ==> Coalesced(blocks)
      ensures old(Sized(blocks)) ==> Sized(blocks)
    {
      var i := BlockIndex(ptr);
      InPlaceAt(start, blocks, ptr, size);
      if size <= SizeLessHeader(blocks[i].size) {
        shrunk := ShrinkBlock(ptr, size);
        grown := false;
      } else {
        GrowBlock(ptr, size);
        shrunk, grown := false, true;
      }
    }
  
    /** krealloc with heap_used kept in step and a shrink remainder merged with a free successor. */
    method KreallocFixed(ptr: nat, size: nat) returns (r: nat)
      requires Valid() && size <= MAX_REQUEST && (ptr == 0 || ptr in Live())
      modifies this
      ensures Valid() && SameArena()
      ensures ptr == 0 ==> (r == 0 <==> size == 0 || NoneFits(old(start), old(blocks), Request(size), 8))
      ensures size == 0 ==> r == 0 && Live() == old(Live()) - {ptr}
      ensures r == 0 && size > 0 ==> blocks == old(blocks) && used == old(used) && count == old(count)
      ensures r != 0 ==> r in Live() && Live() == (old(Live()) - {ptr})[r := Live()[r]]
      ensures r != 0 && r != ptr ==> r !in old(Live())
      ensures r != 0 && old(Sized(blocks)) ==> size + HEADER <= Live()[r]
      ensures ptr != 0 && size > 0 ==> (r == ptr <==> InPlace(old(start), old(blocks), ptr, size))
      ensures old(Accounted()) ==> Accounted()
      ensures old(Coalesced(blocks)) ==> Coalesced(blocks)
      ensures old(Sized(blocks)) ==> Sized(blocks)
    {
      if ptr == 0 {
        LiveSize(start, blocks, ptr);
        r := Kmalloc(size);
        return;
      }
      if size == 0 {
        LiveIff(start, blocks, ptr);
        var outcome := Kfree(ptr);
        return 0;
      }
      r := ResizeFixed(ptr, size);
    }

    method ResizeFixed(ptr: nat, size: nat) returns (r: nat)
      requires Valid() && 0 < size <= MAX_REQUEST && ptr in Live()
      modifies this
      ensures Valid() && SameArena()
      ensures r == 0 ==> blocks == old(blocks) && used == old(used) && count == old(count)
      ensures r != 0 ==> r in Live() && Live() == (old(Live()) - {ptr})[r := Live()[r]]
      ensures r != 0 && r != ptr ==> r !in old(Live())
      ensures r != 0 && old(Sized(blocks)) ==> size + HEADER <= Live()[r]
      ensures r == ptr <==> InPlace(old(start), old(blocks), ptr, size)
      ensures old(Accounted()) ==> Accounted()
      ensures old(Coalesced(blocks)) ==> Coalesced(blocks)
      ensures old(Sized(blocks)) ==> Sized(blocks)
    {
      var i := BlockIndex(ptr);
      InPlaceAt(start, blocks, ptr, size);
      var current := SizeLessHeader(blocks[i].size);
      if size <= current || (i + 1 < |blocks| && blocks[i + 1].free && blocks[i].size + blocks[i + 1].size >= size + HEADER) {
        ResizeInPlaceFixed(ptr, size);
        return ptr;
      }
      r := Move(ptr, size);
    }

    method ResizeInPlaceFixed(ptr: nat, size: nat)
      requires Valid() && 0 < size <= MAX_REQUEST && ptr in Live() && InPlace(start, blocks, ptr, size)
      modifies this
      ensures Valid() && SameArena()
      ensures ptr in Live() && Live() == old(Live())[ptr := Live()[ptr]]
      ensures old(Sized(blocks)) ==> size + HEADER <= Live()[ptr]
      ensures count == old(count)
      ensures old(Accounted()) ==> Accounted()
      ensures old(Coalesced(blocks)) ==> Coalesced(blocks)
      ensures old(Sized(blocks)) ==> Sized(blocks)
    {
      var i := BlockIndex(ptr);
      InPlaceAt(start, blocks, ptr, size);
      if size <= SizeLessHeader(blocks[i].size) {
        ShrinkBlockFixed(ptr, size);
      } else {
        GrowBlockFixed(ptr, size);
      }
    }
  }

  // ---------------------------------------------------------------------
  // Concrete inputs behind the findings
  // ---------------------------------------------------------------------

  /**
   * krealloc(p, 8) on a 200-byte used block followed by a free block splits
   * off a free remainder right beside that free block; the corrected shrink
   * merges the two. heap_used keeps the 200 bytes while the block now
   * accounts for 40.
   */
  lemma ShrinkBesideFree()
    ensures var bs := [Block(200, false), Block(100, true)];
      Coalesced(bs) && Sum(bs, UsedBytes) == 200
      && bs[0].size > Request(8) + HEADER + SLACK
      && !Coalesced(Split(bs, 0, Request(8)))
      && Sum(Split(bs, 0, Request(8)), UsedBytes) == 40
      && Coalesced(ShrunkFixed(bs, 0, Request(8)))
  {
    var bs := [Block(200, false), Block(100, true)];
    assert Request(8) == 40;
    var t := Split(bs, 0, 40);
    SplitShape(bs, 0, 40);
    SplitSum(bs, 0, 40, UsedBytes);
    SumTwo(bs[0], bs[1], UsedBytes);
    assert bs == [bs[0], bs[1]];
    assert t[1].free && t[2].free;
    ShrunkFixedFacts(4096, bs, 0, 40);
  }

  /**
   * kmalloc_aligned(8, 16) on a heap at 4096 whose first block (40 bytes) is
   * in use: the 8152-byte free block behind it has its data pointer at 4168,
   * 8 bytes short of a multiple of 16, which is too little for a padding
   * block, so the unaligned 4168 is returned.
   */
  lemma ShortPadding()
    ensures var bs := [Block(40, false), Block(8152, true)];
      AlignedPick(4096, bs, 8, 16) == 1 && AlignedData(4096, bs, 8, 16) == 4168
      && Padding(4168, 16) == 8 && !Carved(Padding(4168, 16)) && 4168 % 16 != 0
  {
    ShortPaddingSizes();
    ShortPaddingPick();
  }

  lemma ShortPaddingPick()
    ensures var bs := [Block(40, false), Block(8152, true)];
      AlignedPick(4096, bs, 8, 16) == 1 && AlignedData(4096, bs, 8, 16) == 4168
  {
    var bs := [Block(40, false), Block(8152, true)];
    ShortPaddingSizes();
    AddrNext(4096, bs, 0);
    assert Addr(4096, bs, 1) == 4136;
    assert !Fits(Addr(4096, bs, 0), bs[0], 56, 16);
    assert Fits(Addr(4096, bs, 1), bs[1], 56, 16);
    assert FirstFit(4096, bs, 56, 16, 1) == 1;
    assert FirstFit(4096, bs, 56, 16, 0) == 1;
  }

  lemma ShortPaddingSizes()
    ensures AlignedRequest(8, 16) == 56 && Padding(4168, 16) == 8
  {
    assert AlignUp(56, 8) == 56;
    assert AlignUp(4168, 16) == 4176;
  }

  /**
   * kmalloc_aligned(8, 1) in a lone 64-byte free block splits at 40 bytes
   * because 64 > 8 + 32 + 16, leaving a 24-byte remainder that cannot hold
   * its own 32-byte header.
   */
  lemma ShortRemainder()
    ensures var bs := [Block(64, true)];
      Sized(bs) && AlignedPick(4096, bs, 8, 1) == 0 && Padding(AlignedData(4096, bs, 8, 1), 1) == 0
      && Claim(bs, 0, 8 + HEADER, 8 + HEADER + SLACK) == [Block(40, false), Block(24, true)]
      && !Sized(Claim(bs, 0, 8 + HEADER, 8 + HEADER + SLACK))
  {
    var bs := [Block(64, true)];
    assert AlignedRequest(8, 1) == 48;
    assert Fits(Addr(4096, bs, 0), bs[0], 48, 1);
    var t := Split(bs, 0, 40);
    SplitShape(bs, 0, 40);
    assert t == [Block(40, true), Block(24, true)];
    var c := Claim(bs, 0, 8 + HEADER, 8 + HEADER + SLACK);
    assert c[1].size < HEADER;
  }

  /** `(align & (align - 1)) == 0` on a size_t, kmalloc_aligned's power-of-two check. */
  predicate PassesPow2Check(align: bv64)
  {
    align & (align - 1) == 0
  }

  /**
   * heap_init(4097, 4096): the start moves up to 8192 and the one block
   * keeps 4096 bytes, so the arena ends at 12288, past the caller's region
   * that ends at 8193.
   */
  lemma InitRunsPast()
    ensures AlignUp(4097, PAGE_SIZE) == 8192
    ensures AlignUp(4097, PAGE_SIZE) + 4096 > 4097 + 4096
  {
  }

  /**
   * The power-of-two check lets an alignment of 0 through, although 0 is no power of two;
   * the rounding `(d + align - 1) & ~(align - 1)` then sends every address to 0.
   */
  lemma ZeroAlignPasses()
    ensures PassesPow2Check(0) && !IsPow2(0)
    ensures ((4128 as bv64) + 0 - 1) & !((0 as bv64) - 1) == 0
  {
  }
}
