/** The tracing allocator (`WPA_TRACE` in `os_unix.c`): every live block is on a
    list, and what is still there at exit is reported as leaked. */
module TraceAlloc {

  const ALLOC_MAGIC := 0xa84ef1b2
  const FREED_MAGIC := 0x67fd487a

  /** A block: its header and the bytes behind it. */
  class Block {
    var magic: int
    const len: nat
    const data: array<char>

    constructor (size: nat)
      ensures magic == ALLOC_MAGIC && len == size && data.Length == size && fresh(data)
    {
      magic := ALLOC_MAGIC;
      len := size;
      data := new char[size];
    }
  }

  function Total(bs: seq<Block>): nat {
    if bs == [] then 0 else bs[0].len + Total(bs[1..])
  }

  /** dl_list_del */
  function Without(bs: seq<Block>, b: Block): seq<Block> {
    if bs == [] then [] else if bs[0] == b then bs[1..] else [bs[0]] + Without(bs[1..], b)
  }

  predicate Distinct(bs: seq<Block>) {
    forall i, j :: 0 <= i < j < |bs| ==> bs[i] != bs[j]
  }

  /** Unlinking a block takes away its length and nothing else. */
  lemma {:induction false} TotalWithout(bs: seq<Block>, b: Block)
    requires b in bs
    ensures Total(Without(bs, b)) == Total(bs) - b.len
  {
    if bs[0] != b {
      TotalWithout(bs[1..], b);
    }
  }

  /** One block is cut out, and the others stay in their order. */
  lemma {:induction false} WithoutIsCut(bs: seq<Block>, b: Block) returns (i: nat)
    requires b in bs
    ensures i < |bs| && bs[i] == b && Without(bs, b) == bs[..i] + bs[i + 1..]
  {
    if bs[0] == b {
      i := 0;
    } else {
      var i' := WithoutIsCut(bs[1..], b);
      i := i' + 1;
      assert bs[..i] == [bs[0]] + bs[1..][..i'] && bs[i + 1..] == bs[1..][i' + 1..];
    }
  }

  lemma {:induction false} WithoutSpec(bs: seq<Block>, b: Block)
    requires Distinct(bs)
    ensures Distinct(Without(bs, b)) && b !in Without(bs, b)
    ensures forall x :: x in Without(bs, b) <==> x in bs && x != b
  {
    if bs != [] && bs[0] != b {
      WithoutSpec(bs[1..], b);
      var rest := Without(bs[1..], b);
      assert bs == [bs[0]] + bs[1..];
      assert Without(bs, b) == [bs[0]] + rest;
      assert bs[0] !in bs[1..];
    }
  }

  class Heap {
    var allocList: seq<Block>
    /** Sums of the lengths allocated and freed since os_program_init. */
    ghost var obtained: nat
    ghost var released: nat

    ghost predicate Valid()
      reads this, allocList
    {
      && Distinct(allocList)
      && (forall b :: b in allocList ==> b.magic == ALLOC_MAGIC && b.len == b.data.Length)
      && (forall b, c :: b in allocList && c in allocList && b != c ==> b.data != c.data)
      && obtained == released + Total(allocList)
    }

    /** os_program_init */
    constructor ()
      ensures Valid() && allocList == [] && obtained == released == 0
    {
      allocList, obtained, released := [], 0, 0;
    }

    method OsMalloc(size: nat, outOfMemory: bool) returns (p: Block?)
      requires Valid()
      modifies this
      ensures Valid()
      ensures p == null <==> outOfMemory
      ensures p == null ==> allocList == old(allocList) && obtained == old(obtained) && released == old(released)
      ensures p != null ==>
                && fresh(p) && fresh(p.data) && p.len == p.data.Length == size && p.magic == ALLOC_MAGIC
                && allocList == [p] + old(allocList)
                && obtained == old(obtained) + size && released == old(released)
    {
      if outOfMemory { return null; }
      var a := new Block(size);
      allocList := [a] + allocList;
      obtained := obtained + size;
      assert allocList[1..] == old(allocList);
      p := a;
    }

    /** Aborts on a block whose magic shows that it is not live. */
    method OsFree(p: Block?) returns (abort: bool)
      requires Valid()
      requires p != null && p.magic == ALLOC_MAGIC ==> p in allocList
      modifies this, (if p == null then {} else {p})`magic
      ensures abort <==> p != null && old(p.magic) != ALLOC_MAGIC
      ensures Valid()
      ensures p == null || abort ==>
                allocList == old(allocList) && obtained == old(obtained) && released == old(released)
      ensures p != null && !abort ==>
                && p.magic == FREED_MAGIC && p.magic != ALLOC_MAGIC
                && allocList == Without(old(allocList), p)
                && obtained == old(obtained) && released == old(released) + p.len
    {
      if p == null { return false; }
      if p.magic != ALLOC_MAGIC { return true; }
      TotalWithout(allocList, p);
      WithoutSpec(allocList, p);
      allocList := Without(allocList, p);
      released := released + p.len;
      p.magic := FREED_MAGIC;
      abort := false;
    }

    /** The new block starts with as much of the old one as both have room for. */
    method OsRealloc(p: Block?, size: nat, outOfMemory: bool) returns (n: Block?, abort: bool)
      requires Valid()
      requires p != null && p.magic == ALLOC_MAGIC ==> p in allocList
      modifies this, (if p == null then {} else {p})`magic
      ensures Valid()
      ensures abort <==> p != null && old(p.magic) != ALLOC_MAGIC
      ensures abort || outOfMemory ==>
                n == null && allocList == old(allocList) && obtained == old(obtained) && released == old(released)
      ensures !abort && !outOfMemory ==>
                && n != null && fresh(n) && n.len == n.data.Length == size
                && allocList == (if p == null then [n] + old(allocList) else Without([n] + old(allocList), p))
                && obtained == old(obtained) + size
      ensures !abort && !outOfMemory && p != null ==>
                forall i :: 0 <= i < p.len && i < size ==> n.data[i] == old(p.data[i])
      ensures !abort && !outOfMemory && p != null ==>
                && released == old(released) + p.len && p.magic == FREED_MAGIC
    {
      abort := false;
      if p == null {
        n := OsMalloc(size, outOfMemory);
        return;
      }
      if p.magic != ALLOC_MAGIC { return null, true; }
      n := OsMalloc(size, outOfMemory);
      if n == null { return; }
      var copyLen := p.len;
      if copyLen > size { copyLen := size; }
      forall i | 0 <= i < copyLen { n.data[i] := p.data[i]; }
      assert n.data[..copyLen] == p.data[..copyLen];
      abort := OsFree(p);
    }

    /** The leak total reported at exit is what was allocated and not freed. */
    method OsProgramDeinit() returns (total: nat)
      requires Valid()
      ensures total == obtained - released
    {
      total := 0;
      var i := 0;
      while i < |allocList|
        invariant 0 <= i <= |allocList|
        invariant total + Total(allocList[i..]) == Total(allocList)
      {
        total := total + allocList[i].len;
        i := i + 1;
      }
    }
  }
}
