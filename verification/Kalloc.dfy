/** The page allocator down to the bytes of the pages (kalloc.c): the list of free pages is made of
    links that lie in the pages themselves. Addresses of pages are page numbers. */
module Kalloc {
  import opened PageTable
  import opened VmState

  const LINKSIZE := 8        // sizeof(struct run *)
  const LINKS := 0x1_0000_0000_0000_0000

  // ----- pointers in memory ---------------------------------------------------------------

  /** The n bytes of a number, lowest first. */
  function ToBytes(w: nat, n: nat): (b: seq<Byte>)
    ensures |b| == n
  {
    if n == 0 then [] else [w % 256] + ToBytes(w / 256, n - 1)
  }

  function FromBytes(b: seq<Byte>): nat {
    if b == [] then 0 else b[0] + 256 * FromBytes(b[1..])
  }

  function Pow256(n: nat): nat {
    if n == 0 then 1 else 256 * Pow256(n - 1)
  }

  lemma {:induction false} BytesRoundTrip(w: nat, n: nat)
    requires w < Pow256(n)
    ensures FromBytes(ToBytes(w, n)) == w
  {
    if n > 0 {
      BytesRoundTrip(w / 256, n - 1);
      assert ToBytes(w, n)[1..] == ToBytes(w / 256, n - 1);
    }
  }

  /** A page that memset has filled with one byte. */
  function Bytes(x: Byte): (f: Frame)
    ensures forall o | 0 <= o < PGSIZE :: f[o] == x
  {
    seq(PGSIZE, _ => x)
  }

  /** The link at the start of a page. */
  function GetNext(b: Frame): nat {
    FromBytes(b[..LINKSIZE])
  }

  function SetNext(b: Frame, p: nat): Frame {
    ToBytes(p, LINKSIZE) + b[LINKSIZE..]
  }

  /** A link that was stored is the one that is read. */
  lemma NextRoundTrip(b: Frame, p: nat)
    requires p < LINKS
    ensures GetNext(SetNext(b, p)) == p
  {
    assert Pow256(LINKSIZE) == LINKS;
    BytesRoundTrip(p, LINKSIZE);
    assert SetNext(b, p)[..LINKSIZE] == ToBytes(p, LINKSIZE);
  }

  // ----- the list --------------------------------------------------------------------------

  /** From `head` the links in the pages lead through exactly these pages. */
  ghost predicate Chained(mem: map<int, Frame>, head: int, free: seq<int>)
    decreases |free|
  {
    if free == [] then head == 0
    else
      && head == free[0] != 0 && head in mem
      && Chained(mem, GetNext(mem[head]), free[1..])
  }

  /** Stores to pages that are not on the list do not break it. */
  lemma {:induction false} ChainedStill(mem: map<int, Frame>, m: map<int, Frame>, head: int, free: seq<int>)
    requires Chained(mem, head, free)
    requires forall p | p in free :: p in mem ==> p in m && m[p] == mem[p]
    ensures Chained(m, head, free)
    decreases |free|
  {
    if free != [] {
      ChainedStill(mem, m, GetNext(mem[head]), free[1..]);
    }
  }

  class Allocator {
    var freelist: nat             // kmem.freelist
    var mem: map<int, Frame>
    ghost var free: seq<int>      // the pages on the list

    ghost predicate Valid()
      reads this
    {
      && Chained(mem, freelist, free)
      && Unique(free) && (forall p | p in free :: p in mem)
      && (forall p | p in mem :: 0 < p < LINKS)
    }

    /** kfree: the page is filled with junk and becomes the first of the list; no other page
        is touched. */
    method Kfree(p: nat)
      requires Valid() && p in mem && p !in free
      modifies this
      ensures Valid() && free == [p] + old(free) && mem.Keys == old(mem).Keys
      ensures mem[p] == SetNext(Bytes(1), old(freelist)) && GetNext(mem[p]) == old(freelist)
      ensures forall q | q in mem && q != p :: mem[q] == old(mem)[q]
    {
      assert freelist < LINKS by {
        assert free != [] ==> freelist in mem;
      }
      NextRoundTrip(Bytes(1), freelist);
      mem := mem[p := Bytes(1)];
      mem := mem[p := SetNext(mem[p], freelist)];
      ChainedStill(old(mem), mem, freelist, free);
      free := [p] + free;
      assert free[1..] == old(free);
      freelist := p;
    }

    /** kalloc: the first page of the list, filled with junk, or 0 exactly if there is none; no
        other page is touched. */
    method Kalloc() returns (r: nat)
      requires Valid()
      modifies this
      ensures Valid() && (r == 0 <==> old(free) == []) && mem.Keys == old(mem).Keys
      ensures r == 0 ==> mem == old(mem) && free == old(free)
      ensures r != 0 ==> r == old(free)[0] && free == old(free)[1..] && r !in free && r in mem && mem[r] == Bytes(5)
      ensures forall q | q in mem && q != r :: mem[q] == old(mem)[q]
    {
      r := freelist;
      if r != 0 {
        freelist := GetNext(mem[r]);
        free := free[1..];
        mem := mem[r := Bytes(5)];
        ChainedStill(old(mem), mem, freelist, free);
      }
    }

    /** kinit: every page from the first to the last is given to kfree, so that the last one
        is the first to be taken. */
    constructor (mem: map<int, Frame>, first: nat, end: nat)
      requires forall p | p in mem :: 0 < p < LINKS
      requires first <= end && forall p | first <= p < end :: p in mem
      ensures Valid() && this.mem.Keys == mem.Keys
      ensures free == seq(end - first, k => end - 1 - k)
    {
      this.mem, freelist, free := mem, 0, [];
      new;
      var p := first;
      while p < end
        invariant Valid() && first <= p <= end && this.mem.Keys == mem.Keys
        invariant free == seq(p - first, k => p - 1 - k)
      {
        Kfree(p);
        p := p + 1;
      }
    }
  }
}
