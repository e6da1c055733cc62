/** A commit that finds no buffer: three operations within their budgets fill the log of mkfs, and
    one block of another process is enough. */
module BufferShortage {
  import opened RedoLog
  import opened BufferCache
  import opened Pigeonhole
  import opened LogCode

  const BLOCKS := 2000
  const FULL := LOGSIZE - 1     // the blocks that the log holds

  /** A process that has locked block m, and nobody else. */
  function Client(m: int): Others
    requires 0 <= m < BLOCKS
  {
    Others(Nobody(BLOCKS).refs[m := 1], {m})
  }

  /** The log of mkfs, empty on the disk, with the blocks bs logged; the open operations have so
      much left of their budgets, and the references of o are the only others. */
  ghost predicate Logging(l: Log, bs: seq<int>, o: Others, left: seq<int>)
    reads l, l.block, l.cache, l.cache.bufs
  {
    && l.Valid() && l.Cleared() && l.start == 2 && l.size == LOGSIZE && |l.cache.disk| == BLOCKS
    && l.block[..l.n] == bs && Pins(l.cache.refs, bs, o) && l.cache.held == o.held
    && l.Reserves(left) && !l.committing
  }

  lemma PinnedFew(refs: seq<int>, bs: seq<int>)
    requires Pins(refs, bs, Nobody(|refs|))
    ensures |Referred(refs)| <= |bs|
  {
    SetOfSeq(bs);
    ReferredWithin(refs, set x | x in bs);
  }

  lemma OneMoreReference(refs: seq<int>, bs: seq<int>, m: int, r: seq<int>)
    requires 0 <= m < |refs| == BLOCKS
    ensures Pins(refs, bs, Nobody(BLOCKS)) && r == refs[m := refs[m] + 1] ==> Pins(r, bs, Client(m))
    ensures Pins(refs, bs, Client(m)) && r == refs[m := refs[m] - 1] ==> Pins(r, bs, Nobody(BLOCKS))
  {}

  method Fetch(l: Log, m: int, ghost bs: seq<int>, ghost left: seq<int>) returns (b: int)
    requires Logging(l, bs, Nobody(BLOCKS), left) && |bs| < NBUF && 0 <= m < BLOCKS
    modifies l.cache, l.cache.bufs
    ensures Logging(l, bs, Client(m), left) && l.cache.slot[m] == b && l.cache.refs[m] > 0
  {
    ghost var refs := l.cache.refs;
    PinnedFew(refs, bs);
    b := l.ReadOne(m);
    OneMoreReference(refs, bs, m, l.cache.refs);
  }

  method Write(l: Log, m: int, b: int, ghost bs: seq<int>, ghost o: Others, ghost left: seq<int>, ghost k: int)
    requires 0 <= m < BLOCKS && Logging(l, bs, o, left) && |bs| < FULL && l.cache.slot[m] == b && l.cache.refs[m] > 0
    requires m !in bs && !InLog(l.Area(), m) && 0 <= k < |left| && left[k] > 0
    modifies l, l.block, l.cache, l.cache.bufs
    ensures Logging(l, bs + [m], o, Spend(left, k)) && l.cache.slot[m] == b
    ensures l.outstanding == old(l.outstanding)
  {
    assert l.n == |bs|;
    var r := l.LogWrite(b, m, o, left, k);
    assert r == Done;
  }

  method Release(l: Log, m: int, b: int, ghost bs: seq<int>, ghost left: seq<int>)
    requires 0 <= m < BLOCKS && Logging(l, bs, Client(m), left) && l.cache.slot[m] == b && m in bs
    modifies l.cache, l.cache.bufs
    ensures Logging(l, bs, Nobody(BLOCKS), left)
  {
    ghost var refs := l.cache.refs;
    l.cache.Brelse(b, m);
    OneMoreReference(refs, bs, m, l.cache.refs);
  }

  /** One block as a system call writes it: bread, log_write, brelse. */
  method LogOne(l: Log, m: int, ghost bs: seq<int>, ghost left: seq<int>, ghost k: int)
    requires Logging(l, bs, Nobody(BLOCKS), left) && |bs| < FULL && 0 <= m < BLOCKS
    requires m !in bs && !InLog(l.Area(), m) && 0 <= k < |left| && left[k] > 0
    modifies l, l.block, l.cache, l.cache.bufs
    ensures Logging(l, bs + [m], Nobody(BLOCKS), Spend(left, k)) && l.outstanding == old(l.outstanding)
  {
    var b := Fetch(l, m, bs, left);
    Write(l, m, b, bs, Client(m), left, k);
    Release(l, m, b, bs + [m], Spend(left, k));
  }

  /** What three operations have left of their budgets when they have logged j blocks, one operation
      after the other. */
  function LeftAfter(j: int): seq<int> {
    seq(3, k =>
      if j < k * MAXOPBLOCKS then MAXOPBLOCKS
      else if j < (k + 1) * MAXOPBLOCKS then (k + 1) * MAXOPBLOCKS - j
      else 0)
  }

  lemma SpendNext(j: int)
    requires 0 <= j < 3 * MAXOPBLOCKS
    ensures 0 <= j / MAXOPBLOCKS < |LeftAfter(j)| && LeftAfter(j)[j / MAXOPBLOCKS] > 0
    ensures Spend(LeftAfter(j), j / MAXOPBLOCKS) == LeftAfter(j + 1)
  {}

  function From100(j: nat): seq<int> {
    seq(j, k => 100 + k)
  }

  /** begin_op is admitted three times. */
  method BeginAll(l: Log)
    requires l.n == 0 && l.outstanding == 0 && !l.committing
    modifies l`outstanding
    ensures l.Reserves(LeftAfter(0)) && l.outstanding == 3
  {
    var admitted := l.TryBeginOp();
    admitted := l.TryBeginOp();
    admitted := l.TryBeginOp();
    assert LeftAfter(0) == [MAXOPBLOCKS, MAXOPBLOCKS] + [MAXOPBLOCKS];
  }

  method Begin() returns (l: Log)
    ensures fresh(l) && fresh(l.cache) && fresh(l.cache.bufs) && fresh(l.block)
    ensures Logging(l, [], Nobody(BLOCKS), LeftAfter(0)) && l.outstanding == 3
  {
    var c := new Bcache(seq(BLOCKS, _ => ZEROES));
    l := new Log(c, 2, LOGSIZE);
    assert l.Cleared();
    BeginAll(l);
  }

  /** end_op of an operation that is not the last. */
  method EndOne(l: Log, ghost bs: seq<int>, ghost left: seq<int>)
    requires Logging(l, bs, Nobody(BLOCKS), left) && l.outstanding > 1
    modifies l, l.block, l.cache, l.cache.bufs
    ensures Logging(l, bs, Nobody(BLOCKS), left[1..]) && l.outstanding == old(l.outstanding) - 1
  {
    assert left[..0] + left[1..] == left[1..];
    var r := l.EndOp(Nobody(BLOCKS), left, 0);
  }

  lemma NotYet(j: nat)
    ensures 100 + j !in From100(j) && From100(j) + [100 + j] == From100(j + 1)
  {}

  method Fill(l: Log)
    requires Logging(l, From100(0), Nobody(BLOCKS), LeftAfter(0)) && l.outstanding == 3
    modifies l, l.block, l.cache, l.cache.bufs
    ensures Logging(l, From100(FULL), Nobody(BLOCKS), LeftAfter(FULL)) && l.outstanding == 3
  {
    var j := 0;
    while j < FULL
      invariant 0 <= j <= FULL && Logging(l, From100(j), Nobody(BLOCKS), LeftAfter(j)) && l.outstanding == 3
    {
      SpendNext(j);
      NotYet(j);
      LogOne(l, 100 + j, From100(j), LeftAfter(j), j / MAXOPBLOCKS);
      j := j + 1;
    }
  }

  /** The log is full, and one operation is still open. */
  method FillLog() returns (l: Log)
    ensures fresh(l) && fresh(l.cache) && fresh(l.cache.bufs) && fresh(l.block)
    ensures Logging(l, From100(FULL), Nobody(BLOCKS), LeftAfter(FULL)[1..][1..]) && l.outstanding == 1
  {
    l := Begin();
    assert From100(0) == [];
    Fill(l);
    EndOne(l, From100(FULL), LeftAfter(FULL));
    EndOne(l, From100(FULL), LeftAfter(FULL)[1..]);
  }

  lemma AllBuffers(refs: seq<int>)
    requires |refs| == BLOCKS && Pins(refs, From100(FULL), Client(200))
    ensures |Referred(refs)| >= NBUF
  {
    var s := From100(FULL) + [200];
    forall i | 0 <= i < |s| ensures s[i] in Referred(refs) {
      assert i < FULL ==> From100(FULL)[i] == s[i];
    }
    DistinctFit(s, Referred(refs));
  }

  /** A process that is in no operation reads one more block, and the last end_op panics. */
  method CommitWithoutBuffers() returns (l: Log, r: Outcome)
    ensures fresh(l) && l.n == FULL && r == NoBuffers
  {
    l := FillLog();
    ghost var left := LeftAfter(FULL)[1..][1..];
    var b := Fetch(l, 200, From100(FULL), left);
    AllBuffers(l.cache.refs);
    assert l.block[..l.n] == From100(FULL) && l.outstanding == 1;
    NoneUnused(l.cache.bufs[..], l.cache.disk, l.cache.cur, l.cache.refs, l.cache.held, l.cache.slot);
    r := l.EndOp(Client(200), left, 0);
  }
}
