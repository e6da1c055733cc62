/** The disk driver and its device (virtio_disk.c): descriptors, the two rings of section 2.6
    of the virtio 1.1 standard, and the block requests of its section 5.2. */
module Virtio {
  const NUM := 8
  const WRAP := 0x1_0000        // ring indices are 16 bits wide
  const F_NEXT := 1
  const F_WRITE := 2
  const BSIZE := 1024
  const T_IN := 0               // read the disk
  const T_OUT := 1              // write the disk

  /** What a descriptor may point at. */
  datatype Addr = Null | Header(i: int) | Data(b: int) | Status(i: int)

  datatype Desc = Desc(addr: Addr, len: int, flags: int, next: int)

  /** What the first descriptor of a request points at. */
  datatype Op = Op(kind: int, sector: int)

  datatype Info = Info(b: int, status: int)

  const NODESC := Desc(Null, 0, 0, 0)

  /** A request, by the descriptors of its chain after the first, and how far it has got. */
  datatype Phase = Queued(pos: int) | AtDevice | Done(pos: int) | Seen

  datatype Req = Req(b: int, write: bool, block: int, i1: int, i2: int, phase: Phase)

  datatype Track = Track(
    reqs: map<int, Req>, own: seq<int>, cur: map<int, int>, atDevice: set<int>, seen: set<int>,
    submitted: int, taken: int, completed: int, noticed: int, freed: int)

  /** Memory that driver and device share, the driver's and the device's own indices, the
      buffers with b->disk set; and, only for the proofs, the requests by their first
      descriptor, the first descriptor of each descriptor's chain, the request of each
      buffer, and how many requests have been submitted, taken, completed, noticed, freed. */
  datatype Queue = Queue(
    free: seq<bool>, desc: seq<Desc>, ops: seq<Op>, info: seq<Info>,
    availRing: seq<int>, availIdx: int, usedRing: seq<int>, usedIdx: int,
    lastUsed: int, devIdx: int, busy: set<int>, g: Track)

  predicate IsDesc(i: int) { 0 <= i < NUM }

  predicate HasNext(flags: int) { flags % 2 == F_NEXT }

  /** The device may store into the buffer, and not load from it; otherwise it is the other
      way round. */
  predicate Stores(flags: int) { flags / 2 % 2 == 1 }

  function OpFor(write: bool, block: int): Op {
    Op(if write then T_OUT else T_IN, block * (BSIZE / 512))
  }

  function At(r: Req, phase: Phase): Req {
    Req(r.b, r.write, r.block, r.i1, r.i2, phase)
  }

  // ----- ring indices ---------------------------------------------------------------------

  /** The low 16 bits. */
  function Low(n: int): int { n % WRAP }

  function Slot(p: int): int { p % NUM }

  /** Positions less than NUM apart are in different ring slots. */
  lemma Slots(p: int, q: int)
    requires p < q < p + NUM
    ensures Slot(p) != Slot(q)
  {}

  /** A 16-bit index and the count it stands for use the same ring slot. */
  lemma SlotOfIndex(n: int)
    requires 0 <= n
    ensures Low(n) % NUM == Slot(n) && (Low(n) + 1) % WRAP == Low(n + 1) && 0 <= Slot(n) < NUM
  {}

  /** Two 16-bit indices differ exactly if the counts do, as long as these are close. */
  lemma SameIndex(n: int, m: int)
    requires 0 <= n <= m <= n + NUM
    ensures Low(n) == Low(m) <==> n == m
  {}

  // ----- counting free descriptors ----------------------------------------------------------

  function Count(s: seq<bool>): (n: int)
    ensures 0 <= n <= |s|
  {
    if s == [] then 0 else Count(s[..|s| - 1]) + if s[|s| - 1] then 1 else 0
  }

  lemma {:induction false} CountUpdate(s: seq<bool>, i: int, v: bool)
    requires 0 <= i < |s|
    ensures Count(s[i := v]) == Count(s) + (if v then 1 else 0) - if s[i] then 1 else 0
  {
    var n := |s| - 1;
    if i == n {
      assert s[i := v][..n] == s[..n];
    } else {
      assert s[i := v][..n] == s[..n][i := v];
      CountUpdate(s[..n], i, v);
    }
  }

  lemma {:induction false} AllFree(s: seq<bool>)
    requires forall i | 0 <= i < |s| :: s[i]
    ensures Count(s) == |s|
  {
    if s != [] {
      AllFree(s[..|s| - 1]);
    }
  }

  lemma {:induction false} NoneFree(s: seq<bool>)
    requires forall i | 0 <= i < |s| :: !s[i]
    ensures Count(s) == 0
  {
    if s != [] {
      NoneFree(s[..|s| - 1]);
    }
  }

  // ----- the invariant ----------------------------------------------------------------------

  ghost predicate Sizes(s: Queue) {
    |s.free| == |s.desc| == |s.ops| == |s.info| == |s.availRing| == |s.usedRing| == |s.g.own| == NUM
  }

  ghost predicate InChain(h: int, r: Req, i: int) {
    i == h || i == r.i1 || i == r.i2
  }

  /** A descriptor is free, or in the chain of one request. */
  ghost predicate DescOk(s: Queue, i: int)
    requires Sizes(s)
  {
    IsDesc(i) ==>
      && (s.free[i] <==> s.g.own[i] == -1)
      && (!s.free[i] ==> s.g.own[i] in s.g.reqs && InChain(s.g.own[i], s.g.reqs[s.g.own[i]], i))
  }

  /** Section 5.2.6 of the standard: 16 bytes of header that the device loads, the data, which it
      stores for a read and loads for a write, and one byte of status that it stores. */
  predicate Layout(d0: Desc, d1: Desc, d2: Desc, op: Op, write: bool) {
    && d0.len == 16 && !Stores(d0.flags) && d1.len == 1024 && (Stores(d1.flags) <==> !write)
    && d2.len == 1 && Stores(d2.flags) && d2.next == 0 && op.kind == if write then 1 else 0
  }

  /** A chain is three descriptors long, is nobody else's, and says what the request says. */
  ghost predicate ChainOk(s: Queue, h: int, r: Req)
    requires Sizes(s)
  {
    && IsDesc(h) && IsDesc(r.i1) && IsDesc(r.i2) && h != r.i1 && h != r.i2 && r.i1 != r.i2
    && s.g.own[h] == h && s.g.own[r.i1] == h && s.g.own[r.i2] == h
    && s.desc[h].addr == Header(h) && HasNext(s.desc[h].flags) && s.desc[h].next == r.i1
    && s.desc[r.i1].addr == Data(r.b) && HasNext(s.desc[r.i1].flags) && s.desc[r.i1].next == r.i2
    && s.desc[r.i2].addr == Status(h) && !HasNext(s.desc[r.i2].flags)
    && Layout(s.desc[h], s.desc[r.i1], s.desc[r.i2], s.ops[h], r.write)
    && s.ops[h].sector == r.block * 2 && s.info[h].b == r.b
    && r.b in s.g.cur && s.g.cur[r.b] == h
  }

  /** A queued request is in the available ring, a completed one in the used ring. */
  ghost predicate PhaseOk(s: Queue, h: int, phase: Phase)
    requires Sizes(s)
  {
    match phase
    case Queued(p) => s.g.taken <= p < s.g.submitted && s.availRing[Slot(p)] == h
    case AtDevice => h in s.g.atDevice
    case Done(p) => s.g.noticed <= p < s.g.completed && s.usedRing[Slot(p)] == h && IsDesc(h) && s.info[h].status == 0
    case Seen => h in s.g.seen
  }

  ghost predicate ReqOk(s: Queue, h: int)
    requires Sizes(s)
  {
    h in s.g.reqs ==> ChainOk(s, h, s.g.reqs[h]) && PhaseOk(s, h, s.g.reqs[h].phase)
  }

  ghost predicate SetsOk(s: Queue, h: int) {
    && (h in s.g.atDevice ==> h in s.g.reqs && s.g.reqs[h].phase == AtDevice)
    && (h in s.g.seen ==> h in s.g.reqs && s.g.reqs[h].phase == Seen)
  }

  ghost predicate RingsOk(s: Queue, p: int)
    requires Sizes(s)
  {
    && (s.g.taken <= p < s.g.submitted ==>
      s.availRing[Slot(p)] in s.g.reqs && s.g.reqs[s.availRing[Slot(p)]].phase == Queued(p))
    && (s.g.noticed <= p < s.g.completed ==>
      s.usedRing[Slot(p)] in s.g.reqs && s.g.reqs[s.usedRing[Slot(p)]].phase == Done(p))
  }

  /** A buffer waits for the disk exactly while its request is on the way. */
  ghost predicate BufOk(s: Queue, b: int) {
    && (b in s.g.cur ==> s.g.cur[b] in s.g.reqs && s.g.reqs[s.g.cur[b]].b == b)
    && (b in s.busy <==> b in s.g.cur && s.g.reqs[s.g.cur[b]].phase != Seen)
  }

  ghost predicate Counts(s: Queue) {
    && 0 <= s.g.freed <= s.g.noticed <= s.g.completed <= s.g.taken <= s.g.submitted
    && 3 * |s.g.reqs| + Count(s.free) == NUM
    && |s.g.reqs| == s.g.submitted - s.g.freed
    && |s.g.atDevice| == s.g.taken - s.g.completed && |s.g.seen| == s.g.noticed - s.g.freed
    && s.availIdx == Low(s.g.submitted) && s.devIdx == Low(s.g.taken)
    && s.usedIdx == Low(s.g.completed) && s.lastUsed == Low(s.g.noticed)
  }

  /** Free descriptors and chains of three partition the descriptors; each ring holds the
      requests it should, in order; and a buffer waits exactly while its request is on the way. */
  ghost predicate Inv(s: Queue) {
    && Sizes(s) && Counts(s)
    && (forall i :: DescOk(s, i)) && (forall h :: ReqOk(s, h)) && (forall h :: SetsOk(s, h))
    && (forall p :: RingsOk(s, p)) && (forall b :: BufOk(s, b))
  }

  // ----- the steps --------------------------------------------------------------------------

  /** The device takes the next request from the available ring. */
  ghost function Take(s: Queue): Queue
    requires Sizes(s) && s.availRing[Slot(s.g.taken)] in s.g.reqs
  {
    var h := s.availRing[Slot(s.g.taken)];
    s.(devIdx := (s.devIdx + 1) % WRAP,
       g := s.g.(reqs := s.g.reqs[h := At(s.g.reqs[h], AtDevice)], atDevice := s.g.atDevice + {h},
         taken := s.g.taken + 1))
  }

  lemma TakeEach(s: Queue, x: int)
    requires Sizes(s) && s.g.taken < s.g.submitted && RingsOk(s, s.g.taken) && ReqOk(s, s.availRing[Slot(s.g.taken)])
    ensures var t := Take(s);
            && (DescOk(s, x) ==> DescOk(t, x)) && (ReqOk(s, x) ==> ReqOk(t, x)) && (SetsOk(s, x) ==> SetsOk(t, x))
            && (RingsOk(s, x) ==> RingsOk(t, x)) && (BufOk(s, x) ==> BufOk(t, x))
  {
  }

  lemma TakeKeeps(s: Queue)
    requires Inv(s) && s.g.taken < s.g.submitted
    ensures RingsOk(s, s.g.taken) && Inv(Take(s))
  {
    assert RingsOk(s, s.g.taken);
    SlotOfIndex(s.g.taken);
    var h, t := s.availRing[Slot(s.g.taken)], Take(s);
    assert ReqOk(s, h) && SetsOk(s, h);
    forall x ensures DescOk(t, x) { assert DescOk(s, x); TakeEach(s, x); }
    forall x ensures ReqOk(t, x) { assert ReqOk(s, x); TakeEach(s, x); }
    forall x ensures SetsOk(t, x) { assert SetsOk(s, x); TakeEach(s, x); }
    forall x ensures RingsOk(t, x) { assert RingsOk(s, x); TakeEach(s, x); }
    forall x ensures BufOk(t, x) { assert BufOk(s, x); TakeEach(s, x); }
  }

  /** The device reports request h, which it has, as completed without error. */
  ghost function Complete(s: Queue, h: int): Queue
    requires Sizes(s) && h in s.g.reqs && IsDesc(h)
  {
    s.(usedRing := s.usedRing[Slot(s.g.completed) := h], usedIdx := (s.usedIdx + 1) % WRAP,
       info := s.info[h := Info(s.info[h].b, 0)],
       g := s.g.(reqs := s.g.reqs[h := At(s.g.reqs[h], Done(s.g.completed))],
                 atDevice := s.g.atDevice - {h}, completed := s.g.completed + 1))
  }

  lemma CompleteEach(s: Queue, h: int, x: int)
    requires Sizes(s) && h in s.g.reqs && IsDesc(h) && s.g.reqs[h].phase == AtDevice && ReqOk(s, h)
    requires 0 <= s.g.noticed <= s.g.completed < s.g.noticed + NUM
    ensures var t := Complete(s, h);
            && (DescOk(s, x) ==> DescOk(t, x)) && (SetsOk(s, x) ==> SetsOk(t, x))
            && (RingsOk(s, x) ==> RingsOk(t, x)) && (BufOk(s, x) ==> BufOk(t, x))
  {
    SlotOfIndex(s.g.completed);
    if s.g.noticed <= x < s.g.completed { Slots(x, s.g.completed); }
  }

  lemma CompleteReqs(s: Queue, h: int, x: int)
    requires Sizes(s) && h in s.g.reqs && IsDesc(h) && s.g.reqs[h].phase == AtDevice && ReqOk(s, h) && ReqOk(s, x)
    requires 0 <= s.g.noticed <= s.g.completed < s.g.noticed + NUM
    ensures ReqOk(Complete(s, h), x)
  {
    SlotOfIndex(s.g.completed);
    if x in s.g.reqs && s.g.reqs[x].phase.Done? { Slots(s.g.reqs[x].phase.pos, s.g.completed); }
  }

  lemma CompleteKeeps(s: Queue, h: int)
    requires Inv(s) && h in s.g.atDevice
    ensures h in s.g.reqs && IsDesc(h) && Inv(Complete(s, h))
  {
    assert SetsOk(s, h) && ReqOk(s, h);
    SlotOfIndex(s.g.completed);
    var t := Complete(s, h);
    forall x ensures DescOk(t, x) { assert DescOk(s, x); CompleteEach(s, h, x); }
    forall x ensures ReqOk(t, x) { assert ReqOk(s, x); CompleteReqs(s, h, x); }
    forall x ensures SetsOk(t, x) { assert SetsOk(s, x); CompleteEach(s, h, x); }
    forall x ensures RingsOk(t, x) { assert RingsOk(s, x); CompleteEach(s, h, x); }
    forall x ensures BufOk(t, x) { assert BufOk(s, x); CompleteEach(s, h, x); }
  }

  /** The driver's interrupt handler notices the next completed request. */
  ghost function Notice(s: Queue): Queue
    requires Sizes(s) && s.usedRing[Slot(s.g.noticed)] in s.g.reqs
  {
    var h := s.usedRing[Slot(s.g.noticed)];
    s.(busy := s.busy - {s.g.reqs[h].b}, lastUsed := (s.lastUsed + 1) % WRAP,
       g := s.g.(reqs := s.g.reqs[h := At(s.g.reqs[h], Seen)], seen := s.g.seen + {h}, noticed := s.g.noticed + 1))
  }

  lemma NoticeEach(s: Queue, x: int)
    requires Sizes(s) && s.g.noticed < s.g.completed && RingsOk(s, s.g.noticed)
      && ReqOk(s, s.usedRing[Slot(s.g.noticed)])
    ensures var t := Notice(s);
            && (DescOk(s, x) ==> DescOk(t, x)) && (ReqOk(s, x) ==> ReqOk(t, x)) && (SetsOk(s, x) ==> SetsOk(t, x))
            && (RingsOk(s, x) ==> RingsOk(t, x)) && (BufOk(s, x) ==> BufOk(t, x))
  {
  }

  lemma NoticeKeeps(s: Queue)
    requires Inv(s) && s.g.noticed < s.g.completed
    ensures RingsOk(s, s.g.noticed) && Inv(Notice(s))
  {
    assert RingsOk(s, s.g.noticed);
    SlotOfIndex(s.g.noticed);
    var h, t := s.usedRing[Slot(s.g.noticed)], Notice(s);
    assert ReqOk(s, h) && SetsOk(s, h);
    forall x ensures DescOk(t, x) { assert DescOk(s, x); NoticeEach(s, x); }
    forall x ensures ReqOk(t, x) { assert ReqOk(s, x); NoticeEach(s, x); }
    forall x ensures SetsOk(t, x) { assert SetsOk(s, x); NoticeEach(s, x); }
    forall x ensures RingsOk(t, x) { assert RingsOk(s, x); NoticeEach(s, x); }
    forall x ensures BufOk(t, x) { assert BufOk(s, x); NoticeEach(s, x); }
  }

  function Format(desc: seq<Desc>, h: int, i1: int, i2: int, b: int, write: bool): seq<Desc>
    requires |desc| == NUM && IsDesc(h) && IsDesc(i1) && IsDesc(i2)
  {
    desc[h := Desc(Header(h), 16, F_NEXT, i1)]
        [i1 := Desc(Data(b), BSIZE, (if write then 0 else F_WRITE) + F_NEXT, i2)]
        [i2 := Desc(Status(h), 1, F_WRITE, 0)]
  }

  ghost function Submitted(g: Track, h: int, i1: int, i2: int, b: int, block: int, write: bool): Track
    requires |g.own| == NUM && IsDesc(h) && IsDesc(i1) && IsDesc(i2)
  {
    g.(reqs := g.reqs[h := Req(b, write, block, i1, i2, Queued(g.submitted))], cur := g.cur[b := h],
       own := g.own[h := h][i1 := h][i2 := h], submitted := g.submitted + 1)
  }

  /** The driver submits a request for buffer b with three descriptors that were free. */
  ghost function Submit(s: Queue, h: int, i1: int, i2: int, b: int, block: int, write: bool): Queue
    requires Sizes(s) && IsDesc(h) && IsDesc(i1) && IsDesc(i2)
  {
    s.(free := s.free[h := false][i1 := false][i2 := false],
       desc := Format(s.desc, h, i1, i2, b, write), ops := s.ops[h := OpFor(write, block)],
       info := s.info[h := Info(b, 0xff)], busy := s.busy + {b},
       availRing := s.availRing[Slot(s.g.submitted) := h], availIdx := (s.availIdx + 1) % WRAP,
       g := Submitted(s.g, h, i1, i2, b, block, write))
  }

  ghost predicate Submittable(s: Queue, h: int, i1: int, i2: int, b: int) {
    && Sizes(s) && IsDesc(h) && IsDesc(i1) && IsDesc(i2) && h != i1 && h != i2 && i1 != i2
    && s.free[h] && s.free[i1] && s.free[i2] && b !in s.g.cur
    && 0 <= s.g.taken <= s.g.submitted < s.g.taken + NUM && BufOk(s, b)
    && h !in s.g.reqs && SetsOk(s, h) && DescOk(s, h) && DescOk(s, i1) && DescOk(s, i2)
  }

  lemma SubmitCounts(s: Queue, h: int, i1: int, i2: int, b: int, block: int, write: bool)
    requires Submittable(s, h, i1, i2, b) && Counts(s)
    ensures Counts(Submit(s, h, i1, i2, b, block, write))
  {
    CountUpdate(s.free, h, false);
    CountUpdate(s.free[h := false], i1, false);
    CountUpdate(s.free[h := false][i1 := false], i2, false);
    SlotOfIndex(s.g.submitted);
  }

  lemma SubmitDesc(s: Queue, h: int, i1: int, i2: int, b: int, block: int, write: bool, x: int)
    requires Submittable(s, h, i1, i2, b) && DescOk(s, x)
    ensures DescOk(Submit(s, h, i1, i2, b, block, write), x)
  {
  }

  lemma SubmitReq(s: Queue, h: int, i1: int, i2: int, b: int, block: int, write: bool, x: int)
    requires Submittable(s, h, i1, i2, b) && ReqOk(s, x)
    ensures ReqOk(Submit(s, h, i1, i2, b, block, write), x)
  {
    SlotOfIndex(s.g.submitted);
    if x in s.g.reqs && s.g.reqs[x].phase.Queued? {
      Slots(s.g.reqs[x].phase.pos, s.g.submitted);
    }
  }

  lemma SubmitSets(s: Queue, h: int, i1: int, i2: int, b: int, block: int, write: bool, x: int)
    requires Submittable(s, h, i1, i2, b)
    ensures var t := Submit(s, h, i1, i2, b, block, write);
            (SetsOk(s, x) ==> SetsOk(t, x)) && (BufOk(s, x) ==> BufOk(t, x))
  {
  }

  lemma SubmitRings(s: Queue, h: int, i1: int, i2: int, b: int, block: int, write: bool, x: int)
    requires Submittable(s, h, i1, i2, b) && RingsOk(s, x)
    ensures RingsOk(Submit(s, h, i1, i2, b, block, write), x)
  {
    SlotOfIndex(s.g.submitted);
    if s.g.taken <= x < s.g.submitted { Slots(x, s.g.submitted); }
  }

  lemma SubmitKeeps(s: Queue, h: int, i1: int, i2: int, b: int, block: int, write: bool)
    requires Inv(s) && IsDesc(h) && IsDesc(i1) && IsDesc(i2) && h != i1 && h != i2 && i1 != i2
    requires s.free[h] && s.free[i1] && s.free[i2] && b !in s.g.cur
    ensures h !in s.g.reqs && Inv(Submit(s, h, i1, i2, b, block, write))
  {
    assert ReqOk(s, h) && DescOk(s, h) && DescOk(s, i1) && DescOk(s, i2) && BufOk(s, b) && SetsOk(s, h);
    SubmitCounts(s, h, i1, i2, b, block, write);
    var t := Submit(s, h, i1, i2, b, block, write);
    forall x ensures DescOk(t, x) { assert DescOk(s, x); SubmitDesc(s, h, i1, i2, b, block, write, x); }
    forall x ensures ReqOk(t, x) { assert ReqOk(s, x); SubmitReq(s, h, i1, i2, b, block, write, x); }
    forall x ensures SetsOk(t, x) { assert SetsOk(s, x); SubmitSets(s, h, i1, i2, b, block, write, x); }
    forall x ensures RingsOk(t, x) { assert RingsOk(s, x); SubmitRings(s, h, i1, i2, b, block, write, x); }
    forall x ensures BufOk(t, x) { assert BufOk(s, x); SubmitSets(s, h, i1, i2, b, block, write, x); }
  }

  ghost function Finished(g: Track, h: int): Track
    requires |g.own| == NUM && h in g.reqs && IsDesc(h) && IsDesc(g.reqs[h].i1) && IsDesc(g.reqs[h].i2)
  {
    var r := g.reqs[h];
    g.(reqs := g.reqs - {h}, cur := g.cur - {r.b}, own := g.own[h := -1][r.i1 := -1][r.i2 := -1],
       seen := g.seen - {h}, freed := g.freed + 1)
  }

  /** The driver gives back the chain of a request that it has noticed. */
  ghost function Finish(s: Queue, h: int): Queue
    requires Sizes(s) && h in s.g.reqs && ChainOk(s, h, s.g.reqs[h])
  {
    var r := s.g.reqs[h];
    s.(free := s.free[h := true][r.i1 := true][r.i2 := true],
       desc := s.desc[h := NODESC][r.i1 := NODESC][r.i2 := NODESC], info := s.info[h := Info(0, s.info[h].status)],
       g := Finished(s.g, h))
  }

  lemma FinishCounts(s: Queue, h: int)
    requires Sizes(s) && h in s.g.seen && h in s.g.reqs && ChainOk(s, h, s.g.reqs[h]) && Counts(s)
    requires !s.free[h] && !s.free[s.g.reqs[h].i1] && !s.free[s.g.reqs[h].i2]
    ensures Counts(Finish(s, h))
  {
    var r := s.g.reqs[h];
    CountUpdate(s.free, h, true);
    CountUpdate(s.free[h := true], r.i1, true);
    CountUpdate(s.free[h := true][r.i1 := true], r.i2, true);
  }

  lemma FinishDesc(s: Queue, h: int, x: int)
    requires Sizes(s) && h in s.g.reqs && ChainOk(s, h, s.g.reqs[h]) && s.g.reqs[h].phase == Seen
    requires DescOk(s, x) && ReqOk(s, x)
    ensures DescOk(Finish(s, h), x) && ReqOk(Finish(s, h), x)
  {
  }

  lemma FinishRest(s: Queue, h: int, x: int)
    requires Sizes(s) && h in s.g.reqs && ChainOk(s, h, s.g.reqs[h]) && s.g.reqs[h].phase == Seen
    ensures var t := Finish(s, h);
            (SetsOk(s, x) ==> SetsOk(t, x)) && (RingsOk(s, x) ==> RingsOk(t, x)) && (BufOk(s, x) ==> BufOk(t, x))
  {}

  lemma FinishKeeps(s: Queue, h: int)
    requires Inv(s) && h in s.g.seen
    ensures h in s.g.reqs && ChainOk(s, h, s.g.reqs[h]) && s.g.reqs[h].phase == Seen && Inv(Finish(s, h))
    ensures !s.free[h] && !s.free[s.g.reqs[h].i1] && !s.free[s.g.reqs[h].i2]
  {
    assert SetsOk(s, h) && ReqOk(s, h);
    var r, t := s.g.reqs[h], Finish(s, h);
    assert DescOk(s, h) && DescOk(s, r.i1) && DescOk(s, r.i2);
    FinishCounts(s, h);
    forall x ensures DescOk(t, x) { assert DescOk(s, x) && ReqOk(s, x); FinishDesc(s, h, x); }
    forall x ensures ReqOk(t, x) { assert DescOk(s, x) && ReqOk(s, x); FinishDesc(s, h, x); }
    forall x ensures SetsOk(t, x) { assert SetsOk(s, x); FinishRest(s, h, x); }
    forall x ensures RingsOk(t, x) { assert RingsOk(s, x); FinishRest(s, h, x); }
    forall x ensures BufOk(t, x) { assert BufOk(s, x); FinishRest(s, h, x); }
  }

  /** A buffer that waits no more has been noticed. */
  lemma SeenReq(s: Queue, b: int, h: int)
    requires Inv(s) && b in s.g.cur && s.g.cur[b] == h && b !in s.busy
    ensures h in s.g.seen && h in s.g.reqs && s.g.reqs[h].b == b && ChainOk(s, h, s.g.reqs[h])
  {
    assert BufOk(s, b) && ReqOk(s, h);
  }

  lemma FinishCount(s: Queue, h: int)
    requires Sizes(s) && h in s.g.reqs && ChainOk(s, h, s.g.reqs[h])
    requires !s.free[h] && !s.free[s.g.reqs[h].i1] && !s.free[s.g.reqs[h].i2]
    ensures Count(Finish(s, h).free) == Count(s.free) + 3
  {
    var r := s.g.reqs[h];
    CountUpdate(s.free, h, true);
    CountUpdate(s.free[h := true], r.i1, true);
    CountUpdate(s.free[h := true][r.i1 := true], r.i2, true);
  }

  /** What is in the free descriptors does not matter. */
  lemma FreeDescs(s: Queue, t: Queue)
    requires Inv(s) && |t.desc| == NUM && t == s.(desc := t.desc)
    requires forall k | IsDesc(k) && !s.free[k] :: t.desc[k] == s.desc[k]
    ensures Inv(t)
  {
    forall x ensures DescOk(t, x) { assert DescOk(s, x); }
    forall x ensures ReqOk(t, x) {
      assert ReqOk(s, x);
      if x in s.g.reqs {
        assert DescOk(s, x) && DescOk(s, s.g.reqs[x].i1) && DescOk(s, s.g.reqs[x].i2);
      }
    }
    forall x ensures SetsOk(t, x) { assert SetsOk(s, x); }
    forall x ensures RingsOk(t, x) { assert RingsOk(s, x); }
    forall x ensures BufOk(t, x) { assert BufOk(s, x); }
  }

  /** No two requests share a descriptor. */
  lemma ChainsDisjoint(s: Queue, h: int, h': int, i: int)
    requires Inv(s) && h in s.g.reqs && h' in s.g.reqs
    requires InChain(h, s.g.reqs[h], i) && InChain(h', s.g.reqs[h'], i)
    ensures h == h' && IsDesc(i) && !s.free[i]
  {
    assert ReqOk(s, h) && ReqOk(s, h') && DescOk(s, i);
  }

  // ----- whole runs, with the driver and the device in any order -----------------------------------

  datatype Step =
    | SubmitReq(h: int, i1: int, i2: int, b: int, block: int, write: bool)
    | Scrub(desc: seq<Desc>)          // alloc3_desc has found too few and gives them back
    | TakeNext
    | CompleteReq(h: int)
    | NoticeNext
    | FinishReq(h: int)

  ghost predicate Enabled(s: Queue, step: Step) {
    Sizes(s) &&
    match step
    case SubmitReq(h, i1, i2, b, _, _) =>
      && IsDesc(h) && IsDesc(i1) && IsDesc(i2) && h != i1 && h != i2 && i1 != i2
      && s.free[h] && s.free[i1] && s.free[i2] && b !in s.g.cur
    case Scrub(desc) => |desc| == NUM && forall k | IsDesc(k) && !s.free[k] :: desc[k] == s.desc[k]
    case TakeNext => s.g.taken < s.g.submitted && s.availRing[Slot(s.g.taken)] in s.g.reqs
    case CompleteReq(h) => h in s.g.atDevice && h in s.g.reqs && IsDesc(h)
    case NoticeNext => s.g.noticed < s.g.completed && s.usedRing[Slot(s.g.noticed)] in s.g.reqs
    case FinishReq(h) => h in s.g.seen && h in s.g.reqs && ChainOk(s, h, s.g.reqs[h])
  }

  ghost function Do(s: Queue, step: Step): Queue
    requires Enabled(s, step)
  {
    match step
    case SubmitReq(h, i1, i2, b, block, write) => Submit(s, h, i1, i2, b, block, write)
    case Scrub(desc) => s.(desc := desc)
    case TakeNext => Take(s)
    case CompleteReq(h) => Complete(s, h)
    case NoticeNext => Notice(s)
    case FinishReq(h) => Finish(s, h)
  }

  lemma StepKeeps(s: Queue, step: Step)
    requires Inv(s) && Enabled(s, step)
    ensures Inv(Do(s, step))
  {
    match step
    case SubmitReq(h, i1, i2, b, block, write) => SubmitKeeps(s, h, i1, i2, b, block, write);
    case Scrub(desc) => FreeDescs(s, s.(desc := desc));
    case TakeNext => TakeKeeps(s);
    case CompleteReq(h) => CompleteKeeps(s, h);
    case NoticeNext => NoticeKeeps(s);
    case FinishReq(h) => FinishKeeps(s, h);
  }

  ghost predicate StepAt(qs: seq<Queue>, steps: seq<Step>, i: int) {
    0 <= i < |steps| && i + 1 < |qs| && Enabled(qs[i], steps[i]) && qs[i + 1] == Do(qs[i], steps[i])
  }

  ghost predicate IsRun(qs: seq<Queue>, steps: seq<Step>) {
    |qs| == |steps| + 1 && Inv(qs[0]) && forall i | 0 <= i < |steps| :: StepAt(qs, steps, i)
  }

  lemma {:induction false} RunInv(qs: seq<Queue>, steps: seq<Step>, i: nat)
    requires IsRun(qs, steps) && i < |qs|
    ensures Inv(qs[i])
  {
    if i > 0 {
      RunInv(qs, steps, i - 1);
      assert StepAt(qs, steps, i - 1);
      StepKeeps(qs[i - 1], steps[i - 1]);
    }
  }

  /** What may happen to a request between its submission and the return of its descriptors. */
  datatype Event = TakenBy | CompletedBy | NoticedBy

  /** What this step does to the request whose chain begins at h. */
  ghost function EventOf(s: Queue, step: Step, h: int): seq<Event>
    requires Enabled(s, step)
  {
    match step
    case TakeNext => if s.availRing[Slot(s.g.taken)] == h then [TakenBy] else []
    case CompleteReq(x) => if x == h then [CompletedBy] else []
    case NoticeNext => if s.usedRing[Slot(s.g.noticed)] == h then [NoticedBy] else []
    case _ => []
  }

  ghost function Events(qs: seq<Queue>, steps: seq<Step>, i: nat, j: nat, h: int): seq<Event>
    requires IsRun(qs, steps) && i <= j <= |steps|
    decreases j - i
  {
    if i == j then []
    else
      assert StepAt(qs, steps, j - 1);
      Events(qs, steps, i, j - 1, h) + EventOf(qs[j - 1], steps[j - 1], h)
  }

  /** What has happened to a request that has got so far. */
  function Past(phase: Phase): seq<Event> {
    match phase
    case Queued(_) => []
    case AtDevice => [TakenBy]
    case Done(_) => [TakenBy, CompletedBy]
    case Seen => [TakenBy, CompletedBy, NoticedBy]
  }

  lemma SubmitPast(s: Queue, step: Step, h: int)
    requires Enabled(s, step) && h in s.g.reqs && (step.SubmitReq? ==> step.h !in s.g.reqs)
    requires step.SubmitReq? || step.Scrub? || (step.FinishReq? && step.h != h)
    ensures h in Do(s, step).g.reqs && Do(s, step).g.reqs[h] == s.g.reqs[h]
  {}

  lemma TakePast(s: Queue, h: int)
    requires Enabled(s, TakeNext) && h in s.g.reqs && RingsOk(s, s.g.taken)
    ensures h in Take(s).g.reqs && Take(s).g.reqs[h] == At(s.g.reqs[h], Take(s).g.reqs[h].phase)
    ensures Past(Take(s).g.reqs[h].phase) == Past(s.g.reqs[h].phase) + EventOf(s, TakeNext, h)
  {}

  lemma CompletePast(s: Queue, x: int, h: int)
    requires Enabled(s, CompleteReq(x)) && h in s.g.reqs && SetsOk(s, x)
    ensures h in Complete(s, x).g.reqs && Complete(s, x).g.reqs[h] == At(s.g.reqs[h], Complete(s, x).g.reqs[h].phase)
    ensures Past(Complete(s, x).g.reqs[h].phase) == Past(s.g.reqs[h].phase) + EventOf(s, CompleteReq(x), h)
  {}

  lemma NoticePast(s: Queue, h: int)
    requires Enabled(s, NoticeNext) && h in s.g.reqs && RingsOk(s, s.g.noticed)
    ensures h in Notice(s).g.reqs && Notice(s).g.reqs[h] == At(s.g.reqs[h], Notice(s).g.reqs[h].phase)
    ensures Past(Notice(s).g.reqs[h].phase) == Past(s.g.reqs[h].phase) + EventOf(s, NoticeNext, h)
  {}

  lemma SubmitsAnew(s: Queue, h: int)
    requires Inv(s) && IsDesc(h) && s.free[h]
    ensures h !in s.g.reqs
  {
    assert ReqOk(s, h) && DescOk(s, h);
  }

  lemma StepPast(s: Queue, step: Step, h: int)
    requires Inv(s) && Enabled(s, step) && h in s.g.reqs && step != FinishReq(h)
    ensures h in Do(s, step).g.reqs && Do(s, step).g.reqs[h] == At(s.g.reqs[h], Do(s, step).g.reqs[h].phase)
    ensures Past(Do(s, step).g.reqs[h].phase) == Past(s.g.reqs[h].phase) + EventOf(s, step, h)
  {
    match step
    case TakeNext => assert RingsOk(s, s.g.taken); TakePast(s, h);
    case CompleteReq(x) => assert SetsOk(s, x); CompletePast(s, x, h);
    case NoticeNext => assert RingsOk(s, s.g.noticed); NoticePast(s, h);
    case SubmitReq(x, _, _, _, _, _) => SubmitsAnew(s, x); SubmitPast(s, step, h);
    case _ => SubmitPast(s, step, h);
  }

  /** From its submission on, whatever the driver and the device do for other requests, a request
      is taken once, then completed once, then noticed once: as far as it has got, and no more. */
  lemma {:induction false} OncePerRequest(qs: seq<Queue>, steps: seq<Step>, i: nat, j: nat, h: int)
    requires IsRun(qs, steps) && i < j <= |steps| && steps[i].SubmitReq? && steps[i].h == h
    requires forall k | i < k < j :: steps[k] != FinishReq(h)
    ensures h in qs[j].g.reqs && qs[j].g.reqs[h].b == steps[i].b
    ensures qs[j].g.reqs[h].block == steps[i].block && qs[j].g.reqs[h].write == steps[i].write
    ensures Events(qs, steps, i + 1, j, h) == Past(qs[j].g.reqs[h].phase)
    decreases j - i
  {
    assert StepAt(qs, steps, j - 1);
    if j > i + 1 {
      OncePerRequest(qs, steps, i, j - 1, h);
      RunInv(qs, steps, j - 1);
      StepPast(qs[j - 1], steps[j - 1], h);
    }
  }

  /** So when its descriptors are given back, all three have happened exactly once. */
  lemma NoticedExactlyOnce(qs: seq<Queue>, steps: seq<Step>, i: nat, j: nat, h: int)
    requires IsRun(qs, steps) && i < j < |steps| && steps[i].SubmitReq? && steps[i].h == h && steps[j] == FinishReq(h)
    requires forall k | i < k < j :: steps[k] != FinishReq(h)
    ensures Events(qs, steps, i + 1, j, h) == [TakenBy, CompletedBy, NoticedBy] && steps[i].b !in qs[j].busy
  {
    OncePerRequest(qs, steps, i, j, h);
    RunInv(qs, steps, j);
    assert StepAt(qs, steps, j) && SetsOk(qs[j], h) && ReqOk(qs[j], h) && BufOk(qs[j], steps[i].b);
  }

  // ----- the code and the device --------------------------------------------------------------

  function Get(m: map<int, int>, k: int): int {
    if k in m then m[k] else 0
  }

  /** Each method is one stretch of code under vdisk_lock, or one step of the device; these
      come in any order. */
  class Disk {
    var free: seq<bool>
    var desc: seq<Desc>
    var ops: seq<Op>
    var info: seq<Info>
    var availRing: seq<int>
    var availIdx: int
    var usedRing: seq<int>
    var usedIdx: int           // used->idx, which the device writes
    var lastUsed: int          // used_idx, the driver's own
    var busy: set<int>

    var devIdx: int            // how far the device has read the available ring
    var media: map<int, int>   // contents by block number
    var data: map<int, int>    // contents by buffer

    ghost var g: Track

    ghost function State(): Queue
      reads this
    {
      Queue(free, desc, ops, info, availRing, availIdx, usedRing, usedIdx, lastUsed, devIdx, busy, g)
    }

    ghost predicate Valid()
      reads this
    {
      Inv(State())
    }

    constructor ()
      ensures Valid() && g.reqs == map[] && busy == {}
    {
      free := [true, true, true, true, true, true, true, true];
      desc, ops, info := seq(NUM, _ => NODESC), seq(NUM, _ => Op(T_IN, 0)), seq(NUM, _ => Info(0, 0));
      availRing, usedRing := seq(NUM, _ => 0), seq(NUM, _ => 0);
      availIdx, usedIdx, lastUsed, devIdx := 0, 0, 0, 0;
      busy, media, data := {}, map[], map[];
      g := Track(map[], seq(NUM, _ => -1), map[], {}, {}, 0, 0, 0, 0, 0);
      new;
      AllFree(free);
    }

    // ----- the device -----------------------------------------------------------------------

    /** The head of the next request that has been announced to the device, -1 if there is none. */
    method NextAvail() returns (h: int)
      requires Valid()
      ensures if g.taken == g.submitted then h == -1
        else h == availRing[Slot(g.taken)] && IsDesc(h) && RingsOk(State(), g.taken)
    {
      SameIndex(g.taken, g.submitted);
      if devIdx == availIdx {
        return -1;
      }
      SlotOfIndex(g.taken);
      assert RingsOk(State(), g.taken) && ReqOk(State(), availRing[Slot(g.taken)]);
      h := availRing[devIdx % NUM];
    }

    method TakeOne(h: int)
      requires Sizes(State()) && h == availRing[Slot(g.taken)] && h in g.reqs
      modifies this`devIdx, this`g
      ensures State() == Take(old(State()))
    {
      devIdx := (devIdx + 1) % WRAP;
      g := g.(reqs := g.reqs[h := At(g.reqs[h], AtDevice)], atDevice := g.atDevice + {h}, taken := g.taken + 1);
    }

    /** The device takes the next request. */
    method DeviceTake() returns (h: int)
      requires Valid()
      modifies this`devIdx, this`g
      ensures Valid()
      ensures if old(g.taken) == old(g.submitted) then h == -1 && State() == old(State())
              else
                && h in old(g.reqs) && old(g.reqs)[h].phase == Queued(old(g.taken))
                && RingsOk(old(State()), old(g.taken)) && State() == Take(old(State()))
    {
      h := NextAvail();
      if h != -1 {
        TakeKeeps(State());
        TakeOne(h);
      }
    }

    /** Loads and stores that a descriptor does not allow, or of another length, are not made. */
    method Transfer(h: int)
      requires Sizes(State()) && h in g.reqs && ChainOk(State(), h, g.reqs[h])
      modifies this`media, this`data
      ensures var r := g.reqs[h];
              if r.write then media == old(media)[r.block := Get(old(data), r.b)] && data == old(data)
              else data == old(data)[r.b := Get(old(media), r.block)] && media == old(media)
    {
      var d0, d1 := desc[h], desc[desc[h].next];
      if Stores(d0.flags) || d0.len != 16 || d1.len != BSIZE {
        return;
      }
      var op := ops[d0.addr.i];
      var block := op.sector / (BSIZE / 512);
      if op.kind == T_OUT && !Stores(d1.flags) {
        media := media[block := Get(data, d1.addr.b)];
      }
      if op.kind == T_IN && Stores(d1.flags) {
        data := data[d1.addr.b := Get(media, block)];
      }
    }

    method Report(h: int)
      requires Sizes(State()) && h in g.reqs && ChainOk(State(), h, g.reqs[h])
      requires usedIdx % NUM == Slot(g.completed)
      modifies this`usedRing, this`usedIdx, this`info, this`g
      ensures IsDesc(h) && State() == Complete(old(State()), h)
    {
      var d2 := desc[desc[desc[h].next].next];
      if Stores(d2.flags) && d2.len == 1 {
        info := info[d2.addr.i := Info(info[d2.addr.i].b, 0)];
      }
      usedRing := usedRing[usedIdx % NUM := h];
      usedIdx := (usedIdx + 1) % WRAP;
      g := g.(reqs := g.reqs[h := At(g.reqs[h], Done(g.completed))],
              atDevice := g.atDevice - {h}, completed := g.completed + 1);
    }

    /** The device carries out request h, which it has taken, by what the descriptors say:
        it reads or writes the block the request is about, and no other block or buffer. */
    method DeviceComplete(h: int)
      requires Valid() && h in g.atDevice
      modifies this`usedRing, this`usedIdx, this`info, this`media, this`data, this`g
      ensures h in old(g.reqs) && IsDesc(h) && State() == Complete(old(State()), h) && Valid()
      ensures var r := old(g.reqs)[h];
              if r.write then media == old(media)[r.block := Get(old(data), r.b)] && data == old(data)
              else data == old(data)[r.b := Get(old(media), r.block)] && media == old(media)
    {
      CompleteKeeps(State(), h);
      assert ReqOk(State(), h) && SetsOk(State(), h);
      Transfer(h);
      SlotOfIndex(g.completed);
      Report(h);
    }

    // ----- the interrupt handler --------------------------------------------------------------

    /** The buffers whose requests the device has reported and the driver has not noticed. */
    ghost predicate Reported(s: Queue, b: int) {
      b in s.g.cur && s.g.cur[b] in s.g.reqs && s.g.reqs[s.g.cur[b]].phase.Done?
    }

    /** Between the start s of the handler and t, some reported requests have been noticed. */
    ghost predicate Noticing(s: Queue, t: Queue) {
      && t.g.cur == s.g.cur && t.g.completed == s.g.completed
      && (forall h :: h in t.g.reqs <==> h in s.g.reqs)
      && (forall h | h in s.g.reqs ::
        t.g.reqs[h] == s.g.reqs[h] || (s.g.reqs[h].phase.Done? && t.g.reqs[h] == At(s.g.reqs[h], Seen)))
    }

    /** The body of the handler's loop. */
    method Wake()
      requires Sizes(State()) && lastUsed % NUM == Slot(g.noticed) && usedRing[Slot(g.noticed)] in g.reqs
      requires var h := usedRing[Slot(g.noticed)]; IsDesc(h) && info[h] == Info(g.reqs[h].b, 0)
      modifies this`lastUsed, this`busy, this`g
      ensures State() == Notice(old(State()))
    {
      var id := usedRing[lastUsed % NUM];
      assert info[id].status == 0;          // otherwise: "virtio_disk_intr status"
      var b := info[id].b;
      busy := busy - {b};
      lastUsed := (lastUsed + 1) % WRAP;
      g := g.(reqs := g.reqs[id := At(g.reqs[id], Seen)], seen := g.seen + {id}, noticed := g.noticed + 1);
    }

    method NoticeOne(ghost s: Queue)
      requires Valid() && g.noticed < g.completed && Noticing(s, State())
      modifies this`lastUsed, this`busy, this`g
      ensures Valid() && Noticing(s, State()) && g.noticed == old(g.noticed) + 1
      ensures lastUsed != usedIdx <==> g.noticed != g.completed
    {
      NoticeKeeps(State());
      SlotOfIndex(g.noticed);
      SameIndex(g.noticed + 1, g.completed);
      assert ReqOk(State(), usedRing[Slot(g.noticed)]);
      Wake();
    }

    /** virtio_disk_intr: the buffers that stop waiting are exactly those whose request the
        device has reported. */
    method Intr()
      requires Valid()
      modifies this`lastUsed, this`busy, this`g
      ensures Valid() && g.noticed == g.completed
      ensures forall b :: b in busy <==> b in old(busy) && !Reported(old(State()), b)
      ensures forall h :: h in g.reqs <==> h in old(g.reqs)
      ensures forall h | h in g.reqs :: g.reqs[h] == if old(g.reqs)[h].phase.Done? then At(old(g.reqs)[h], Seen)
        else old(g.reqs)[h]
    {
      ghost var s := State();
      SameIndex(g.noticed, g.completed);
      while lastUsed != usedIdx
        invariant Valid() && Noticing(s, State()) && g.noticed <= g.completed == s.g.completed
        invariant lastUsed != usedIdx <==> g.noticed != g.completed
        decreases g.completed - g.noticed
      {
        NoticeOne(s);
      }
      forall b ensures b in busy <==> b in s.busy && !Reported(s, b) {
        assert BufOk(s, b) && BufOk(State(), b);
        if b in s.g.cur {
          assert ReqOk(s, s.g.cur[b]) && ReqOk(State(), s.g.cur[b]);
        }
      }
      forall h | h in g.reqs
        ensures g.reqs[h] == if s.g.reqs[h].phase.Done? then At(s.g.reqs[h], Seen) else s.g.reqs[h]
      {
        assert ReqOk(State(), h);
      }
    }

    // ----- descriptors --------------------------------------------------------------------------

    method AllocDesc() returns (i: int)
      requires |free| == NUM
      modifies this`free
      ensures i == -1 ==> Count(free) == 0 && free == old(free)
      ensures i != -1 ==>
                && IsDesc(i) && old(free)[i] && (forall k | 0 <= k < i :: !old(free)[k])
                && free == old(free)[i := false] && Count(free) == Count(old(free)) - 1
    {
      i := 0;
      while i < NUM
        invariant 0 <= i <= NUM && free == old(free)
        invariant forall k | 0 <= k < i :: !free[k]
      {
        if free[i] {
          CountUpdate(free, i, false);
          free := free[i := false];
          return;
        }
        i := i + 1;
      }
      NoneFree(free);
      return -1;
    }

    method FreeDesc(i: int)
      requires |free| == |desc| == NUM && IsDesc(i)
      requires !free[i]                      // otherwise: "free_desc 2"
      modifies this`free, this`desc
      ensures free == old(free)[i := true] && desc == old(desc)[i := NODESC]
    {
      desc := desc[i := NODESC];
      free := free[i := true];
    }

    /** free_chain of a chain of three. */
    method FreeChain(head: int)
      requires |free| == |desc| == NUM && IsDesc(head) && HasNext(desc[head].flags)
      requires var i1 := desc[head].next;
               && IsDesc(i1) && HasNext(desc[i1].flags)
               && IsDesc(desc[i1].next) && !HasNext(desc[desc[i1].next].flags)
               && head != i1 && head != desc[i1].next && i1 != desc[i1].next
               && !free[head] && !free[i1] && !free[desc[i1].next]
      modifies this`free, this`desc
      ensures var i1 := old(desc)[head].next; var i2 := old(desc)[i1].next;
              && free == old(free)[head := true][i1 := true][i2 := true]
              && desc == old(desc)[head := NODESC][i1 := NODESC][i2 := NODESC]
    {
      ghost var i1, n := desc[head].next, 0;
      ghost var i2 := desc[i1].next;
      var i := head;
      while true
        invariant 0 <= n <= 2 && i == (if n == 0 then head else if n == 1 then i1 else i2)
        invariant free == (if n == 0 then old(free) else if n == 1 then old(free)[head := true]
                           else old(free)[head := true][i1 := true])
        invariant desc == (if n == 0 then old(desc) else if n == 1 then old(desc)[head := NODESC]
                           else old(desc)[head := NODESC][i1 := NODESC])
        decreases 3 - n
      {
        var flag, nxt := desc[i].flags, desc[i].next;
        FreeDesc(i);
        if HasNext(flag) {
          i := nxt;
        } else {
          break;
        }
        n := n + 1;
      }
    }

    /** alloc3_desc: three free descriptors, or none if there are not as many. */
    method Alloc3Desc() returns (ret: int, i0: int, i1: int, i2: int)
      requires Sizes(State())
      modifies this`free, this`desc
      ensures ret == 0 || ret == -1
      ensures ret == 0 ==>
                && IsDesc(i0) && IsDesc(i1) && IsDesc(i2) && i0 != i1 && i0 != i2 && i1 != i2
                && old(free)[i0] && old(free)[i1] && old(free)[i2]
                && free == old(free)[i0 := false][i1 := false][i2 := false] && desc == old(desc)
      ensures ret == -1 ==> free == old(free) && Count(free) < 3 && |desc| == NUM
      ensures ret == -1 ==> forall k | IsDesc(k) && !free[k] :: desc[k] == old(desc)[k]
    {
      i1, i2 := -1, -1;
      i0 := AllocDesc();
      if i0 < 0 {
        return -1, i0, i1, i2;
      }
      i1 := AllocDesc();
      if i1 < 0 {
        FreeDesc(i0);
        return -1, i0, i1, i2;
      }
      i2 := AllocDesc();
      if i2 < 0 {
        FreeDesc(i0);
        FreeDesc(i1);
        return -1, i0, i1, i2;
      }
      ret := 0;
    }

    /** The operation, the chain of descriptors and the status. */
    method Fill(i0: int, i1: int, i2: int, b: int, block: int, write: bool)
      requires |ops| == |desc| == |info| == NUM && IsDesc(i0) && IsDesc(i1) && IsDesc(i2)
      modifies this`ops, this`desc, this`info
      ensures ops == old(ops)[i0 := OpFor(write, block)] && info == old(info)[i0 := Info(b, 0xff)]
      ensures desc == Format(old(desc), i0, i1, i2, b, write)
    {
      ops := ops[i0 := OpFor(write, block)];
      desc := Format(desc, i0, i1, i2, b, write);
      info := info[i0 := Info(b, 0xff)];
    }

    /** The memory that the device shares: the chain, the operation, the status and the ring entry. */
    method Publish(ghost s: Queue, i0: int, i1: int, i2: int, b: int, block: int, write: bool)
      requires Sizes(s) && IsDesc(i0) && IsDesc(i1) && IsDesc(i2)
      requires State() == s.(free := s.free[i0 := false][i1 := false][i2 := false])
      requires availIdx % NUM == Slot(g.submitted)
      modifies this`desc, this`ops, this`info, this`busy, this`availRing, this`availIdx, this`g
      ensures State() == Submit(s, i0, i1, i2, b, block, write)
    {
      Fill(i0, i1, i2, b, block, write);
      busy := busy + {b};
      availRing := availRing[availIdx % NUM := i0];
      availIdx := (availIdx + 1) % WRAP;
      g := Submitted(g, i0, i1, i2, b, block, write);
    }

    // ----- virtio_disk_rw -----------------------------------------------------------------------

    /** From the lock, or the wakeup of a process that found too few descriptors, to the first
        sleep. It has to wait for descriptors exactly if two requests are in flight. */
    method Start(b: int, block: int, write: bool) returns (h: int)
      requires Valid() && b !in g.cur
      modifies this`free, this`desc, this`ops, this`info, this`busy, this`availRing, this`availIdx, this`g
      ensures Valid()
      ensures h == -1 ==> old(|g.reqs|) == 2 && g.reqs == old(g.reqs) && busy == old(busy)
      ensures h != -1 ==>
                && old(|g.reqs|) < 2 && busy == old(busy) + {b} && h !in old(g.reqs) && h in g.reqs
                && g.reqs == old(g.reqs)[h := g.reqs[h]]
                && g.reqs[h] == Req(b, write, block, g.reqs[h].i1, g.reqs[h].i2, Queued(old(g.submitted)))
    {
      ghost var s := State();
      var ret, i0, i1, i2 := Alloc3Desc();
      if ret != 0 {
        FreeDescs(s, State());
        return -1;
      }
      SubmitKeeps(s, i0, i1, i2, b, block, write);
      CountUpdate(s.free, i0, false);
      CountUpdate(s.free[i0 := false], i1, false);
      CountUpdate(s.free[i0 := false][i1 := false], i2, false);
      SlotOfIndex(g.submitted);
      Publish(s, i0, i1, i2, b, block, write);
      h := i0;
    }

    /** From the wakeup that finds b->disk clear to the end: the three descriptors are free
        again, and only they. */
    method End(b: int, h: int)
      requires Valid() && b in g.cur && g.cur[b] == h && b !in busy
      modifies this`free, this`desc, this`info, this`g
      ensures Valid() && b !in g.cur && Count(free) == Count(old(free)) + 3
      ensures g.reqs == old(g.reqs) - {h}
    {
      ghost var s := State();
      SeenReq(s, b, h);
      FinishKeeps(s, h);
      info := info[h := Info(0, info[h].status)];
      FreeChain(h);
      FinishCount(s, h);
      g := Finished(g, h);
      assert State() == Finish(s, h);
    }
  }
}
