/** The virtio block driver's request queue: one request at a time against a device that answers when it likes. */
module Virtio {
  import opened Arithmetic
  import opened Wrappers

  const U16: nat := 0x1_0000
  const VRING_DESC_F_NEXT: nat := 1
  const VRING_DESC_F_WRITE: nat := 2
  const VRING_ALIGN: nat := 4096
  /** What pop_free gives when the stack is empty. */
  const NO_DESCRIPTOR: nat := 0xFFFF
  /** sizeof(BlkReq). */
  const REQUEST_HEADER: nat := 16

  datatype Desc = Desc(addr: nat, len: nat, flags: nat, next: nat)

  datatype UsedElem = UsedElem(id: nat, len: nat)

  /** The ring both sides see, and the driver's bookkeeping: the completion counter it last saw and its stack of
      unused descriptors. */
  datatype Ring = Ring(num: nat, desc: seq<Desc>, availIdx: nat, avail: seq<nat>, usedIdx: nat, used: seq<UsedElem>,
                       shadow: nat, free: seq<nat>, freeCount: nat)

  /** Sizes and ranges; indices fit 16 bits and no descriptor is numbered 0xFFFF. */
  predicate Shaped(q: Ring) {
    && 0 < q.num < U16
    && |q.desc| == |q.avail| == |q.used| == |q.free| == q.num
    && q.availIdx < U16 && q.usedIdx < U16 && q.shadow < U16
    && q.freeCount <= q.num
    && forall i :: 0 <= i < q.freeCount ==> q.free[i] < q.num
  }

  function Next16(i: nat): nat {
    (i + 1) % U16
  }

  // ----- The driver's steps

  function PopFrom(q: Ring): (Ring, nat)
    requires Shaped(q)
  {
    if q.freeCount == 0 then (q, NO_DESCRIPTOR)
    else (q.(freeCount := q.freeCount - 1), q.free[q.freeCount - 1])
  }

  /** A push onto a full stack would write past it; the invariant rules that out. */
  function PushOnto(q: Ring, d: nat): Ring {
    if q.freeCount < |q.free| then q.(free := q.free[q.freeCount := d], freeCount := q.freeCount + 1) else q
  }

  type Sector = n: nat | n < U64

  /** One call of rw: the direction, the first sector, the data length, and the physical addresses of header, data and
      status, each absent when its translation fails. */
  datatype Request = Request(write: bool, sector: Sector, bytes: nat, header: Option<nat>, data: Option<nat>,
                             status: Option<nat>)

  datatype Submitted = Refused(code: nat) | Published(d0: nat, d1: nat, d2: nat)

  predicate BadLength(r: Request) {
    r.bytes == 0 || r.bytes % 512 != 0
  }

  predicate Translated(r: Request) {
    r.header.Some? && r.data.Some? && r.status.Some?
  }

  /** The ring after three pops; with fewer than three left the last pops give 0xFFFF. */
  function PopThree(q: Ring): (Ring, nat, nat, nat)
    requires Shaped(q)
  {
    var (q0, d0) := PopFrom(q);
    var (q1, d1) := PopFrom(q0);
    var (q2, d2) := PopFrom(q1);
    (q2, d0, d1, d2)
  }

  function HeaderDesc(r: Request, d1: nat): Desc
    requires r.header.Some?
  {
    Desc(r.header.value, REQUEST_HEADER, VRING_DESC_F_NEXT, d1)
  }

  function DataDesc(r: Request, d2: nat): Desc
    requires r.data.Some?
  {
    Desc(r.data.value, r.bytes, VRING_DESC_F_NEXT + (if r.write then 0 else VRING_DESC_F_WRITE), d2)
  }

  function StatusDesc(r: Request): Desc
    requires r.status.Some?
  {
    Desc(r.status.value, 1, VRING_DESC_F_WRITE, 0)
  }

  /** rw up to the notification. The early exits keep what was popped. */
  function SubmitTo(q: Ring, r: Request): (Ring, Submitted)
    requires Shaped(q)
  {
    if BadLength(r) then (q, Refused(1))
    else
      var (q', d0, d1, d2) := PopThree(q);
      if d0 == NO_DESCRIPTOR || d1 == NO_DESCRIPTOR || d2 == NO_DESCRIPTOR then (q', Refused(2))
      else if !Translated(r) then (q', Refused(1))
      else
        (q'.(desc := q'.desc[d0 := HeaderDesc(r, d1)][d1 := DataDesc(r, d2)][d2 := StatusDesc(r)],
             avail := q'.avail[q'.availIdx % q'.num := d0],
             availIdx := Next16(q'.availIdx)),
         Published(d0, d1, d2))
  }

  /** The polling loop's exit test. */
  predicate Ready(q: Ring) {
    q.usedIdx != q.shadow
  }

  /** rw after the loop. */
  function Reclaim(q: Ring, d0: nat, d1: nat, d2: nat): Ring {
    PushOnto(PushOnto(PushOnto(q.(shadow := Next16(q.shadow)), d0), d1), d2)
  }

  // ----- The system: driver, ring and device

  /** Where the single caller of rw is. */
  datatype Phase = Idle | Waiting(request: Request, d0: nat, d1: nat, d2: nat)

  /** `seen` is the available index the device has read up to; `working` the chain heads it has taken and not
      completed. The rest is history: how many requests were published, taken, completed and reclaimed, and the
      descriptors earlier failed calls never gave back. */
  datatype System = System(q: Ring, phase: Phase, seen: nat, working: seq<nat>,
                           published: nat, taken: nat, completed: nat, dropped: seq<nat>)

  datatype Event = Rw(request: Request) | Poll | DeviceTake | DeviceFinish(k: nat, len: nat)

  predicate Enabled(s: System, e: Event) {
    match e
    case Rw(_) => s.phase.Idle?
    case Poll => s.phase.Waiting?
    case DeviceTake => s.seen != s.q.availIdx
    case DeviceFinish(k, _) => k < |s.working|
  }

  function Popped(q: Ring): seq<nat>
    requires Shaped(q)
  {
    q.free[(if q.freeCount >= 3 then q.freeCount - 3 else 0)..q.freeCount]
  }

  function Happen(s: System, e: Event): System
    requires Shaped(s.q) && Enabled(s, e)
  {
    match e
    case Rw(r) =>
      var (q', out) := SubmitTo(s.q, r);
      (match out
       case Published(d0, d1, d2) => s.(q := q', phase := Waiting(r, d0, d1, d2), published := s.published + 1)
       case Refused(_) => s.(q := q', dropped := if BadLength(r) then s.dropped else Popped(s.q) + s.dropped))
    case Poll =>
      if Ready(s.q) then s.(q := Reclaim(s.q, s.phase.d0, s.phase.d1, s.phase.d2), phase := Idle) else s
    case DeviceTake =>
      s.(seen := Next16(s.seen), working := s.working + [s.q.avail[s.seen % s.q.num]], taken := s.taken + 1)
    case DeviceFinish(k, len) =>
      s.(q := s.q.(used := s.q.used[s.q.usedIdx % s.q.num := UsedElem(s.working[k], len)],
                   usedIdx := Next16(s.q.usedIdx)),
         working := s.working[..k] + s.working[k + 1..], completed := s.completed + 1)
  }

  function InFlight(s: System): seq<nat> {
    match s.phase
    case Idle => []
    case Waiting(_, d0, d1, d2) => [d0, d1, d2]
  }

  /** Free, in-flight and dropped descriptors. */
  function Pool(s: System): seq<nat>
    requires s.q.freeCount <= |s.q.free|
  {
    s.q.free[..s.q.freeCount] + InFlight(s) + s.dropped
  }

  function Numbers(n: nat): seq<nat> {
    seq(n, i => i)
  }

  function Outstanding(s: System): nat {
    if s.phase.Waiting? then 1 else 0
  }

  /** The published chain sits in the ring as the request demands. */
  predicate Laid(s: System)
    requires Shaped(s.q)
  {
    match s.phase
    case Idle => true
    case Waiting(r, d0, d1, d2) =>
      && Translated(r) && s.published > 0
      && d0 < s.q.num && d1 < s.q.num && d2 < s.q.num
      && s.q.desc[d0] == HeaderDesc(r, d1) && s.q.desc[d1] == DataDesc(r, d2) && s.q.desc[d2] == StatusDesc(r)
      && forall k {:trigger s.q.avail[k]} :: 0 <= k < s.q.num && k == (s.published - 1) % 0x1_0000 % s.q.num ==>
          s.q.avail[k] == d0
  }

  /** The 16-bit counters are the histories modulo 2^16, and at most one request is past its publication. */
  predicate Counted(s: System) {
    && s.q.availIdx == s.published % 0x1_0000
    && s.q.usedIdx == s.completed % 0x1_0000
    && s.seen == s.taken % 0x1_0000
    && Outstanding(s) <= s.published
    && s.q.shadow == (s.published - Outstanding(s)) % 0x1_0000
    && s.published - Outstanding(s) <= s.completed <= s.taken <= s.published
    && s.working == (if s.completed < s.taken && s.phase.Waiting? then [s.phase.d0] else [])
  }

  /** Every descriptor is exactly once free, in flight or dropped. */
  predicate Inv(s: System) {
    && Shaped(s.q)
    && Counted(s)
    && Laid(s)
    && multiset(Pool(s)) == multiset(Numbers(s.q.num))
  }

  // ----- The ring as it is set up

  /** setup_queue0's free list: descriptor 0 on top. */
  function Descending(n: nat): seq<nat> {
    seq(n, i requires 0 <= i < n => n - 1 - i)
  }

  predicate FreshRing(q: Ring) {
    Shaped(q) && q.availIdx == q.usedIdx == q.shadow == 0 && q.free == Descending(q.num) && q.freeCount == q.num
  }

  function Start(q: Ring): System {
    System(q, Idle, 0, [], 0, 0, 0, [])
  }

  lemma {:induction false} DescendingNumbers(n: nat)
    ensures multiset(Descending(n)) == multiset(Numbers(n))
  {
    if n > 0 {
      DescendingNumbers(n - 1);
      assert Descending(n) == [n - 1] + Descending(n - 1);
      assert Numbers(n) == Numbers(n - 1) + [n - 1];
    }
  }

  lemma StartInv(q: Ring)
    requires FreshRing(q)
    ensures Inv(Start(q))
  {
    DescendingNumbers(q.num);
    assert Pool(Start(q)) == Descending(q.num);
  }

  // ----- Every event keeps the invariant

  /** Free, in flight and dropped add up to the ring's size. */
  lemma PoolSize(s: System)
    requires Inv(s)
    ensures s.q.freeCount + |InFlight(s)| + |s.dropped| == s.q.num
  {
    assert |multiset(Pool(s))| == |Pool(s)|;
    assert |multiset(Numbers(s.q.num))| == |Numbers(s.q.num)|;
  }

  lemma PoolDistinct(s: System, i: nat, j: nat)
    requires Inv(s) && i < j < |Pool(s)|
    ensures Pool(s)[i] != Pool(s)[j] && Pool(s)[i] < s.q.num && Pool(s)[j] < s.q.num
  {
    var p, n := Pool(s), Numbers(s.q.num);
    NumbersOnce(s.q.num, p[i]);
    NumbersOnce(s.q.num, p[j]);
    assert multiset(p)[p[i]] > 0 && multiset(p)[p[j]] > 0;
    TwiceCounts(p, i, j);
  }

  lemma {:induction false} NumbersOnce(n: nat, x: nat)
    ensures multiset(Numbers(n))[x] == if x < n then 1 else 0
  {
    if n > 0 {
      NumbersOnce(n - 1, x);
      assert Numbers(n) == Numbers(n - 1) + [n - 1];
    }
  }

  lemma TwiceCounts(p: seq<nat>, i: nat, j: nat)
    requires i < j < |p|
    ensures p[i] == p[j] ==> multiset(p)[p[i]] >= 2
  {
    assert p == p[..i] + [p[i]] + p[i + 1..j] + [p[j]] + p[j + 1..];
    assert multiset(p) ==
           multiset(p[..i]) + multiset{p[i]} + multiset(p[i + 1..j]) + multiset{p[j]} + multiset(p[j + 1..]);
  }

  lemma WrapStep(n: nat)
    ensures Next16(n % U16) == (n + 1) % U16
  {
  }

  /** A 16-bit counter equals another that is at most one step ahead exactly when it is no step ahead. */
  lemma WrapDiffers(a: nat, b: nat)
    requires b == a || b == a + 1
    ensures a % U16 == b % U16 <==> a == b
  {
  }

  /** The loop exits exactly when the request this call published has been completed, whatever the counters wrapped
      to. */
  lemma PollExitsOnCompletion(s: System)
    requires Inv(s) && s.phase.Waiting?
    ensures Ready(s.q) <==> s.completed == s.published
  {
    WrapDiffers(s.published - 1, s.completed);
  }

  lemma ThreePops(q: Ring)
    requires Shaped(q)
    ensures var (q', d0, d1, d2) := PopThree(q);
            && q' == q.(freeCount := if q.freeCount >= 3 then q.freeCount - 3 else 0)
            && (d0 == NO_DESCRIPTOR || d1 == NO_DESCRIPTOR || d2 == NO_DESCRIPTOR <==> q.freeCount < 3)
            && (q.freeCount >= 3 ==> Popped(q) == [d2, d1, d0] && d0 < q.num && d1 < q.num && d2 < q.num)
  {
  }

  lemma SameCounters(s: System, t: System)
    requires Counted(s) && t.phase == s.phase && t.seen == s.seen && t.working == s.working
    requires t.published == s.published && t.taken == s.taken && t.completed == s.completed
    requires t.q.availIdx == s.q.availIdx && t.q.usedIdx == s.q.usedIdx && t.q.shadow == s.q.shadow
    ensures Counted(t)
  {
  }

  lemma SameLayout(s: System, t: System)
    requires Shaped(s.q) && Laid(s) && Shaped(t.q) && (t.phase == s.phase || t.phase.Idle?)
    requires t.published == s.published
    requires t.q.desc == s.q.desc && t.q.avail == s.q.avail && t.q.num == s.q.num
    ensures Laid(t)
  {
  }

  /** A refused call: nothing changes for a bad length; otherwise what was popped is gone from the stack. */
  lemma RefuseIs(s: System, r: Request)
    requires Shaped(s.q) && s.phase.Idle? && (BadLength(r) || s.q.freeCount < 3 || !Translated(r))
    ensures Happen(s, Rw(r)) ==
            if BadLength(r) then s
            else s.(q := s.q.(freeCount := if s.q.freeCount >= 3 then s.q.freeCount - 3 else 0),
                    dropped := Popped(s.q) + s.dropped)
  {
    ThreePops(s.q);
    hide PopThree, Popped, Shaped, BadLength, Translated;
  }

  lemma RefuseKeeps(s: System, r: Request)
    requires Inv(s) && s.phase.Idle? && (BadLength(r) || s.q.freeCount < 3 || !Translated(r))
    ensures Inv(Happen(s, Rw(r))) && Happen(s, Rw(r)).phase.Idle?
    ensures !BadLength(r) ==> Happen(s, Rw(r)).q.freeCount == if s.q.freeCount >= 3 then s.q.freeCount - 3 else 0
  {
    hide Happen, SubmitTo, BadLength, Translated, Counted, Laid, Numbers, Pool;
    RefuseIs(s, r);
    if !BadLength(r) {
      var t := Happen(s, Rw(r));
      SameCounters(s, t);
      SameLayout(s, t);
      RefusePool(s, t);
    }
  }

  lemma RefusePool(s: System, t: System)
    requires Shaped(s.q) && s.phase.Idle? && t.phase.Idle? && t.q.free == s.q.free
    requires t.dropped == Popped(s.q) + s.dropped
    requires t.q.freeCount == if s.q.freeCount >= 3 then s.q.freeCount - 3 else 0
    ensures Pool(t) == Pool(s)
  {
    assert s.q.free[..s.q.freeCount] == s.q.free[..t.q.freeCount] + Popped(s.q);
  }

  lemma PublishIs(s: System, r: Request)
    requires Shaped(s.q) && s.phase.Idle? && !BadLength(r) && s.q.freeCount >= 3 && Translated(r)
    ensures var n := s.q.freeCount;
            var d0, d1, d2 := s.q.free[n - 1], s.q.free[n - 2], s.q.free[n - 3];
            && d0 < s.q.num && d1 < s.q.num && d2 < s.q.num
            && Happen(s, Rw(r)) ==
               s.(q := s.q.(freeCount := n - 3,
                            desc := s.q.desc[d0 := HeaderDesc(r, d1)][d1 := DataDesc(r, d2)][d2 := StatusDesc(r)],
                            avail := s.q.avail[s.q.availIdx % s.q.num := d0],
                            availIdx := Next16(s.q.availIdx)),
                  phase := Waiting(r, d0, d1, d2), published := s.published + 1)
  {
    ThreePops(s.q);
    hide BadLength, HeaderDesc, DataDesc, StatusDesc;
  }

  lemma PublishKeeps(s: System, r: Request)
    requires Inv(s) && s.phase.Idle? && !BadLength(r) && s.q.freeCount >= 3 && Translated(r)
    ensures Inv(Happen(s, Rw(r))) && Happen(s, Rw(r)).phase.Waiting?
  {
    hide Happen, SubmitTo, BadLength, Numbers, Shaped, Counted, Laid, Pool;
    PublishIs(s, r);
    PublishCounts(s, r);
    PublishLays(s, r);
    PublishShapes(s, r);
    PublishPool(s, Happen(s, Rw(r)));
  }

  lemma PublishShapes(s: System, r: Request)
    requires Shaped(s.q) && s.phase.Idle? && !BadLength(r) && s.q.freeCount >= 3 && Translated(r)
    ensures Shaped(Happen(s, Rw(r)).q)
  {
    hide Happen, SubmitTo, BadLength, HeaderDesc, DataDesc, StatusDesc;
    PublishIs(s, r);
  }

  lemma PublishCounts(s: System, r: Request)
    requires Shaped(s.q) && s.phase.Idle? && !BadLength(r) && s.q.freeCount >= 3 && Translated(r) && Counted(s)
    ensures Counted(Happen(s, Rw(r)))
  {
    hide Happen, SubmitTo, BadLength, HeaderDesc, DataDesc, StatusDesc, Shaped, Next16;
    PublishIs(s, r);
    WrapStep(s.published);
  }

  lemma PublishLays(s: System, r: Request)
    requires Inv(s) && s.phase.Idle? && !BadLength(r) && s.q.freeCount >= 3 && Translated(r)
    ensures Shaped(Happen(s, Rw(r)).q) && Laid(Happen(s, Rw(r)))
  {
    hide Happen, SubmitTo, BadLength, HeaderDesc, DataDesc, StatusDesc, Numbers, Next16;
    PublishShapes(s, r);
    PublishIs(s, r);
    var n := s.q.freeCount;
    PoolDistinct(s, n - 3, n - 2);
    PoolDistinct(s, n - 3, n - 1);
    PoolDistinct(s, n - 2, n - 1);
    assert Pool(s)[n - 1] == s.q.free[n - 1] && Pool(s)[n - 2] == s.q.free[n - 2] && Pool(s)[n - 3] == s.q.free[n - 3];
  }

  lemma PublishPool(s: System, t: System)
    requires Shaped(s.q) && s.phase.Idle? && 3 <= s.q.freeCount && t.q.free == s.q.free && t.dropped == s.dropped
    requires t.q.freeCount == s.q.freeCount - 3 && t.phase.Waiting?
    requires var n := s.q.freeCount;
             t.phase.d0 == s.q.free[n - 1] && t.phase.d1 == s.q.free[n - 2] && t.phase.d2 == s.q.free[n - 3]
    ensures multiset(Pool(t)) == multiset(Pool(s))
  {
    var n := s.q.freeCount;
    var kept := s.q.free[..n - 3];
    var d0, d1, d2 := t.phase.d0, t.phase.d1, t.phase.d2;
    assert s.q.free[..n] == kept + [d2, d1, d0];
    assert Pool(s) == kept + [d2, d1, d0] + s.dropped;
    assert Pool(t) == kept + [d0, d1, d2] + s.dropped;
    assert multiset([d2, d1, d0]) == multiset([d0, d1, d2]);
  }

  lemma ReclaimIs(s: System)
    requires Shaped(s.q) && s.phase.Waiting? && Ready(s.q) && s.q.freeCount + 3 <= s.q.num
    ensures var n := s.q.freeCount;
            var d0, d1, d2 := s.phase.d0, s.phase.d1, s.phase.d2;
            Happen(s, Poll) ==
            s.(q := s.q.(shadow := Next16(s.q.shadow), free := s.q.free[n := d0][n + 1 := d1][n + 2 := d2],
                         freeCount := n + 3),
               phase := Idle)
  {
    hide Next16;
  }

  lemma ReclaimKeeps(s: System)
    requires Inv(s) && s.phase.Waiting? && Ready(s.q)
    ensures Inv(Happen(s, Poll)) && Happen(s, Poll).phase.Idle?
    ensures var n := s.q.freeCount;
            var t := Happen(s, Poll).q;
            && t.freeCount == n + 3 && |t.free| >= n + 3
            && t.free[..n + 3] == s.q.free[..n] + [s.phase.d0, s.phase.d1, s.phase.d2]
  {
    hide Happen, Reclaim, Counted, Numbers, Next16, Pool, Ready, Laid, Shaped;
    PollExitsOnCompletion(s);
    PoolSize(s);
    ReclaimShapes(s);
    var t := Happen(s, Poll);
    ReclaimCounts(s, t);
    ReclaimPool(s, t);
    SameLayout(s, t);
  }

  lemma ReclaimShapes(s: System)
    requires Shaped(s.q) && Laid(s) && s.phase.Waiting? && Ready(s.q) && s.q.freeCount + 3 <= s.q.num
    ensures Shaped(Happen(s, Poll).q) && s.q.freeCount + 3 <= |s.q.free|
    ensures var n := s.q.freeCount;
            Happen(s, Poll) ==
            s.(q := s.q.(shadow := Next16(s.q.shadow),
                         free := s.q.free[n := s.phase.d0][n + 1 := s.phase.d1][n + 2 := s.phase.d2],
                         freeCount := n + 3),
               phase := Idle)
  {
    hide Happen, Ready, HeaderDesc, DataDesc, StatusDesc;
    ReclaimIs(s);
  }

  lemma ReclaimCounts(s: System, t: System)
    requires Counted(s) && s.phase.Waiting? && s.completed == s.published
    requires t.phase.Idle? && t.seen == s.seen && t.working == s.working && t.published == s.published
    requires t.taken == s.taken && t.completed == s.completed && t.q.availIdx == s.q.availIdx
    requires t.q.usedIdx == s.q.usedIdx
    requires t.q.shadow == Next16(s.q.shadow)
    ensures Counted(t)
  {
    hide Next16;
    WrapStep(s.published - 1);
  }

  lemma ReclaimPool(s: System, t: System)
    requires s.phase.Waiting? && t.phase.Idle? && t.dropped == s.dropped && s.q.freeCount + 3 <= |s.q.free|
    requires var n := s.q.freeCount;
             t.q.freeCount == n + 3 && t.q.free == s.q.free[n := s.phase.d0][n + 1 := s.phase.d1][n + 2 := s.phase.d2]
    ensures Pool(t) == Pool(s)
    ensures t.q.free[..s.q.freeCount + 3] == s.q.free[..s.q.freeCount] + [s.phase.d0, s.phase.d1, s.phase.d2]
  {
  }

  /** Only a waiting request can be there for the device to take, and it finds that request's chain. */
  lemma TakeFinds(s: System)
    requires Inv(s) && Enabled(s, DeviceTake)
    ensures s.phase.Waiting? && s.taken == s.completed == s.published - 1
    ensures s.q.avail[s.seen % s.q.num] == s.phase.d0
  {
    hide HeaderDesc, DataDesc, StatusDesc, Numbers, Pool;
    WrapDiffers(s.taken, s.published);
  }

  lemma TakeKeeps(s: System)
    requires Inv(s) && Enabled(s, DeviceTake)
    ensures Inv(Happen(s, DeviceTake))
    ensures s.phase.Waiting? && Happen(s, DeviceTake).working == [s.phase.d0]
  {
    hide Happen, Numbers, Next16, Laid, Shaped;
    TakeFinds(s);
    TakeIs(s);
    WrapStep(s.taken);
    SameLayout(s, Happen(s, DeviceTake));
  }

  lemma TakeIs(s: System)
    requires Shaped(s.q) && Enabled(s, DeviceTake) && s.phase.Waiting? && s.working == []
    requires s.q.avail[s.seen % s.q.num] == s.phase.d0
    ensures Happen(s, DeviceTake) == s.(seen := Next16(s.seen), working := [s.phase.d0], taken := s.taken + 1)
  {
    hide Next16;
  }

  lemma FinishKeeps(s: System, k: nat, len: nat)
    requires Inv(s) && Enabled(s, DeviceFinish(k, len))
    ensures Inv(Happen(s, DeviceFinish(k, len)))
  {
    hide Numbers, Laid, Counted, Shaped;
    FinishCounts(s, k, len);
    FinishShapes(s, k, len);
    SameLayout(s, Happen(s, DeviceFinish(k, len)));
    assert Pool(Happen(s, DeviceFinish(k, len))) == Pool(s);
  }

  lemma FinishCounts(s: System, k: nat, len: nat)
    requires Shaped(s.q) && Counted(s) && Enabled(s, DeviceFinish(k, len))
    ensures Counted(Happen(s, DeviceFinish(k, len)))
  {
    hide Next16, Shaped;
    WrapStep(s.completed);
  }

  lemma FinishShapes(s: System, k: nat, len: nat)
    requires Shaped(s.q) && Enabled(s, DeviceFinish(k, len))
    ensures Shaped(Happen(s, DeviceFinish(k, len)).q)
  {
  }

  lemma HappenKeeps(s: System, e: Event)
    requires Inv(s) && Enabled(s, e)
    ensures Inv(Happen(s, e))
  {
    hide Inv, Happen;
    match e
    case Rw(r) =>
      if BadLength(r) || s.q.freeCount < 3 || !Translated(r) {
        RefuseKeeps(s, r);
      } else {
        PublishKeeps(s, r);
      }
    case Poll =>
      if Ready(s.q) {
        ReclaimKeeps(s);
      } else {
        PollWaits(s);
      }
    case DeviceTake => TakeKeeps(s);
    case DeviceFinish(k, len) => FinishKeeps(s, k, len);
  }

  lemma PollWaits(s: System)
    requires Inv(s) && s.phase.Waiting? && !Ready(s.q)
    ensures Happen(s, Poll) == s
  {
  }

  // ----- Runs

  ghost predicate Run(states: seq<System>, events: seq<Event>) {
    && |states| == |events| + 1
    && forall i :: 0 <= i < |events| ==>
         Shaped(states[i].q) && Enabled(states[i], events[i]) && states[i + 1] == Happen(states[i], events[i])
  }

  /** In every interleaving: descriptors are exactly once free, in flight or dropped, at most one chain is in flight,
      and the counters tell the truth modulo 2^16. */
  lemma {:induction false} RunInv(states: seq<System>, events: seq<Event>, i: nat)
    requires Run(states, events) && i < |states| && Inv(states[0])
    ensures Inv(states[i])
  {
    hide Inv, Happen, Enabled, Shaped;
    if i > 0 {
      RunInv(states, events, i - 1);
      HappenKeeps(states[i - 1], events[i - 1]);
    }
  }

  /** While a request waits, only the device moves and the free stack does not change. */
  lemma WaitingKeepsStack(s: System, e: Event)
    requires Inv(s) && Enabled(s, e) && s.phase.Waiting? && (e == Poll ==> !Ready(s.q))
    ensures var t := Happen(s, e);
            t.phase == s.phase && t.q.free == s.q.free && t.q.freeCount == s.q.freeCount && t.dropped == s.dropped
            && t.published == s.published
  {
    hide HeaderDesc, DataDesc, StatusDesc, Numbers, Pool, Counted, Laid;
  }

  lemma {:induction false} StackWhileWaiting(states: seq<System>, events: seq<Event>, i: nat)
    requires Run(states, events) && Inv(states[0]) && 1 <= i < |states|
    requires forall j :: 1 <= j <= i ==> states[j].phase.Waiting?
    ensures states[i].phase == states[1].phase && states[i].dropped == states[1].dropped
    ensures states[i].q.free == states[1].q.free && states[i].q.freeCount == states[1].q.freeCount
  {
    hide Inv, Happen, Enabled, Shaped;
    if i > 1 {
      StackWhileWaiting(states, events, i - 1);
      RunInv(states, events, i - 1);
      assert states[i - 1 + 1] == Happen(states[i - 1], events[i - 1]);
      StillWaiting(states[i - 1], events[i - 1]);
      WaitingKeepsStack(states[i - 1], events[i - 1]);
    }
  }

  lemma StillWaiting(s: System, e: Event)
    requires Inv(s) && Enabled(s, e) && s.phase.Waiting? && Happen(s, e).phase.Waiting?
    ensures e == Poll ==> !Ready(s.q)
  {
    if e == Poll && Ready(s.q) {
      ReclaimKeeps(s);
    }
  }

  /** From publication to reclaim, with any device steps between, a request gives back exactly the three descriptors
      it took: the free descriptors are as before, the top three in reverse, and nothing has been dropped. */
  lemma CompletedRequestRestores(states: seq<System>, events: seq<Event>, r: Request)
    requires Run(states, events) && |events| >= 2 && Inv(states[0])
    requires events[0] == Rw(r) && events[|events| - 1] == Poll && states[|events|].phase.Idle?
    requires forall i :: 1 <= i < |events| ==> states[i].phase.Waiting?
    ensures var s, t, n := states[0], states[|events|], states[0].q.freeCount;
            && n >= 3 && t.q.freeCount == n <= |s.q.free| && n <= |t.q.free|
            && t.q.free[..n] == s.q.free[..n - 3] + [s.q.free[n - 1], s.q.free[n - 2], s.q.free[n - 3]]
            && t.dropped == s.dropped
  {
    hide Inv, Happen, Enabled, Shaped;
    var last := |events| - 1;
    RunInv(states, events, last);
    StackWhileWaiting(states, events, last);
    PublishedStack(states[0], states[1], r);
    ReclaimedStack(states[last], states[last + 1]);
  }

  lemma PublishedStack(s: System, t: System, r: Request)
    requires Inv(s) && Enabled(s, Rw(r)) && t == Happen(s, Rw(r)) && t.phase.Waiting?
    ensures var n := s.q.freeCount;
            && 3 <= n <= |s.q.free| && t.q.free == s.q.free && t.q.freeCount == n - 3 && t.dropped == s.dropped
            && InFlight(t) == [s.q.free[n - 1], s.q.free[n - 2], s.q.free[n - 3]]
  {
    hide Happen, Pool, Counted, Laid, HeaderDesc, DataDesc, StatusDesc, BadLength;
    if BadLength(r) || s.q.freeCount < 3 || !Translated(r) {
      RefuseIs(s, r);
    } else {
      PublishIs(s, r);
    }
  }

  lemma ReclaimedStack(s: System, t: System)
    requires Inv(s) && s.phase.Waiting? && t == Happen(s, Poll) && t.phase.Idle?
    ensures var n := s.q.freeCount;
            t.q.freeCount == n + 3 && n <= |s.q.free| && n + 3 <= |t.q.free|
            && t.q.free[..n + 3] == s.q.free[..n] + InFlight(s) && t.dropped == s.dropped
  {
    hide Pool, Counted, Laid, Happen, Reclaim, Ready;
    if Ready(s.q) {
      PoolSize(s);
      ReclaimKeeps(s);
      ReclaimIs(s);
    } else {
      PollWaits(s);
    }
  }

  // ----- Early exits starve the ring

  /** A call that finds fewer than three free descriptors keeps what it popped, and no later call can be served. */
  predicate Starved(s: System) {
    s.phase.Idle? && s.q.freeCount == 0
  }

  lemma ShortCallStarves(s: System, r: Request)
    requires Inv(s) && s.phase.Idle? && !BadLength(r) && s.q.freeCount < 3
    ensures Starved(Happen(s, Rw(r)))
  {
    hide Inv, Happen, Shaped;
    RefuseKeeps(s, r);
  }

  lemma StarvedStays(s: System, e: Event)
    requires Inv(s) && Starved(s) && Enabled(s, e)
    ensures Starved(Happen(s, e)) && !Happen(s, e).phase.Waiting?
  {
    hide Happen, Laid, Pool;
    match e
    case Rw(r) =>
      if BadLength(r) {
        RefuseIs(s, r);
      } else {
        RefuseKeeps(s, r);
      }
    case Poll =>
    case DeviceTake => TakeKeeps(s);
    case DeviceFinish(_, _) =>
  }

  /** Once starved, no request is ever published again. */
  lemma {:induction false} StarvedForEver(states: seq<System>, events: seq<Event>, i: nat)
    requires Run(states, events) && i < |states| && Inv(states[0]) && Starved(states[0])
    ensures Starved(states[i])
  {
    hide Inv, Happen, Enabled, Shaped, Starved;
    if i > 0 {
      StarvedForEver(states, events, i - 1);
      RunInv(states, events, i - 1);
      StarvedStays(states[i - 1], events[i - 1]);
    }
  }

  /** `n` is k sectors of 512 bytes, and not none. */
  predicate Sectors(n: nat, k: nat) {
    k > 0 && n == 512 * k
  }

  ghost predicate WholeSectors(n: nat) {
    exists k: nat :: Sectors(n, k)
  }

  lemma BadLengthIs(r: Request)
    ensures BadLength(r) <==> !WholeSectors(r.bytes)
  {
    if !BadLength(r) {
      assert Sectors(r.bytes, r.bytes / 512);
    }
  }

  /** The answer to a call, by what the caller passes and what is free: code 1 for a length that is no whole number
      of sectors and for addresses that do not translate, code 2 for want of three descriptors, and else the three on
      top of the stack are published, header first. */
  lemma AnswerIs(q: Ring, r: Request)
    requires Shaped(q)
    ensures SubmitTo(q, r).1 ==
            if !WholeSectors(r.bytes) then Refused(1)
            else if q.freeCount < 3 then Refused(2)
            else if r.header.None? || r.data.None? || r.status.None? then Refused(1)
            else Published(q.free[q.freeCount - 1], q.free[q.freeCount - 2], q.free[q.freeCount - 3])
  {
    hide WholeSectors;
    BadLengthIs(r);
  }

  /** A call is served exactly when its length is good, three descriptors are free and its addresses translate; each
      call whose addresses do not translate costs three descriptors for good. */
  lemma ServedExactly(s: System, r: Request)
    requires Inv(s) && s.phase.Idle?
    ensures Happen(s, Rw(r)).phase.Waiting? <==> WholeSectors(r.bytes) && s.q.freeCount >= 3 && Translated(r)
    ensures WholeSectors(r.bytes) && s.q.freeCount >= 3 && !Translated(r) ==>
              |Happen(s, Rw(r)).dropped| == |s.dropped| + 3 && Happen(s, Rw(r)).q.freeCount == s.q.freeCount - 3
  {
    hide Happen, Pool, Counted, Laid, HeaderDesc, DataDesc, StatusDesc, BadLength, Translated, WholeSectors;
    BadLengthIs(r);
    if BadLength(r) || s.q.freeCount < 3 || !Translated(r) {
      RefuseIs(s, r);
    } else {
      PublishIs(s, r);
    }
  }

  // ----- Runs as the kernel has them: a translation that comes back never reports an error

  predicate AllTranslated(events: seq<Event>) {
    forall i :: 0 <= i < |events| && events[i].Rw? ==> Translated(events[i].request)
  }

  /** A step drops nothing, with three descriptors or more, when nothing was dropped before it. */
  lemma NothingDroppedStep(s: System, e: Event)
    requires Inv(s) && Enabled(s, e) && (e.Rw? ==> Translated(e.request)) && s.q.num >= 3 && s.dropped == []
    ensures Happen(s, e).dropped == [] && Happen(s, e).q.num == s.q.num
  {
    hide Pool, Counted, Laid, HeaderDesc, DataDesc, StatusDesc, BadLength, Translated;
    PoolSize(s);
    if e.Rw? {
      var r := e.request;
      if BadLength(r) {
        RefuseIs(s, r);
      } else {
        PublishIs(s, r);
      }
    }
  }

  lemma {:induction false} NothingDropped(states: seq<System>, events: seq<Event>, i: nat)
    requires Run(states, events) && i < |states| && Inv(states[0]) && AllTranslated(events)
    requires states[0].q.num >= 3 && states[0].dropped == []
    ensures states[i].dropped == [] && states[i].q.num == states[0].q.num
  {
    hide Inv, Happen, Enabled, Shaped;
    if i > 0 {
      NothingDropped(states, events, i - 1);
      RunInv(states, events, i - 1);
      NothingDroppedStep(states[i - 1], events[i - 1]);
    }
  }

  /** With fewer than three descriptors no request is ever published. */
  lemma SmallRingStep(s: System, e: Event)
    requires Inv(s) && Enabled(s, e) && s.q.num < 3 && s.phase.Idle?
    ensures Happen(s, e).phase.Idle? && Happen(s, e).q.num == s.q.num
  {
    hide Pool, Counted, Laid, HeaderDesc, DataDesc, StatusDesc, BadLength, Translated;
    PoolSize(s);
    if e.Rw? {
      RefuseIs(s, e.request);
    }
  }

  lemma {:induction false} SmallRing(states: seq<System>, events: seq<Event>, i: nat)
    requires Run(states, events) && i < |states| && Inv(states[0]) && states[0].q.num < 3 && states[0].phase.Idle?
    ensures states[i].phase.Idle? && states[i].q.num == states[0].q.num
  {
    hide Inv, Happen, Enabled, Shaped;
    if i > 0 {
      SmallRing(states, events, i - 1);
      RunInv(states, events, i - 1);
      SmallRingStep(states[i - 1], events[i - 1]);
    }
  }

  /** In every run from the ring as set up, a call of good length is served exactly when the queue has at least three
      descriptors. */
  lemma ServedFromStart(states: seq<System>, events: seq<Event>, i: nat, r: Request)
    requires Run(states, events) && i < |states| && FreshRing(states[0].q) && states[0] == Start(states[0].q)
    requires AllTranslated(events) && Translated(r) && WholeSectors(r.bytes) && states[i].phase.Idle?
    ensures Inv(states[i]) && (Happen(states[i], Rw(r)).phase.Waiting? <==> states[0].q.num >= 3)
  {
    hide Happen, Enabled;
    StartInv(states[0].q);
    RunInv(states, events, i);
    PoolSize(states[i]);
    ServedExactly(states[i], r);
    if states[0].q.num >= 3 {
      NothingDropped(states, events, i);
    } else {
      SmallRing(states, events, i);
    }
  }

  /** A device that offers two descriptors: the first call is refused with code 2, and so is every later one. */
  lemma TwoDescriptors(r: Request)
    requires !BadLength(r)
    ensures var none := Desc(0, 0, 0, 0);
            var q := Ring(2, [none, none], 0, [0, 0], 0, [UsedElem(0, 0), UsedElem(0, 0)], 0, [1, 0], 2);
            FreshRing(q) && Inv(Start(q)) && SubmitTo(q, r).1 == Refused(2) && Starved(Happen(Start(q), Rw(r)))
  {
    hide BadLength;
    var none := Desc(0, 0, 0, 0);
    var q := Ring(2, [none, none], 0, [0, 0], 0, [UsedElem(0, 0), UsedElem(0, 0)], 0, [1, 0], 2);
    assert q.free == Descending(2);
    StartInv(q);
    ThreePops(q);
    ShortCallStarves(Start(q), r);
  }

  // ----- What the device reads

  /** A descriptor chain, read as the virtio specification (version 1.1, section 2.6.5) says: follow next while the
      NEXT flag is set. */
  function Chain(desc: seq<Desc>, head: nat, limit: nat): seq<Desc>
    decreases limit
  {
    if limit == 0 || head >= |desc| then []
    else if desc[head].flags % 2 == 1 then [desc[head]] + Chain(desc, desc[head].next, limit - 1)
    else [desc[head]]
  }

  /** The device may write a buffer whose descriptor has the WRITE flag. */
  predicate DeviceWrites(d: Desc) {
    d.flags / 2 % 2 == 1
  }

  /** The chain the device takes is the request's header, data and status, in that order and no more; it may write
      the status byte, and the data only of a read. */
  lemma DeviceReadsRequest(s: System)
    requires Inv(s) && Enabled(s, DeviceTake)
    ensures s.phase.Waiting?
    ensures var r := s.phase.request;
            var chain := Chain(s.q.desc, s.q.avail[s.seen % s.q.num], s.q.num);
            && Translated(r) && |chain| == 3
            && chain[0].addr == r.header.value && chain[0].len == 16 && !DeviceWrites(chain[0])
            && chain[1].addr == r.data.value && chain[1].len == r.bytes && (DeviceWrites(chain[1]) <==> !r.write)
            && chain[2].addr == r.status.value && chain[2].len == 1 && DeviceWrites(chain[2])
  {
    TakeFinds(s);
    PoolSize(s);
    hide Pool, Counted, Shaped;
    ChainOfThree(s.q.desc, s.q.num, s.phase.request, s.phase.d0, s.phase.d1, s.phase.d2);
  }

  lemma {:induction false} ChainOfThree(desc: seq<Desc>, n: nat, r: Request, d0: nat, d1: nat, d2: nat)
    requires Translated(r) && n >= 3 && d0 < |desc| && d1 < |desc| && d2 < |desc|
    requires desc[d0] == HeaderDesc(r, d1) && desc[d1] == DataDesc(r, d2) && desc[d2] == StatusDesc(r)
    ensures Chain(desc, d0, n) == [desc[d0], desc[d1], desc[d2]]
  {
    assert Chain(desc, d2, n - 2) == [desc[d2]];
    assert Chain(desc, d1, n - 1) == [desc[d1]] + Chain(desc, d2, n - 2);
  }

  // ----- Where the ring's parts lie

  function AlignUp(n: nat): nat {
    (n + VRING_ALIGN - 1) / VRING_ALIGN * VRING_ALIGN
  }

  /** Offsets of the available and used rings from the ring's page-aligned base, and vring_size_bytes. */
  function AvailOffset(num: nat): nat { 16 * num }

  function UsedOffset(num: nat): nat { AlignUp(AvailOffset(num) + 4 + 2 * num) }

  function VringSize(num: nat): nat { AlignUp(16 * num + 4 + 2 * num) + 4 + 8 * num }

  /** The used ring's offset in the virtio specification (version 1.1, section 2.6.2), whose available ring ends with
      a two-byte event field the driver leaves out. */
  function SpecUsedOffset(num: nat): nat { AlignUp(16 * num + 6 + 2 * num) }

  /** Descriptors, available ring and used ring do not overlap and fill exactly the size asked for. The used ring is
      where the device looks for it exactly when the driver's shorter available ring does not end on a page boundary. */
  lemma RingLayout(num: nat)
    ensures 16 * num <= AvailOffset(num) && AvailOffset(num) + 4 + 2 * num <= UsedOffset(num)
    ensures UsedOffset(num) % 4096 == 0
    ensures UsedOffset(num) + 4 + 8 * num == VringSize(num)
    ensures UsedOffset(num) == SpecUsedOffset(num) <==> (18 * num + 4) % VRING_ALIGN != 0
  {
    hide AlignUp;
    AlignEven(9 * num + 2);
  }

  /** With 910 descriptors the driver's rings leave no room for the event field before a page boundary. */
  lemma UsedRingMisplaced()
    ensures UsedOffset(910) == 0x4000 && SpecUsedOffset(910) == 0x5000
  {
  }

  lemma AlignEven(h: nat)
    ensures AlignUp(2 * h) >= 2 * h && AlignUp(2 * h) % VRING_ALIGN == 0
    ensures AlignUp(2 * h) == AlignUp(2 * h + 2) <==> 2 * h % VRING_ALIGN != 0
  {
    hide AlignUp;
    var q, r := h / 2048, h % 2048;
    AlignOf(2 * h, q, 2 * r);
    if r + 1 < 2048 {
      AlignOf(2 * h + 2, q, 2 * r + 2);
    } else {
      AlignOf(2 * h + 2, q + 1, 0);
    }
  }

  lemma AlignOf(k: nat, q: nat, r: nat)
    requires k == VRING_ALIGN * q + r && r < VRING_ALIGN
    ensures AlignUp(k) == VRING_ALIGN * (if r == 0 then q else q + 1)
  {
  }

  /** Queue sizes are powers of two, and for those the used ring is where the specification puts it. */
  lemma {:induction false} PowerOfTwoLayout(num: nat)
    requires PowerOfTwo(num)
    ensures UsedOffset(num) == SpecUsedOffset(num)
  {
    hide UsedOffset, SpecUsedOffset;
    RingLayout(num);
    if num > 2 {
      assert PowerOfTwo(num / 2) && num / 2 % 2 == 0;
      var q := num / 4;
      assert num == 4 * q;
      assert 18 * num + 4 == 8 * (9 * q) + 4;
    }
  }

  // ----- The driver as it runs

  class VirtioQueue {
    const num: nat
    const desc: array<Desc>
    const avail: array<nat>
    const used: array<UsedElem>
    const free: array<nat>
    var availIdx: nat
    var usedIdx: nat
    var shadow: nat
    var freeCount: nat

    ghost predicate Separate() {
      avail != free
    }

    ghost function View(): Ring
      reads this, desc, avail, used, free
    {
      Ring(num, desc[..], availIdx, avail[..], usedIdx, used[..], shadow, free[..], freeCount)
    }

    /** setup_queue0's bookkeeping for a queue of `size` descriptors. */
    constructor (size: nat)
      requires 0 < size < U16
      ensures Separate() && FreshRing(View()) && num == size
    {
      num := size;
      desc := new Desc[size](_ => Desc(0, 0, 0, 0));
      avail := new nat[size](_ => 0);
      used := new UsedElem[size](_ => UsedElem(0, 0));
      free := new nat[size](_ => 0);
      availIdx, usedIdx, shadow, freeCount := 0, 0, 0, size;
      new;
      for i := 0 to size
        invariant availIdx == usedIdx == shadow == 0 && freeCount == size
        invariant forall j :: 0 <= j < i ==> free[j] == size - 1 - j
        modifies free
      {
        free[i] := size - 1 - i;
      }
    }

    method PopFree() returns (d: nat)
      requires Shaped(View())
      modifies this`freeCount
      ensures (View(), d) == PopFrom(old(View()))
      ensures d == if old(freeCount) == 0 then 0xFFFF else old(View()).free[old(freeCount) - 1]
    {
      if freeCount == 0 {
        return NO_DESCRIPTOR;
      }
      freeCount := freeCount - 1;
      return free[freeCount];
    }

    method PushFree(d: nat)
      requires freeCount < free.Length && Separate()
      modifies this`freeCount, free
      ensures View() == PushOnto(old(View()), d)
    {
      free[freeCount] := d;
      freeCount := freeCount + 1;
    }

    /** rw up to the notification of the device. */
    method Submit(r: Request) returns (out: Submitted)
      requires Shaped(View()) && Separate()
      modifies this`freeCount, this`availIdx, desc, avail
      ensures (View(), out) == SubmitTo(old(View()), r)
    {
      if r.bytes == 0 || r.bytes % 512 != 0 {
        return Refused(1);
      }
      var d0 := PopFree();
      var d1 := PopFree();
      var d2 := PopFree();
      if d0 == NO_DESCRIPTOR || d1 == NO_DESCRIPTOR || d2 == NO_DESCRIPTOR {
        return Refused(2);
      }
      if r.header.None? || r.data.None? || r.status.None? {
        return Refused(1);
      }
      desc[d0] := Desc(r.header.value, REQUEST_HEADER, VRING_DESC_F_NEXT, d1);
      desc[d1] := Desc(r.data.value, r.bytes, VRING_DESC_F_NEXT + (if r.write then 0 else VRING_DESC_F_WRITE), d2);
      desc[d2] := Desc(r.status.value, 1, VRING_DESC_F_WRITE, 0);
      avail[availIdx % num] := d0;
      availIdx := Next16(availIdx);
      return Published(d0, d1, d2);
    }

    /** rw from the polling loop on, for one look at the ring: None while it spins; then the descriptors go back and
        the status byte is the result, zero for success. */
    method Poll(d0: nat, d1: nat, d2: nat, status: nat) returns (code: Option<nat>)
      requires freeCount + 3 <= free.Length && Separate()
      modifies this`freeCount, this`shadow, free
      ensures !Ready(old(View())) ==> View() == old(View()) && code == None
      ensures Ready(old(View())) ==> View() == Reclaim(old(View()), d0, d1, d2) && code == Some(status)
    {
      if usedIdx == shadow {
        return None;
      }
      shadow := Next16(shadow);
      PushFree(d0);
      PushFree(d1);
      PushFree(d2);
      return Some(status);
    }
  }
}
