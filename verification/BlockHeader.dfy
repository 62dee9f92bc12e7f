/** The header of a block request as the bytes the device reads. */
module BlockHeader {
  import opened Arithmetic
  import opened Wrappers
  import opened ByteMemory
  import opened Virtio

  /** The three fields rw fills in: type, reserved and sector. */
  function StoreHeader(m: Memory, at: nat, r: Request): (after: Memory)
    ensures |after| == |m|
  {
    Store(Store(Store(m, at, 4, if r.write then 1 else 0), at + 4, 4, 0), at + 8, 8, r.sector)
  }

  /** A request header as section 5.2.6 of virtio 1.1 has it: a type of 0 to read or 1 to write in four bytes, four
      bytes that say nothing, and the sector in eight, least byte first. */
  ghost predicate Says(b: seq<Byte>, write: bool, sector: nat) {
    && |b| == 16
    && FromBytes(b[0..4]) == (if write then 1 else 0)
    && FromBytes(b[4..8]) == 0
    && FromBytes(b[8..16]) == sector
  }

  lemma {:induction false} StoredBack(m: Memory, at: nat, n: nat, v: nat)
    requires at + n <= |m| && v < Pow256(n)
    ensures FromBytes(Store(m, at, n, v)[at..at + n]) == v
  {
    LoadStored(m, at, n, v);
  }

  lemma StoredBeside(m: Memory, at: nat, n: nat, v: nat, lo: nat, hi: nat)
    requires lo <= hi <= |m| && (hi <= at || at + n <= lo)
    ensures Store(m, at, n, v)[lo..hi] == m[lo..hi]
  {
    StoreElsewhere(m, at, n, v);
  }

  lemma HeaderSays(m: Memory, at: nat, r: Request)
    requires at + 16 <= |m|
    ensures Says(StoreHeader(m, at, r)[at..at + 16], r.write, r.sector)
    ensures forall x: nat :: x < |m| && !(at <= x < at + 16) ==> StoreHeader(m, at, r)[x] == m[x]
  {
    hide Store, FromBytes;
    var typ := if r.write then 1 else 0;
    var a := Store(m, at, 4, typ);
    var b := Store(a, at + 4, 4, 0);
    var after := StoreHeader(m, at, r);
    Pow256Of8();
    assert Pow256(4) == 0x1_0000_0000;
    StoredBack(m, at, 4, typ);
    StoredBack(a, at + 4, 4, 0);
    StoredBack(b, at + 8, 8, r.sector);
    StoredBeside(a, at + 4, 4, 0, at, at + 4);
    StoredBeside(b, at + 8, 8, r.sector, at, at + 4);
    StoredBeside(b, at + 8, 8, r.sector, at + 4, at + 8);
    StoreElsewhere(m, at, 4, typ);
    StoreElsewhere(a, at + 4, 4, 0);
    StoreElsewhere(b, at + 8, 8, r.sector);
    Inside(after, at, 0, 4);
    Inside(after, at, 4, 8);
    Inside(after, at, 8, 16);
  }

  lemma Inside(m: Memory, at: nat, lo: nat, hi: nat)
    requires at + 16 <= |m| && lo <= hi <= 16
    ensures m[at..at + 16][lo..hi] == m[at + lo..at + hi]
  {
    var part, whole := m[at..at + 16][lo..hi], m[at + lo..at + hi];
    forall k: nat | k < hi - lo ensures part[k] == whole[k] {
      assert part[k] == m[at..at + 16][lo + k];
    }
  }

  /** The device that takes a request and reads the first buffer of its chain, to its length, finds the direction and
      the whole sector number the caller asked for, and reads nothing beyond the header. */
  lemma DeviceReadsHeader(s: System, m: Memory)
    requires Inv(s) && Enabled(s, DeviceTake)
    requires s.phase.Waiting? && s.phase.request.header.Some? ==> s.phase.request.header.value + 16 <= |m|
    ensures s.phase.Waiting? && s.phase.request.header.Some?
    ensures var r := s.phase.request;
            var chain := Chain(s.q.desc, s.q.avail[s.seen % s.q.num], s.q.num);
            && |chain| == 3
            && var first, now := chain[0], StoreHeader(m, r.header.value, r);
               && first.addr + first.len <= |now|
               && Says(now[first.addr..first.addr + first.len], r.write, r.sector)
  {
    DeviceReadsRequest(s);
    HeaderSays(m, s.phase.request.header.value, s.phase.request);
    hide Inv, Chain, StoreHeader;
  }

  /** The stores, in place. */
  method FillHeader(mem: array<Byte>, at: nat, r: Request)
    modifies mem
    ensures mem[..] == StoreHeader(old(mem[..]), at, r)
  {
    WriteNumber(mem, at, 4, if r.write then 1 else 0);
    WriteNumber(mem, at + 4, 4, 0);
    WriteNumber(mem, at + 8, 8, r.sector);
  }
}
