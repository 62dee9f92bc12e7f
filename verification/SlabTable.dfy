/** The table of slabs, one for each object size asked for. */
module SlabTable {
  import opened Wrappers

  const SLABS: nat := 32

  /** A page less its header; a request for this size or more stops the kernel. */
  const MAX_OBJECT_SIZE: nat := 0x1000 - 48

  /** A slot of the table. A slab without a page answers to its size, but allocating from it stops the kernel. */
  datatype Slot = Unused | Slab(size: nat, head: Option<nat>)

  /** A request for a slab, with the page its creation would get. */
  datatype Request = Request(size: nat, page: Option<nat>)

  datatype Answer = Stopped | Refused | Given(slot: nat)

  predicate IsFor(s: Slot, size: nat) {
    s.Slab? && s.size == size
  }

  function FindSlab(t: seq<Slot>, size: nat): (k: nat)
    ensures k <= |t| && (k < |t| ==> IsFor(t[k], size))
    ensures forall q: nat :: q < k ==> !IsFor(t[q], size)
  {
    if t == [] || IsFor(t[0], size) then 0 else 1 + FindSlab(t[1..], size)
  }

  function FindUnused(t: seq<Slot>): (k: nat)
    ensures k <= |t| && (k < |t| ==> t[k].Unused?)
    ensures forall q: nat :: q < k ==> t[q].Slab?
  {
    if t == [] || t[0].Unused? then 0 else 1 + FindUnused(t[1..])
  }

  /** The slot is taken and given its size before its page is asked for. */
  function GetOrCreate(t: seq<Slot>, r: Request): (Answer, seq<Slot>) {
    var k, e := FindSlab(t, r.size), FindUnused(t);
    if r.size >= MAX_OBJECT_SIZE then (Stopped, t)
    else if k < |t| then (Given(k), t)
    else if e == |t| then (Refused, t)
    else (if r.page.Some? then Given(e) else Refused, t[e := Slab(r.size, r.page)])
  }

  /** What one request comes to, slot by slot: a size past the limit stops the kernel; else the first slab for the
      size is given; else the first unused slot becomes that slab, given if a page was had and refused if not; and a
      full table refuses. No other slot changes. */
  lemma GetOrCreateIs(t: seq<Slot>, r: Request)
    ensures var (answer, after) := GetOrCreate(t, r);
            && |after| == |t|
            && (answer.Stopped? <==> r.size >= 4048)
            && (answer.Given? ==> answer.slot < |t| && after[answer.slot].Slab? && after[answer.slot].size == r.size
                                  && forall q: nat :: q < answer.slot ==> !IsFor(after[q], r.size))
            && (r.size < 4048 && (exists q: nat :: q < |t| && IsFor(t[q], r.size)) ==> answer.Given? && after == t)
            && (r.size < 4048 && (forall q: nat :: q < |t| ==> !IsFor(t[q], r.size)) ==>
                  if forall q: nat :: q < |t| ==> t[q].Slab? then answer == Refused && after == t
                  else Creates(t, r, answer, after))
            && (r.size >= 4048 ==> after == t)
  {
    LookupFacts(t, r.size);
    var k, e := FindSlab(t, r.size), FindUnused(t);
    if r.size < MAX_OBJECT_SIZE && k == |t| && e < |t| {
      assert CreatesAt(t, r, GetOrCreate(t, r).0, GetOrCreate(t, r).1, e);
    }
  }

  /** The first unused slot takes the size and the page, if there is one. */
  predicate CreatesAt(t: seq<Slot>, r: Request, answer: Answer, after: seq<Slot>, e: nat) {
    && e < |t| && t[e].Unused? && (forall q: nat :: q < e ==> t[q].Slab?)
    && after == t[e := Slab(r.size, r.page)]
    && (r.page.Some? ==> answer == Given(e))
    && (r.page.None? ==> answer == Refused)
  }

  ghost predicate Creates(t: seq<Slot>, r: Request, answer: Answer, after: seq<Slot>) {
    exists e: nat :: CreatesAt(t, r, answer, after, e)
  }


  function Run(rs: seq<Request>): (t: seq<Slot>)
    ensures |t| == SLABS
  {
    if rs == [] then seq(SLABS, _ => Unused) else GetOrCreate(Run(rs[..|rs| - 1]), rs[|rs| - 1]).1
  }

  // ----- The first request for a size decides

  predicate Asked(rs: seq<Request>, size: nat) {
    exists q: nat :: q < |rs| && rs[q].size == size
  }

  /** The first request for each size that does not stop the kernel, while there are slots. */
  function Creating(rs: seq<Request>): (c: seq<Request>)
    ensures |c| <= SLABS
  {
    if rs == [] then
      []
    else
      var before, r := Creating(rs[..|rs| - 1]), rs[|rs| - 1];
      if r.size >= MAX_OBJECT_SIZE || Asked(before, r.size) || |before| == SLABS then before else before + [r]
  }

  predicate Holds(t: seq<Slot>, c: seq<Request>) {
    |c| <= |t|
    && (forall k: nat :: k < |c| ==> t[k] == Slab(c[k].size, c[k].page))
    && (forall k: nat :: |c| <= k < |t| ==> t[k].Unused?)
    && (forall k: nat :: k < |c| ==> c[k].size < MAX_OBJECT_SIZE)
    && forall i: nat, j: nat :: i < j < |c| ==> c[i].size != c[j].size
  }

  /** After any run the table holds, in order, the first request for each size with the page that request got. */
  lemma {:induction false} RunHoldsFirst(rs: seq<Request>)
    ensures Holds(Run(rs), Creating(rs))
  {
    if rs != [] {
      var past, r := rs[..|rs| - 1], rs[|rs| - 1];
      RunHoldsFirst(past);
      StepHolds(Run(past), Creating(past), r);
    }
  }

  lemma {:induction false} StepHolds(t: seq<Slot>, c: seq<Request>, r: Request)
    requires Holds(t, c) && |t| == SLABS
    ensures Holds(GetOrCreate(t, r).1,
                  if r.size >= MAX_OBJECT_SIZE || Asked(c, r.size) || |c| == SLABS then c else c + [r])
    ensures FindSlab(t, r.size) < |t| <==> Asked(c, r.size)
  {
    hide FindSlab, FindUnused;
    LookupFacts(t, r.size);
    if Asked(c, r.size) {
      var q: nat :| q < |c| && c[q].size == r.size;
      assert IsFor(t[q], r.size);
    } else if |c| < SLABS {
      assert t[|c|].Unused?;
      assert FindUnused(t) == |c|;
    }
  }

  lemma {:induction false} LookupFacts(t: seq<Slot>, size: nat)
    ensures FindSlab(t, size) <= |t| && FindUnused(t) <= |t|
    ensures FindSlab(t, size) < |t| ==> IsFor(t[FindSlab(t, size)], size)
    ensures forall q: nat :: q < FindSlab(t, size) ==> !IsFor(t[q], size)
    ensures FindUnused(t) < |t| ==> t[FindUnused(t)].Unused?
    ensures forall q: nat :: q < FindUnused(t) ==> t[q].Slab?
  {
  }

  /** The first request for the size found a slot but no page. */
  ghost predicate Pageless(c: seq<Request>, size: nat) {
    exists q: nat :: q < |c| && c[q].size == size && c[q].page.None?
  }

  /** The lookup finds the slab of the one creating request for the size. */
  lemma {:induction false} FirstIs(t: seq<Slot>, c: seq<Request>, size: nat, q: nat)
    requires Holds(t, c) && q < |c| && c[q].size == size
    ensures FindSlab(t, size) == q && q < |t| && t[q] == Slab(size, c[q].page)
    ensures Pageless(c, size) <==> c[q].page.None?
  {
    hide FindSlab, FindUnused;
    LookupFacts(t, size);
    assert IsFor(t[q], size);
    var k := FindSlab(t, size);
    assert k < |c| && c[k].size == size;
    assert forall j: nat :: j < |c| && c[j].size == size ==> j == q;
  }

  lemma NotAsked(c: seq<Request>, size: nat)
    requires !Asked(c, size)
    ensures !Pageless(c, size)
  {
  }

  /** The answer to a request whose size no slab is for is no slab without a page. */
  lemma {:induction false} NewHasPage(t: seq<Slot>, r: Request)
    requires FindSlab(t, r.size) == |t|
    ensures var (answer, after) := GetOrCreate(t, r);
            answer.Given? ==> answer.slot < |after| && after[answer.slot] == Slab(r.size, r.page) && r.page.Some?
  {
    hide FindSlab, FindUnused;
    LookupFacts(t, r.size);
  }

  /** A request is answered with a slab that has no page exactly when the first request for its size found a slot but
      no page: that slab is never given another. */
  lemma {:induction false} PagelessExactly(rs: seq<Request>, r: Request)
    ensures var (answer, after) := GetOrCreate(Run(rs), r);
            answer.Given? && answer.slot < |after| && after[answer.slot] == Slab(r.size, None)
            <==> Pageless(Creating(rs), r.size)
  {
    hide FindSlab, FindUnused, Run, Creating, Pageless;
    var t, c := Run(rs), Creating(rs);
    RunHoldsFirst(rs);
    TableSize(rs);
    LookupFacts(t, r.size);
    StepHolds(t, c, r);
    if Asked(c, r.size) {
      var q: nat :| q < |c| && c[q].size == r.size;
      FirstIs(t, c, r.size, q);
    } else {
      NotAsked(c, r.size);
      NewHasPage(t, r);
    }
  }

  /** Two requests for 64 bytes, the first without a page: the second has one and gets the slab that has none. */
  lemma SecondRequestPageless(page: nat)
    ensures var t := Run([Request(64, None)]);
            GetOrCreate(t, Request(64, Some(page))) == (Given(0), t) && t[0] == Slab(64, None)
  {
    var r := Request(64, None);
    assert Run([]) == seq(SLABS, _ => Unused);
    assert [r][..0] == [];
    LookupFacts(Run([]), 64);
    assert FindUnused(Run([])) == 0;
    LookupFacts(Run([r]), 64);
    assert IsFor(Run([r])[0], 64);
  }

  lemma {:induction false} TableSize(rs: seq<Request>)
    ensures |Run(rs)| == 32
  {
  }

  // ----- In place

  class SlabAllocator {
    const slabs: array<Slot>

    constructor ()
      ensures fresh(slabs) && slabs[..] == Run([])
    {
      slabs := new Slot[SLABS](_ => Unused);
      new;
      assert slabs[..] == Run([]);
    }

    method GetOrCreateSlab(r: Request) returns (answer: Answer)
      modifies slabs
      ensures (answer, slabs[..]) == GetOrCreate(old(slabs[..]), r)
    {
      hide FindSlab, FindUnused;
      if r.size >= MAX_OBJECT_SIZE {
        return Stopped;
      }
      LookupFacts(slabs[..], r.size);
      for k := 0 to slabs.Length
        invariant k <= FindSlab(slabs[..], r.size)
      {
        if IsFor(slabs[k], r.size) {
          assert IsFor(slabs[..][k], r.size);
          return Given(k);
        }
      }
      for k := 0 to slabs.Length
        invariant k <= FindUnused(slabs[..])
      {
        if slabs[k].Unused? {
          assert slabs[..][k].Unused?;
          slabs[k] := Slab(r.size, r.page);
          return if r.page.Some? then Given(k) else Refused;
        }
      }
      return Refused;
    }
  }
}
