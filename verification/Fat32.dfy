/** Reading a FAT32 volume: directory lookup, path walking and file reading over cluster chains. */
module Fat32 {
  import opened ByteMemory
  import opened Arithmetic
  import opened Wrappers
  import opened FatNames

  const ENTRY: nat := 32

  const DELETED: Byte := 0xE5

  const LONG_NAME: Byte := 0x0F

  const END_OF_CHAIN: nat := 0x0FFF_FFF8

  const CLUSTERS: nat := 0x1000_0000

  const LONGEST_SEGMENT: nat := 255

  /** NotFound is code 1 and IsDirectory code -2; NoBuffer and Device are passed up from the heap and the disk. */
  datatype Error = NotFound | IsDirectory | NoBuffer | Device(code: int)

  /** What the disk holds, by cluster number: `fetch` gives the cluster buffer as a read leaves it, `next` the entry of
      the allocation table. `buffer(k)` says whether the k-th buffer a call asks for can be had. */
  datatype Volume = Volume(
    fetch: nat -> Result<seq<Byte>, int>,
    next: nat -> Result<nat, int>,
    buffer: nat -> bool,
    clusterBytes: nat,
    root: nat)

  ghost predicate WellFormed(v: Volume) {
    (forall c: nat :: v.fetch(c).Ok? ==> |v.fetch(c).value| == v.clusterBytes)
    && forall c: nat :: v.next(c).Ok? ==> v.next(c).value < CLUSTERS
  }

  /** The heap refuses a request for no bytes. */
  predicate HasBuffer(v: Volume, k: nat) {
    v.clusterBytes > 0 && v.buffer(k)
  }

  /** A cluster number that ends a chain: an end mark, or free. */
  predicate Ends(c: nat) {
    c >= END_OF_CHAIN || c == 0
  }

  // ----- Directory entries

  datatype Entry = Entry(name: seq<Byte>, attr: Byte, cluster: nat, size: nat)

  function Parse(b: seq<Byte>): (e: Entry)
    requires |b| == ENTRY
    ensures |e.name| == 11
  {
    Entry(b[..11], b[11], FromBytes(b[20..22]) * 0x1_0000 + FromBytes(b[26..28]), FromBytes(b[28..32]))
  }

  /** The 32 bytes of a directory entry, fields the driver does not read left to `unread`. */
  function Written(e: Entry, unread: seq<Byte>): (b: seq<Byte>)
    requires |e.name| == 11 && |unread| == 12
    ensures |b| == ENTRY
  {
    e.name + [e.attr] + unread[..8] + ToBytes(e.cluster / 0x1_0000, 2) + unread[8..] + ToBytes(e.cluster % 0x1_0000, 2)
    + ToBytes(e.size, 4)
  }

  /** Parsing gives back every field, the cluster number from its two halves. */
  lemma ParseWritten(e: Entry, unread: seq<Byte>)
    requires |e.name| == 11 && |unread| == 12 && e.cluster < 0x1_0000_0000 && e.size < 0x1_0000_0000
    ensures Parse(Written(e, unread)) == e
  {
    hide FromBytes, ToBytes;
    var b, hi, lo := Written(e, unread), e.cluster / 0x1_0000, e.cluster % 0x1_0000;
    PowersOf256();
    FromToBytes(hi, 2);
    FromToBytes(lo, 2);
    FromToBytes(e.size, 4);
    assert b[..11] == e.name && b[11] == e.attr;
    assert b[20..22] == ToBytes(hi, 2) && b[26..28] == ToBytes(lo, 2) && b[28..32] == ToBytes(e.size, 4);
  }

  lemma PowersOf256()
    ensures Pow256(2) == 0x1_0000 && Pow256(4) == 0x1_0000_0000
  {
    assert Pow256(1) == 256;
    assert Pow256(3) == 256 * Pow256(2);
  }

  predicate IsVolume(e: Entry) {
    e.attr / 8 % 2 == 1
  }

  predicate IsDir(e: Entry) {
    e.attr / 16 % 2 == 1
  }

  predicate Skipped(e: Entry) {
    (e.name != [] && e.name[0] == DELETED) || e.attr == LONG_NAME || IsVolume(e)
  }

  predicate IsLast(e: Entry) {
    e.name != [] && e.name[0] == 0
  }

  predicate Matches(e: Entry, name: seq<Byte>) {
    !IsLast(e) && !Skipped(e) && e.name == name
  }

  /** The i-th whole entry of a buffer. */
  function EntryAt(b: seq<Byte>, i: nat): Entry
    requires i < |b| / ENTRY
  {
    Parse(b[ENTRY * i..ENTRY * i + ENTRY])
  }

  function Entries(b: seq<Byte>): (es: seq<Entry>)
    ensures |es| == |b| / ENTRY && forall i: nat :: i < |es| ==> es[i] == EntryAt(b, i)
  {
    seq(|b| / ENTRY, i requires 0 <= i < |b| / ENTRY => EntryAt(b, i))
  }

  datatype Step = Match(e: Entry) | Stop | More

  /** Entries before the i-th decide nothing. */
  predicate Undecided(es: seq<Entry>, name: seq<Byte>, i: nat) {
    forall q: nat :: q < i && q < |es| ==> !IsLast(es[q]) && !Matches(es[q], name)
  }

  function Scan(es: seq<Entry>, name: seq<Byte>): (s: Step)
    ensures s.More? <==> Undecided(es, name, |es|)
    ensures s.Match? ==> exists i: nat :: i < |es| && es[i] == s.e && Matches(es[i], name) && Undecided(es, name, i)
    ensures s.Stop? ==> exists i: nat :: i < |es| && IsLast(es[i]) && Undecided(es, name, i)
  {
    if es == [] then
      More
    else if IsLast(es[0]) then
      Stop
    else if Matches(es[0], name) then
      Match(es[0])
    else
      var s := Scan(es[1..], name);
      assert forall q: nat :: 0 < q < |es| ==> es[q] == es[1..][q - 1];
      assert forall q: nat :: q < |es| - 1 ==> es[1..][q] == es[q + 1];
      assert s.More? ==> Undecided(es, name, |es|);
      assert !s.More? ==>
          forall i: nat :: i < |es| - 1 && Undecided(es[1..], name, i) ==> Undecided(es, name, i + 1);
      s
  }

  // ----- Looking a name up along a chain

  datatype Lookup = Got(e: Entry) | Failed(error: Error) | Endless

  /** The search of a directory, given up after n clusters. */
  function Search(v: Volume, cl: nat, name: seq<Byte>, n: nat): Lookup
    decreases n
  {
    if Ends(cl) then Failed(NotFound)
    else if n == 0 then Endless
    else match v.fetch(cl)
      case Err(code) => Failed(Device(code))
      case Ok(b) =>
        match Scan(Entries(b), name)
        case Match(e) => Got(e)
        case Stop => Failed(NotFound)
        case More =>
          match v.next(cl)
          case Err(code) => Failed(Device(code))
          case Ok(c) => Search(v, c, name, n - 1)
  }

  ghost predicate Halts(v: Volume, cl: nat, name: seq<Byte>) {
    exists n: nat :: Search(v, cl, name, n) != Endless
  }

  /** What the search comes to, if it comes to anything. */
  ghost function Find(v: Volume, cl: nat, name: seq<Byte>, k: nat): Lookup {
    if !HasBuffer(v, k) then Failed(NoBuffer)
    else if n: nat :| Search(v, cl, name, n) != Endless then Search(v, cl, name, n)
    else Endless
  }

  lemma {:induction false} SearchLonger(v: Volume, cl: nat, name: seq<Byte>, n: nat, m: nat)
    requires n <= m && Search(v, cl, name, n) != Endless
    ensures Search(v, cl, name, m) == Search(v, cl, name, n)
    decreases n
  {
    if !Ends(cl) && v.fetch(cl).Ok? && Scan(Entries(v.fetch(cl).value), name).More? && v.next(cl).Ok? {
      SearchLonger(v, v.next(cl).value, name, n - 1, m - 1);
    }
  }

  /** However long the search is given, once it ends it has found the same. */
  lemma {:induction false} FindIsSearch(v: Volume, cl: nat, name: seq<Byte>, k: nat, n: nat)
    requires HasBuffer(v, k) && Search(v, cl, name, n) != Endless
    ensures Find(v, cl, name, k) == Search(v, cl, name, n)
  {
    var m: nat :| Search(v, cl, name, m) != Endless && Find(v, cl, name, k) == Search(v, cl, name, m);
    if m <= n {
      SearchLonger(v, cl, name, m, n);
    } else {
      SearchLonger(v, cl, name, n, m);
    }
  }

  /** The cluster the search goes on to. */
  function Onward(v: Volume, name: seq<Byte>, cl: nat): Option<nat> {
    if Ends(cl) || v.fetch(cl).Err? || !Scan(Entries(v.fetch(cl).value), name).More? || v.next(cl).Err? then None
    else Some(v.next(cl).value)
  }

  function Trail(v: Volume, name: seq<Byte>, cl: nat, n: nat): Option<nat> {
    if n == 0 then Some(cl)
    else
      var before := Trail(v, name, cl, n - 1);
      if before.None? then None else Onward(v, name, before.value)
  }

  /** The search comes back to a cluster it went on from before. */
  ghost predicate Revisits(v: Volume, name: seq<Byte>, cl: nat) {
    exists i: nat, j: nat :: i < j && Trail(v, name, cl, i).Some? && Trail(v, name, cl, i) == Trail(v, name, cl, j)
  }

  lemma {:induction false} TrailFront(v: Volume, name: seq<Byte>, cl: nat, n: nat)
    requires n > 0
    ensures Trail(v, name, cl, n)
         == if Onward(v, name, cl).None? then None else Trail(v, name, Onward(v, name, cl).value, n - 1)
  {
    if n > 1 {
      TrailFront(v, name, cl, n - 1);
    } else {
      assert Trail(v, name, cl, 0) == Some(cl);
    }
  }

  lemma {:induction false} EndlessIsTrail(v: Volume, cl: nat, name: seq<Byte>, n: nat)
    ensures Search(v, cl, name, n) == Endless <==> Trail(v, name, cl, n).Some? && !Ends(Trail(v, name, cl, n).value)
    decreases n
  {
    if n > 0 {
      TrailFront(v, name, cl, n);
      if Onward(v, name, cl).Some? {
        EndlessIsTrail(v, Onward(v, name, cl).value, name, n - 1);
      }
    }
  }

  lemma TrailStep(v: Volume, name: seq<Byte>, cl: nat, n: nat)
    ensures Trail(v, name, cl, n + 1)
         == if Trail(v, name, cl, n).None? then None else Onward(v, name, Trail(v, name, cl, n).value)
  {
    hide Onward;
  }

  lemma {:induction false} TrailShift(v: Volume, name: seq<Byte>, cl: nat, i: nat, j: nat, d: nat)
    requires Trail(v, name, cl, i) == Trail(v, name, cl, j)
    ensures Trail(v, name, cl, i + d) == Trail(v, name, cl, j + d)
    decreases d
  {
    hide Trail, Onward;
    if d > 0 {
      TrailShift(v, name, cl, i, j, d - 1);
      TrailStep(v, name, cl, i + d - 1);
      TrailStep(v, name, cl, j + d - 1);
    }
  }

  lemma {:induction false} TrailBack(v: Volume, name: seq<Byte>, cl: nat, n: nat, m: nat)
    requires n <= m && Trail(v, name, cl, m).Some?
    ensures Trail(v, name, cl, n).Some?
    decreases m
  {
    hide Trail, Onward;
    if n < m {
      TrailStep(v, name, cl, m - 1);
      TrailBack(v, name, cl, n, m - 1);
    }
  }

  lemma {:induction false} TrailRepeats(v: Volume, name: seq<Byte>, cl: nat, i: nat, j: nat, n: nat)
    requires i < j && Trail(v, name, cl, i).Some? && Trail(v, name, cl, i) == Trail(v, name, cl, j)
    ensures Trail(v, name, cl, n).Some?
    decreases n
  {
    hide Trail, Onward;
    if n <= j {
      TrailBack(v, name, cl, n, j);
    } else {
      TrailShift(v, name, cl, i, j, n - j);
      TrailRepeats(v, name, cl, i, j, i + (n - j));
    }
  }

  /** Distinct numbers below k are at most k. */
  lemma {:induction false} Pigeonhole(s: seq<nat>, k: nat)
    requires forall i: nat :: i < |s| ==> s[i] < k
    requires forall i: nat, j: nat :: i < j < |s| ==> s[i] != s[j]
    ensures |s| <= k
    decreases |s|
  {
    if s != [] {
      var x := s[|s| - 1];
      var rest := seq(|s| - 1, i requires 0 <= i < |s| - 1 => if s[i] == k - 1 then x else s[i]);
      Pigeonhole(rest, k - 1);
    }
  }

  lemma {:induction false} TrailBelow(v: Volume, name: seq<Byte>, cl: nat, n: nat)
    requires WellFormed(v) && n > 0 && Trail(v, name, cl, n).Some?
    ensures Trail(v, name, cl, n).value < CLUSTERS
  {
  }

  /** A search goes on for ever exactly when the chain leads it back to a cluster it has been through, nothing on the
      way deciding it. */
  lemma HaltsExactly(v: Volume, cl: nat, name: seq<Byte>)
    requires WellFormed(v)
    ensures Halts(v, cl, name) <==> !Revisits(v, name, cl)
  {
    hide Halts, Revisits;
    if Revisits(v, name, cl) {
      RevisitIsEndless(v, cl, name);
    } else {
      NoRevisitEnds(v, cl, name);
    }
  }

  lemma RevisitIsEndless(v: Volume, cl: nat, name: seq<Byte>)
    requires Revisits(v, name, cl)
    ensures !Halts(v, cl, name)
  {
    hide Trail, Search, Onward;
    var i: nat, j: nat :| i < j && Trail(v, name, cl, i).Some? && Trail(v, name, cl, i) == Trail(v, name, cl, j);
    forall n: nat ensures Search(v, cl, name, n) == Endless {
      TrailRepeats(v, name, cl, i, j, n + 1);
      TrailStops(v, name, cl, n);
      EndlessIsTrail(v, cl, name, n);
    }
  }

  lemma TrailStops(v: Volume, name: seq<Byte>, cl: nat, n: nat)
    requires Trail(v, name, cl, n + 1).Some?
    ensures Trail(v, name, cl, n).Some? && !Ends(Trail(v, name, cl, n).value)
  {
    hide Search, Scan;
  }

  /** A directory whose cluster 2 holds one deleted entry and links to itself: no search of it ends. */
  lemma SelfLinked(name: seq<Byte>)
    ensures var cluster := seq(ENTRY, _ => DELETED);
            var v := Volume(_ => Ok(cluster), _ => Ok(2), _ => true, ENTRY, 2);
            WellFormed(v) && !Halts(v, 2, name)
  {
    hide Scan, Search;
    var cluster: seq<Byte> := seq(ENTRY, _ => DELETED);
    var v := Volume(_ => Ok(cluster), _ => Ok(2), _ => true, ENTRY, 2);
    assert Entries(cluster)[0] == EntryAt(cluster, 0);
    ScanSkips(Entries(cluster), name);
    assert Onward(v, name, 2) == Some(2);
    assert Trail(v, name, 2, 0) == Some(2);
    TrailStep(v, name, 2, 0);
    assert Trail(v, name, 2, 0) == Trail(v, name, 2, 1);
    RevisitIsEndless(v, 2, name);
  }

  lemma {:induction false} ScanSkips(es: seq<Entry>, name: seq<Byte>)
    requires |es| == 1 && !IsLast(es[0]) && Skipped(es[0])
    ensures Scan(es, name) == More
  {
    assert Scan(es[1..], name) == More;
  }

  lemma NoRevisitEnds(v: Volume, cl: nat, name: seq<Byte>)
    requires WellFormed(v) && !Revisits(v, name, cl)
    ensures Halts(v, cl, name)
  {
    hide Trail, Search;
    if !Halts(v, cl, name) {
      forall n: nat ensures Trail(v, name, cl, n).Some? {
        assert Search(v, cl, name, n) == Endless;
        EndlessIsTrail(v, cl, name, n);
      }
      var s := seq(CLUSTERS + 1, i requires 0 <= i < CLUSTERS + 1 => Trail(v, name, cl, i + 1).value);
      forall i: nat | i < |s| ensures s[i] < CLUSTERS {
        TrailBelow(v, name, cl, i + 1);
      }
      Pigeonhole(s, CLUSTERS);
    }
  }

  /** Where it ends, the search finds what a scan of the entries of its clusters, end to end, finds. */
  function Listing(v: Volume, cls: seq<nat>): seq<Entry>
    requires forall i: nat :: i < |cls| ==> v.fetch(cls[i]).Ok?
  {
    if cls == [] then [] else Entries(v.fetch(cls[0]).value) + Listing(v, cls[1..])
  }

  /** The whole chain from a cluster: readable clusters linked to an end mark. */
  ghost predicate IsChain(v: Volume, cl: nat, cls: seq<nat>)
    decreases |cls|
  {
    if cls == [] then
      Ends(cl)
    else
      cls[0] == cl && !Ends(cl) && v.fetch(cl).Ok? && v.next(cl).Ok? && IsChain(v, v.next(cl).value, cls[1..])
  }

  lemma {:induction false} ChainReadable(v: Volume, cl: nat, cls: seq<nat>)
    requires IsChain(v, cl, cls)
    ensures forall i: nat :: i < |cls| ==> v.fetch(cls[i]).Ok?
    decreases |cls|
  {
    if cls != [] {
      ChainReadable(v, v.next(cl).value, cls[1..]);
      assert forall i: nat :: 0 < i < |cls| ==> cls[i] == cls[1..][i - 1];
    }
  }

  lemma {:induction false} ScanConcat(a: seq<Entry>, b: seq<Entry>, name: seq<Byte>)
    ensures Scan(a + b, name) == if Scan(a, name).More? then Scan(b, name) else Scan(a, name)
  {
    hide Matches, IsLast, Undecided;
    if a == [] {
      assert a + b == b;
    } else {
      assert (a + b)[1..] == a[1..] + b;
      ScanConcat(a[1..], b, name);
    }
  }

  /** Searching a directory whose chain ends is scanning the list of all its entries. */
  lemma {:induction false} SearchIsScan(v: Volume, cl: nat, cls: seq<nat>, name: seq<Byte>)
    requires IsChain(v, cl, cls)
    ensures forall i: nat :: i < |cls| ==> v.fetch(cls[i]).Ok?
    ensures var s := Scan(Listing(v, cls), name);
            Search(v, cl, name, |cls|) == if s.Match? then Got(s.e) else Failed(NotFound)
    decreases |cls|
  {
    hide Scan, Undecided;
    ChainReadable(v, cl, cls);
    if cls == [] {
      ScanNothing(name);
    } else {
      SearchIsScan(v, v.next(cl).value, cls[1..], name);
      ScanConcat(Entries(v.fetch(cl).value), Listing(v, cls[1..]), name);
    }
  }

  lemma {:induction false} ScanNothing(name: seq<Byte>)
    ensures Scan([], name) == More
  {
  }

  // ----- Walking a path

  ghost function Resolve(v: Volume, dir: nat, cs: seq<seq<Char>>, trailing: bool, k: nat): Lookup
    decreases |cs|
  {
    if cs == [] || |cs[0]| > LONGEST_SEGMENT then
      Failed(NotFound)
    else
      var found := Find(v, dir, To8dot3(cs[0]), k);
      if !found.Got? || (|cs| == 1 && !trailing) then found
      else if !IsDir(found.e) then Failed(NotFound)
      else if |cs| == 1 then found
      else Resolve(v, found.e.cluster, cs[1..], trailing, k + 1)
  }

  predicate Trailing(path: seq<Char>) {
    path != [] && IsSep(path[|path| - 1])
  }

  ghost function Walk(v: Volume, path: seq<Char>): Lookup {
    Resolve(v, v.root, Components(path), Trailing(path), 0)
  }

  /** Walking a longer path is walking its front as a directory and the rest from there. */
  lemma {:induction false} ResolveAppend(v: Volume, dir: nat, a: seq<seq<Char>>, b: seq<seq<Char>>, trailing: bool,
                                         k: nat)
    requires a != [] && b != []
    ensures Resolve(v, dir, a + b, trailing, k) ==
              var front := Resolve(v, dir, a, true, k);
              if front.Got? then Resolve(v, front.e.cluster, b, trailing, k + |a|) else front
    decreases |a|
  {
    hide To8dot3, Find;
    assert (a + b)[1..] == a[1..] + b;
    if |a| == 1 {
      assert (a + b)[1..] == b;
    } else if |a[0]| <= LONGEST_SEGMENT && Find(v, dir, To8dot3(a[0]), k).Got? {
      ResolveAppend(v, Find(v, dir, To8dot3(a[0]), k).e.cluster, a[1..], b, trailing, k + 1);
    }
  }

  /** Walking p/q, with whatever separators between, is walking p/ and going on from the directory found. */
  lemma {:induction false} WalkAppend(v: Volume, p: seq<Char>, seps: seq<Char>, q: seq<Char>)
    requires seps != [] && forall i: nat :: i < |seps| ==> IsSep(seps[i])
    requires Components(p) != [] && Components(q) != []
    ensures Walk(v, p + seps + q) ==
              var front := Walk(v, p + seps);
              if front.Got? then Resolve(v, front.e.cluster, Components(q), Trailing(q), |Components(p)|) else front
  {
    hide Components, Resolve;
    SeparatorsAreNone(seps);
    SeparatorsSplit(p, seps);
    SeparatorsSplit(p + seps, q);
    ComponentsOfNothing();
    assert Components(p) + [] == Components(p);
    assert Trailing(p + seps);
    assert (p + seps + q)[|p + seps + q| - 1] == q[|q| - 1];
    ResolveAppend(v, v.root, Components(p), Components(q), Trailing(q), 0);
  }

  lemma ComponentsOfNothing()
    ensures Components([]) == []
  {
  }

  // ----- Reading a chain

  /** What a read of up to `left` bytes copies, and the error that cut it short. */
  ghost function ReadChain(v: Volume, cl: nat, left: nat): (r: (seq<Byte>, Option<Error>))
    requires WellFormed(v) && v.clusterBytes > 0
    ensures |r.0| <= left
    decreases left
  {
    if left == 0 || Ends(cl) then
      ([], None)
    else match v.fetch(cl)
      case Err(code) => ([], Some(Device(code)))
      case Ok(b) =>
        var n := if left < v.clusterBytes then left else v.clusterBytes;
        match v.next(cl)
        case Err(code) => (b[..n], Some(Device(code)))
        case Ok(c) =>
          var rest := ReadChain(v, c, left - n);
          (b[..n] + rest.0, rest.1)
  }

  datatype At = Here(b: Byte) | PastEnd | Unreadable

  /** The cluster reached by following `k` links, if the links are readable and none passes an end. */
  function Cluster(v: Volume, cl: nat, k: nat): Option<nat>
    decreases k
  {
    if k == 0 then Some(cl)
    else if Ends(cl) || v.next(cl).Err? then None
    else Cluster(v, v.next(cl).value, k - 1)
  }

  /** The j-th byte of a chain. */
  ghost function ByteAt(v: Volume, cl: nat, j: nat): At
    requires WellFormed(v) && v.clusterBytes > 0
  {
    var c := Cluster(v, cl, j / v.clusterBytes);
    if c.None? then Unreadable
    else if Ends(c.value) then PastEnd
    else if v.fetch(c.value).Err? then Unreadable
    else Here(v.fetch(c.value).value[j % v.clusterBytes])
  }

  /** Both the cluster and its table entry can be read. */
  predicate Readable(v: Volume, c: nat) {
    v.fetch(c).Ok? && v.next(c).Ok?
  }

  /** Every cluster of the chain that starts before `left` is readable. */
  ghost predicate AllReadable(v: Volume, cl: nat, left: nat) {
    forall k: nat :: k * v.clusterBytes < left && Cluster(v, cl, k).Some? && !Ends(Cluster(v, cl, k).value)
                     ==> Readable(v, Cluster(v, cl, k).value)
  }

  lemma DivideOff(j: nat, b: nat)
    requires b > 0
    ensures j < b ==> j / b == 0 && j % b == j
    ensures j >= b ==> j / b == (j - b) / b + 1 && j % b == (j - b) % b
  {
    if j < b {
      DivModUnique(j, b, 0, j);
    } else {
      var q := (j - b) / b;
      assert (q + 1) * b == q * b + b;
      DivModUnique(j, b, q + 1, (j - b) % b);
    }
  }

  lemma ByteAtStep(v: Volume, cl: nat, j: nat)
    requires WellFormed(v) && v.clusterBytes > 0 && !Ends(cl)
    ensures j < v.clusterBytes && v.fetch(cl).Ok? ==> ByteAt(v, cl, j) == Here(v.fetch(cl).value[j])
    ensures j >= v.clusterBytes && v.next(cl).Ok? ==>
              ByteAt(v, cl, j) == ByteAt(v, v.next(cl).value, j - v.clusterBytes)
  {
    DivideOff(j, v.clusterBytes);
  }

  lemma ByteAtEnd(v: Volume, cl: nat)
    requires WellFormed(v) && v.clusterBytes > 0 && Ends(cl)
    ensures ByteAt(v, cl, 0) == PastEnd
  {
    DivideOff(0, v.clusterBytes);
  }

  /** The bytes copied are the first bytes of the chain, in order; a read that stops short without an error has come
      to the end of the chain. */
  lemma {:induction false} ReadDelivers(v: Volume, cl: nat, left: nat)
    requires WellFormed(v) && v.clusterBytes > 0
    ensures var r := ReadChain(v, cl, left);
            (forall j: nat :: j < |r.0| ==> ByteAt(v, cl, j) == Here(r.0[j]))
            && (r.1.None? && |r.0| < left ==> ByteAt(v, cl, |r.0|) == PastEnd)
    decreases left
  {
    hide ByteAt, Cluster;
    var r, n := ReadChain(v, cl, left), if left < v.clusterBytes then left else v.clusterBytes;
    if left == 0 {
    } else if Ends(cl) {
      ByteAtEnd(v, cl);
    } else if v.fetch(cl).Ok? {
      if v.next(cl).Ok? {
        ReadDelivers(v, v.next(cl).value, left - n);
      }
      forall j: nat | j < |r.0| ensures ByteAt(v, cl, j) == Here(r.0[j]) {
        ByteAtStep(v, cl, j);
      }
      ByteAtStep(v, cl, |r.0|);
    }
  }

  lemma StartsBefore(k: nat, b: nat, left: nat)
    requires k > 0
    ensures k * b < left <==> (k - 1) * b < left - b
  {
    assert k * b == (k - 1) * b + b;
  }

  /** A read succeeds exactly when every cluster it comes to can be read and has a readable table entry, the last
      one's entry included though nothing is read from where it leads. */
  lemma {:induction false} ReadSucceeds(v: Volume, cl: nat, left: nat)
    requires WellFormed(v) && v.clusterBytes > 0
    ensures ReadChain(v, cl, left).1.None? <==> AllReadable(v, cl, left)
    decreases left
  {
    hide WellFormed;
    if left == 0 || Ends(cl) {
      NothingToRead(v, cl, left);
    } else {
      FirstCluster(v, cl, left);
      if Readable(v, cl) {
        var n := if left < v.clusterBytes then left else v.clusterBytes;
        ReadSucceeds(v, v.next(cl).value, left - n);
        LaterClusters(v, cl, left);
        if left < v.clusterBytes {
          NothingToRead(v, v.next(cl).value, 0);
        }
      }
    }
  }

  /** A file of one cluster whose table entry cannot be read: every byte arrives, and the read fails. */
  lemma LastEntryFails()
    ensures var cluster := seq(ENTRY, _ => 7);
            var v := Volume(_ => Ok(cluster), _ => Err(5), _ => true, ENTRY, 2);
            WellFormed(v) && ReadChain(v, 2, ENTRY) == (cluster, Some(Device(5)))
  {
    var cluster: seq<Byte> := seq(ENTRY, _ => 7);
    var v := Volume(_ => Ok(cluster), _ => Err(5), _ => true, ENTRY, 2);
    assert cluster[..ENTRY] == cluster;
    ChainStep(v, 2, ENTRY);
  }

  lemma NothingToRead(v: Volume, cl: nat, left: nat)
    requires left == 0 || Ends(cl)
    ensures AllReadable(v, cl, left)
  {
    forall k: nat | k * v.clusterBytes < left && Cluster(v, cl, k).Some? ensures Ends(Cluster(v, cl, k).value) {
      assert k * v.clusterBytes >= 0;
    }
  }

  lemma FirstCluster(v: Volume, cl: nat, left: nat)
    requires left > 0 && !Ends(cl)
    ensures AllReadable(v, cl, left) ==> Readable(v, cl)
  {
    assert Cluster(v, cl, 0) == Some(cl);
    assert 0 * v.clusterBytes == 0;
  }

  lemma LaterClusters(v: Volume, cl: nat, left: nat)
    requires !Ends(cl) && Readable(v, cl) && v.clusterBytes > 0
    ensures AllReadable(v, cl, left)
       <==> AllReadable(v, v.next(cl).value, if left < v.clusterBytes then 0 else left - v.clusterBytes)
  {
    var b, c, rest := v.clusterBytes, v.next(cl).value, if left < v.clusterBytes then 0 else left - v.clusterBytes;
    if AllReadable(v, c, rest) {
      forall k: nat | k * b < left && Cluster(v, cl, k).Some? && !Ends(Cluster(v, cl, k).value)
        ensures Readable(v, Cluster(v, cl, k).value)
      {
        if k > 0 {
          StartsBefore(k, b, left);
          assert (k - 1) * b >= 0;
          assert Cluster(v, cl, k) == Cluster(v, c, k - 1);
        }
      }
    }
    if AllReadable(v, cl, left) {
      forall k: nat | k * b < rest && Cluster(v, c, k).Some? && !Ends(Cluster(v, c, k).value)
        ensures Readable(v, Cluster(v, c, k).value)
      {
        StartsBefore(k + 1, b, left);
        assert k * b >= 0;
        assert Cluster(v, cl, k + 1) == Cluster(v, c, k);
      }
    }
  }

  // ----- The loops

  lemma {:induction false} ScanStep(es: seq<Entry>, name: seq<Byte>, i: nat)
    requires i <= |es|
    ensures i == |es| ==> Scan(es[i..], name) == More
    ensures i < |es| ==>
              Scan(es[i..], name) ==
                if IsLast(es[i]) then Stop else if Matches(es[i], name) then Match(es[i]) else Scan(es[i + 1..], name)
  {
    if i < |es| {
      assert es[i..][0] == es[i] && es[i..][1..] == es[i + 1..];
    }
  }

  /** Scans one cluster buffer. */
  method ScanBuffer(b: seq<Byte>, name: seq<Byte>) returns (s: Step)
    ensures s == Scan(Entries(b), name)
  {
    hide Scan, Parse, Entries;
    EntriesAre(b);
    ghost var es := Entries(b);
    var count := |b| / ENTRY;
    assert es[0..] == es;
    for i := 0 to count
      invariant Scan(es, name) == Scan(es[i..], name)
    {
      var e := EntryAt(b, i);
      ScanStep(es, name, i);
      if e.name[0] == 0 {
        return Stop;
      }
      if e.name[0] == DELETED {
        continue;
      }
      if e.attr == LONG_NAME || IsVolume(e) {
        continue;
      }
      if e.name == name {
        return Match(e);
      }
    }
    ScanStep(es, name, count);
    return More;
  }

  lemma EntriesAre(b: seq<Byte>)
    ensures |Entries(b)| == |b| / ENTRY
    ensures forall i: nat :: i < |b| / ENTRY ==> Entries(b)[i] == EntryAt(b, i) && |EntryAt(b, i).name| == 11
  {
  }

  /** The outcome of a walk that ends. */
  function Outcome(l: Lookup): Result<Entry, Error>
    requires l != Endless
  {
    if l.Got? then Ok(l.e) else Err(l.error)
  }

  method FindInDirectory(v: Volume, dir: nat, name: seq<Byte>, k: nat) returns (r: Result<Entry, Error>)
    requires Find(v, dir, name, k) != Endless
    ensures r == Outcome(Find(v, dir, name, k))
  {
    if !HasBuffer(v, k) {
      return Err(NoBuffer);
    }
    ghost var n: nat :| Search(v, dir, name, n) != Endless;
    FindIsSearch(v, dir, name, k, n);
    var cl := dir;
    while !Ends(cl)
      invariant Search(v, cl, name, n) == Find(v, dir, name, k)
      decreases n
    {
      var fetched := v.fetch(cl);
      if fetched.Err? {
        return Err(Device(fetched.error));
      }
      var s := ScanBuffer(fetched.value, name);
      if s.Stop? {
        return Err(NotFound);
      }
      if s.Match? {
        return Ok(s.e);
      }
      var linked := v.next(cl);
      if linked.Err? {
        return Err(Device(linked.error));
      }
      cl := linked.value;
      n := n - 1;
    }
    return Err(NotFound);
  }

  method SkipSeparators(path: seq<Char>, from: nat) returns (i: nat)
    requires from <= |path|
    ensures from <= i <= |path| && (i < |path| ==> !IsSep(path[i]))
    ensures forall q: nat :: from <= q < i ==> IsSep(path[q])
  {
    i := from;
    while i < |path| && IsSep(path[i])
      invariant from <= i <= |path| && forall q: nat :: from <= q < i ==> IsSep(path[q])
    {
      i := i + 1;
    }
  }

  method SkipSegment(path: seq<Char>, from: nat) returns (i: nat)
    requires from <= |path|
    ensures from <= i <= |path| && (i < |path| ==> IsSep(path[i]))
    ensures forall q: nat :: from <= q < i ==> !IsSep(path[q])
  {
    i := from;
    while i < |path| && !IsSep(path[i])
      invariant from <= i <= |path| && forall q: nat :: from <= q < i ==> !IsSep(path[q])
    {
      i := i + 1;
    }
  }

  /** What is left of a path after its first segment and the separators behind it. */
  lemma SegmentOff(path: seq<Char>, i: nat, j: nat, k: nat)
    requires i < j <= k <= |path|
    requires forall q: nat :: i <= q < j ==> !IsSep(path[q])
    requires forall q: nat :: j <= q < k ==> IsSep(path[q])
    requires j < |path| ==> j < k
    ensures Components(path[i..]) == [path[i..j]] + Components(path[k..])
  {
    hide Components;
    assert path[i..] == [] + path[i..j] + path[j..];
    OneComponent([], path[i..j], path[j..]);
    assert path[j..] == path[j..k] + path[k..];
    SeparatorsAreNone(path[j..k]);
    SeparatorsSplit(path[j..k], path[k..]);
    assert [] + Components(path[k..]) == Components(path[k..]);
  }

  lemma {:induction false} SkipFront(path: seq<Char>, k: nat)
    requires k <= |path| && forall q: nat :: q < k ==> IsSep(path[q])
    ensures Components(path) == Components(path[k..])
  {
    hide Components;
    assert path == path[..k] + path[k..];
    SeparatorsAreNone(path[..k]);
    SeparatorsSplit(path[..k], path[k..]);
    assert [] + Components(path[k..]) == Components(path[k..]);
  }

  /** One segment after another is cut out, looked up, and entered if anything but nothing follows it. */
  method WalkPath(v: Volume, path: seq<Char>) returns (r: Result<Entry, Error>)
    requires Walk(v, path) != Endless
    ensures r == Outcome(Walk(v, path))
  {
    hide Components, Find, To8dot3;
    ComponentsOfNothing();
    if path == [] {
      return Err(NotFound);
    }
    var i := SkipSeparators(path, 0);
    SkipFront(path, i);
    SomethingLeft(path, i);
    if i == |path| {
      return Err(NotFound);
    }
    var dir, k := v.root, 0;
    while true
      invariant i < |path| && !IsSep(path[i])
      invariant Resolve(v, dir, Components(path[i..]), Trailing(path), k) == Walk(v, path)
      decreases |path| - i
    {
      var start := i;
      i := SkipSegment(path, start);
      var end := i;
      i := SkipSeparators(path, end);
      SegmentOff(path, start, end, i);
      SomethingLeft(path, i);
      if end - start > LONGEST_SEGMENT {
        return Err(NotFound);
      }
      var out11 := new Byte[11];
      To8dot3Upper(path[start..end], out11);
      var found := FindInDirectory(v, dir, out11[..], k);
      if found.Err? {
        return found;
      }
      if end == |path| {
        return found;
      }
      if !IsDir(found.value) {
        return Err(NotFound);
      }
      if i == |path| {
        return found;
      }
      dir, k := found.value.cluster, k + 1;
    }
  }

  lemma SomethingLeft(path: seq<Char>, i: nat)
    requires i <= |path| && (i < |path| ==> !IsSep(path[i]))
    ensures i < |path| <==> Components(path[i..]) != []
  {
  }

  // ----- Reading a file

  datatype FileRead = FileRead(result: Result<nat, Error>, data: seq<Byte>)

  function Least(a: nat, b: nat): nat {
    if a < b then a else b
  }

  /** What reading a file answers, and what it has copied by then. */
  ghost function Reading(v: Volume, path: seq<Char>, max: nat): FileRead
    requires WellFormed(v) && Walk(v, path) != Endless
  {
    var w := Walk(v, path);
    if w.Failed? then FileRead(Err(w.error), [])
    else if IsDir(w.e) then FileRead(Err(IsDirectory), [])
    else if w.e.size == 0 then FileRead(Ok(0), [])
    else if !HasBuffer(v, |Components(path)|) then FileRead(Err(NoBuffer), [])
    else
      var r := ReadChain(v, w.e.cluster, Least(max, w.e.size));
      FileRead(if r.1.None? then Ok(|r.0|) else Err(r.1.value), r.0)
  }

  /** A read that succeeds has delivered the first bytes of the file's chain: as many as asked for and the directory
      allows, or all there are. */
  lemma FileDelivered(v: Volume, path: seq<Char>, max: nat)
    requires WellFormed(v) && Walk(v, path) != Endless && Reading(v, path, max).result.Ok? && v.clusterBytes > 0
    ensures var e, f := Walk(v, path).e, Reading(v, path, max);
            Walk(v, path).Got? && !IsDir(e)
            && f.result.value == |f.data| <= Least(max, e.size)
            && (forall j: nat :: j < |f.data| ==> ByteAt(v, e.cluster, j) == Here(f.data[j]))
            && (|f.data| < Least(max, e.size) ==> ByteAt(v, e.cluster, |f.data|) == PastEnd)
  {
    hide Walk, ByteAt;
    var e := Walk(v, path).e;
    ReadDelivers(v, e.cluster, Least(max, e.size));
  }

  /** The copy out of the cluster buffer. */
  method CopyOut(bytes: seq<Byte>, n: nat, out: array<Byte>, at: nat)
    requires n <= |bytes| && at + n <= out.Length
    modifies out
    ensures out[..] == old(out[..at]) + bytes[..n] + old(out[at + n..])
  {
    ghost var was := out[..];
    for i := 0 to n
      invariant out[..] == was[..at] + bytes[..i] + was[at + i..]
    {
      out[at + i] := bytes[i];
    }
  }

  method AppendOut(bytes: seq<Byte>, n: nat, out: array<Byte>, at: nat, ghost done: seq<Byte>, ghost was: seq<Byte>)
    requires n <= |bytes| && at + n <= out.Length && |was| == out.Length && at == |done|
    requires out[..] == done + was[at..]
    modifies out
    ensures out[..] == done + bytes[..n] + was[at + n..]
  {
    CopyOut(bytes, n, out, at);
    Appended(done, was, bytes[..n], out[..]);
  }

  lemma ChainStep(v: Volume, cl: nat, left: nat)
    requires WellFormed(v) && v.clusterBytes > 0
    ensures left == 0 || Ends(cl) ==> ReadChain(v, cl, left) == ([], None)
    ensures left > 0 && !Ends(cl) ==>
              if v.fetch(cl).Err? then ReadChain(v, cl, left) == ([], Some(Device(v.fetch(cl).error)))
              else
                var b, n := v.fetch(cl).value, Least(left, v.clusterBytes);
                |b| == v.clusterBytes
                && ReadChain(v, cl, left) ==
                     if v.next(cl).Err? then (b[..n], Some(Device(v.next(cl).error)))
                     else
                       var rest := ReadChain(v, v.next(cl).value, left - n);
                       (b[..n] + rest.0, rest.1)
  {
  }

  function Behind(done: seq<Byte>, rest: (seq<Byte>, Option<Error>)): (seq<Byte>, Option<Error>) {
    (done + rest.0, rest.1)
  }

  lemma BehindSteps(done: seq<Byte>, b: seq<Byte>, rest: (seq<Byte>, Option<Error>))
    ensures Behind([], rest) == rest
    ensures Behind(done, ([], rest.1)) == (done, rest.1)
    ensures Behind(done, (b, rest.1)) == (done + b, rest.1)
    ensures Behind(done, (b + rest.0, rest.1)) == Behind(done + b, rest)
  {
    assert [] + rest.0 == rest.0 && done + [] == done;
    assert done + (b + rest.0) == done + b + rest.0;
  }

  /** One turn of the loop: what the whole read comes to, seen from behind what has been copied. */
  lemma Turn(v: Volume, cl: nat, left: nat, done: seq<Byte>, r: (seq<Byte>, Option<Error>))
    requires WellFormed(v) && v.clusterBytes > 0 && r == Behind(done, ReadChain(v, cl, left))
    ensures left == 0 || Ends(cl) ==> r == (done, None)
    ensures left > 0 && !Ends(cl) ==>
              if v.fetch(cl).Err? then r == (done, Some(Device(v.fetch(cl).error)))
              else
                var b, n := v.fetch(cl).value, Least(left, v.clusterBytes);
                0 < n <= left && n <= |b|
                && r == if v.next(cl).Err? then (done + b[..n], Some(Device(v.next(cl).error)))
                        else Behind(done + b[..n], ReadChain(v, v.next(cl).value, left - n))
  {
    hide ReadChain, WellFormed, Behind;
    ChainStep(v, cl, left);
    if left == 0 || Ends(cl) || v.fetch(cl).Err? {
      BehindSteps(done, [], ReadChain(v, cl, left));
    } else {
      var n := Least(left, v.clusterBytes);
      BehindSteps(done, v.fetch(cl).value[..n],
                  if v.next(cl).Ok? then ReadChain(v, v.next(cl).value, left - n)
                  else ([], Some(Device(v.next(cl).error))));
    }
  }

  /** The loop over clusters: what is copied goes behind what has been. */
  method CopyChain(v: Volume, first: nat, left: nat, out: array<Byte>) returns (copied: nat, error: Option<Error>)
    requires WellFormed(v) && v.clusterBytes > 0 && left <= out.Length
    modifies out
    ensures var r := ReadChain(v, first, left);
            error == r.1 && copied == |r.0| && out[..] == r.0 + old(out[..])[|r.0|..]
  {
    hide *;
    ghost var was, r := out[..], ReadChain(v, first, left);
    var cl, toRead: nat := first, left;
    copied := 0;
    ghost var done: seq<Byte> := [];
    BehindSteps([], [], r);
    error := None;
    while toRead > 0 && !Ends(cl)
      invariant copied == |done| && copied + toRead == left
      invariant out[..] == done + was[copied..]
      invariant r == Behind(done, ReadChain(v, cl, toRead)) && error == None
      decreases toRead
    {
      Turn(v, cl, toRead, done, r);
      var fetched := v.fetch(cl);
      if fetched.Err? {
        error := Some(Device(fetched.error));
        break;
      }
      var n := Least(toRead, v.clusterBytes);
      AppendOut(fetched.value, n, out, copied, done, was);
      done := done + fetched.value[..n];
      copied, toRead := copied + n, toRead - n;
      var linked := v.next(cl);
      if linked.Err? {
        error := Some(Device(linked.error));
        break;
      }
      cl := linked.value;
    }
    if error == None {
      Turn(v, cl, toRead, done, r);
    }
    assert r == (done, error);
  }

  lemma Appended(done: seq<Byte>, was: seq<Byte>, more: seq<Byte>, now: seq<Byte>)
    requires |done| + |more| <= |was|
    requires now == (done + was[|done|..])[..|done|] + more + (done + was[|done|..])[|done| + |more|..]
    ensures now == done + more + was[|done + more|..]
  {
  }

  method ReadFile(v: Volume, path: seq<Char>, out: array<Byte>, max: nat) returns (r: Result<nat, Error>)
    requires WellFormed(v) && Walk(v, path) != Endless
    requires Walk(v, path).Got? ==> Least(max, Walk(v, path).e.size) <= out.Length
    modifies out
    ensures var f := Reading(v, path, max); r == f.result && out[..] == f.data + old(out[..])[|f.data|..]
  {
    hide Walk, ReadChain, Components;
    var found := WalkPath(v, path);
    if found.Err? {
      return Err(found.error);
    }
    var e := found.value;
    if IsDir(e) {
      return Err(IsDirectory);
    }
    if e.size == 0 {
      return Ok(0);
    }
    if !HasBuffer(v, |Components(path)|) {
      return Err(NoBuffer);
    }
    var copied, error := CopyChain(v, e.cluster, Least(max, e.size), out);
    r := if error.None? then Ok(copied) else Err(error.value);
  }

  function SizeAnswer(w: Lookup): Result<nat, Error>
    requires w != Endless
  {
    if w.Failed? then Err(w.error) else if IsDir(w.e) then Err(IsDirectory) else Ok(w.e.size)
  }

  method FileSize(v: Volume, path: seq<Char>) returns (r: Result<nat, Error>)
    requires Walk(v, path) != Endless
    ensures r == SizeAnswer(Walk(v, path))
  {
    hide Walk;
    var found := WalkPath(v, path);
    if found.Err? {
      return Err(found.error);
    }
    r := if IsDir(found.value) then Err(IsDirectory) else Ok(found.value.size);
  }
}
