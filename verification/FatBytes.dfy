/** What a search and a read make of a directory's bytes, said of the bytes themselves. */
module FatBytes {
  import Arithmetic
  import opened ByteMemory
  import opened Wrappers
  import opened FatNames
  import opened Fat32

  /** `a` is an odd number of times `d`, and less than `d` more. */
  predicate OddTimes(a: nat, d: nat, q: nat, r: nat) {
    a == d * q + r && q % 2 == 1 && r < d
  }

  /** The attribute byte marks a directory. */
  ghost predicate DirByte(a: Byte) {
    exists q: nat, r: nat :: OddTimes(a, 16, q, r)
  }

  /** A volume label. */
  ghost predicate LabelByte(a: Byte) {
    exists q: nat, r: nat :: OddTimes(a, 8, q, r)
  }

  lemma OddQuotient(a: nat, d: nat)
    requires d > 0
    ensures a / d % 2 == 1 <==> exists q: nat, r: nat :: OddTimes(a, d, q, r)
  {
    if a / d % 2 == 1 {
      assert OddTimes(a, d, a / d, a % d);
    }
    if q: nat, r: nat :| OddTimes(a, d, q, r) {
      Arithmetic.DivModUnique(a, d, q, r);
    }
  }

  lemma DirBit(e: Entry)
    ensures IsDir(e) <==> DirByte(e.attr)
  {
    OddQuotient(e.attr, 16);
  }

  lemma LabelBit(e: Entry)
    ensures IsVolume(e) <==> LabelByte(e.attr)
  {
    OddQuotient(e.attr, 8);
  }

  /** The record of 32 bytes at `at` is one that a search passes over: deleted, part of a long name, or a label. */
  ghost predicate PassedOver(b: seq<Byte>, at: nat)
    requires at + 32 <= |b|
  {
    b[at] == 0xE5 || b[at + 11] == 0x0F || LabelByte(b[at + 11])
  }

  /** The record carries the eleven bytes of the name. */
  predicate Named(b: seq<Byte>, at: nat, name: seq<Byte>)
    requires at + 32 <= |b|
  {
    b[at..at + 11] == name
  }

  function Number(b0: nat, b1: nat, b2: nat, b3: nat): nat {
    b0 + 256 * b1 + 65536 * b2 + 16777216 * b3
  }

  /** What a caller is told of a record: its cluster number has bytes 20 and 21 above bytes 26 and 27, its size is bytes
      28 to 31, all least byte first. */
  predicate Tells(e: Entry, b: seq<Byte>, at: nat)
    requires at + 32 <= |b|
  {
    && e.name == b[at..at + 11] && e.attr == b[at + 11]
    && e.cluster == Number(b[at + 26], b[at + 27], b[at + 20], b[at + 21])
    && e.size == Number(b[at + 28], b[at + 29], b[at + 30], b[at + 31])
  }

  lemma {:induction false} TwoBytes(b: seq<Byte>)
    requires |b| == 2
    ensures FromBytes(b) == Number(b[0], b[1], 0, 0)
  {
    assert FromBytes(b[1..][1..]) == 0;
  }

  lemma {:induction false} FourBytes(b: seq<Byte>)
    requires |b| == 4
    ensures FromBytes(b) == Number(b[0], b[1], b[2], b[3])
  {
    TwoBytes(b[2..]);
    assert b[1..][1..] == b[2..];
  }

  lemma ParseTells(r: seq<Byte>)
    requires |r| == 32
    ensures Tells(Parse(r), r, 0)
  {
    TwoBytes(r[20..22]);
    TwoBytes(r[26..28]);
    FourBytes(r[28..32]);
    hide FromBytes;
  }

  lemma TellsInside(e: Entry, b: seq<Byte>, at: nat)
    requires at + 32 <= |b| && Tells(e, b[at..at + 32], 0)
    ensures Tells(e, b, at)
  {
    hide Number;
    assert b[at..at + 32][0..11] == b[at..at + 11];
  }

  lemma RecordTells(b: seq<Byte>, i: nat)
    requires i < |b| / 32
    ensures Tells(EntryAt(b, i), b, 32 * i)
  {
    hide Parse, Tells;
    ParseTells(b[32 * i..32 * i + 32]);
    TellsInside(EntryAt(b, i), b, 32 * i);
  }

  /** No record before the i-th ends the directory or is one the search wants. */
  ghost predicate Unfound(b: seq<Byte>, name: seq<Byte>, i: nat) {
    forall j: nat :: j < i && 32 * j + 32 <= |b| ==>
      b[32 * j] != 0 && (PassedOver(b, 32 * j) || !Named(b, 32 * j, name))
  }

  lemma RecordDecides(b: seq<Byte>, name: seq<Byte>, i: nat)
    requires i < |b| / 32
    ensures IsLast(EntryAt(b, i)) <==> b[32 * i] == 0
    ensures Matches(EntryAt(b, i), name) <==>
              b[32 * i] != 0 && !PassedOver(b, 32 * i) && Named(b, 32 * i, name)
  {
    RecordTells(b, i);
    var e := EntryAt(b, i);
    LabelBit(e);
    assert e.name[0] == b[32 * i];
    hide Parse;
  }

  /** A search of a cluster's bytes finds the first record with the name that it does not pass over, if no record before
      it begins with 0; a record that begins with 0 ends it; and else it goes on to the next cluster. */
  lemma {:induction false} ScanOnBytes(b: seq<Byte>, name: seq<Byte>)
    ensures var s := Scan(Entries(b), name);
            && (s.Match? ==> exists i: nat ::
                  && 32 * i + 32 <= |b| && Unfound(b, name, i) && b[32 * i] != 0 && !PassedOver(b, 32 * i)
                  && Named(b, 32 * i, name) && Tells(s.e, b, 32 * i))
            && (s.Stop? ==> exists i: nat :: 32 * i + 32 <= |b| && Unfound(b, name, i) && b[32 * i] == 0)
            && (s.More? <==> Unfound(b, name, |b| / 32))
  {
    hide Scan, EntryAt, PassedOver, Named, Tells, Matches, IsLast;
    var es := Entries(b);
    var s := Scan(es, name);
    forall i: nat | i <= |es| ensures Undecided(es, name, i) <==> Unfound(b, name, i) {
      SameSoFar(b, name, i);
    }
    if s.Match? {
      var i: nat :| i < |es| && es[i] == s.e && Matches(es[i], name) && Undecided(es, name, i);
      RecordDecides(b, name, i);
      RecordTells(b, i);
    } else if s.Stop? {
      var i: nat :| i < |es| && IsLast(es[i]) && Undecided(es, name, i);
      RecordDecides(b, name, i);
    }
  }

  lemma SameSoFar(b: seq<Byte>, name: seq<Byte>, i: nat)
    requires i <= |b| / 32
    ensures Undecided(Entries(b), name, i) <==> Unfound(b, name, i)
  {
    hide EntryAt, PassedOver, Named, Matches, IsLast;
    var es := Entries(b);
    forall j: nat | j < i
      ensures (IsLast(es[j]) || Matches(es[j], name)) <==>
                (b[32 * j] == 0 || (!PassedOver(b, 32 * j) && Named(b, 32 * j, name)))
    {
      RecordDecides(b, name, j);
    }
  }

  // ----- Walks

  /** Where the i-th component is looked up: the first in `dir`, each later one in the entry found before. */
  function LookedIn(dir: nat, es: seq<Entry>, i: nat): nat
    requires i <= |es|
  {
    if i == 0 then dir else es[i - 1].cluster
  }

  /** The i-th component is found there, as the i-th entry. */
  ghost predicate FoundAt(v: Volume, dir: nat, cs: seq<seq<Char>>, es: seq<Entry>, k: nat, i: nat) {
    i < |es| && i < |cs| && |cs[i]| < 256 && Find(v, LookedIn(dir, es, i), To8dot3(cs[i]), k + i) == Got(es[i])
  }

  /** The components are found, one in the other. */
  ghost predicate Found(v: Volume, dir: nat, cs: seq<seq<Char>>, es: seq<Entry>, k: nat) {
    forall i: nat :: i < |es| ==> FoundAt(v, dir, cs, es, k, i)
  }

  /** The first n of the entries are directories. */
  ghost predicate Directories(es: seq<Entry>, n: nat) {
    forall i: nat :: i < n && i < |es| ==> DirByte(es[i].attr)
  }

  /** The walk ends with `e`: every component is found, and all but the last, or all if a separator follows, are
      directories. */
  ghost predicate EndsWith(v: Volume, dir: nat, cs: seq<seq<Char>>, trailing: bool, k: nat, es: seq<Entry>, e: Entry) {
    && |es| == |cs| > 0 && Found(v, dir, cs, es, k) && es[|es| - 1] == e
    && Directories(es, if trailing then |es| else |es| - 1)
  }

  ghost predicate SomeEnd(v: Volume, dir: nat, cs: seq<seq<Char>>, trailing: bool, k: nat, e: Entry) {
    exists es: seq<Entry> :: EndsWith(v, dir, cs, trailing, k, es, e)
  }

  /** It goes on through an entry exactly when its attribute byte marks a directory. */
  lemma {:induction false} ResolveSteps(v: Volume, dir: nat, cs: seq<seq<Char>>, trailing: bool, k: nat, e: Entry)
    ensures Resolve(v, dir, cs, trailing, k) == Got(e) <==> SomeEnd(v, dir, cs, trailing, k, e)
    decreases |cs|
  {
    hide To8dot3, Find, EndsWith, DirByte;
    if cs == [] {
      NoComponents(v, dir, trailing, k, e);
    } else {
      var found := Find(v, dir, To8dot3(cs[0]), k);
      FirstStep(v, dir, cs, trailing, k, e);
      if found.Got? {
        DirBit(found.e);
        if |cs| > 1 {
          ResolveSteps(v, found.e.cluster, cs[1..], trailing, k + 1, e);
          MoreSteps(v, dir, cs, trailing, k, e);
        } else {
          OneStep(v, dir, cs, trailing, k, e);
        }
      }
    }
  }

  lemma NoComponents(v: Volume, dir: nat, trailing: bool, k: nat, e: Entry)
    ensures !SomeEnd(v, dir, [], trailing, k, e)
  {
  }

  /** The first component is found in `dir`. */
  lemma FirstStep(v: Volume, dir: nat, cs: seq<seq<Char>>, trailing: bool, k: nat, e: Entry)
    requires cs != []
    ensures SomeEnd(v, dir, cs, trailing, k, e) ==> |cs[0]| < 256 && Find(v, dir, To8dot3(cs[0]), k).Got?
  {
    if es: seq<Entry> :| EndsWith(v, dir, cs, trailing, k, es, e) {
      EndsFirst(v, dir, cs, trailing, k, es, e);
    }
  }

  lemma EndsFirst(v: Volume, dir: nat, cs: seq<seq<Char>>, trailing: bool, k: nat, es: seq<Entry>, e: Entry)
    requires EndsWith(v, dir, cs, trailing, k, es, e)
    ensures |es| == |cs| > 0 && |cs[0]| < 256 && Find(v, dir, To8dot3(cs[0]), k) == Got(es[0])
  {
    hide To8dot3, Find;
    assert FoundAt(v, dir, cs, es, k, 0);
  }

  lemma OneStep(v: Volume, dir: nat, cs: seq<seq<Char>>, trailing: bool, k: nat, e: Entry)
    requires |cs| == 1
    ensures SomeEnd(v, dir, cs, trailing, k, e) <==>
            |cs[0]| < 256 && Find(v, dir, To8dot3(cs[0]), k) == Got(e) && (trailing ==> DirByte(e.attr))
  {
    hide To8dot3, Find, DirByte;
    if |cs[0]| < 256 && Find(v, dir, To8dot3(cs[0]), k) == Got(e) && (trailing ==> DirByte(e.attr)) {
      assert EndsWith(v, dir, cs, trailing, k, [e], e);
    }
    if es: seq<Entry> :| EndsWith(v, dir, cs, trailing, k, es, e) {
      EndsFirst(v, dir, cs, trailing, k, es, e);
    }
  }

  /** The first step off a walk, and on again. */
  lemma StepOff(v: Volume, dir: nat, cs: seq<seq<Char>>, trailing: bool, k: nat, es: seq<Entry>, e: Entry)
    requires |cs| > 1 && EndsWith(v, dir, cs, trailing, k, es, e)
    ensures DirByte(es[0].attr) && EndsWith(v, es[0].cluster, cs[1..], trailing, k + 1, es[1..], e)
  {
    hide To8dot3, Find, DirByte, FoundAt;
    assert FoundAt(v, dir, cs, es, k, 0);
    var at, rest, left, next := es[0].cluster, cs[1..], es[1..], k + 1;
    forall j: nat | j < |left| ensures FoundAt(v, at, rest, left, next, j) {
      StepOffAt(v, dir, cs, k, es, j);
    }
  }

  lemma StepOffAt(v: Volume, dir: nat, cs: seq<seq<Char>>, k: nat, es: seq<Entry>, j: nat)
    requires es != [] && cs != [] && FoundAt(v, dir, cs, es, k, j + 1)
    ensures FoundAt(v, es[0].cluster, cs[1..], es[1..], k + 1, j)
  {
    hide To8dot3, Find;
    assert LookedIn(dir, es, j + 1) == LookedIn(es[0].cluster, es[1..], j);
  }

  lemma StepOnAt(v: Volume, dir: nat, cs: seq<seq<Char>>, k: nat, first: Entry, es: seq<Entry>, j: nat)
    requires |cs| > 1 && FoundAt(v, first.cluster, cs[1..], es, k + 1, j)
    ensures FoundAt(v, dir, cs, [first] + es, k, j + 1)
  {
    hide To8dot3, Find;
    assert LookedIn(dir, [first] + es, j + 1) == LookedIn(first.cluster, es, j);
  }

  lemma StepOn(v: Volume, dir: nat, cs: seq<seq<Char>>, trailing: bool, k: nat, first: Entry, es: seq<Entry>, e: Entry)
    requires |cs| > 1 && |cs[0]| < 256 && Find(v, dir, To8dot3(cs[0]), k) == Got(first) && DirByte(first.attr)
    requires EndsWith(v, first.cluster, cs[1..], trailing, k + 1, es, e)
    ensures EndsWith(v, dir, cs, trailing, k, [first] + es, e)
  {
    hide To8dot3, Find, DirByte, FoundAt;
    var all := [first] + es;
    assert Found(v, dir, cs, all, k) by {
      FirstFound(v, dir, cs, all, k);
      forall i: nat | i < |all| ensures FoundAt(v, dir, cs, all, k, i) {
        if i > 0 {
          StepOnAt(v, dir, cs, k, first, es, i - 1);
        }
      }
    }
  }

  lemma FirstFound(v: Volume, dir: nat, cs: seq<seq<Char>>, es: seq<Entry>, k: nat)
    requires es != [] && cs != [] && |cs[0]| < 256 && Find(v, dir, To8dot3(cs[0]), k) == Got(es[0])
    ensures FoundAt(v, dir, cs, es, k, 0)
  {
    hide To8dot3, Find;
  }

  lemma MoreSteps(v: Volume, dir: nat, cs: seq<seq<Char>>, trailing: bool, k: nat, e: Entry)
    requires |cs| > 1 && Find(v, dir, To8dot3(cs[0]), k).Got?
    ensures var first := Find(v, dir, To8dot3(cs[0]), k).e;
            SomeEnd(v, dir, cs, trailing, k, e) <==>
            |cs[0]| < 256 && DirByte(first.attr) && SomeEnd(v, first.cluster, cs[1..], trailing, k + 1, e)
  {
    hide To8dot3, Find, EndsWith, DirByte;
    var first, rest, next := Find(v, dir, To8dot3(cs[0]), k).e, cs[1..], k + 1;
    if SomeEnd(v, dir, cs, trailing, k, e) {
      var es: seq<Entry> :| EndsWith(v, dir, cs, trailing, k, es, e);
      EndsFirst(v, dir, cs, trailing, k, es, e);
      StepOff(v, dir, cs, trailing, k, es, e);
      assert EndsWith(v, first.cluster, rest, trailing, next, es[1..], e);
    }
    if |cs[0]| < 256 && DirByte(first.attr) && SomeEnd(v, first.cluster, rest, trailing, next, e) {
      var es: seq<Entry> :| EndsWith(v, first.cluster, rest, trailing, next, es, e);
      StepOn(v, dir, cs, trailing, k, first, es, e);
    }
  }

  /** A path leads to an entry exactly if its components are found one in the other, from the root, all but the last
      marked as directories by their attribute bytes. */
  lemma {:induction false} WalkSteps(v: Volume, path: seq<Char>, e: Entry)
    ensures Walk(v, path) == Got(e) <==> SomeEnd(v, v.root, Components(path), Trailing(path), 0, e)
  {
    ResolveSteps(v, v.root, Components(path), Trailing(path), 0, e);
  }

  /** The answers for an entry found: a directory is refused, a file's size is told, and its bytes are read. */
  lemma {:induction false} AnswersByByte(v: Volume, path: seq<Char>, max: nat)
    requires WellFormed(v) && Walk(v, path).Got?
    ensures var e := Walk(v, path).e;
            && SizeAnswer(Walk(v, path)) == (if DirByte(e.attr) then Err(IsDirectory) else Ok(e.size))
            && (Reading(v, path, max).result == Err(IsDirectory) <==> DirByte(e.attr))
            && (!DirByte(e.attr) && e.size == 0 ==> Reading(v, path, max) == FileRead(Ok(0), []))
            && (!DirByte(e.attr) && e.size > 0 ==>
                  (Reading(v, path, max).result == Err(NoBuffer) <==>
                     v.clusterBytes == 0 || !v.buffer(|Components(path)|)))
  {
    hide Walk, Components, ReadChain;
    DirBit(Walk(v, path).e);
    ChainErrors(v, Walk(v, path).e.cluster, Least(max, Walk(v, path).e.size));
  }

  lemma {:induction false} ChainErrors(v: Volume, cl: nat, left: nat)
    requires WellFormed(v)
    ensures v.clusterBytes > 0 ==>
              ReadChain(v, cl, left).1 != Some(IsDirectory) && ReadChain(v, cl, left).1 != Some(NoBuffer)
    decreases left
  {
    if v.clusterBytes > 0 && left > 0 && !Ends(cl) && v.fetch(cl).Ok? && v.next(cl).Ok? {
      ChainErrors(v, v.next(cl).value, left - Least(left, v.clusterBytes));
    }
  }

  // ----- Files

  /** A table entry that ends a chain: none of the 28 bits is set, or all of the upper 25 are. */
  predicate EndMark(c: nat) {
    c == 0 || 0x0FFF_FFF8 <= c
  }

  /** The clusters follow one another by the table's entries, from `first` on, and none is an end mark. */
  ghost predicate Follows(v: Volume, first: nat, cls: seq<nat>) {
    && (cls != [] ==> cls[0] == first)
    && (forall i: nat :: i < |cls| ==> !EndMark(cls[i]) && v.fetch(cls[i]).Ok?)
    && (forall i: nat :: i + 1 < |cls| ==> v.next(cls[i]) == Ok(cls[i + 1]))
  }

  /** The entry behind the last of them ends the chain. */
  ghost predicate EndsAfter(v: Volume, first: nat, cls: seq<nat>) {
    if cls == [] then EndMark(first)
    else v.next(cls[|cls| - 1]).Ok? && EndMark(v.next(cls[|cls| - 1]).value)
  }

  /** The first `n` bytes of these clusters, end to end. */
  ghost predicate Spells(v: Volume, cls: seq<nat>, data: seq<Byte>)
    requires v.clusterBytes > 0
  {
    forall j: nat :: j < |data| ==>
      && j / v.clusterBytes < |cls|
      && v.fetch(cls[j / v.clusterBytes]).Ok?
      && j % v.clusterBytes < |v.fetch(cls[j / v.clusterBytes]).value|
      && data[j] == v.fetch(cls[j / v.clusterBytes]).value[j % v.clusterBytes]
  }

  lemma EndMarks(c: nat)
    ensures Ends(c) <==> EndMark(c)
  {
  }

  /** A chain that holds at least n bytes, cluster by cluster. */
  lemma {:induction false} ClustersFollow(v: Volume, cl: nat, n: nat) returns (cls: seq<nat>)
    requires WellFormed(v) && v.clusterBytes > 0
    requires forall k: nat :: k < n ==> Cluster(v, cl, k).Some? && !Ends(Cluster(v, cl, k).value)
                                        && v.fetch(Cluster(v, cl, k).value).Ok?
    ensures Follows(v, cl, cls) && |cls| == n && forall k: nat :: k < n ==> Cluster(v, cl, k) == Some(cls[k])
    decreases n
  {
    if n == 0 {
      cls := [];
    } else {
      var before := ClustersFollow(v, cl, n - 1);
      var last: nat := n - 1;
      cls := before + [Cluster(v, cl, last).value];
      if n > 1 {
        ClusterNext(v, cl, n - 2);
      }
    }
  }

  lemma {:induction false} ClusterNext(v: Volume, cl: nat, k: nat)
    requires Cluster(v, cl, k).Some?
    ensures Cluster(v, cl, k + 1) ==
            var c := Cluster(v, cl, k).value; if Ends(c) || v.next(c).Err? then None else Some(v.next(c).value)
    decreases k
  {
    if k > 0 {
      ClusterNext(v, v.next(cl).value, k - 1);
    }
  }

  /** A read that succeeds gives the bytes of the file's clusters, which follow one another from the entry's cluster on:
      as many as asked for and as the file has, or all of a chain that ends before. */
  lemma FileBytes(v: Volume, path: seq<Char>, max: nat)
    requires WellFormed(v) && Walk(v, path) != Endless && Reading(v, path, max).result.Ok? && v.clusterBytes > 0
    ensures var e, f := Walk(v, path).e, Reading(v, path, max);
            && Walk(v, path).Got? && !DirByte(e.attr) && f.result == Ok(|f.data|)
            && exists cls: seq<nat> ::
                 && Follows(v, e.cluster, cls) && Spells(v, cls, f.data)
                 && (|f.data| == Least(max, e.size)
                     || (|f.data| < Least(max, e.size) && |f.data| == |cls| * v.clusterBytes
                         && EndsAfter(v, e.cluster, cls)))
  {
    hide Walk, ByteAt, Cluster, DirByte, Follows, Spells, EndsAfter, Reading;
    FileDelivered(v, path, max);
    var e, f := Walk(v, path).e, Reading(v, path, max);
    DirBit(e);
    var n := if |f.data| == 0 then 0 else (|f.data| - 1) / v.clusterBytes + 1;
    forall k: nat | k < n
      ensures Cluster(v, e.cluster, k).Some? && !Ends(Cluster(v, e.cluster, k).value)
      ensures v.fetch(Cluster(v, e.cluster, k).value).Ok?
    {
      StartInside(|f.data|, v.clusterBytes, k);
      HereMeans(v, e.cluster, k * v.clusterBytes);
    }
    var cls := ClustersFollow(v, e.cluster, n);
    SpelledBy(v, e.cluster, cls, f.data);
    if |f.data| < Least(max, e.size) {
      WholeChain(v, e.cluster, cls, f.data);
    }
  }

  lemma StartInside(len: nat, b: nat, k: nat)
    requires b > 0 && len > 0 && k < (len - 1) / b + 1
    ensures k * b < len && k * b / b == k
  {
    assert k * b <= (len - 1) / b * b;
    Arithmetic.DivModUnique(k * b, b, k, 0);
  }

  lemma {:induction false} HereMeans(v: Volume, cl: nat, j: nat)
    requires WellFormed(v) && v.clusterBytes > 0 && ByteAt(v, cl, j).Here?
    ensures var c := Cluster(v, cl, j / v.clusterBytes);
            c.Some? && !Ends(c.value) && v.fetch(c.value).Ok?
            && ByteAt(v, cl, j).b == v.fetch(c.value).value[j % v.clusterBytes]
  {
  }

  lemma SpelledBy(v: Volume, cl: nat, cls: seq<nat>, data: seq<Byte>)
    requires WellFormed(v) && v.clusterBytes > 0
    requires |cls| == if |data| == 0 then 0 else (|data| - 1) / v.clusterBytes + 1
    requires forall k: nat :: k < |cls| ==> Cluster(v, cl, k) == Some(cls[k])
    requires forall j: nat :: j < |data| ==> ByteAt(v, cl, j) == Here(data[j])
    ensures Spells(v, cls, data)
  {
    hide Cluster, ByteAt;
    forall j: nat | j < |data|
      ensures j / v.clusterBytes < |cls| && v.fetch(cls[j / v.clusterBytes]).Ok?
      ensures j % v.clusterBytes < |v.fetch(cls[j / v.clusterBytes]).value|
      ensures data[j] == v.fetch(cls[j / v.clusterBytes]).value[j % v.clusterBytes]
    {
      HereMeans(v, cl, j);
      QuotientUpTo(j, |data| - 1, v.clusterBytes);
    }
  }

  lemma QuotientUpTo(a: nat, c: nat, b: nat)
    requires a <= c && b > 0
    ensures a / b <= c / b
  {
    var q, p := a / b, c / b;
    assert a == q * b + a % b && c == p * b + c % b;
    Arithmetic.MultipleBounds(q - p, b);
  }

  /** A read that stops short without error has come to the end of the chain. */
  lemma {:induction false} WholeChain(v: Volume, cl: nat, cls: seq<nat>, data: seq<Byte>)
    requires WellFormed(v) && v.clusterBytes > 0
    requires |cls| == if |data| == 0 then 0 else (|data| - 1) / v.clusterBytes + 1
    requires forall k: nat :: k < |cls| ==> Cluster(v, cl, k) == Some(cls[k]) && !Ends(cls[k])
    requires ByteAt(v, cl, |data|) == PastEnd
    ensures |data| == |cls| * v.clusterBytes && EndsAfter(v, cl, cls)
  {
    var k := |data| / v.clusterBytes;
    assert Cluster(v, cl, k).Some? && Ends(Cluster(v, cl, k).value);
    LastQuotient(|data|, v.clusterBytes);
    assert k == |cls|;
    if k > 0 {
      ClusterNext(v, cl, k - 1);
    }
  }

  lemma LastQuotient(n: nat, b: nat)
    requires b > 0
    ensures n > 0 && n % b != 0 ==> n / b == (n - 1) / b
    ensures n > 0 && n % b == 0 ==> n / b == (n - 1) / b + 1
    ensures n % b == 0 ==> n == n / b * b
  {
    if n > 0 {
      var q, r := n / b, n % b;
      assert n == q * b + r;
      if r > 0 {
        Arithmetic.DivModUnique(n - 1, b, q, r - 1);
      } else {
        assert n - 1 == (q - 1) * b + (b - 1);
        Arithmetic.DivModUnique(n - 1, b, q - 1, b - 1);
      }
    }
  }
}
