/** The disassembler's list of external names: sorted insertion, with calls for a name already listed merged into it. */
module Externals {

  /** A C string without its terminator; char is signed. */
  type CChar = c: int | -128 <= c < 128 && c != 0 witness 1

  type Path = seq<CChar>

  const TYPE_ANY: nat := 0

  /** Flags are sets of bit numbers. */
  const INTERNAL_PATH_ALLOCATED: nat := 2

  const ORIGIN_FROM_OPCODE: nat := 4

  /** The bits set in a flag word. */
  function FlagSet(word: nat): set<nat> {
    set b: nat | b < 16 && Bit(word, b) :: b
  }

  function Power(b: nat): (p: nat)
    ensures p > 0
  {
    if b == 0 then 1 else 2 * Power(b - 1)
  }

  predicate Bit(word: nat, b: nat) {
    word / Power(b) % 2 == 1
  }

  /** The two flags the code asks for, as masks of the word: 0x10 and 0x04. */
  lemma FlagMasks(word: nat)
    requires word < 0x1_0000
    ensures ORIGIN_FROM_OPCODE in FlagSet(word) <==> word / 0x10 % 2 == 1
    ensures INTERNAL_PATH_ALLOCATED in FlagSet(word) <==> word / 0x04 % 2 == 1
  {
    assert Power(4) == 16 && Power(2) == 4;
    assert Bit(word, ORIGIN_FROM_OPCODE) <==> word / 16 % 2 == 1;
    assert Bit(word, INTERNAL_PATH_ALLOCATED) <==> word / 4 % 2 == 1;
  }

  datatype External = External(path: Path, internal: nat, typ: nat, value: nat, flags: set<nat>)

  /** One call; `memory` says whether an allocation made by it would succeed. */
  datatype Call = Call(path: Path, internal: nat, typ: nat, value: nat, flags: set<nat>, memory: bool)

  datatype Status = Created | AlreadyExists | NoMemory

  // ----- Comparing names

  function ToLower(c: int): int {
    if 65 <= c <= 90 then c + 32 else c
  }

  /** The character at the front, or the terminator. */
  function Front(s: Path): int {
    if s == [] then 0 else ToLower(s[0])
  }

  /** Both names are read up to the first difference or the common end. */
  function Stricmp(a: Path, b: Path): int {
    if Front(a) == Front(b) && a != [] && b != [] then Stricmp(a[1..], b[1..]) else Front(a) - Front(b)
  }

  function Lowered(s: Path): (r: seq<int>)
    ensures |r| == |s|
  {
    if s == [] then [] else [ToLower(s[0])] + Lowered(s[1..])
  }

  lemma {:induction false} StricmpFlips(a: Path, b: Path)
    ensures Stricmp(a, b) == -Stricmp(b, a)
  {
    if a != [] && b != [] && Front(a) == Front(b) {
      StricmpFlips(a[1..], b[1..]);
    }
  }

  lemma {:induction false} StricmpTransitive(a: Path, b: Path, c: Path)
    requires Stricmp(a, b) <= 0 && Stricmp(b, c) <= 0
    ensures Stricmp(a, c) <= 0
    ensures Stricmp(a, b) < 0 || Stricmp(b, c) < 0 ==> Stricmp(a, c) < 0
  {
    if a != [] && b != [] && c != [] && Front(a) == Front(b) == Front(c) {
      StricmpTransitive(a[1..], b[1..], c[1..]);
    }
  }

  /** Names compare equal exactly when they differ in letter case only. */
  lemma {:induction false} StricmpZero(a: Path, b: Path)
    ensures Stricmp(a, b) == 0 <==> Lowered(a) == Lowered(b)
  {
    if a != [] && b != [] {
      StricmpZero(a[1..], b[1..]);
      assert Lowered(a)[0] == Front(a) && Lowered(a)[1..] == Lowered(a[1..]);
      assert Lowered(b)[0] == Front(b) && Lowered(b)[1..] == Lowered(b[1..]);
      if Front(a) == Front(b) && Lowered(a[1..]) == Lowered(b[1..]) {
        assert Lowered(a) == Lowered(b);
      }
    }
  }

  /** The number a name has at a place: capitals count as small letters, and past its end the name has 0. */
  function LetterNumber(s: Path, i: nat): int {
    if i >= |s| then 0 else if 'A' as int <= s[i] <= 'Z' as int then s[i] - 'A' as int + 'a' as int else s[i]
  }

  /** At this place the names differ first, and `a` has the smaller number. */
  ghost predicate DifferAt(a: Path, b: Path, i: nat) {
    LetterNumber(a, i) < LetterNumber(b, i) && forall j: nat :: j < i ==> LetterNumber(a, j) == LetterNumber(b, j)
  }

  ghost predicate Alphabetical(a: Path, b: Path) {
    exists i: nat :: DifferAt(a, b, i)
  }

  /** The names differ in letter case at most. */
  ghost predicate SameLetters(a: Path, b: Path) {
    |a| == |b| && forall i: nat :: i < |a| ==> LetterNumber(a, i) == LetterNumber(b, i)
  }

  /** The comparison is negative exactly for names in alphabetical order, and zero exactly for the same letters. */
  lemma {:induction false} StricmpIs(a: Path, b: Path)
    ensures Stricmp(a, b) < 0 <==> Alphabetical(a, b)
    ensures Stricmp(a, b) == 0 <==> SameLetters(a, b)
  {
    LettersAt(a, 0);
    LettersAt(b, 0);
    if a != [] && b != [] && Front(a) == Front(b) {
      StricmpIs(a[1..], b[1..]);
      FirstSame(a, b);
    } else if LetterNumber(a, 0) == LetterNumber(b, 0) {
      assert a == [] && b == [];
    } else {
      DifferFirst(a, b);
    }
  }

  lemma LettersAt(s: Path, i: nat)
    ensures i == 0 ==> LetterNumber(s, i) == Front(s)
    ensures s != [] ==> LetterNumber(s, i + 1) == LetterNumber(s[1..], i)
    ensures i < |s| <==> LetterNumber(s, i) != 0
  {
  }

  lemma FirstSame(a: Path, b: Path)
    requires a != [] && b != [] && LetterNumber(a, 0) == LetterNumber(b, 0)
    ensures Alphabetical(a, b) <==> Alphabetical(a[1..], b[1..])
    ensures SameLetters(a, b) <==> SameLetters(a[1..], b[1..])
  {
    hide LetterNumber, Alphabetical, SameLetters;
    var c, d := a[1..], b[1..];
    forall i: nat ensures LetterNumber(a, i + 1) == LetterNumber(c, i) && LetterNumber(b, i + 1) == LetterNumber(d, i) {
      LettersAt(a, i);
      LettersAt(b, i);
    }
    AlphabeticalRest(a, b, c, d);
    SameLettersRest(a, b, c, d);
  }

  /** `c` and `d` go on where `a` and `b` have begun alike. */
  ghost predicate GoesOn(a: Path, b: Path, c: Path, d: Path) {
    && LetterNumber(a, 0) == LetterNumber(b, 0)
    && forall i: nat {:trigger LetterNumber(c, i)} {:trigger LetterNumber(d, i)} ::
         LetterNumber(a, i + 1) == LetterNumber(c, i) && LetterNumber(b, i + 1) == LetterNumber(d, i)
  }

  lemma AlphabeticalRest(a: Path, b: Path, c: Path, d: Path)
    requires GoesOn(a, b, c, d)
    ensures Alphabetical(a, b) <==> Alphabetical(c, d)
  {
    hide LetterNumber;
    if Alphabetical(a, b) {
      var i: nat :| DifferAt(a, b, i);
      var k: nat := i - 1;
      assert LetterNumber(a, k + 1) == LetterNumber(c, k);
      assert DifferAt(c, d, k) by {
        forall j: nat | j < k ensures LetterNumber(c, j) == LetterNumber(d, j) {
          assert LetterNumber(a, j + 1) == LetterNumber(b, j + 1);
        }
      }
    }
    if Alphabetical(c, d) {
      var i: nat :| DifferAt(c, d, i);
      var k := i + 1;
      assert DifferAt(a, b, k) by {
        forall j: nat | j < k ensures LetterNumber(a, j) == LetterNumber(b, j) {
          if j > 0 {
            assert LetterNumber(c, j - 1) == LetterNumber(d, j - 1);
          }
        }
      }
    }
  }

  lemma SameLettersRest(a: Path, b: Path, c: Path, d: Path)
    requires GoesOn(a, b, c, d) && |a| == |c| + 1 && |b| == |d| + 1
    ensures SameLetters(a, b) <==> SameLetters(c, d)
  {
    hide LetterNumber;
    if SameLetters(a, b) {
      forall i: nat | i < |c| ensures LetterNumber(c, i) == LetterNumber(d, i) {
        assert LetterNumber(a, i + 1) == LetterNumber(b, i + 1);
      }
    }
    if SameLetters(c, d) {
      forall i: nat | i < |a| ensures LetterNumber(a, i) == LetterNumber(b, i) {
        if i > 0 {
          assert LetterNumber(c, i - 1) == LetterNumber(d, i - 1);
        }
      }
    }
  }

  lemma DifferFirst(a: Path, b: Path)
    requires LetterNumber(a, 0) != LetterNumber(b, 0)
    ensures Alphabetical(a, b) <==> LetterNumber(a, 0) < LetterNumber(b, 0)
    ensures !SameLetters(a, b)
  {
    hide LetterNumber;
    if LetterNumber(a, 0) < LetterNumber(b, 0) {
      assert DifferAt(a, b, 0);
    }
    if i: nat :| DifferAt(a, b, i) {
      assert i == 0;
    }
    if SameLetters(a, b) {
      NoLetters(a, b);
    }
  }

  lemma NoLetters(a: Path, b: Path)
    requires SameLetters(a, b)
    ensures LetterNumber(a, 0) == LetterNumber(b, 0)
  {
  }

  // ----- One call

  /** The first entry for the path, or the length of the list. */
  function Find(list: seq<External>, path: Path): (k: nat)
    ensures k <= |list|
    ensures k < |list| ==> list[k].path == path
    ensures forall q: nat :: q < k ==> list[q].path != path
  {
    if list == [] || list[0].path == path then 0 else 1 + Find(list[1..], path)
  }

  /** The first entry that sorts strictly after the path, or the length of the list. */
  function Place(list: seq<External>, path: Path): (k: nat)
    ensures k <= |list|
    ensures k < |list| ==> Stricmp(path, list[k].path) < 0
    ensures forall q: nat :: q < k ==> Stricmp(path, list[q].path) >= 0
  {
    if list == [] || Stricmp(path, list[0].path) < 0 then 0 else 1 + Place(list[1..], path)
  }

  function Merged(e: External, c: Call): External {
    if ORIGIN_FROM_OPCODE in e.flags then
      e
    else
      e.(typ := if e.typ == TYPE_ANY then c.typ else e.typ,
         value := if c.value < e.value then c.value else e.value,
         flags := (e.flags + c.flags) - {INTERNAL_PATH_ALLOCATED})
  }

  function Added(c: Call): External {
    External(c.path, c.internal, c.typ, c.value, c.flags)
  }

  function CreateNewExternal(list: seq<External>, c: Call): (Status, seq<External>) {
    var k := Find(list, c.path);
    if k < |list| then
      (AlreadyExists, list[k := Merged(list[k], c)])
    else if !c.memory then
      (NoMemory, list)
    else
      var p := Place(list, c.path);
      (Created, list[..p] + [Added(c)] + list[p..])
  }

  /** What the caller is told: the path is listed already; or there is no memory for it; or it is now, once more than
      before. */
  lemma StatusIs(list: seq<External>, c: Call)
    ensures var (status, after) := CreateNewExternal(list, c);
            && (status.AlreadyExists? <==> exists k: nat :: k < |list| && list[k].path == c.path)
            && (status.NoMemory? <==> !c.memory && forall k: nat :: k < |list| ==> list[k].path != c.path)
            && |after| == (if status.Created? then |list| + 1 else |list|)
            && (status.NoMemory? ==> after == list)
            && (status.Created? ==> exists p: nat :: AddedAt(list, after, c, p))
  {
    hide Stricmp;
    if (CreateNewExternal(list, c).0).Created? {
      assert AddedAt(list, CreateNewExternal(list, c).1, c, Place(list, c.path));
    }
  }

  /** The entry for a new path says what the call says, and stands among the others as they were. */
  predicate AddedAt(list: seq<External>, after: seq<External>, c: Call, p: nat) {
    && p <= |list| && |after| == |list| + 1 && after[..p] == list[..p] && after[p + 1..] == list[p..]
    && after[p].path == c.path && after[p].internal == c.internal && after[p].typ == c.typ
    && after[p].value == c.value && after[p].flags == c.flags
  }

  function RunCalls(calls: seq<Call>): seq<External> {
    if calls == [] then [] else CreateNewExternal(RunCalls(calls[..|calls| - 1]), calls[|calls| - 1]).1
  }

  // ----- What a history of calls comes to, name by name

  /** The calls that shape the entry for a path: from the first that got memory, up to the first that comes from
      an External opcode. */
  ghost function Shaping(calls: seq<Call>, path: Path): (s: seq<Call>)
    ensures forall q: nat :: q < |s| ==> s[q].path == path
  {
    if calls == [] then
      []
    else
      var before, c := Shaping(calls[..|calls| - 1], path), calls[|calls| - 1];
      if c.path != path || FromOpcode(before) || (before == [] && !c.memory) then before else before + [c]
  }

  ghost predicate FromOpcode(s: seq<Call>) {
    exists q: nat :: q < |s| && ORIGIN_FROM_OPCODE in s[q].flags
  }

  /** Only the last shaping call may come from an opcode, and the first had memory. */
  lemma {:induction false} ShapingStops(calls: seq<Call>, path: Path)
    ensures var s := Shaping(calls, path);
            (s != [] ==> s[0].memory)
            && forall q: nat :: q + 1 < |s| ==> ORIGIN_FROM_OPCODE !in s[q].flags
  {
    if calls != [] {
      ShapingStops(calls[..|calls| - 1], path);
    }
  }

  /** What an entry says of the calls that shaped it: the least value, the first type that is not ANY, which is type 0,
      all the flags (with the internal-path flag surviving only in an entry never merged into), the first call's
      internal path. */
  ghost predicate Sums(e: External, s: seq<Call>) {
    s != []
    && e.internal == s[0].internal
    && (exists q: nat :: q < |s| && s[q].value == e.value)
    && (forall q: nat :: q < |s| ==> e.value <= s[q].value)
    && (e.typ == 0 ==> forall q: nat :: q < |s| ==> s[q].typ == 0)
    && (e.typ != 0 ==>
          exists q: nat :: q < |s| && s[q].typ == e.typ && forall r: nat :: r < q ==> s[r].typ == 0)
    && (forall b: nat :: b in e.flags <==>
          (exists q: nat :: q < |s| && b in s[q].flags) && (b == INTERNAL_PATH_ALLOCATED ==> |s| == 1))
  }

  /** The call that created the entry for a path. */
  ghost function Arrival(calls: seq<Call>, path: Path): (k: nat)
    ensures k <= |calls|
  {
    if calls == [] then 0
    else if Shaping(calls[..|calls| - 1], path) != [] then Arrival(calls[..|calls| - 1], path)
    else if calls[|calls| - 1].path == path && calls[|calls| - 1].memory then |calls| - 1
    else |calls|
  }

  /** Alphabetical, names that differ in letter case only standing in the order they arrived. */
  ghost predicate Before(calls: seq<Call>, a: Path, b: Path) {
    Stricmp(a, b) < 0 || (Stricmp(a, b) == 0 && Arrival(calls, a) < Arrival(calls, b))
  }

  ghost predicate Ordered(calls: seq<Call>, list: seq<External>) {
    forall i: nat, j: nat :: i < j < |list| ==> Before(calls, list[i].path, list[j].path)
  }

  ghost predicate Complete(calls: seq<Call>, list: seq<External>) {
    AllSum(calls, list) && AllListed(calls, list)
  }

  ghost predicate AllSum(calls: seq<Call>, list: seq<External>) {
    forall k: nat :: k < |list| ==> Sums(list[k], Shaping(calls, list[k].path))
  }

  ghost predicate AllListed(calls: seq<Call>, list: seq<External>) {
    forall path: Path :: Shaping(calls, path) != [] ==> Find(list, path) < |list|
  }

  lemma {:induction false} ShapingCalled(calls: seq<Call>, path: Path)
    requires Shaping(calls, path) != []
    ensures Arrival(calls, path) < |calls| && calls[Arrival(calls, path)].path == path
  {
    if Shaping(calls[..|calls| - 1], path) != [] {
      ShapingCalled(calls[..|calls| - 1], path);
    }
  }

  /** Merging one more call keeps the sum; from an opcode on, the entry is finished. */
  lemma MergeSums(e: External, s: seq<Call>, c: Call)
    requires Sums(e, s)
    ensures FromOpcode(s) <==> ORIGIN_FROM_OPCODE in e.flags
    ensures Sums(Merged(e, c), if FromOpcode(s) then s else s + [c])
  {
    assert ORIGIN_FROM_OPCODE in e.flags <==> FromOpcode(s);
    if !FromOpcode(s) {
      var t, m := s + [c], Merged(e, c);
      assert forall q: nat :: q < |s| ==> t[q] == s[q];
      assert t[|s|] == c;
      var q: nat :| q < |s| && s[q].value == e.value;
      assert t[q].value == e.value;
      forall b: nat ensures b in m.flags <==>
          (exists q: nat :: q < |t| && b in t[q].flags) && (b == INTERNAL_PATH_ALLOCATED ==> |t| == 1)
      {
        MergedFlag(e, s, c, b);
      }
      if m.typ != TYPE_ANY {
        MergedType(e, s, c);
      }
    }
  }

  lemma MergedFlag(e: External, s: seq<Call>, c: Call, b: nat)
    requires Sums(e, s) && !FromOpcode(s)
    ensures var t := s + [c];
            b in Merged(e, c).flags <==>
              (exists q: nat :: q < |t| && b in t[q].flags) && (b == INTERNAL_PATH_ALLOCATED ==> |t| == 1)
  {
    var t := s + [c];
    assert t[|s|] == c;
    assert forall q: nat :: q < |s| ==> t[q] == s[q];
    assert ORIGIN_FROM_OPCODE !in e.flags;
    if b in e.flags {
      var q: nat :| q < |s| && b in s[q].flags;
      assert b in t[q].flags;
    }
  }

  lemma MergedType(e: External, s: seq<Call>, c: Call)
    requires Sums(e, s) && !FromOpcode(s) && Merged(e, c).typ != TYPE_ANY
    ensures var t := s + [c];
            exists q: nat :: q < |t| && t[q].typ == Merged(e, c).typ && forall r: nat :: r < q ==> t[r].typ == TYPE_ANY
  {
    var t := s + [c];
    assert t[|s|] == c;
    assert forall q: nat :: q < |s| ==> t[q] == s[q];
    assert ORIGIN_FROM_OPCODE !in e.flags;
    if e.typ != TYPE_ANY {
      var q: nat :| q < |s| && s[q].typ == e.typ && forall r: nat :: r < q ==> s[r].typ == TYPE_ANY;
      assert t[q].typ == e.typ;
    }
  }

  // ----- Every run

  /** What one more call does to the history of a path. */
  lemma {:induction false} OneMore(past: seq<Call>, c: Call, path: Path)
    ensures var before, after := Shaping(past, path), Shaping(past + [c], path);
            (c.path != path ==> after == before)
            && (c.path == path && before == [] ==> after == if c.memory then [c] else [])
            && (c.path == path && before != [] ==> after == if FromOpcode(before) then before else before + [c])
    ensures Shaping(past, path) != [] ==> Arrival(past + [c], path) == Arrival(past, path) < |past|
    ensures Shaping(past, path) == [] && Shaping(past + [c], path) != [] ==> Arrival(past + [c], path) == |past|
  {
    assert (past + [c])[..|past|] == past;
    if Shaping(past, path) != [] {
      ShapingCalled(past, path);
    }
  }

  lemma {:induction false} MergeStep(past: seq<Call>, c: Call, list: seq<External>)
    requires Complete(past, list) && Ordered(past, list) && Find(list, c.path) < |list|
    ensures var after := CreateNewExternal(list, c).1; Complete(past + [c], after) && Ordered(past + [c], after)
  {
    hide Shaping, Arrival, Sums, Merged, FromOpcode, Stricmp;
    var k, calls, after := Find(list, c.path), past + [c], CreateNewExternal(list, c).1;
    forall q: nat | q < |after| ensures after[q].path == list[q].path && Sums(after[q], Shaping(calls, after[q].path)) {
      OneMore(past, c, list[q].path);
      MergeKeepsPath(list[k], c);
      if q == k {
        Nonempty(list[k], Shaping(past, c.path));
        MergeSums(list[k], Shaping(past, c.path), c);
      } else if k < q {
        OrderedDistinct(past, list, k, q);
      }
    }
    forall path: Path | Shaping(calls, path) != [] ensures Find(after, path) < |after| {
      OneMore(past, c, path);
      assert after[Find(list, path)].path == path;
    }
    KeepOrder(past, c, list, after);
  }

  lemma MergeKeepsPath(e: External, c: Call)
    ensures Merged(e, c).path == e.path
  {
  }

  lemma Nonempty(e: External, s: seq<Call>)
    requires Sums(e, s)
    ensures s != []
  {
  }

  lemma OrderedDistinct(calls: seq<Call>, list: seq<External>, i: nat, j: nat)
    requires Ordered(calls, list) && i < j < |list|
    ensures list[i].path != list[j].path
  {
    StricmpFlips(list[i].path, list[j].path);
    assert Before(calls, list[i].path, list[j].path);
  }

  /** A list with the same paths stays in order. */
  lemma KeepOrder(past: seq<Call>, c: Call, list: seq<External>, after: seq<External>)
    requires Complete(past, list) && Ordered(past, list) && |after| == |list|
    requires forall q: nat :: q < |list| ==> after[q].path == list[q].path
    ensures Ordered(past + [c], after)
  {
    hide Shaping, Arrival, Sums, Stricmp;
    forall i: nat, j: nat | i < j < |after| ensures Before(past + [c], after[i].path, after[j].path) {
      assert after[i].path == list[i].path && after[j].path == list[j].path;
      KeepBefore(past, c, list, i, j);
    }
  }

  lemma KeepBefore(past: seq<Call>, c: Call, list: seq<External>, i: nat, j: nat)
    requires Complete(past, list) && Ordered(past, list) && i < j < |list|
    ensures Before(past + [c], list[i].path, list[j].path)
  {
    hide Shaping, Arrival, Sums, Stricmp;
    assert Before(past, list[i].path, list[j].path);
    Nonempty(list[i], Shaping(past, list[i].path));
    Nonempty(list[j], Shaping(past, list[j].path));
    OneMore(past, c, list[i].path);
    OneMore(past, c, list[j].path);
  }

  lemma {:induction false} AddStep(past: seq<Call>, c: Call, list: seq<External>)
    requires Complete(past, list) && Ordered(past, list) && Find(list, c.path) == |list| && c.memory
    ensures var after := CreateNewExternal(list, c).1; Complete(past + [c], after) && Ordered(past + [c], after)
  {
    hide Shaping, AllSum, Stricmp, Ordered, Find, Place, CreateNewExternal;
    AddSums(past, c, list);
    AddListed(past, c, list);
    AddOrder(past, c, list);
  }

  lemma {:induction false} AddSums(past: seq<Call>, c: Call, list: seq<External>)
    requires Complete(past, list) && Find(list, c.path) == |list| && c.memory
    ensures AllSum(past + [c], CreateNewExternal(list, c).1)
  {
    hide Complete, Shaping, Arrival, Sums, Stricmp, Find, Place, CreateNewExternal, Added;
    CallCases(list, c);
    AddedLast(past, c, list);
    var p, after := Place(list, c.path), list[..Place(list, c.path)] + [Added(c)] + list[Place(list, c.path)..];
    forall q: nat | q < |after| ensures Sums(after[q], Shaping(past + [c], after[q].path)) {
      if q == p {
        OneMore(past, c, c.path);
        SumsOne(c);
      } else {
        assert after[q] == list[if q < p then q else q - 1];
        OthersSums(past, c, list, if q < p then q else q - 1);
      }
    }
  }

  lemma {:induction false} AddListed(past: seq<Call>, c: Call, list: seq<External>)
    requires Complete(past, list) && Find(list, c.path) == |list| && c.memory
    ensures AllListed(past + [c], CreateNewExternal(list, c).1)
  {
    hide Shaping, Arrival, AllSum, Stricmp, Find, Place;
    var p, after := Place(list, c.path), CreateNewExternal(list, c).1;
    forall path: Path | Shaping(past + [c], path) != [] ensures Find(after, path) < |after| {
      OneMore(past, c, path);
      var q := Find(list, path);
      assert after[p].path == c.path;
      FoundAt(list, path, q);
      FoundAt(after, path, if path == c.path then p else if q < p then q else q + 1);
    }
  }

  lemma {:induction false} FoundAt(list: seq<External>, path: Path, q: nat)
    ensures q < |list| && list[q].path == path ==> Find(list, path) < |list|
    ensures Find(list, path) < |list| ==> list[Find(list, path)].path == path
  {
  }

  lemma {:induction false} OthersSums(past: seq<Call>, c: Call, list: seq<External>, q: nat)
    requires Complete(past, list) && Find(list, c.path) == |list| && q < |list|
    ensures Sums(list[q], Shaping(past + [c], list[q].path))
  {
    hide AllListed, Sums, Shaping;
    OneMore(past, c, list[q].path);
  }

  lemma {:induction false} AddedLast(past: seq<Call>, c: Call, list: seq<External>)
    requires Complete(past, list) && Find(list, c.path) == |list|
    ensures Shaping(past, c.path) == [] && Added(c).path == c.path
  {
  }

  lemma SumsOne(c: Call)
    ensures Sums(Added(c), [c])
  {
    assert [c][0] == c;
  }

  lemma {:induction false} AddOrder(past: seq<Call>, c: Call, list: seq<External>)
    requires Complete(past, list) && Ordered(past, list) && Find(list, c.path) == |list| && c.memory
    ensures Ordered(past + [c], CreateNewExternal(list, c).1)
  {
    hide Complete, Shaping, Arrival, Sums, Stricmp, AllSum, Find, Place, CreateNewExternal, Before;
    CallCases(list, c);
    AddedLast(past, c, list);
    var p, calls, after := Place(list, c.path), past + [c], CreateNewExternal(list, c).1;
    forall i: nat, j: nat | i < j < |after| ensures Before(calls, after[i].path, after[j].path) {
      var i', j' := if i < p then i else i - 1, if j < p then j else j - 1;
      assert i != p ==> after[i] == list[i'];
      assert j != p ==> after[j] == list[j'];
      if i == p {
        AfterPlace(past, list, c.path, j');
        StrictlyBefore(calls, c.path, list[j'].path);
      } else if j == p {
        BeforePlace(past, c, list, i');
      } else {
        KeepBefore(past, c, list, i', j');
      }
    }
  }

  /** Everything from the place on sorts strictly after the path. */
  lemma {:induction false} AfterPlace(past: seq<Call>, list: seq<External>, path: Path, j: nat)
    requires Ordered(past, list) && Place(list, path) <= j < |list|
    ensures Stricmp(path, list[j].path) < 0
  {
    hide Stricmp;
    var p := Place(list, path);
    if p < j {
      assert Before(past, list[p].path, list[j].path);
      StricmpTransitive(path, list[p].path, list[j].path);
    }
  }

  lemma {:induction false} StrictlyBefore(calls: seq<Call>, a: Path, b: Path)
    requires Stricmp(a, b) < 0
    ensures Before(calls, a, b)
  {
  }

  lemma {:induction false} BeforePlace(past: seq<Call>, c: Call, list: seq<External>, i: nat)
    requires Complete(past, list) && i < Place(list, c.path) && Shaping(past, c.path) == [] && c.memory
    ensures Before(past + [c], list[i].path, c.path)
  {
    hide Shaping, Arrival, Sums, Stricmp;
    StricmpFlips(list[i].path, c.path);
    Nonempty(list[i], Shaping(past, list[i].path));
    OneMore(past, c, list[i].path);
    OneMore(past, c, c.path);
  }

  lemma {:induction false} SkipStep(past: seq<Call>, c: Call, list: seq<External>)
    requires Complete(past, list) && Ordered(past, list) && Find(list, c.path) == |list| && !c.memory
    ensures Complete(past + [c], list) && Ordered(past + [c], list)
  {
    hide Shaping, Arrival, Sums, Stricmp, Ordered;
    assert Shaping(past, c.path) == [];
    forall q: nat | q < |list| ensures Sums(list[q], Shaping(past + [c], list[q].path)) {
      OneMore(past, c, list[q].path);
    }
    forall path: Path | Shaping(past + [c], path) != [] ensures Find(list, path) < |list| {
      OneMore(past, c, path);
    }
    KeepOrder(past, c, list, list);
  }

  /** After any calls the list is in order, no path twice, each entry summing up the calls that shaped it; a path is
      listed as soon as one call for it found memory. */
  lemma {:induction false} RunIsComplete(calls: seq<Call>)
    ensures Complete(calls, RunCalls(calls)) && Ordered(calls, RunCalls(calls))
  {
    hide Complete, Ordered, Shaping;
    if calls == [] {
      NoCalls();
    } else {
      var past, c := calls[..|calls| - 1], calls[|calls| - 1];
      RunIsComplete(past);
      var list := RunCalls(past);
      assert past + [c] == calls;
      if Find(list, c.path) < |list| {
        MergeStep(past, c, list);
      } else if c.memory {
        AddStep(past, c, list);
      } else {
        SkipStep(past, c, list);
      }
    }
  }

  /** The list stands in alphabetical order, letter case apart, and paths of the same letters in the order of the calls
      that created their entries. */
  lemma {:induction false} RunIsAlphabetical(calls: seq<Call>, i: nat, j: nat)
    requires i < j < |RunCalls(calls)|
    ensures var a, b := RunCalls(calls)[i].path, RunCalls(calls)[j].path;
            Alphabetical(a, b) || (SameLetters(a, b) && Arrival(calls, a) < Arrival(calls, b))
  {
    hide RunCalls, Stricmp, Arrival, Complete, Alphabetical, SameLetters;
    RunIsComplete(calls);
    var a, b := RunCalls(calls)[i].path, RunCalls(calls)[j].path;
    assert Before(calls, a, b);
    StricmpIs(a, b);
  }

  /** The call that created an entry is the first for its path that found memory. */
  lemma {:induction false} ArrivalIsFirst(calls: seq<Call>, path: Path)
    ensures var k := Arrival(calls, path);
            && (k < |calls| ==> calls[k].path == path && calls[k].memory)
            && forall q: nat :: q < k && q < |calls| ==> !(calls[q].path == path && calls[q].memory)
  {
    if calls != [] {
      var past := calls[..|calls| - 1];
      ArrivalIsFirst(past, path);
      ShapedWhenFound(past, path);
      if Shaping(past, path) != [] {
        ShapingCalled(past, path);
      }
      forall q: nat | q < Arrival(calls, path) && q < |calls| ensures !(calls[q].path == path && calls[q].memory) {
        if q < |past| {
          assert past[q] == calls[q];
        }
      }
    }
  }

  lemma NoCalls()
    ensures Complete([], []) && Ordered([], [])
  {
  }

  /** A path stands in the list exactly when some call for it found memory, then exactly once. */
  lemma {:induction false} ListedOnce(calls: seq<Call>, path: Path)
    ensures var list := RunCalls(calls);
            (Find(list, path) < |list| <==> exists q: nat :: q < |calls| && calls[q].path == path && calls[q].memory)
            && forall i: nat, j: nat :: i < j < |list| ==> list[i].path != list[j].path
  {
    hide RunCalls;
    RunIsComplete(calls);
    var list := RunCalls(calls);
    ShapedWhenFound(calls, path);
    if Find(list, path) < |list| {
      Nonempty(list[Find(list, path)], Shaping(calls, path));
    }
    forall i: nat, j: nat | i < j < |list| ensures list[i].path != list[j].path {
      OrderedDistinct(calls, list, i, j);
    }
  }

  lemma {:induction false} ShapedWhenFound(calls: seq<Call>, path: Path)
    ensures Shaping(calls, path) != [] <==> exists q: nat :: q < |calls| && calls[q].path == path && calls[q].memory
  {
    if calls != [] {
      var past, c := calls[..|calls| - 1], calls[|calls| - 1];
      ShapedWhenFound(past, path);
      assert past + [c] == calls;
      OneMore(past, c, path);
      assert c == calls[|calls| - 1];
      if q: nat :| q < |past| && past[q].path == path && past[q].memory {
        assert calls[q] == past[q];
      }
    }
  }

  lemma {:induction false} FindStep(list: seq<External>, path: Path, k: nat)
    requires k <= Find(list, path)
    ensures k == |list| || (k < |list| && list[k].path == path) ==> k == Find(list, path)
    ensures k < |list| && list[k].path != path ==> k + 1 <= Find(list, path)
  {
  }

  lemma {:induction false} PlaceStep(list: seq<External>, path: Path, k: nat)
    requires k <= Place(list, path)
    ensures k == |list| || (k < |list| && Stricmp(path, list[k].path) < 0) ==> k == Place(list, path)
    ensures k < |list| && Stricmp(path, list[k].path) >= 0 ==> k + 1 <= Place(list, path)
    ensures Place(list, path) <= |list|
  {
  }

  lemma {:induction false} CallCases(list: seq<External>, c: Call)
    ensures Find(list, c.path) <= |list| && Place(list, c.path) <= |list|
    ensures CreateNewExternal(list, c) ==
              if Find(list, c.path) < |list| then
                (AlreadyExists, list[Find(list, c.path) := Merged(list[Find(list, c.path)], c)])
              else if !c.memory then (NoMemory, list)
              else (Created, list[..Place(list, c.path)] + [Added(c)] + list[Place(list, c.path)..])
  {
  }

  // ----- The list in place

  class ExternalNode {
    const path: Path
    const internal: nat
    var typ: nat
    var value: nat
    var flags: set<nat>
    var next: ExternalNode?

    constructor (c: Call)
      ensures path == c.path && internal == c.internal && typ == c.typ && value == c.value && flags == c.flags
      ensures next == null
    {
      path, internal, typ, value, flags, next := c.path, c.internal, c.typ, c.value, c.flags, null;
    }

    function Entry(): External
      reads this
    {
      External(path, internal, typ, value, flags)
    }

    /** What a duplicate call changes in the entry it finds. */
    method MergeCall(c: Call)
      modifies this
      ensures Entry() == Merged(old(Entry()), c) && next == old(next)
    {
      if ORIGIN_FROM_OPCODE in flags {
        return;
      }
      if typ == TYPE_ANY && c.typ != TYPE_ANY {
        typ := c.typ;
      }
      if c.value < value {
        value := c.value;
      }
      flags := (flags + c.flags) - {INTERNAL_PATH_ALLOCATED};
    }
  }

  /** strcmp on two paths. */
  method SamePath(a: Path, b: Path) returns (same: bool)
    ensures same <==> a == b
  {
    var i := 0;
    while i < |a| && i < |b| && a[i] == b[i]
      invariant i <= |a| && i <= |b| && a[..i] == b[..i]
    {
      i := i + 1;
    }
    same := i == |a| == |b|;
  }

  /** The loop that compares letter by letter. */
  method CompareNames(a: Path, b: Path) returns (order: int)
    ensures order == Stricmp(a, b)
  {
    var i := 0;
    while i < |a| && i < |b| && ToLower(a[i]) == ToLower(b[i])
      invariant i <= |a| && i <= |b| && Stricmp(a, b) == Stricmp(a[i..], b[i..])
    {
      assert a[i..][1..] == a[i + 1..] && b[i..][1..] == b[i + 1..];
      i := i + 1;
    }
    order := Front(a[i..]) - Front(b[i..]);
  }

  class ExternalList {
    var head: ExternalNode?
    ghost var nodes: seq<ExternalNode>

    /** The chain from the head is exactly `nodes`, no node twice. */
    ghost predicate Valid()
      reads this, nodes
    {
      head == At(0)
      && (forall i: nat, j: nat :: i < j < |nodes| ==> nodes[i] != nodes[j])
      && forall i: nat :: i < |nodes| ==> nodes[i].next == At(i + 1)
    }

    ghost function At(i: nat): ExternalNode?
      reads this
    {
      if i < |nodes| then nodes[i] else null
    }

    ghost function Contents(): (list: seq<External>)
      reads this, nodes
      ensures |list| == |nodes|
      ensures forall i: nat :: i < |nodes| ==> list[i] == nodes[i].Entry()
    {
      seq(|nodes|, i requires 0 <= i < |nodes| reads this, nodes => nodes[i].Entry())
    }

    constructor ()
      ensures Valid() && Contents() == []
    {
      head, nodes := null, [];
    }

    /** The entries of the nodes, one by one. */
    ghost predicate Holds(list: seq<External>)
      reads this, nodes
    {
      |list| == |nodes| && forall i: nat :: i < |nodes| ==> nodes[i].Entry() == list[i]
    }

    lemma HoldsContents(list: seq<External>)
      ensures Holds(list) <==> Contents() == list
    {
      if Holds(list) {
        assert Contents() == list;
      }
    }

    /** Walks the list looking for the path. */
    method FindPath(path: Path) returns (node: ExternalNode?)
      requires Valid()
      ensures node == At(Find(Contents(), path))
    {
      hide Find;
      ghost var list := Contents();
      node := head;
      ghost var k := 0;
      while node != null
        invariant k <= |nodes| && node == At(k) && k <= Find(list, path)
        decreases |nodes| - k
      {
        var same := SamePath(path, node.path);
        assert list[k] == nodes[k].Entry();
        FindStep(list, path, k);
        if same {
          return;
        }
        node := node.next;
        k := k + 1;
      }
      FindStep(list, path, k);
    }

    /** Walks the list to the first entry that sorts strictly after the path. */
    method FindPlace(path: Path) returns (prev: ExternalNode?, node: ExternalNode?)
      requires Valid()
      ensures var p := Place(Contents(), path); node == At(p) && prev == if p == 0 then null else At(p - 1)
    {
      hide Place, Stricmp;
      ghost var list := Contents();
      prev, node := null, head;
      ghost var k := 0;
      while node != null
        invariant k <= |nodes| && node == At(k) && prev == (if k == 0 then null else At(k - 1))
        invariant k <= Place(list, path)
        decreases |nodes| - k
      {
        var order := CompareNames(path, node.path);
        assert list[k] == nodes[k].Entry();
        PlaceStep(list, path, k);
        if order < 0 {
          return;
        }
        prev, node := node, node.next;
        k := k + 1;
      }
      PlaceStep(list, path, k);
    }

    static function NodeAt(s: seq<ExternalNode>, i: nat): ExternalNode? {
      if i < |s| then s[i] else null
    }

    /** One node relinked: the chain runs through it. */
    lemma ChainThrough(was: seq<ExternalNode>, k: nat, added: ExternalNode)
      requires k <= |was| && nodes == was[..k] + [added] + was[k..] && added !in was
      requires forall i: nat, j: nat :: i < j < |was| ==> was[i] != was[j]
      requires head == if k == 0 then added else was[0]
      requires added.next == NodeAt(was, k)
      requires forall i: nat :: i < |was| ==> was[i].next == if i + 1 == k then added else NodeAt(was, i + 1)
      ensures Valid()
    {
      forall i: nat | i < |nodes| ensures nodes[i].next == At(i + 1) {
        if i < k {
          assert nodes[i] == was[i] && nodes[i + 1] == if i + 1 < k then was[i + 1] else added;
        } else if i == k {
          assert nodes[i] == added && (i < |was| ==> nodes[i + 1] == was[i]);
        } else {
          assert nodes[i] == was[i - 1] && (i < |was| ==> nodes[i + 1] == was[i]);
        }
      }
    }

    /** Links a node in between two neighbours. */
    method LinkBetween(prev: ExternalNode?, added: ExternalNode, node: ExternalNode?, ghost k: nat)
      requires Valid() && added !in nodes && k <= |nodes|
      requires node == At(k) && prev == if k == 0 then null else At(k - 1)
      modifies this, nodes, added
      ensures Valid() && nodes == old(nodes)[..k] + [added] + old(nodes)[k..]
      ensures added.Entry() == old(added.Entry())
      ensures forall n :: n in old(nodes) ==> n.Entry() == old(n.Entry())
    {
      ghost var was := nodes;
      if prev != null {
        prev.next := added;
      } else {
        head := added;
      }
      added.next := node;
      nodes := was[..k] + [added] + was[k..];
      ChainThrough(was, k, added);
    }

    /** The entry found takes the call in. */
    method MergeInto(node: ExternalNode, c: Call, ghost k: nat)
      requires Valid() && k < |nodes| && node == nodes[k]
      modifies node
      ensures Valid()
      ensures Contents() == old(Contents())[k := Merged(old(Contents())[k], c)]
    {
      hide Merged;
      ghost var list := Contents();
      node.MergeCall(c);
      assert Holds(list[k := Merged(list[k], c)]);
      HoldsContents(list[k := Merged(list[k], c)]);
    }

    lemma HoldsInserted(was: seq<ExternalNode>, k: nat, added: ExternalNode, list: seq<External>)
      requires k <= |was| == |list| && nodes == was[..k] + [added] + was[k..]
      requires forall i: nat :: i < |was| ==> was[i].Entry() == list[i]
      ensures Holds(list[..k] + [added.Entry()] + list[k..])
    {
    }

    /** A new entry goes in before the first that sorts strictly after it. */
    method Insert(c: Call)
      requires Valid()
      modifies this, nodes
      ensures Valid() && forall n :: n in nodes && n !in old(nodes) ==> fresh(n)
      ensures var list, p := old(Contents()), Place(old(Contents()), c.path);
              p <= |list| && Contents() == list[..p] + [Added(c)] + list[p..]
    {
      hide Place, Valid, Holds;
      ghost var list, p := Contents(), Place(Contents(), c.path);
      PlaceStep(list, c.path, 0);
      var added := new ExternalNode(c);
      var prev, next := FindPlace(c.path);
      ghost var was := nodes;
      LinkBetween(prev, added, next, p);
      HoldsInserted(was, p, added, list);
      HoldsContents(list[..p] + [Added(c)] + list[p..]);
    }

    method CreateNew(c: Call) returns (status: Status)
      requires Valid()
      modifies this, nodes
      ensures Valid() && forall n :: n in nodes && n !in old(nodes) ==> fresh(n)
      ensures (status, Contents()) == CreateNewExternal(old(Contents()), c)
    {
      hide Find, Place, Merged, CreateNewExternal;
      ghost var list := Contents();
      CallCases(list, c);
      var node := FindPath(c.path);
      if node != null {
        MergeInto(node, c, Find(list, c.path));
        return AlreadyExists;
      }
      if !c.memory {
        return NoMemory;
      }
      Insert(c);
      return Created;
    }
  }
}
