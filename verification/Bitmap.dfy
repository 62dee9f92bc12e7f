/** The physical frame allocator: one bit per frame, 64 frames to a storage word. */
module FrameBitmap {
  import opened Arithmetic
  import opened Words
  import opened Wrappers

  datatype BitmapError = InitInvalidPageSize | InitNoPages | NoFreeMemory | AllocationFailure | DoubleFree

  datatype BlockAndOffset = BlockAndOffset(block: nat, offset: nat)

  // ----- The bitmap as a value: one mark per tracked frame, and the running count of free pages

  /** `marks[f]` says frame `f` is allocated; `free` is m_free_pages and `total` is m_total_pages. */
  datatype Frames = Frames(marks: seq<bool>, free: nat, total: nat)

  function Marks(words: seq<Word>): (marks: seq<bool>)
    ensures |marks| == WORD_BITS * |words|
    ensures forall f :: 0 <= f < |marks| ==> marks[f] == words[f / WORD_BITS][f % WORD_BITS]
  {
    seq(WORD_BITS * |words|, f requires 0 <= f < WORD_BITS * |words| => words[f / WORD_BITS][f % WORD_BITS])
  }

  function CountClear(marks: seq<bool>): nat {
    if marks == [] then 0
    else CountClear(marks[..|marks| - 1]) + (if marks[|marks| - 1] then 0 else 1)
  }

  /** `[lo, lo + n)` is a run of free frames. */
  predicate ClearRun(marks: seq<bool>, lo: nat, n: nat) {
    lo + n <= |marks| && forall f :: lo <= f < lo + n ==> !marks[f]
  }

  /** `[lo, lo + n)` is a run of free frames held by one storage word. */
  predicate WordRun(marks: seq<bool>, lo: nat, n: nat) {
    ClearRun(marks, lo, n) && lo % WORD_BITS + n <= WORD_BITS
  }

  /** The marks after the frames `[lo, lo + n)` are marked. */
  function MarkRun(marks: seq<bool>, lo: nat, n: nat): (after: seq<bool>)
    requires lo + n <= |marks|
    ensures |after| == |marks|
    ensures forall f :: 0 <= f < |marks| ==> after[f] == (marks[f] || lo <= f < lo + n)
  {
    seq(|marks|, f requires 0 <= f < |marks| => marks[f] || lo <= f < lo + n)
  }

  /** The free count is the clear bits plus the frames past the last whole word, which no bit tracks. */
  predicate Counted(s: Frames) {
    && |s.marks| == s.total / WORD_BITS * WORD_BITS
    && s.free == CountClear(s.marks) + s.total % WORD_BITS
  }

  // ----- Counting

  lemma {:induction false} CountUpdate(marks: seq<bool>, f: nat, mark: bool)
    requires f < |marks| && marks[f] != mark
    ensures CountClear(marks[f := mark]) == if mark then CountClear(marks) - 1 else CountClear(marks) + 1
  {
    var last := |marks| - 1;
    var after := marks[f := mark];
    if f == last {
      assert after[..last] == marks[..last];
    } else {
      CountUpdate(marks[..last], f, mark);
      assert after[..last] == marks[..last][f := mark];
    }
  }

  lemma {:induction false} CountMarkRun(marks: seq<bool>, lo: nat, n: nat)
    requires ClearRun(marks, lo, n)
    ensures CountClear(MarkRun(marks, lo, n)) == CountClear(marks) - n
  {
    if n == 0 {
      assert MarkRun(marks, lo, 0) == marks;
    } else {
      CountMarkRun(marks, lo, n - 1);
      CountUpdate(MarkRun(marks, lo, n - 1), lo + n - 1, true);
      assert MarkRun(marks, lo, n) == MarkRun(marks, lo, n - 1)[lo + n - 1 := true];
    }
  }

  lemma {:induction false} CountZero(marks: seq<bool>)
    ensures CountClear(marks) <= |marks|
    ensures CountClear(marks) == 0 <==> forall f :: 0 <= f < |marks| ==> marks[f]
  {
    if marks != [] {
      CountZero(marks[..|marks| - 1]);
      assert CountClear(marks) == 0 ==> marks[|marks| - 1];
    }
  }

  // ----- Operations on the value

  /** The lowest free frame at or above `from`. */
  function Lowest(marks: seq<bool>, from: nat): (r: Option<nat>)
    requires from <= |marks|
    ensures r.Some? ==> from <= r.value < |marks| && !marks[r.value]
    ensures r.Some? ==> forall g :: from <= g < r.value ==> marks[g]
    ensures r.None? ==> forall g :: from <= g < |marks| ==> marks[g]
    decreases |marks| - from
  {
    if from == |marks| then None
    else if !marks[from] then Some(from)
    else Lowest(marks, from + 1)
  }

  /** The lowest start at or above `from` of a run of `n` free frames inside one word. */
  function FirstRun(marks: seq<bool>, n: nat, from: nat): (r: Option<nat>)
    requires from <= |marks|
    ensures r.Some? ==> from <= r.value < |marks| && WordRun(marks, r.value, n)
    ensures r.Some? ==> forall g :: from <= g < r.value ==> !WordRun(marks, g, n)
    ensures r.None? ==> forall g :: from <= g < |marks| ==> !WordRun(marks, g, n)
    decreases |marks| - from
  {
    if from == |marks| then None
    else if WordRun(marks, from, n) then Some(from)
    else FirstRun(marks, n, from + 1)
  }

  /** A size_t counter wraps. */
  function Wrap(n: int): nat {
    n % U64
  }

  /** The page count is narrowed to a u8 on its way into the word search. */
  function Narrow(pages: nat): nat {
    pages % 256
  }

  /** The state an operation leaves and the frame it reports. */
  datatype Outcome = Outcome(state: Frames, result: Result<nat, BitmapError>)

  function AllocateFrame(s: Frames): Outcome {
    if s.free == 0 then Outcome(s, Err(NoFreeMemory))
    else match Lowest(s.marks, 0)
      case None => Outcome(s, Err(AllocationFailure))
      case Some(f) => Outcome(MarkFrame(s, f), Ok(f))
  }

  /** The least start from which the first `k` frames are clear up to frame `k`. */
  function ClearTail(marks: seq<bool>, k: nat): (lo: nat)
    requires k <= |marks|
    ensures lo <= k && (forall f :: lo <= f < k ==> !marks[f]) && (lo > 0 ==> marks[lo - 1])
  {
    if k == 0 || marks[k - 1] then k else ClearTail(marks, k - 1)
  }

  /** Marks what a mask has set in one word. */
  function MarkMask(marks: seq<bool>, block: nat, mask: Word): (after: seq<bool>)
    ensures |after| == |marks|
    ensures forall f :: 0 <= f < |marks| ==> after[f] == (marks[f] || (f / WORD_BITS == block && mask[f % WORD_BITS]))
  {
    seq(|marks|, f requires 0 <= f < |marks| => marks[f] || (f / WORD_BITS == block && mask[f % WORD_BITS]))
  }

  /** The narrowed counts the word search is written for. From 66 on its loop bound, a negative int, turns into a huge
      size_t. */
  predicate InWord(pages: nat) {
    Narrow(pages) <= WORD_BITS + 1
  }

  /** Above those counts the search looks for a clear tail of the first word and always finds one, if only the empty one
      at 64; the mask is then shifted by 64, and `wild` stands for what that gives. */
  function AllocateRun(s: Frames, pages: nat, wild: Word): Outcome {
    var n := Narrow(pages);
    if s.free == 0 then Outcome(s, Err(NoFreeMemory))
    else if InWord(pages) then
      match FirstRun(s.marks, n, 0)
      case None => Outcome(s, Err(NoFreeMemory))
      case Some(lo) => Outcome(MarkFrames(s, lo, n), Ok(lo))
    else if |s.marks| < WORD_BITS then Outcome(s, Err(NoFreeMemory))
    else
      var lo := ClearTail(s.marks, WORD_BITS);
      var mask := ShiftLeft(MakeMask(n), lo, wild);
      Outcome(MarkWord(s, 0, mask, n), Ok(lo))
  }

  function MarkFrames(s: Frames, lo: nat, n: nat): Frames
    requires lo + n <= |s.marks|
  {
    Frames(MarkRun(s.marks, lo, n), Wrap(s.free - n), s.total)
  }

  /** What set_n_allocated does with a mask and a count. */
  function MarkWord(s: Frames, block: nat, mask: Word, n: nat): Frames {
    Frames(MarkMask(s.marks, block, mask), Wrap(s.free - n), s.total)
  }

  function FreeFrame(s: Frames, f: nat): Outcome
    requires f < |s.marks|
  {
    if !s.marks[f] then Outcome(s, Err(DoubleFree))
    else Outcome(Frames(s.marks[f := false], Wrap(s.free + 1), s.total), Ok(f))
  }

  /** Marks a frame; one past the last whole word has no mark here, but is counted off all the same. */
  function MarkFrame(s: Frames, f: nat): Frames {
    Frames(if f < |s.marks| then s.marks[f := true] else s.marks, Wrap(s.free - 1), s.total)
  }

  /** What allocation does once the search has said where the lowest free frame is. */
  lemma AllocateCases(s: Frames, found: Option<nat>)
    requires found.Some? ==> found.value < |s.marks| && !s.marks[found.value]
    requires forall g :: 0 <= g < (if found.Some? then found.value else |s.marks|) ==> s.marks[g]
    ensures AllocateFrame(s) ==
            if s.free == 0 then Outcome(s, Err(NoFreeMemory))
            else if found.None? then Outcome(s, Err(AllocationFailure))
            else Outcome(MarkFrame(s, found.value), Ok(found.value))
  {
  }

  /** Allocation frame by frame: the lowest clear frame is taken and no other, and counted off; with none counted it
      fails for want of memory, with none clear for another reason, and changes nothing. */
  lemma AllocateFrameIs(s: Frames)
    requires s.free < U64
    ensures var o := AllocateFrame(s);
            && (o.result == Err(NoFreeMemory) <==> s.free == 0)
            && (o.result == Err(AllocationFailure) <==>
                  s.free > 0 && forall f: nat :: f < |s.marks| ==> s.marks[f])
            && (o.result.Err? ==> o.state == s && !o.result.error.DoubleFree?)
            && (o.result.Ok? ==>
                  var f := o.result.value;
                  && f < |s.marks| && !s.marks[f] && (forall g: nat :: g < f ==> s.marks[g])
                  && o.state == Frames(s.marks[f := true], s.free - 1, s.total))
  {
  }

  /** A frame in use is given back and counted; one that is not is refused as a double free, and nothing changes. */
  lemma FreeFrameIs(s: Frames, f: nat)
    requires f < |s.marks| && s.free + 1 < U64
    ensures FreeFrame(s, f) == if s.marks[f] then Outcome(Frames(s.marks[f := false], s.free + 1, s.total), Ok(f))
                               else Outcome(s, Err(DoubleFree))
  {
  }

  /** A contiguous request of a count that eight bits leave at 65 at most: the lowest run of so many clear frames inside
      one word of 64 is taken, and no other frame; without such a run, or a page counted, it fails and changes
      nothing. */
  lemma ContiguousIs(s: Frames, pages: nat, wild: Word)
    requires pages % 256 <= 65 && pages % 256 <= s.free < U64
    ensures var o, n := AllocateRun(s, pages, wild), pages % 256;
            && (o.result.Err? <==> s.free == 0 || forall lo: nat :: lo < |s.marks| ==> !RunAt(s.marks, lo, n))
            && (o.result.Err? ==> o == Outcome(s, Err(NoFreeMemory)))
            && (o.result.Ok? ==>
                  var lo := o.result.value;
                  && RunAt(s.marks, lo, n) && (forall g: nat :: g < lo ==> !RunAt(s.marks, g, n))
                  && |o.state.marks| == |s.marks| && o.state.total == s.total && o.state.free == s.free - n
                  && forall f: nat :: f < |s.marks| ==> o.state.marks[f] == (s.marks[f] || lo <= f < lo + n))
  {
    hide FirstRun;
    forall lo: nat ensures RunAt(s.marks, lo, pages % 256) <==> WordRun(s.marks, lo, Narrow(pages)) {
    }
    FirstRunIs(s.marks, Narrow(pages));
  }

  /** `n` clear frames from `lo` on, the bits of one word. */
  predicate RunAt(marks: seq<bool>, lo: nat, n: nat) {
    lo + n <= |marks| && lo % 64 + n <= 64 && forall f: nat :: lo <= f < lo + n ==> !marks[f]
  }

  lemma {:induction false} FirstRunIs(marks: seq<bool>, n: nat)
    ensures var r := FirstRun(marks, n, 0);
            && (r.Some? ==> r.value < |marks| && WordRun(marks, r.value, n)
                            && forall g: nat :: g < r.value ==> !WordRun(marks, g, n))
            && (r.None? ==> forall g: nat :: g < |marks| ==> !WordRun(marks, g, n))
  {
  }

  lemma AllocateRunCases(s: Frames, pages: nat, wild: Word, found: Option<nat>)
    requires InWord(pages)
    requires found.Some? ==> found.value < |s.marks| && WordRun(s.marks, found.value, Narrow(pages))
    requires forall g :: 0 <= g < (if found.Some? then found.value else |s.marks|) ==>
               !WordRun(s.marks, g, Narrow(pages))
    ensures AllocateRun(s, pages, wild) ==
            if s.free == 0 || found.None? then Outcome(s, Err(NoFreeMemory))
            else Outcome(MarkFrames(s, found.value, Narrow(pages)), Ok(found.value))
  {
  }

  lemma AllocateTailCases(s: Frames, pages: nat, wild: Word, lo: nat)
    requires !InWord(pages) && s.free > 0 && |s.marks| >= WORD_BITS
    requires lo <= WORD_BITS && (forall f :: lo <= f < WORD_BITS ==> !s.marks[f]) && (lo > 0 ==> s.marks[lo - 1])
    ensures AllocateRun(s, pages, wild) ==
            Outcome(MarkWord(s, 0, ShiftLeft(MakeMask(Narrow(pages)), lo, wild), Narrow(pages)), Ok(lo))
  {
  }

  // ----- Runs

  datatype Op = OpAllocate | OpContiguous(pages: nat, wild: Word) | OpFree(frame: nat) | OpMark(frame: nat)

  /** Frees and marks name tracked frames, only clear frames are marked by hand, and contiguous requests stay within the
      counts the search is written for. */
  predicate Legal(s: Frames, op: Op) {
    match op
    case OpFree(f) => f < |s.marks|
    case OpMark(f) => f < |s.marks| && !s.marks[f]
    case OpContiguous(pages, _) => InWord(pages)
    case OpAllocate => true
  }

  function Apply(s: Frames, op: Op): Frames
    requires Legal(s, op)
  {
    match op
    case OpAllocate => AllocateFrame(s).state
    case OpContiguous(pages, wild) => AllocateRun(s, pages, wild).state
    case OpFree(f) => FreeFrame(s, f).state
    case OpMark(f) => MarkFrame(s, f)
  }

  predicate Run(states: seq<Frames>, ops: seq<Op>) {
    && |states| == |ops| + 1
    && forall i :: 0 <= i < |ops| ==> Legal(states[i], ops[i]) && states[i + 1] == Apply(states[i], ops[i])
  }

  lemma AllocateKeepsCount(s: Frames)
    requires Counted(s) && s.total < U64
    ensures Counted(AllocateFrame(s).state)
  {
    var r := AllocateFrame(s).result;
    if r.Ok? {
      CountUpdate(s.marks, r.value, true);
      CountZero(s.marks);
    }
  }

  lemma RunIsClear(marks: seq<bool>, lo: nat, n: nat)
    requires WordRun(marks, lo, n)
    ensures ClearRun(marks, lo, n)
  {
  }

  lemma AllocateRunKeepsCount(s: Frames, pages: nat, wild: Word)
    requires Counted(s) && s.total < U64 && InWord(pages)
    ensures Counted(AllocateRun(s, pages, wild).state)
  {
    hide Narrow, FirstRun, WordRun;
    var n := Narrow(pages);
    var r := AllocateRun(s, pages, wild).result;
    if r.Ok? {
      RunIsClear(s.marks, r.value, n);
      CountMarkRun(s.marks, r.value, n);
      CountZero(s.marks);
    }
  }

  lemma {:induction false} CountSplit(a: seq<bool>, b: seq<bool>)
    ensures CountClear(a + b) == CountClear(a) + CountClear(b)
  {
    if b == [] {
      assert a + b == a;
    } else {
      CountSplit(a, b[..|b| - 1]);
      assert (a + b)[..|a + b| - 1] == a + b[..|b| - 1];
    }
  }

  lemma {:induction false} CountMore(before: seq<bool>, after: seq<bool>)
    requires |after| == |before| && forall f :: 0 <= f < |before| ==> before[f] ==> after[f]
    ensures CountClear(after) <= CountClear(before) <= |before|
  {
    if before != [] {
      CountMore(before[..|before| - 1], after[..|after| - 1]);
    }
  }

  /** A mask on the first word takes at most 64 frames. */
  lemma {:induction false} MaskTakes(marks: seq<bool>, mask: Word)
    requires |marks| >= WORD_BITS
    ensures CountClear(marks) - WORD_BITS <= CountClear(MarkMask(marks, 0, mask)) <= CountClear(marks)
  {
    var after := MarkMask(marks, 0, mask);
    assert marks == marks[..WORD_BITS] + marks[WORD_BITS..];
    assert after == after[..WORD_BITS] + marks[WORD_BITS..];
    CountSplit(marks[..WORD_BITS], marks[WORD_BITS..]);
    CountSplit(after[..WORD_BITS], marks[WORD_BITS..]);
    CountMore(marks[..WORD_BITS], after[..WORD_BITS]);
  }

  /** A contiguous request keeps the count exactly when it fails or stays within the counts the search is written
      for. */
  lemma ContiguousCounts(s: Frames, pages: nat, wild: Word)
    requires Counted(s) && s.total < U64
    ensures var o := AllocateRun(s, pages, wild); Counted(o.state) <==> o.result.Err? || InWord(pages)
  {
    hide FirstRun, MarkMask, ClearTail;
    CountZero(s.marks);
    if InWord(pages) {
      AllocateRunKeepsCount(s, pages, wild);
    } else if AllocateRun(s, pages, wild).result.Ok? {
      MaskTakes(s.marks, ShiftLeft(MakeMask(Narrow(pages)), AllocateRun(s, pages, wild).result.value, wild));
    }
  }

  lemma FreeKeepsCount(s: Frames, f: nat)
    requires Counted(s) && s.total < U64 && f < |s.marks|
    ensures Counted(FreeFrame(s, f).state)
  {
    if s.marks[f] {
      CountUpdate(s.marks, f, false);
      CountZero(s.marks[f := false]);
    }
  }

  lemma ApplyKeepsCount(s: Frames, op: Op)
    requires Counted(s) && s.total < U64 && Legal(s, op)
    ensures Counted(Apply(s, op)) && Apply(s, op).total == s.total
  {
    hide Counted;
    match op
    case OpAllocate => AllocateKeepsCount(s);
    case OpContiguous(pages, wild) => ContiguousCounts(s, pages, wild);
    case OpFree(f) => FreeKeepsCount(s, f);
    case OpMark(f) => MarkingCounts(s, f);
  }

  /** In every run m_free_pages is the number of clear bits plus m_total_pages mod 64. */
  lemma {:induction false} RunKeepsCount(states: seq<Frames>, ops: seq<Op>, i: nat)
    requires Run(states, ops) && i < |states|
    requires Counted(states[0]) && states[0].total < U64
    ensures Counted(states[i]) && states[i].total == states[0].total
  {
    if i > 0 {
      RunKeepsCount(states, ops, i - 1);
      ApplyKeepsCount(states[i - 1], ops[i - 1]);
    }
  }

  /** The count survives set_allocated exactly when the frame lies in a whole word and was clear: marking a frame twice,
      or one past the last whole word, loses a page. */
  lemma MarkingCounts(s: Frames, f: nat)
    requires Counted(s) && s.total < U64
    ensures Counted(MarkFrame(s, f)) <==> f < |s.marks| && !s.marks[f]
  {
    CountZero(s.marks);
    if f < |s.marks| && s.marks[f] {
      assert s.marks[f := true] == s.marks;
    } else if f < |s.marks| {
      CountUpdate(s.marks, f, true);
    }
  }

  /** The frames the allocator will still give, however far its count has drifted. */
  function Available(s: Frames): nat {
    if s.free < CountClear(s.marks) then s.free else CountClear(s.marks)
  }

  /** Allocation fails exactly when none is available, and otherwise takes one. */
  lemma AvailableSteps(s: Frames)
    requires s.free < U64
    ensures AllocateFrame(s).result.Err? <==> Available(s) == 0
    ensures AllocateFrame(s).result.Ok? ==> Available(AllocateFrame(s).state) == Available(s) - 1
    ensures Counted(s) ==> Available(s) == CountClear(s.marks)
  {
    CountZero(s.marks);
    if AllocateFrame(s).result.Ok? {
      CountUpdate(s.marks, AllocateFrame(s).result.value, true);
    }
  }

  /** Allocation fails exactly when every tracked frame is taken; which error it gives depends on the untracked rest. */
  lemma AllocateFailsWhenFull(s: Frames)
    requires Counted(s)
    ensures AllocateFrame(s).result.Err? <==> forall f :: 0 <= f < |s.marks| ==> s.marks[f]
    ensures AllocateFrame(s).result.Err? ==>
              AllocateFrame(s).result.error == if s.total % WORD_BITS == 0 then NoFreeMemory else AllocationFailure
  {
    CountZero(s.marks);
  }

  /** Freeing the frame just allocated gives back the same marks and the same count. */
  lemma AllocateThenFreeFrame(s: Frames)
    requires Counted(s) && s.total < U64 && AllocateFrame(s).result.Ok?
    ensures FreeFrame(AllocateFrame(s).state, AllocateFrame(s).result.value) ==
              Outcome(s, Ok(AllocateFrame(s).result.value))
  {
    var f := AllocateFrame(s).result.value;
    CountZero(s.marks);
    assert s.marks[f := true][f := false] == s.marks;
  }

  /** A contiguous request that succeeds takes as many frames as asked for exactly when it asks for at most 64. */
  lemma ContiguousIsWhole(s: Frames, pages: nat, wild: Word)
    requires AllocateRun(s, pages, wild).result.Ok?
    ensures var t := AllocateRun(s, pages, wild).state;
            CountClear(s.marks) - CountClear(t.marks) == pages <==> pages <= WORD_BITS
  {
    hide FirstRun, MarkMask, ClearTail, ClearRun, MarkRun, CountClear, InWord, ShiftLeft, MakeMask;
    var lo, n := AllocateRun(s, pages, wild).result.value, Narrow(pages);
    InWordWhole(pages);
    if InWord(pages) {
      FirstRunFits(s.marks, n);
      CountMarkRun(s.marks, lo, n);
    } else {
      MaskTakes(s.marks, ShiftLeft(MakeMask(n), lo, wild));
    }
  }

  lemma InWordWhole(pages: nat)
    ensures Narrow(pages) <= WORD_BITS ==> (Narrow(pages) == pages <==> pages <= WORD_BITS)
    ensures !InWord(pages) ==> pages > WORD_BITS
  {
  }

  lemma {:induction false} FirstRunFits(marks: seq<bool>, n: nat)
    ensures var r := FirstRun(marks, n, 0);
            r.Some? ==> r.value < |marks| && ClearRun(marks, r.value, n) && n <= WORD_BITS
  {
  }

  /** A request for more than one word's frames that the narrowing leaves above 65 succeeds wherever a page is counted
      free, in the first word, whatever that word holds; if the word's last frame is taken it reports the frame after
      the word. */
  lemma OverlongSucceeds(s: Frames, pages: nat, wild: Word)
    requires !InWord(pages) && s.free > 0 && |s.marks| >= WORD_BITS
    ensures var o := AllocateRun(s, pages, wild);
            o.result.Ok? && o.result.value <= WORD_BITS && (o.result.value == WORD_BITS <==> s.marks[WORD_BITS - 1])
  {
  }

  /** A hundred pages of two clear words: success, with 64 frames marked and a hundred pages counted off. */
  lemma HundredPages(wild: Word)
    ensures var s := Frames(seq(2 * WORD_BITS, _ => false), 2 * WORD_BITS, 2 * WORD_BITS);
            var o := AllocateRun(s, 100, wild);
            Counted(s) && o.result == Ok(0) && o.state.free == 28 && CountClear(o.state.marks) == 64
  {
    var s := Frames(seq(2 * WORD_BITS, _ => false), 2 * WORD_BITS, 2 * WORD_BITS);
    var after := AllocateRun(s, 100, wild).state.marks;
    CountAllClear(s.marks);
    AllocateTailCases(s, 100, wild, 0);
    assert after == seq(WORD_BITS, _ => true) + seq(WORD_BITS, _ => false);
    CountSplit(seq(WORD_BITS, _ => true), seq(WORD_BITS, _ => false));
    CountZero(seq(WORD_BITS, _ => true));
    CountAllClear(seq(WORD_BITS, _ => false));
  }

  // ----- Marking at boot

  /** set_allocated on one frame after another. */
  function MarkAll(s: Frames, fs: seq<nat>): (after: Frames)
    ensures |after.marks| == |s.marks| && after.total == s.total
  {
    if fs == [] then s else MarkFrame(MarkAll(s, fs[..|fs| - 1]), fs[|fs| - 1])
  }

  /** How many of the marks fall on a frame already marked, or past the last whole word. */
  function Lost(s: Frames, fs: seq<nat>): (n: nat)
    ensures n <= |fs|
  {
    if fs == [] then 0
    else
      var before, f := fs[..|fs| - 1], fs[|fs| - 1];
      Lost(s, before) + (if f < |s.marks| && !MarkAll(s, before).marks[f] then 0 else 1)
  }

  lemma WrapLess(n: int)
    ensures Wrap(Wrap(n) - 1) == Wrap(n - 1)
  {
  }

  lemma WrapShort(c: nat, n: nat)
    requires c < U64 && n < U64
    ensures Wrap(c - n) == c <==> n == 0
  {
  }

  lemma MarkOnce(t: Frames, f: nat)
    ensures CountClear(MarkFrame(t, f).marks) == CountClear(t.marks) - (if f < |t.marks| && !t.marks[f] then 1 else 0)
  {
    if f < |t.marks| {
      if t.marks[f] {
        assert t.marks[f := true] == t.marks;
      } else {
        CountUpdate(t.marks, f, true);
      }
    }
  }

  /** Marks land on their frames and on no other. */
  lemma {:induction false} MarkAllMarks(s: Frames, fs: seq<nat>, f: nat)
    requires f < |s.marks|
    ensures MarkAll(s, fs).marks[f] <==> s.marks[f] || f in fs
  {
    if fs != [] {
      var before := fs[..|fs| - 1];
      assert fs == before + [fs[|fs| - 1]];
      MarkAllMarks(s, before, f);
    }
  }

  /** The count ends up short by one page, modulo the counter's width, for each mark lost. */
  lemma {:induction false} MarkAllLeaves(s: Frames, fs: seq<nat>)
    requires Counted(s) && s.total < U64
    ensures var t := MarkAll(s, fs);
            t.free == Wrap(CountClear(t.marks) + s.total % WORD_BITS - Lost(s, fs))
  {
    hide CountClear, Wrap;
    if fs == [] {
      CountedFits(s);
    } else {
      var before, f := fs[..|fs| - 1], fs[|fs| - 1];
      MarkAllLeaves(s, before);
      var t := MarkAll(s, before);
      MarkOnce(t, f);
      WrapLess(CountClear(t.marks) + s.total % WORD_BITS - Lost(s, before));
    }
  }

  lemma CountedFits(s: Frames)
    requires |s.marks| == s.total / WORD_BITS * WORD_BITS && s.total < U64
    ensures CountClear(s.marks) + s.total % WORD_BITS < U64
    ensures Wrap(CountClear(s.marks) + s.total % WORD_BITS) == CountClear(s.marks) + s.total % WORD_BITS
  {
    CountZero(s.marks);
  }

  /** Every mark falls in a whole word, on a frame neither marked at first nor named before. */
  predicate AllFresh(s: Frames, fs: seq<nat>) {
    forall i :: 0 <= i < |fs| ==> fs[i] < |s.marks| && !s.marks[fs[i]] && fs[i] !in fs[..i]
  }

  lemma {:induction false} NoneLost(s: Frames, fs: seq<nat>)
    ensures Lost(s, fs) == 0 <==> AllFresh(s, fs)
  {
    if fs != [] {
      var before, f := fs[..|fs| - 1], fs[|fs| - 1];
      NoneLost(s, before);
      assert forall i :: 0 <= i < |before| ==> before[i] == fs[i] && before[..i] == fs[..i];
      if f < |s.marks| {
        MarkAllMarks(s, before, f);
      }
    }
  }

  /** So the count is right after the marks exactly when they name frames of whole words, clear ones, and each once. */
  lemma {:induction false} MarkAllCounts(s: Frames, fs: seq<nat>)
    requires Counted(s) && s.total < U64 && |fs| < U64
    ensures Counted(MarkAll(s, fs)) <==> AllFresh(s, fs)
  {
    hide CountClear, Wrap, MarkAll, Lost, AllFresh;
    var t := MarkAll(s, fs);
    NoneLost(s, fs);
    MarkAllSizes(s, fs);
    MarkAllLeaves(s, fs);
    CountedFits(t);
    WrapShort(CountClear(t.marks) + s.total % WORD_BITS, Lost(s, fs));
  }

  lemma {:induction false} MarkAllSizes(s: Frames, fs: seq<nat>)
    ensures |MarkAll(s, fs).marks| == |s.marks| && MarkAll(s, fs).total == s.total && Lost(s, fs) <= |fs|
  {
  }

  /** What initialisation marks: the frames in use, then all below 1 MiB, so a low frame in use is marked twice. */
  lemma LowFrameTwice()
    ensures var s := Frames(seq(512, _ => false), 512, 512);
            Counted(s) && !Counted(MarkAll(s, [3] + seq(256, i => i)))
  {
    var s, fs := Frames(seq(512, _ => false), 512, 512), [3] + seq(256, i => i);
    CountAllClear(s.marks);
    assert fs[4] == 3 && fs[..4][0] == 3;
    MarkAllCounts(s, fs);
  }

  /** A used frame past the last whole word, marked once: no repeat, and the count is a page short. */
  lemma TailFrameOnce()
    ensures var s := Frames(seq(512, _ => false), 520, 520);
            Counted(s) && !Counted(MarkAll(s, [515]))
  {
    var s := Frames(seq(512, _ => false), 520, 520);
    CountAllClear(s.marks);
    assert [515][0] == 515;
    MarkAllCounts(s, [515]);
  }

  lemma NoneCounted(s: Frames, pages: nat, wild: Word)
    requires s.free == 0
    ensures AllocateFrame(s) == AllocateRun(s, pages, wild) == Outcome(s, Err(NoFreeMemory))
  {
  }

  /** n allocations one after another, and how many of them succeed. */
  function AllocateMany(s: Frames, n: nat): (Frames, nat) {
    if n == 0 then (s, 0)
    else
      var (t, k) := AllocateMany(s, n - 1);
      (AllocateFrame(t).state, if AllocateFrame(t).result.Ok? then k + 1 else k)
  }

  /** However far the count has drifted, n allocations succeed as often as there are frames both counted and clear: the
      pages a low count has lost are never handed out. */
  lemma {:induction false} HandsOutAvailable(s: Frames, n: nat)
    requires s.free < U64
    ensures var (t, k) := AllocateMany(s, n);
            t.free < U64 && k == (if n < Available(s) then n else Available(s)) && Available(t) == Available(s) - k
  {
    hide Available;
    if n > 0 {
      HandsOutAvailable(s, n - 1);
      AvailableSteps(AllocateMany(s, n - 1).0);
    }
  }

  // ----- Storage words and addresses

  /** Rewriting one storage word changes the 64 marks it holds and no others. */
  lemma MarksOfUpdate(words: seq<Word>, block: nat, w: Word, f: nat)
    requires block < |words| && f < WORD_BITS * |words|
    ensures Marks(words[block := w])[f] == if f / WORD_BITS == block then w[f % WORD_BITS] else Marks(words)[f]
  {
  }

  lemma SetPrefixOfBlock(words: seq<Word>, block: nat, end: nat)
    requires block < |words| && end <= WORD_BITS
    requires forall k :: 0 <= k < end ==> words[block][k]
    ensures forall f :: WORD_BITS * block <= f < WORD_BITS * block + end ==> Marks(words)[f]
    ensures end < WORD_BITS ==> Marks(words)[WORD_BITS * block + end] == words[block][end]
  {
  }

  lemma MarkInWord(words: seq<Word>, block: nat, offset: nat, bit: bool, w: Word)
    requires block < |words| && offset < WORD_BITS && w == words[block][offset := bit]
    ensures Marks(words[block := w]) == Marks(words)[WORD_BITS * block + offset := bit]
  {
    var f := WORD_BITS * block + offset;
    var after := Marks(words)[f := bit];
    forall g | 0 <= g < |after|
      ensures Marks(words[block := w])[g] == after[g]
    {
      MarksOfUpdate(words, block, w, g);
    }
  }

  lemma MarkRunInWord(words: seq<Word>, block: nat, offset: nat, n: nat, w: Word)
    requires block < |words| && offset + n <= WORD_BITS
    requires w == Or(words[block], Shl(MakeMask(n), offset))
    ensures Marks(words[block := w]) == MarkRun(Marks(words), WORD_BITS * block + offset, n)
  {
    var lo := WORD_BITS * block + offset;
    forall g | 0 <= g < WORD_BITS * |words|
      ensures Marks(words[block := w])[g] == MarkRun(Marks(words), lo, n)[g]
    {
      MarksOfUpdate(words, block, w, g);
    }
  }

  lemma MarkMaskInWord(words: seq<Word>, block: nat, mask: Word)
    requires block < |words|
    ensures Marks(words[block := Or(words[block], mask)]) == MarkMask(Marks(words), block, mask)
  {
    var w := Or(words[block], mask);
    forall g | 0 <= g < WORD_BITS * |words|
      ensures Marks(words[block := w])[g] == MarkMask(Marks(words), block, mask)[g]
    {
      MarksOfUpdate(words, block, w, g);
    }
  }

  /** What a word search says of its word and its count. */
  predicate Found(word: Word, n: nat, offset: nat) {
    if n <= WORD_BITS + 1 then
      RunClear(word, offset, n) && forall k :: 0 <= k < offset ==> !RunClear(word, k, n)
    else
      offset <= WORD_BITS && TailClear(word, offset) && (offset > 0 ==> word[offset - 1])
  }

  /** What allocation does with a run found in word `block`, the earlier words having none. */
  lemma RunFound(s: Frames, words: seq<Word>, block: nat, offset: nat, pages: nat, wild: Word)
    requires s.marks == Marks(words) && block < |words| && s.free > 0 && Found(words[block], Narrow(pages), offset)
    requires if InWord(pages) then forall f :: 0 <= f < WORD_BITS * block ==> !WordRun(s.marks, f, Narrow(pages))
             else block == 0
    ensures AllocateRun(s, pages, wild) ==
            Outcome(MarkWord(s, block, ShiftLeft(MakeMask(Narrow(pages)), offset, wild), Narrow(pages)),
                    Ok(WORD_BITS * block + offset))
  {
    hide FirstRun, WordRun, AllocateRun;
    var n, lo := Narrow(pages), WORD_BITS * block + offset;
    if InWord(pages) {
      assert n == 0 ==> RunClear(words[block], 0, n);
      NoRunInBlock(words, block, offset, n);
      RunInWord(words, block, offset, n);
      AllocateRunCases(s, pages, wild, Some(lo));
      MarkRunInWord(words, block, offset, n, Or(words[block], Shl(MakeMask(n), offset)));
      MarkMaskInWord(words, block, Shl(MakeMask(n), offset));
    } else {
      assert forall f :: 0 <= f < WORD_BITS ==> s.marks[f] == words[0][f];
      AllocateTailCases(s, pages, wild, offset);
    }
  }

  lemma NoWordHasRun(s: Frames, words: seq<Word>, pages: nat, wild: Word)
    requires s.marks == Marks(words)
    requires InWord(pages) ==> forall f :: 0 <= f < |s.marks| ==> !WordRun(s.marks, f, Narrow(pages))
    requires !InWord(pages) ==> words == []
    ensures AllocateRun(s, pages, wild) == Outcome(s, Err(NoFreeMemory))
  {
    hide FirstRun, WordRun;
    if InWord(pages) {
      AllocateRunCases(s, pages, wild, None);
    }
  }

  /** A run of free frames in one word is a run of clear bits of that word. */
  lemma RunInWord(words: seq<Word>, block: nat, offset: nat, n: nat)
    requires block < |words| && offset < WORD_BITS
    ensures WordRun(Marks(words), WORD_BITS * block + offset, n) <==> RunClear(words[block], offset, n)
  {
    var lo := WORD_BITS * block + offset;
    assert lo % WORD_BITS == offset;
    if RunClear(words[block], offset, n) {
      forall f | lo <= f < lo + n ensures !Marks(words)[f] {
        assert !words[block][f - WORD_BITS * block];
      }
    }
    if WordRun(Marks(words), lo, n) {
      forall k | offset <= k < offset + n ensures !words[block][k] {
        assert !Marks(words)[WORD_BITS * block + k];
      }
    }
  }

  lemma NoRunInBlock(words: seq<Word>, block: nat, end: nat, n: nat)
    requires block < |words| && end <= WORD_BITS
    requires forall k :: 0 <= k < end ==> !RunClear(words[block], k, n)
    ensures forall f :: WORD_BITS * block <= f < WORD_BITS * block + end ==> !WordRun(Marks(words), f, n)
  {
    forall f | WORD_BITS * block <= f < WORD_BITS * block + end ensures !WordRun(Marks(words), f, n) {
      RunInWord(words, block, f - WORD_BITS * block, n);
    }
  }

  /** The address of a frame, and the block and offset the code recovers from any address inside it. */
  function FrameAddress(base: nat, pageSize: nat, f: nat): nat {
    base + f * pageSize
  }

  function BlockAddress(base: nat, blockFullSize: nat, pageSize: nat, block: nat, offset: nat): nat {
    base + block * blockFullSize + offset * pageSize
  }

  lemma BlockIsFrame(base: nat, pageSize: nat, block: nat, offset: nat)
    ensures BlockAddress(base, pageSize * WORD_BITS, pageSize, block, offset)
         == FrameAddress(base, pageSize, WORD_BITS * block + offset)
  {
  }

  function AddressToBlockAndOffset(base: nat, pageSize: nat, address: nat): BlockAndOffset
    requires base <= address && pageSize > 0
  {
    var adjusted := address - base;
    BlockAndOffset(adjusted / (pageSize * WORD_BITS), adjusted % (pageSize * WORD_BITS) / pageSize)
  }

  lemma WithinBlock(pageSize: nat, offset: nat, byte: nat)
    requires offset < WORD_BITS && byte < pageSize
    ensures offset * pageSize + byte < pageSize * WORD_BITS
  {
    assert offset * pageSize <= (WORD_BITS - 1) * pageSize;
  }

  lemma BlockRoundTrip(base: nat, pageSize: nat, block: nat, offset: nat, byte: nat)
    requires offset < WORD_BITS && byte < pageSize
    ensures AddressToBlockAndOffset(base, pageSize,
                                    BlockAddress(base, pageSize * WORD_BITS, pageSize, block, offset) + byte)
         == BlockAndOffset(block, offset)
  {
    var size, within := pageSize * WORD_BITS, offset * pageSize + byte;
    WithinBlock(pageSize, offset, byte);
    DivModUnique(block * size + within, size, block, within);
    DivModUnique(within, pageSize, offset, byte);
  }

  /** Frame to address to block and offset is the identity, for every byte of the frame. */
  lemma AddressRoundTrip(base: nat, pageSize: nat, f: nat, byte: nat)
    requires pageSize > 0 && byte < pageSize
    ensures AddressToBlockAndOffset(base, pageSize, FrameAddress(base, pageSize, f) + byte)
         == BlockAndOffset(f / WORD_BITS, f % WORD_BITS)
    ensures BlockAddress(base, pageSize * WORD_BITS, pageSize, f / WORD_BITS, f % WORD_BITS) ==
              FrameAddress(base, pageSize, f)
  {
    hide FrameAddress, BlockAddress, AddressToBlockAndOffset;
    var block, offset := f / WORD_BITS, f % WORD_BITS;
    BlockIsFrame(base, pageSize, block, offset);
    BlockRoundTrip(base, pageSize, block, offset, byte);
  }

  /** The frame an address lies in. */
  lemma FrameOfAddress(base: nat, pageSize: nat, address: nat) returns (f: nat, byte: nat)
    requires base <= address && pageSize > 0
    ensures byte < pageSize && address == FrameAddress(base, pageSize, f) + byte
    ensures f == (address - base) / pageSize
    ensures AddressToBlockAndOffset(base, pageSize, address) == BlockAndOffset(f / WORD_BITS, f % WORD_BITS)
  {
    f, byte := (address - base) / pageSize, (address - base) % pageSize;
    assert address - base == f * pageSize + byte;
    AddressRoundTrip(base, pageSize, f, byte);
  }

  lemma {:induction false} ProductAtLeast(q: nat, d: nat)
    requires d > 0
    ensures q * d >= q
  {
    if d > 1 {
      ProductAtLeast(q, d - 1);
    }
  }

  /** `ram_size / page_size`, and `base_address % page_size` being zero. */
  function PageCount(ramSize: nat, page: nat): nat
    requires page > 0
  {
    ramSize / page
  }

  predicate Aligned(base: nat, page: nat)
    requires page > 0
  {
    base % page == 0
  }

  lemma AlignedIs(base: nat, page: nat)
    requires page > 0
    ensures Aligned(base, page) <==> exists q: nat :: base == page * q
  {
    if Aligned(base, page) {
      assert base == page * (base / page);
    }
    if q: nat :| base == page * q {
      DivModUnique(base, page, q, 0);
    }
  }

  /** As many whole pages as memory has. */
  lemma MostPages(ramSize: nat, page: nat)
    requires page > 0
    ensures page * PageCount(ramSize, page) <= ramSize < page * (PageCount(ramSize, page) + 1)
  {
    var q := ramSize / page;
    assert ramSize == page * q + ramSize % page;
  }

  /** The test on a page size finds the powers of two. */
  lemma {:induction false} PowerOfTwoIs(n: nat)
    ensures PowerOfTwo(n) <==> exists k: nat :: n == Pow2(k)
  {
    if n == 1 {
      assert n == Pow2(0);
    } else if n > 0 && n % 2 == 0 {
      PowerOfTwoIs(n / 2);
      if k: nat :| n / 2 == Pow2(k) {
        assert n == Pow2(k + 1);
      }
      if k: nat :| n == Pow2(k) {
        assert k > 0;
        var j: nat := k - 1;
        assert n / 2 == Pow2(j);
      }
    } else {
      OddPowers(n);
    }
  }

  lemma OddPowers(n: nat)
    requires n != 1 && (n == 0 || n % 2 == 1)
    ensures forall k: nat :: n != Pow2(k)
  {
    forall k: nat ensures n != Pow2(k) {
      assert k > 0 ==> Pow2(k) == 2 * Pow2(k - 1);
      Pow2Positive(k);
    }
  }

  lemma {:induction false} Pow2Positive(k: nat)
    ensures Pow2(k) > 0
  {
    if k > 0 {
      Pow2Positive(k - 1);
    }
  }

  lemma PagesFit(ramSize: nat, page: nat)
    requires page > 0
    ensures PageCount(ramSize, page) <= ramSize
  {
    ProductAtLeast(ramSize / page, page);
  }

  class Bitmap {
    var pageSize: nat
    var totalPages: nat
    var freePages: nat
    var blockCount: nat
    var blockFullSize: nat
    var storage: array<Word>
    var baseAddress: nat

    ghost predicate Valid()
      reads this
    {
      && pageSize > 0
      && blockCount == totalPages / WORD_BITS
      && blockFullSize == pageSize * WORD_BITS
      && blockCount <= storage.Length
      && freePages < U64
    }

    ghost function View(): Frames
      requires Valid()
      reads this, storage
    {
      Frames(Marks(storage[..blockCount]), freePages, totalPages)
    }

    /** The address lies in one of the frames the storage tracks. */
    predicate Tracks(address: nat)
      requires pageSize > 0
      reads this
    {
      baseAddress <= address && (address - baseAddress) / pageSize < WORD_BITS * blockCount
    }

    function FrameOf(address: nat): nat
      requires pageSize > 0 && baseAddress <= address
      reads this
    {
      (address - baseAddress) / pageSize
    }

    /** The address lies in a frame whose bit the storage array holds, in a whole word of the pages or past the last. */
    predicate Stored(address: nat)
      requires pageSize > 0
      reads this
    {
      baseAddress <= address && (address - baseAddress) / pageSize < WORD_BITS * storage.Length
    }

    /** The bits of the whole storage array, the first of them the marks. */
    ghost function Bits(): (bits: seq<bool>)
      reads this, storage
    {
      Marks(storage[..])
    }

    lemma MarksAreBits()
      requires Valid()
      ensures WORD_BITS * blockCount <= |Bits()| == WORD_BITS * storage.Length
      ensures View().marks == Bits()[..WORD_BITS * blockCount]
    {
    }

    /** What the caller sees of a frame number: the frame's address. */
    function Address(r: Result<nat, BitmapError>): Result<nat, BitmapError>
      reads this
    {
      match r
      case Ok(f) => Ok(FrameAddress(baseAddress, pageSize, f))
      case Err(e) => Err(e)
    }

    constructor ()
      ensures Valid() && View() == Frames([], 0, 0)
    {
      pageSize, totalPages, freePages, blockCount, blockFullSize, baseAddress := 1, 0, 0, 0, WORD_BITS, 0;
      storage := new Word[0];
    }

    method Init(page: nat, ramSize: nat, base: nat, storageWords: array<Word>) returns (r: Result<(), BitmapError>)
      requires ramSize < U64
      requires page > 0 ==> PageCount(ramSize, page) / WORD_BITS <= storageWords.Length
      modifies this, storageWords
      ensures r == Err(InitInvalidPageSize) <==> forall k: nat :: page != Pow2(k)
      ensures r == Err(InitNoPages) <==> (exists k: nat :: page == Pow2(k)) && forall q: nat :: base != page * q
      ensures r.Err? ==> r.error.InitInvalidPageSize? || r.error.InitNoPages?
      ensures r.Ok? ==> Valid() && Counted(View())
      ensures r.Ok? ==> page * View().total <= ramSize < page * (View().total + 1)
      ensures r.Ok? ==> forall f :: 0 <= f < |View().marks| ==> !View().marks[f]
      ensures r.Ok? ==> storage == storageWords && baseAddress == base && pageSize == page
      ensures r.Err? ==> unchanged(this) && unchanged(storageWords)
    {
      hide PageCount, Aligned, PowerOfTwo, Marks;
      PowerOfTwoPositive(page);
      PowerOfTwoIs(page);
      if !PowerOfTwo(page) {
        return Err(InitInvalidPageSize);
      }
      AlignedIs(base, page);
      MostPages(ramSize, page);
      if !Aligned(base, page) {
        return Err(InitNoPages);
      }
      PagesFit(ramSize, page);
      pageSize := page;
      baseAddress := base;
      TrackPages(PageCount(ramSize, page), storageWords);
      return Ok(());
    }

    /** The tail of Init: `pages` pages, all free. */
    method TrackPages(pages: nat, storageWords: array<Word>)
      requires pageSize > 0 && pages < U64 && pages / WORD_BITS <= storageWords.Length
      modifies this, storageWords
      ensures Valid() && Counted(View()) && View().total == pages
      ensures forall f :: 0 <= f < |View().marks| ==> !View().marks[f]
      ensures storage == storageWords && baseAddress == old(baseAddress) && pageSize == old(pageSize)
    {
      totalPages := pages;
      freePages := totalPages;
      blockCount := totalPages / WORD_BITS;
      blockFullSize := pageSize * WORD_BITS;
      storage := storageWords;
      for i := 0 to blockCount
        invariant forall b :: 0 <= b < i ==> storage[b] == Filled(false)
        modifies storage
      {
        storage[i] := Filled(false);
      }
      CountAllClear(View().marks);
    }

    /** One bit of the storage array set or cleared. */
    method WriteBit(at: BlockAndOffset, bit: bool)
      requires Valid() && at.block < storage.Length && at.offset < WORD_BITS
      modifies storage
      ensures Valid() && WORD_BITS * at.block + at.offset < |old(Bits())|
      ensures Bits() == old(Bits())[WORD_BITS * at.block + at.offset := bit]
    {
      ghost var words := storage[..];
      if bit {
        storage[at.block] := Or(storage[at.block], Single(at.offset));
      } else {
        storage[at.block] := And(storage[at.block], Not(Single(at.offset)));
      }
      MarkInWord(words, at.block, at.offset, bit, storage[at.block]);
      assert storage[..] == words[at.block := storage[at.block]];
    }

    method SetAllocatedBit(at: BlockAndOffset)
      requires Valid() && at.block < storage.Length && at.offset < WORD_BITS
      modifies this`freePages, storage
      ensures Valid() && View() == MarkFrame(old(View()), WORD_BITS * at.block + at.offset)
      ensures WORD_BITS * at.block + at.offset < |old(Bits())|
      ensures Bits() == old(Bits())[WORD_BITS * at.block + at.offset := true]
    {
      hide Marks;
      MarksAreBits();
      WriteBit(at, true);
      freePages := Wrap(freePages - 1);
      MarksAreBits();
    }

    method SetAllocated(address: nat)
      requires Valid() && Stored(address)
      modifies this`freePages, storage
      ensures Valid() && View() == MarkFrame(old(View()), FrameOf(address))
      ensures FrameOf(address) < |old(Bits())| && Bits() == old(Bits())[FrameOf(address) := true]
    {
      ghost var f, _ := FrameOfAddress(baseAddress, pageSize, address);
      SetAllocatedBit(AddressToBlockAndOffset(baseAddress, pageSize, address));
    }

    method IsAllocated(address: nat) returns (b: bool)
      requires Valid() && Stored(address)
      ensures FrameOf(address) < |Bits()| && b == Bits()[FrameOf(address)]
    {
      ghost var f, _ := FrameOfAddress(baseAddress, pageSize, address);
      var at := AddressToBlockAndOffset(baseAddress, pageSize, address);
      b := And(storage[at.block], Single(at.offset)) != Filled(false);
      SingleTest(storage[at.block], at.offset);
    }

    method Allocate() returns (r: Result<nat, BitmapError>)
      requires Valid()
      modifies this`freePages, storage
      ensures Valid()
      ensures View() == AllocateFrame(old(View())).state
      ensures r == Address(AllocateFrame(old(View())).result)
    {
      hide FrameAddress, BlockAddress, AllocateFrame, MarkFrame, Marks;
      ghost var s := View();
      if freePages == 0 {
        AllocateCases(s, Lowest(s.marks, 0));
        return Err(NoFreeMemory);
      }
      for i := 0 to blockCount
        invariant Valid() && View() == s
        invariant forall f :: 0 <= f < WORD_BITS * i ==> s.marks[f]
      {
        ghost var words := storage[..blockCount];
        if storage[i] != Filled(true) {
          NotFullHasClear(storage[i]);
          var found := FindFree(storage[i]);
          match found {
            case Err(_) => assert false;
            case Ok(offset) =>
              ghost var f := WORD_BITS * i + offset;
              SetPrefixOfBlock(words, i, offset);
              AllocateCases(s, Some(f));
              BlockIsFrame(baseAddress, pageSize, i, offset);
              SetAllocatedBit(BlockAndOffset(i, offset));
              return Ok(BlockAddress(baseAddress, blockFullSize, pageSize, i, offset));
          }
        } else {
          SetPrefixOfBlock(words, i, WORD_BITS);
        }
      }
      AllocateCases(s, None);
      return Err(AllocationFailure);
    }

    /** Frees a frame whose bit is set; past the last whole word too, where no allocation finds it again. */
    method Free(address: nat) returns (r: Result<(), BitmapError>)
      requires Valid() && Stored(address)
      modifies this`freePages, storage
      ensures Valid() && FrameOf(address) < |old(Bits())|
      ensures r == if old(Bits())[FrameOf(address)] then Ok(()) else Err(DoubleFree)
      ensures r.Err? ==> View() == old(View()) && Bits() == old(Bits())
      ensures r.Ok? ==> Bits() == old(Bits())[FrameOf(address) := false]
      ensures Tracks(address) ==>
                View() == FreeFrame(old(View()), FrameOf(address)).state
                && r.Ok? == FreeFrame(old(View()), FrameOf(address)).result.Ok?
      ensures r.Ok? && !Tracks(address) ==> View() == old(View()).(free := Wrap(old(freePages) + 1))
    {
      hide Marks;
      MarksAreBits();
      var used := IsAllocated(address);
      if !used {
        return Err(DoubleFree);
      }
      ghost var f, _ := FrameOfAddress(baseAddress, pageSize, address);
      WriteBit(AddressToBlockAndOffset(baseAddress, pageSize, address), false);
      freePages := Wrap(freePages + 1);
      MarksAreBits();
      return Ok(());
    }

    method AllocateContiguous(pages: nat, wild: Word) returns (r: Result<nat, BitmapError>)
      requires Valid()
      modifies this`freePages, storage
      ensures Valid()
      ensures View() == AllocateRun(old(View()), pages, wild).state
      ensures r == Address(AllocateRun(old(View()), pages, wild).result)
    {
      hide FrameAddress, BlockAddress, Marks, WordRun, Narrow, AllocateRun, MarkWord, Found, TailClear;
      NarrowBound(pages);
      ghost var s := View();
      var n := Narrow(pages);
      if freePages == 0 {
        NoneCounted(s, pages, wild);
        return Err(NoFreeMemory);
      }
      for i := 0 to blockCount
        invariant Valid() && View() == s && (!InWord(pages) ==> i == 0)
        invariant InWord(pages) ==> forall f :: 0 <= f < WORD_BITS * i ==> !WordRun(s.marks, f, n)
      {
        ghost var words := storage[..blockCount];
        var found := FindNFree(storage[i], n);
        match found {
          case Err(_) =>
            NoRunInBlock(words, i, WORD_BITS, n);
          case Ok(offset) =>
            RunFound(s, words, i, offset, pages, wild);
            FoundOffset(words[i], n, offset);
            BlockIsFrame(baseAddress, pageSize, i, offset);
            SetNAllocated(BlockAndOffset(i, offset), n, wild);
            return Ok(BlockAddress(baseAddress, blockFullSize, pageSize, i, offset));
        }
      }
      NoWordHasRun(s, storage[..blockCount], pages, wild);
      return Err(NoFreeMemory);
    }

    method SetNAllocated(at: BlockAndOffset, n: nat, wild: Word)
      requires Valid() && at.block < blockCount
      modifies this`freePages, storage
      ensures Valid()
      ensures View() == MarkWord(old(View()), at.block, ShiftLeft(MakeMask(n), at.offset, wild), n)
    {
      ghost var words := storage[..blockCount];
      var mask := ShiftLeft(MakeMask(n), at.offset, wild);
      storage[at.block] := Or(storage[at.block], mask);
      freePages := Wrap(freePages - n);
      MarkMaskInWord(words, at.block, mask);
      assert storage[..blockCount] == words[at.block := storage[at.block]];
    }
  }

  lemma NarrowBound(pages: nat)
    ensures Narrow(pages) < 256 && (InWord(pages) <==> Narrow(pages) <= WORD_BITS + 1)
  {
  }

  lemma FoundOffset(word: Word, n: nat, offset: nat)
    requires Found(word, n, offset)
    ensures offset <= WORD_BITS
  {
  }

  /** The lowest clear bit of a word; an error exactly when the word is full. */
  method FindFree(word: Word) returns (r: Result<nat, BitmapError>)
    ensures r.Ok? ==> r.value < WORD_BITS && !word[r.value] && forall k :: 0 <= k < r.value ==> word[k]
    ensures r.Err? <==> forall k :: 0 <= k < WORD_BITS ==> word[k]
  {
    for i := 0 to WORD_BITS
      invariant forall k :: 0 <= k < i ==> word[k]
    {
      SingleTest(word, i);
      if And(word, Single(i)) == Filled(false) {
        return Ok(i);
      }
    }
    return Err(NoFreeMemory);
  }

  /** The least start of a run of `n` clear bits; an error exactly when the word has none. From 66 up the int loop bound
      is negative and wraps when compared: the search then stops at the least start of a clear tail, which it always
      finds. */
  method FindNFree(word: Word, n: nat) returns (r: Result<nat, BitmapError>)
    requires n < 256
    ensures r.Ok? ==> Found(word, n, r.value)
    ensures r.Err? <==> n <= WORD_BITS + 1 && forall k :: 0 <= k <= WORD_BITS ==> !RunClear(word, k, n)
  {
    var mask := MakeMask(n);
    var iterations := (WORD_BITS - n + 1) % U64;
    ShlStep(mask, 0);
    for i := 0 to iterations
      invariant mask == Shl(MakeMask(n), i)
      invariant n <= WORD_BITS + 1 ==> forall k :: 0 <= k < i ==> !RunClear(word, k, n)
      invariant n > WORD_BITS + 1 ==> i <= WORD_BITS && (i > 0 ==> !TailClear(word, i - 1))
    {
      if n <= WORD_BITS + 1 {
        MaskTest(word, i, n);
      } else {
        TailTest(word, i, n);
      }
      if And(mask, word) == Filled(false) {
        return Ok(i);
      }
      ShlStep(MakeMask(n), i);
      mask := Shl(mask, 1);
    }
    return Err(NoFreeMemory);
  }

  lemma {:induction false} CountAllClear(marks: seq<bool>)
    requires forall f :: 0 <= f < |marks| ==> !marks[f]
    ensures CountClear(marks) == |marks|
  {
    if marks != [] {
      CountAllClear(marks[..|marks| - 1]);
    }
  }
}
