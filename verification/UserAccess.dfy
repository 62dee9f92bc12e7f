/** What user pages may be used for: the entries the hardware walks, level by level. */
module UserAccess {
  import opened Wrappers
  import opened PageTables
  import FrameBitmap
  import BootMappings

  /** The entry the hardware comes to for a user page; zero where there is no table. */
  function UserEntry(vm: Vm, root: nat, page: nat): Entry {
    match Follow(vm.mem, Linked(vm.mem, root, 0), PdIndex(page))
    case None => ZeroEntry()
    case Some(t) => EntryAt(vm.mem, t, PtIndex(page))
  }

  /** The entry of the root that names the directory, and the directory's entry that names the page's table. */
  function RootEntry(vm: Vm, root: nat): Entry {
    EntryAt(vm.mem, root, 0)
  }

  function DirEntry(vm: Vm, root: nat, page: nat): Entry {
    match Linked(vm.mem, root, 0)
    case None => ZeroEntry()
    case Some(d) => EntryAt(vm.mem, d, PdIndex(page))
  }

  /** What a user program may do with a page that it may read. */
  datatype Access = Access(write: bool, execute: bool)

  /** The processor lets a user program at a page that is present with the user bit set in all three entries; it may
      write if all three are writeable, and execute if none forbids it. */
  function MayUse(vm: Vm, root: nat, page: nat): Option<Access> {
    var a, b, e := RootEntry(vm, root), DirEntry(vm, root, page), UserEntry(vm, root, page);
    if a.present && b.present && e.present && a.user && b.user && e.user then
      Some(Access(a.writeable && b.writeable && e.writeable, !a.noExecute && !b.noExecute && !e.noExecute))
    else None
  }

  /** An entry on the way that forbids nothing. */
  predicate Open(e: Entry) {
    e.present && e.user && e.writeable && !e.noExecute
  }

  /** No entry on the way to a user page forbids anything, and those not used yet are zero. */
  ghost predicate WaysOpen(vm: Vm, c: Context) {
    forall root, page: nat :: root in c.roots ==> WayOpen(vm, root, page)
  }

  predicate WayOpen(vm: Vm, root: nat, page: nat) {
    Open(RootEntry(vm, root)) && (DirEntry(vm, root, page) == ZeroEntry() || Open(DirEntry(vm, root, page)))
  }

  // ----- What a step leaves of the users' tables

  /** The frames that hold users' roots, directories and tables are as they were. */
  ghost predicate SameUsers(c: Context, vm: Vm, after: Vm) {
    |after.mem| == |vm.mem|
    && forall s: Slot :: (s.UserRoot? || s.UserDir? || s.UserTable?) && Target(vm, c, s).Some? ==>
         var f := Target(vm, c, s).value; f < |vm.mem| && after.mem[f] == vm.mem[f]
  }

  /** A write into, or the zeroing of, frames that hold none of these. */
  ghost predicate Apart(c: Context, owner: map<nat, Slot>, vm: Vm, after: Vm) {
    && |after.mem| == |vm.mem|
    && forall f: nat :: f in owner && f < |vm.mem|
                        && (owner[f].UserRoot? || owner[f].UserDir? || owner[f].UserTable?) ==>
                          after.mem[f] == vm.mem[f]
  }

  lemma ApartIsSame(c: Context, owner: map<nat, Slot>, vm: Vm, after: Vm)
    requires Inv(vm, c, owner) && Apart(c, owner, vm, after)
    ensures SameUsers(c, vm, after)
  {
    hide Target;
    forall s: Slot | (s.UserRoot? || s.UserDir? || s.UserTable?) && Target(vm, c, s).Some?
      ensures var f := Target(vm, c, s).value; f < |vm.mem| && after.mem[f] == vm.mem[f]
    {
      assert owner[Target(vm, c, s).value] == s;
    }
  }

  /** Then every user page's way is as it was, entry by entry. */
  lemma SameWays(vm: Vm, c: Context, after: Vm, root: nat, page: nat)
    requires SameUsers(c, vm, after) && root in c.roots
    ensures RootEntry(after, root) == RootEntry(vm, root)
    ensures DirEntry(after, root, page) == DirEntry(vm, root, page)
    ensures UserEntry(after, root, page) == UserEntry(vm, root, page)
    ensures MayUse(after, root, page) == MayUse(vm, root, page)
  {
    hide PdIndex, PtIndex;
    assert Target(vm, c, UserRoot(root)) == Some(root);
    assert Target(vm, c, UserDir(root)) == Linked(vm.mem, root, 0);
    assert Target(vm, c, UserTable(root, PdIndex(page))) ==
           Follow(vm.mem, Linked(vm.mem, root, 0), PdIndex(page));
  }

  lemma SameUsersTransitive(c: Context, a: Vm, b: Vm, d: Vm)
    requires SameUsers(c, a, b) && SameUsers(c, b, d)
    ensures SameUsers(c, a, d)
  {
    forall s: Slot | (s.UserRoot? || s.UserDir? || s.UserTable?) && Target(a, c, s).Some?
      ensures Target(b, c, s) == Target(a, c, s)
    {
      SameTargets(c, a, b, s);
    }
  }

  lemma SameTargets(c: Context, a: Vm, b: Vm, s: Slot)
    requires SameUsers(c, a, b) && (s.UserRoot? || s.UserDir? || s.UserTable?) && Target(a, c, s).Some?
    ensures Target(b, c, s) == Target(a, c, s)
  {
    if s.UserDir? || s.UserTable? {
      assert Target(a, c, UserRoot(s.root)) == Some(s.root);
      assert Target(a, c, UserDir(s.root)) == Linked(a.mem, s.root, 0);
    }
  }

  // ----- Steps of the kernel leave them alone

  lemma AllocateApart(vm: Vm, c: Context, owner: map<nat, Slot>)
    requires Inv(vm, c, owner)
    ensures Apart(c, owner, vm, AllocatePage(vm).vm)
  {
  }

  lemma TableForApart(vm: Vm, c: Context, owner: map<nat, Slot>, page: nat)
    requires Inv(vm, c, owner)
    ensures Apart(c, owner, vm, KernelTableFor(vm, page).vm)
  {
    hide PdIndex;
    AncestorsOwned(vm, c, owner, KernelDir);
    AllocateApart(vm, c, owner);
  }

  lemma UpdateApart(vm: Vm, c: Context, owner: map<nat, Slot>, page: nat, change: Entry -> Entry)
    requires Inv(vm, c, owner)
    ensures SameUsers(c, vm, UpdateKernel(vm, page, change).vm)
  {
    hide PdIndex, PtIndex;
    var w := KernelTableFor(vm, page);
    TableForApart(vm, c, owner, page);
    ApartIsSame(c, owner, vm, w.vm);
    var o := KernelTableForKeeps(vm, c, owner, page);
    if w.result.Some? {
      WriteApart(w.vm, c, o, w.result.value, PtIndex(page), change(EntryAt(w.vm.mem, w.result.value, PtIndex(page))));
      SameUsersTransitive(c, vm, w.vm, UpdateKernel(vm, page, change).vm);
    }
  }

  lemma WriteApart(vm: Vm, c: Context, owner: map<nat, Slot>, t: nat, k: nat, e: Entry)
    requires Inv(vm, c, owner) && t in owner
    requires !owner[t].UserRoot? && !owner[t].UserDir? && !owner[t].UserTable?
    ensures SameUsers(c, vm, Written(vm, t, k, e))
  {
    ApartIsSame(c, owner, vm, Written(vm, t, k, e));
  }

  // ----- A user page is mapped

  /** Two user pages that the hardware finds through the same entry. */
  predicate Coincide(r: nat, q: nat, root: nat, page: nat) {
    r == root && PdIndex(q) == PdIndex(page) && PtIndex(q) == PtIndex(page)
  }

  /** The frames on the way to a user page have the owners one expects. */
  lemma WayOwned(vm: Vm, c: Context, owner: map<nat, Slot>, root: nat, page: nat)
    requires Inv(vm, c, owner) && root in c.roots
    ensures root < |vm.mem| && root in owner && owner[root] == UserRoot(root)
    ensures Linked(vm.mem, root, 0).Some?
    ensures var d := Linked(vm.mem, root, 0).value;
            && d < |vm.mem| && d in owner && owner[d] == UserDir(root)
            && var t := Linked(vm.mem, d, PdIndex(page));
               t.Some? ==> t.value < |vm.mem| && t.value in owner && owner[t.value] == UserTable(root, PdIndex(page))
  {
    hide PdIndex;
    AncestorsOwned(vm, c, owner, UserPage(root, PdIndex(page), PtIndex(page)));
    assert Target(vm, c, UserDir(root)).Some?;
  }

  /** Linking a zeroed table into the directory changes that one entry on anyone's way. */
  lemma LinkEntries(vm: Vm, c: Context, owner: map<nat, Slot>, root: nat, page: nat, f: nat, e: Entry, r: nat, q: nat)
    requires Inv(vm, c, owner) && root in c.roots && r in c.roots
    requires f < |vm.mem| && f !in owner && vm.mem[f] == ZeroFrame() && e.present && e.frame == f
    requires Target(vm, c, UserTable(root, PdIndex(page))) == None
    ensures var after := Written(vm, Linked(vm.mem, root, 0).value, PdIndex(page), e);
            && RootEntry(after, r) == RootEntry(vm, r)
            && UserEntry(after, r, q) == UserEntry(vm, r, q)
            && DirEntry(after, r, q) == if r == root && PdIndex(q) == PdIndex(page) then e else DirEntry(vm, r, q)
  {
    hide PtIndex, PdIndex;
    WayOwned(vm, c, owner, root, page);
    WayOwned(vm, c, owner, r, q);
    var d := Linked(vm.mem, root, 0).value;
    var after := Written(vm, d, PdIndex(page), e);
    assert Linked(after.mem, r, 0) == Linked(vm.mem, r, 0);
    assert EntryAt(after.mem, f, PtIndex(q)) == ZeroEntry();
    assert Target(vm, c, UserTable(root, PdIndex(page))) == Linked(vm.mem, d, PdIndex(page));
  }

  /** The user table walker: a table made on demand is linked by an open entry, and no page's own entry changes. */
  lemma TableForEntries(vm: Vm, c: Context, owner: map<nat, Slot>, root: nat, page: nat, r: nat, q: nat)
    requires Inv(vm, c, owner) && root in c.roots && r in c.roots && WayOpen(vm, root, page)
    ensures var s := UserTableFor(vm, root, page);
            && RootEntry(s.vm, r) == RootEntry(vm, r)
            && UserEntry(s.vm, r, q) == UserEntry(vm, r, q)
            && (if r == root && PdIndex(q) == PdIndex(page) && s.result.Some? then Open(DirEntry(s.vm, r, q))
                else DirEntry(s.vm, r, q) == DirEntry(vm, r, q))
  {
    hide PtIndex, PdIndex;
    WayOwned(vm, c, owner, root, page);
    var d := Linked(vm.mem, root, 0).value;
    if Linked(vm.mem, d, PdIndex(page)) == None {
      AllocateApart(vm, c, owner);
      ApartIsSame(c, owner, vm, AllocatePage(vm).vm);
      AllocatePageKeeps(vm, c, owner);
      var a := AllocatePage(vm);
      SameWays(vm, c, a.vm, r, q);
      SameWays(vm, c, a.vm, root, page);
      if a.result.Some? {
        WayOwned(a.vm, c, owner, root, page);
        var f := a.result.value;
        var was := EntryAt(a.vm.mem, d, PdIndex(page));
        assert was == DirEntry(a.vm, root, page);
        assert Target(a.vm, c, UserTable(root, PdIndex(page))) == Linked(a.vm.mem, d, PdIndex(page));
        LinkEntries(a.vm, c, owner, root, page, f, LinkEntry(was, f).(user := true), r, q);
      }
    }
  }

  /** Writing a page's entry changes that entry and no other on anyone's way. */
  lemma WriteEntries(vm: Vm, c: Context, owner: map<nat, Slot>, root: nat, page: nat, t: nat, e: Entry, r: nat, q: nat)
    requires Inv(vm, c, owner) && root in c.roots && r in c.roots
    requires Target(vm, c, UserTable(root, PdIndex(page))) == Some(t)
    ensures var after := Written(vm, t, PtIndex(page), e);
            && RootEntry(after, r) == RootEntry(vm, r)
            && DirEntry(after, r, q) == DirEntry(vm, r, q)
            && UserEntry(after, r, q) == if Coincide(r, q, root, page) then e else UserEntry(vm, r, q)
  {
    WayOwned(vm, c, owner, root, page);
    WayOwned(vm, c, owner, r, q);
    var j := PtIndex(page);
    hide PdIndex, PtIndex;
    var after := Written(vm, t, j, e);
    assert Linked(after.mem, r, 0) == Linked(vm.mem, r, 0);
    var d := Linked(vm.mem, r, 0).value;
    assert Linked(after.mem, d, PdIndex(q)) == Linked(vm.mem, d, PdIndex(q));
  }

  /** A user page that map_user_page maps is writeable if asked for, executable if asked for, and the user's; on its way
      nothing is forbidden; and of all other user pages, this directory's and others', nothing changes. */
  lemma MapUserEntries(vm: Vm, c: Context, owner: map<nat, Slot>, root: nat, f: nat, page: nat, w: bool, x: bool,
                       r: nat, q: nat)
    requires Inv(vm, c, owner) && root in c.roots && r in c.roots && Spare(vm, c, owner, f)
    requires WayOpen(vm, root, page) && MapUserPage(vm, root, f, page, w, x).Done?
    ensures var s := MapUserPage(vm, root, f, page, w, x).step;
            if s.result.None? then s.vm == vm
            else
              && RootEntry(s.vm, r) == RootEntry(vm, r)
              && (if r == root && PdIndex(q) == PdIndex(page) then Open(DirEntry(s.vm, r, q))
                  else DirEntry(s.vm, r, q) == DirEntry(vm, r, q))
              && var e := UserEntry(s.vm, r, q);
                 if Coincide(r, q, root, page) then
                   e.present && e.user && (e.writeable <==> w) && (e.noExecute <==> !x) && e.frame == f
                 else e == UserEntry(vm, r, q)
  {
    TableForEntries(vm, c, owner, root, page, r, q);
    var o := UserTableForKeeps(vm, c, owner, root, page);
    var s := UserTableFor(vm, root, page);
    if s.result.Some? {
      assert f < PTE_FRAMES;
      hide PdIndex, PtIndex, UserTableFor, Inv, UserEntry, DirEntry, RootEntry, GrowsTo;
      WriteEntries(s.vm, c, o, root, page, s.result.value, Entry(true, w, true, !x, f % PTE_FRAMES), r, q);
    }
  }

  lemma OpenGives(vm: Vm, root: nat, page: nat)
    requires WayOpen(vm, root, page) && UserEntry(vm, root, page).present && UserEntry(vm, root, page).user
    ensures MayUse(vm, root, page) ==
            Some(Access(UserEntry(vm, root, page).writeable, !UserEntry(vm, root, page).noExecute))
  {
  }

  /** The loop's page: allocated, then mapped. */
  lemma StepEntries(vm: Vm, c: Context, owner: map<nat, Slot>, root: nat, page: nat, w: bool, x: bool, r: nat, q: nat)
    requires Inv(vm, c, owner) && root in c.roots && r in c.roots && WaysOpen(vm, c)
    requires AllocatePage(vm).result.Some?
    requires MapUserPage(AllocatePage(vm).vm, root, AllocatePage(vm).result.value, page, w, x).Done?
    ensures var s := MapUserPage(AllocatePage(vm).vm, root, AllocatePage(vm).result.value, page, w, x).step;
            && WayOpen(s.vm, r, q)
            && (if s.result.Some? && Coincide(r, q, root, page) then Granted(UserEntry(s.vm, r, q), w, x)
                else UserEntry(s.vm, r, q) == UserEntry(vm, r, q))
  {
    hide Inv, MapUserPage, UserEntry, DirEntry, RootEntry, PdIndex, PtIndex;
    AllocatePageKeeps(vm, c, owner);
    AllocateApart(vm, c, owner);
    var a := AllocatePage(vm);
    ApartIsSame(c, owner, vm, a.vm);
    hide AllocatePage, Apart, SameUsers;
    assert WayOpen(vm, root, page) && WayOpen(vm, r, q);
    SameWays(vm, c, a.vm, root, page);
    SameWays(vm, c, a.vm, r, q);
    MapUserEntries(a.vm, c, owner, root, a.result.value, page, w, x, r, q);
  }

  /** The page's own entry is the user's, present, and grants what was asked for. */
  predicate Granted(e: Entry, w: bool, x: bool) {
    e.present && e.user && (e.writeable <==> w) && (e.noExecute <==> !x)
  }

  /** allocate_user_pages leaves every mapped user page of every directory as it was, and grants what it maps the access
      asked for and no other. */
  lemma {:induction false} AllocateUserEntries(vm: Vm, c: Context, owner: map<nat, Slot>, root: nat, page: nat, n: nat,
                                               w: bool, x: bool, r: nat, q: nat)
    requires Inv(vm, c, owner) && root in c.roots && r in c.roots && WaysOpen(vm, c)
    requires AllocateUserPages(vm, root, page, n, w, x).Done?
    ensures var s := AllocateUserPages(vm, root, page, n, w, x).step;
            var was, now := UserEntry(vm, r, q), UserEntry(s.vm, r, q);
            && WayOpen(s.vm, r, q)
            && (was.present ==> now == was)
            && (now != was ==> r == root && Reaches(page, n, q) && Granted(now, w, x))
    decreases n
  {
    hide Inv, AllocatePage, MapUserPage, UserEntry, DirEntry, RootEntry, PdIndex, PtIndex, Granted, WayOpen, GrowsTo,
         Draws, SlotsKept, SameKernel, Made, FrameBitmap.Available;
    UserCounts(vm, c, owner);
    assert WayOpen(vm, r, q);
    if n > 0 && AllocatePage(vm).result.Some? {
      var a := AllocatePage(vm);
      var m := MapUserPage(a.vm, root, a.result.value, page, w, x).step;
      var o := UserPageStep(vm, c, owner, root, page, w, x);
      forall r', q': nat | r' in c.roots ensures WayOpen(m.vm, r', q') {
        StepEntries(vm, c, owner, root, page, w, x, r', q');
      }
      StepEntries(vm, c, owner, root, page, w, x, r, q);
      AllocateUserEntries(m.vm, c, o, root, page + 1, n - 1, w, x, r, q);
      SameReached(r, q, root, page);
      AbsentBefore(vm, c, owner, root, page, w, x, r, q);
    }
  }

  lemma SameReached(r: nat, q: nat, root: nat, page: nat)
    ensures Coincide(r, q, root, page) ==> q % WINDOW == page % WINDOW
  {
    SameEntry(q, page);
  }

  lemma PresentIsMapped(vm: Vm, root: nat, page: nat)
    ensures UserEntry(vm, root, page).present <==> LookupUser(vm, root, page).Some?
    ensures UserEntry(vm, root, page).present ==> LookupUser(vm, root, page) == Some(UserEntry(vm, root, page).frame)
  {
  }

  lemma CoincideEntry(vm: Vm, r: nat, q: nat, root: nat, page: nat)
    requires Coincide(r, q, root, page)
    ensures UserEntry(vm, r, q) == UserEntry(vm, root, page)
  {
  }

  /** A step that comes back found the page not mapped. */
  lemma AbsentBefore(vm: Vm, c: Context, owner: map<nat, Slot>, root: nat, page: nat, w: bool, x: bool, r: nat, q: nat)
    requires Inv(vm, c, owner) && root in c.roots && AllocatePage(vm).result.Some?
    requires MapUserPage(AllocatePage(vm).vm, root, AllocatePage(vm).result.value, page, w, x).Done?
    ensures Coincide(r, q, root, page) ==> !UserEntry(vm, r, q).present
  {
    hide Inv, AllocatePage, MapUserPage, UserEntry, LookupUser, PdIndex, PtIndex, Coincide;
    SameUserPage(vm, c, owner, root, page);
    MapUserPageStops(AllocatePage(vm).vm, c, owner, root, AllocatePage(vm).result.value, page, w, x);
    PresentIsMapped(vm, root, page);
    if Coincide(r, q, root, page) {
      CoincideEntry(vm, r, q, root, page);
    }
  }

  /** When a block has been mapped whole, a user program may use each of its pages as asked for. */
  lemma {:induction false} UserBlockAccess(vm: Vm, c: Context, owner: map<nat, Slot>, root: nat, page: nat, n: nat,
                                           w: bool, x: bool, q: nat)
    requires Inv(vm, c, owner) && root in c.roots && WaysOpen(vm, c)
    requires AllocateUserPages(vm, root, page, n, w, x).Done? && page <= q < page + n
    requires var s := AllocateUserPages(vm, root, page, n, w, x).step;
             s.result.Some? && UserMapped(s.vm, root, page, n)
    ensures MayUse(AllocateUserPages(vm, root, page, n, w, x).step.vm, root, q) == Some(Access(w, x))
    decreases n
  {
    hide Inv, AllocatePage, MapUserPage, UserEntry, DirEntry, RootEntry, PdIndex, PtIndex, WayOpen, GrowsTo, Draws,
         SlotsKept, SameKernel, Made, FrameBitmap.Available, LookupUser, UserMapped, MayUse;
    UserCounts(vm, c, owner);
    var s := AllocateUserPages(vm, root, page, n, w, x).step;
    var a := AllocatePage(vm);
    var m := MapUserPage(a.vm, root, a.result.value, page, w, x).step;
    var o := UserPageStep(vm, c, owner, root, page, w, x);
    UserCounts(m.vm, c, o);
    forall r', q': nat | r' in c.roots ensures WayOpen(m.vm, r', q') {
      StepEntries(vm, c, owner, root, page, w, x, r', q');
    }
    if m.result.None? {
      NoFrameFails(m.vm, root, page + 1, n - 1, w, x);
      NotMapped(m.vm, root, page, n);
      assert false;
    }
    if q == page {
      StepEntries(vm, c, owner, root, page, w, x, root, page);
      AllocateUserEntries(m.vm, c, o, root, page + 1, n - 1, w, x, root, page);
      OpenGives(s.vm, root, page);
    } else {
      UserMappedRest(s.vm, root, page, n);
      UserBlockAccess(m.vm, c, o, root, page + 1, n - 1, w, x, q);
    }
  }

  lemma UserMappedRest(vm: Vm, root: nat, page: nat, n: nat)
    requires UserMapped(vm, root, page, n) && n > 0
    ensures UserMapped(vm, root, page + 1, n - 1)
  {
  }

  // ----- The kernel's own calls

  lemma MapApart(vm: Vm, c: Context, owner: map<nat, Slot>, f: nat, page: nat)
    requires Inv(vm, c, owner)
    ensures SameUsers(c, vm, MapKernel(vm, f, page).vm)
  {
    UpdateApart(vm, c, owner, page, (e: Entry) => e.(present := true, writeable := true, frame := f % PTE_FRAMES));
  }

  lemma AllocateSame(vm: Vm, c: Context, owner: map<nat, Slot>)
    requires Inv(vm, c, owner)
    ensures SameUsers(c, vm, AllocatePage(vm).vm)
  {
    hide AllocatePage;
    AllocateApart(vm, c, owner);
    ApartIsSame(c, owner, vm, AllocatePage(vm).vm);
  }

  /** Moving the heap's end touches no memory. */
  lemma EndMoved(vm: Vm, c: Context, owner: map<nat, Slot>, n: nat)
    requires Inv(vm, c, owner)
    ensures SameUsers(c, vm, TakePages(vm, n).vm)
  {
    ApartIsSame(c, owner, vm, TakePages(vm, n).vm);
  }

  lemma HeapPageSame(vm: Vm, c: Context, owner: map<nat, Slot>)
    requires Inv(vm, c, owner) && AllocateHeapPage(vm).vm.next <= c.window + WINDOW
    ensures SameUsers(c, vm, AllocateHeapPage(vm).vm)
  {
    hide SameUsers, MapKernel;
    AllocatePageKeeps(vm, c, owner);
    AllocateSame(vm, c, owner);
    var a := AllocatePage(vm);
    if a.result.Some? {
      EndMoved(a.vm, c, owner, 1);
      var t := TakePages(a.vm, 1);
      SameUsersTransitive(c, vm, a.vm, t.vm);
      if t.result.Some? {
        StepKeepsNext(t.vm, a.result.value, t.result.value);
        TakePagesKeeps(a.vm, c, owner, 1);
        MapApart(t.vm, c, owner, a.result.value, t.result.value);
        SameUsersTransitive(c, vm, t.vm, AllocateHeapPage(vm).vm);
      }
    }
  }

  lemma {:induction false} BackPagesSame(vm: Vm, c: Context, owner: map<nat, Slot>, first: nat, i: nat, n: nat)
    requires Inv(vm, c, owner) && i <= n && c.heap <= first && first + n <= vm.next
    requires Unmapped(vm, first + i, first + n)
    ensures SameUsers(c, vm, BackPages(vm, first, i, n).vm)
    decreases n - i
  {
    hide Inv, AllocatePage, MapKernel, Lookup, SameUsers, GrowsTo;
    AllocateSame(vm, c, owner);
    if i < n {
      var page := first + i;
      AllocateInv(vm, c, owner);
      var owner' := BackOnePage(vm, c, owner, page);
      var a := AllocatePage(vm);
      if a.result.Some? {
        var m := MapKernel(a.vm, a.result.value, page);
        MapApart(a.vm, c, owner, a.result.value, page);
        SameUsersTransitive(c, vm, a.vm, m.vm);
        if m.result.Some? {
          StillUnmapped(vm, c, owner, m.vm, page, first + n);
          BackPagesSame(m.vm, c, owner', first, i + 1, n);
          SameUsersTransitive(c, vm, m.vm, BackPages(vm, first, i, n).vm);
        }
      }
    } else {
      Unchanged(c, owner, vm);
    }
  }

  lemma AllocateInv(vm: Vm, c: Context, owner: map<nat, Slot>)
    requires Inv(vm, c, owner)
    ensures Inv(AllocatePage(vm).vm, c, owner)
  {
    AllocatePageKeeps(vm, c, owner);
  }

  lemma Unchanged(c: Context, owner: map<nat, Slot>, vm: Vm)
    requires Inv(vm, c, owner)
    ensures SameUsers(c, vm, vm)
  {
    ApartIsSame(c, owner, vm, vm);
  }

  lemma HeapPagesSame(vm: Vm, c: Context, owner: map<nat, Slot>, n: nat)
    requires Inv(vm, c, owner) && AllocateHeapPages(vm, n).vm.next <= c.window + WINDOW
    ensures SameUsers(c, vm, AllocateHeapPages(vm, n).vm)
  {
    hide SameUsers, Lookup, BackPages;
    var t := TakePages(vm, n);
    EndMoved(vm, c, owner, n);
    if t.result.Some? {
      BackPagesKeepsNext(t.vm, vm.next, 0, n);
      TakePagesKeeps(vm, c, owner, n);
      assert Unmapped(t.vm, vm.next, vm.next + n);
      BackPagesSame(t.vm, c, owner, vm.next, 0, n);
      SameUsersTransitive(c, vm, t.vm, AllocateHeapPages(vm, n).vm);
    }
  }

  lemma FreeSame(vm: Vm, c: Context, owner: map<nat, Slot>, address: nat)
    requires Inv(vm, c, owner) && FreeHeapPage(vm, address).Done?
    ensures SameUsers(c, vm, FreeHeapPage(vm, address).step.vm)
  {
    FreeIs(vm, c, owner, address);
    AncestorsOwned(vm, c, owner, HeapPage(address / PAGE));
    hide PdIndex, PtIndex, FreeHeapPage, Translate;
    ApartIsSame(c, owner, vm, FreeHeapPage(vm, address).step.vm);
  }

  lemma {:induction false} FlagsSame(vm: Vm, c: Context, owner: map<nat, Slot>, page: nat, n: nat, w: bool, x: bool)
    requires Inv(vm, c, owner)
    ensures SameUsers(c, vm, SetPageFlags(vm, page, n, w, x).vm)
    decreases n
  {
    hide Inv, UpdateKernel, SameUsers;
    if n == 0 {
      Unchanged(c, owner, vm);
    } else {
      var u := UpdateKernel(vm, page, (e: Entry) => e.(writeable := w, noExecute := !x));
      UpdateApart(vm, c, owner, page, (e: Entry) => e.(writeable := w, noExecute := !x));
      var o := UpdateFlagsKeeps(vm, c, owner, page, w, x);
      if u.result.Some? {
        FlagsSame(u.vm, c, o, page + 1, n - 1, w, x);
        SameUsersTransitive(c, vm, u.vm, SetPageFlags(vm, page, n, w, x).vm);
      }
    }
  }

  lemma WriteSame(vm: Vm, c: Context, owner: map<nat, Slot>, slot: Slot, k: nat, e: Entry)
    requires Inv(vm, c, owner) && Target(vm, c, slot).Some? && (slot.HeapPage? || slot.UserPage?)
    ensures SameUsers(c, vm, Written(vm, Target(vm, c, slot).value, k, e))
  {
    hide Target;
    WriteApart(vm, c, owner, Target(vm, c, slot).value, k, e);
  }

  /** A new directory: the old ones' tables stay, its root names an open directory, and the directory is empty. */
  lemma NewDirectoryEntries(vm: Vm, c: Context, owner: map<nat, Slot>, q: nat)
    requires Inv(vm, c, owner)
    ensures var s := CreateUserDirectory(vm);
            && SameUsers(c, vm, s.vm)
            && (s.result.Some? ==> s.result.value !in c.roots && Open(RootEntry(s.vm, s.result.value))
                                   && DirEntry(s.vm, s.result.value, q) == ZeroEntry())
  {
    hide PdIndex;
    AllocatePageKeeps(vm, c, owner);
    AllocateApart(vm, c, owner);
    var a := AllocatePage(vm);
    if a.result.Some? {
      AllocatePageKeeps(a.vm, c, owner);
      AllocateApart(a.vm, c, owner);
      AncestorsOwned(vm, c, owner, UserDir(a.result.value));
    }
    ApartIsSame(c, owner, vm, CreateUserDirectory(vm).vm);
  }

  /** Calls other than those for user pages and directories leave the users' tables alone. */
  lemma KernelCallSame(vm: Vm, c: Context, owner: map<nat, Slot>, call: Call)
    requires Inv(vm, c, owner) && Legal(vm, c, call) && Perform(vm, c, call).Some?
    requires !call.NewDirectory? && !call.GetUserPages?
    ensures SameUsers(c, vm, Perform(vm, c, call).value.0) && Perform(vm, c, call).value.1 == c
  {
    hide Inv, SameUsers, AllocateHeapPage, AllocateHeapPages, FreeHeapPage, SetPageFlags, FreesOwn, Target;
    match call
    case GetHeapPage => HeapPageSame(vm, c, owner);
    case GetHeapPages(n) => HeapPagesSame(vm, c, owner, n);
    case FreeHeap(address) => FreeSame(vm, c, owner, address);
    case SetFlags(page, n, w, x) => FlagsSame(vm, c, owner, page, n, w, x);
    case ClientWrite(slot, k, e) => WriteSame(vm, c, owner, slot, k, e);
  }

  // ----- Runs

  /** What one call may do to a user page's entry: nothing, unless it is a call for that directory's pages that reaches
      the page before it is mapped, and then it grants what the call asks for. */
  ghost predicate EntryMoves(vm: Vm, after: Vm, call: Call, r: nat, q: nat) {
    UserEntry(after, r, q) == UserEntry(vm, r, q)
    || (call.GetUserPages? && call.root == r && Reaches(call.page, call.n, q) && !UserEntry(vm, r, q).present
        && Granted(UserEntry(after, r, q), call.write, call.execute))
  }

  lemma CallEntries(vm: Vm, c: Context, call: Call, r: nat, q: nat)
    requires Sound(vm, c) && Legal(vm, c, call) && Perform(vm, c, call).Some? && WaysOpen(vm, c) && r in c.roots
    ensures var (after, c') := Perform(vm, c, call).value;
            r in c'.roots && WayOpen(after, r, q) && EntryMoves(vm, after, call, r, q)
  {
    hide Inv, SameUsers, AllocateHeapPage, AllocateHeapPages, FreeHeapPage, SetPageFlags, FreesOwn, Target, UserEntry,
         RootEntry, DirEntry, CreateUserDirectory, AllocateUserPages, Granted, Reaches;
    var owner :| Inv(vm, c, owner);
    assert WayOpen(vm, r, q);
    var after := Perform(vm, c, call).value.0;
    match call
    case NewDirectory =>
      NewDirectoryEntries(vm, c, owner, q);
      SameWays(vm, c, after, r, q);
    case GetUserPages(root, page, n, w, x) => AllocateUserEntries(vm, c, owner, root, page, n, w, x, r, q);
    case _ =>
      KernelCallSame(vm, c, owner, call);
      SameWays(vm, c, after, r, q);
  }

  lemma CallWays(vm: Vm, c: Context, call: Call)
    requires Sound(vm, c) && Legal(vm, c, call) && Perform(vm, c, call).Some? && WaysOpen(vm, c)
    ensures WaysOpen(Perform(vm, c, call).value.0, Perform(vm, c, call).value.1)
  {
    var (after, c') := Perform(vm, c, call).value;
    forall r, q: nat | r in c'.roots ensures WayOpen(after, r, q) {
      if r in c.roots {
        CallEntries(vm, c, call, r, q);
      } else {
        var owner :| Inv(vm, c, owner);
        NewDirectoryEntries(vm, c, owner, q);
      }
    }
  }

  lemma {:induction false} RunWays(states: seq<(Vm, Context)>, calls: seq<Call>, i: nat)
    requires Run(states, calls) && i < |states|
    requires Sound(states[0].0, states[0].1) && WaysOpen(states[0].0, states[0].1)
    ensures Sound(states[i].0, states[i].1) && WaysOpen(states[i].0, states[i].1)
  {
    hide Perform, FreesOwn, StaysInside, Sensible, WaysOpen, Sound;
    RunIsSound(states, calls, i);
    if i > 0 {
      RunWays(states, calls, i - 1);
      BootMappings.RunStep(states, calls, i - 1);
      CallWays(states[i - 1].0, states[i - 1].1, calls[i - 1]);
    }
  }

  /** In every run a user page once mapped keeps its frame and what the user may do with it. */
  lemma {:induction false} RunKeepsUserPages(states: seq<(Vm, Context)>, calls: seq<Call>, i: nat, j: nat, r: nat,
                                             q: nat)
    requires Run(states, calls) && i <= j < |states| && r in states[i].1.roots
    requires Sound(states[0].0, states[0].1) && WaysOpen(states[0].0, states[0].1)
    requires LookupUser(states[i].0, r, q).Some?
    ensures r in states[j].1.roots
    ensures LookupUser(states[j].0, r, q) == LookupUser(states[i].0, r, q)
    ensures MayUse(states[i].0, r, q).Some? ==> MayUse(states[j].0, r, q) == MayUse(states[i].0, r, q)
    ensures UserEntry(states[j].0, r, q) == UserEntry(states[i].0, r, q)
  {
    hide Perform, FreesOwn, StaysInside, Sensible, WaysOpen, Sound, UserEntry, LookupUser, MayUse;
    if i < j {
      RunKeepsUserPages(states, calls, i, j - 1, r, q);
      BootMappings.RunStep(states, calls, j - 1);
      RunWays(states, calls, j - 1);
      CallEntries(states[j - 1].0, states[j - 1].1, calls[j - 1], r, q);
    }
    PresentIsMapped(states[i].0, r, q);
    PresentIsMapped(states[j].0, r, q);
    RunWays(states, calls, i);
    RunWays(states, calls, j);
    AccessOfEntry(states[i].0, states[i].1, r, q);
    AccessOfEntry(states[j].0, states[j].1, r, q);
  }

  /** Where the ways are open the page's own entry decides. */
  lemma AccessOfEntry(vm: Vm, c: Context, r: nat, q: nat)
    requires WaysOpen(vm, c) && r in c.roots
    ensures var e := UserEntry(vm, r, q);
            MayUse(vm, r, q) == if e.present && e.user then Some(Access(e.writeable, !e.noExecute)) else None
  {
    assert WayOpen(vm, r, q);
    hide PdIndex, PtIndex;
  }

  /** With no directories yet nothing is asked: so runs start. */
  lemma NoWays(vm: Vm, c: Context)
    requires c.roots == {}
    ensures WaysOpen(vm, c)
  {
  }
}
