/** The pager's buffer pool: a clock over a fixed array of frames, with a second, shadow frame
    for every page held for writing.  To its callers it is a map from page to image. */
module BufferPool {
  import opened Wal

  /** pin, wsibling and the three flags of a page frame; wsibling is the frame that shadows
      this one while its page is held for writing, or -1. */
  datatype Frame = Frame(image: Image, pg: nat, pin: nat, wsibling: int, access: bool, dirty: bool, present: bool)

  datatype Mode = S | X

  /** A page handle: the frame it reads, and in mode X the shadow frame it writes. */
  datatype Handle = Handle(mode: Mode, r: nat, w: nat)

  type Frames = seq<Frame>

  // ---------------------------------------------------------------- the invariant

  predicate Mapped(fs: Frames, table: map<nat, nat>, i: int) {
    0 <= i < |fs| && fs[i].present && fs[i].pg in table && table[fs[i].pg] == i
  }

  predicate Pinned(fs: Frames, i: int) {
    0 <= i < |fs| && fs[i].present && fs[i].pin > 0
  }

  /** s shadows the frame i. */
  predicate Shadows(fs: Frames, table: map<nat, nat>, s: int, i: int) {
    && Mapped(fs, table, i) && fs[i].wsibling == s
    && Pinned(fs, s) && !Mapped(fs, table, s)
    && fs[s].pg == fs[i].pg && fs[s].wsibling == -1
  }

  /** Every entry of the page table leads to the frame that holds its page. */
  ghost predicate TableOk(fs: Frames, table: map<nat, nat>, disk: map<nat, Image>) {
    forall pg :: pg in table ==> pg in disk && table[pg] < |fs| && fs[table[pg]].present && fs[table[pg]].pg == pg
  }

  /** A frame in the table: its pins are the handles held on its page, it equals the disk
      while clean, and if it has a shadow it is pinned and dirty. */
  ghost predicate FrameOk(fs: Frames, table: map<nat, nat>, disk: map<nat, Image>, held: multiset<nat>, i: nat)
    requires TableOk(fs, table, disk) && Mapped(fs, table, i)
  {
    var f := fs[i];
    && f.pin == held[f.pg]
    && (!f.dirty ==> f.image == disk[f.pg])
    && (f.wsibling == -1 || (f.pin > 0 && f.dirty && Shadows(fs, table, f.wsibling, i)))
  }

  /** A present frame outside the table shadows the frame of its own page. */
  ghost predicate ShadowOk(fs: Frames, table: map<nat, nat>, s: nat)
    requires s < |fs|
  {
    fs[s].pg in table && Shadows(fs, table, s, table[fs[s].pg])
  }

  /** loose is the frame that an allocation has reserved and not yet entered, or -1. */
  ghost predicate LooseOk(fs: Frames, table: map<nat, nat>, loose: int) {
    loose == -1 ||
    (Pinned(fs, loose) && !Mapped(fs, table, loose) && forall i :: Mapped(fs, table, i) ==> fs[i].wsibling != loose)
  }

  ghost predicate PoolOk(fs: Frames, table: map<nat, nat>, disk: map<nat, Image>, held: multiset<nat>, loose: int) {
    && TableOk(fs, table, disk)
    && (forall i :: Mapped(fs, table, i) ==> FrameOk(fs, table, disk, held, i))
    && (forall s :: 0 <= s < |fs| && fs[s].present && !Mapped(fs, table, s) && s != loose ==> ShadowOk(fs, table, s))
    && LooseOk(fs, table, loose)
    && (forall pg :: pg in held ==> pg in table)
  }

  /** What the pool holds of page pg: its frame, or else the file. */
  function PageAt(fs: Frames, table: map<nat, nat>, disk: map<nat, Image>, pg: nat): Image
    requires pg in disk
  {
    if pg in table && table[pg] < |fs| then fs[table[pg]].image else disk[pg]
  }

  /** What the pool holds for its callers: the last saved image of every page of the file. */
  function ContentsOf(fs: Frames, table: map<nat, nat>, disk: map<nat, Image>): map<nat, Image> {
    map pg | pg in disk :: PageAt(fs, table, disk, pg)
  }

  lemma SameContents(fs: Frames, table: map<nat, nat>, disk: map<nat, Image>,
                     fs': Frames, table': map<nat, nat>, disk': map<nat, Image>)
    requires disk'.Keys == disk.Keys
    requires forall pg :: pg in disk ==> PageAt(fs', table', disk', pg) == PageAt(fs, table, disk, pg)
    ensures ContentsOf(fs', table', disk') == ContentsOf(fs, table, disk)
  {
    var a, b := ContentsOf(fs', table', disk'), ContentsOf(fs, table, disk);
    assert a.Keys == b.Keys;
    assert forall pg :: pg in a ==> a[pg] == b[pg];
  }

  /** h is a live handle. */
  predicate HandleOk(fs: Frames, table: map<nat, nat>, h: Handle) {
    && Mapped(fs, table, h.r) && fs[h.r].pin > 0
    && (h.mode == X ==> fs[h.r].wsibling == h.w)
  }

  // ---------------------------------------------------------------- the steps, on values

  /** The frames x and y have nothing to do with any other frame: neither shadows another one
      nor is shadowed by one. */
  ghost predicate Apart(fs: Frames, table: map<nat, nat>, loose: int, x: int, y: int) {
    && (forall k :: Mapped(fs, table, k) && k != x && k != y && fs[k].wsibling != -1 ==>
          fs[k].wsibling != x && fs[k].wsibling != y)
    && (forall s :: 0 <= s < |fs| && s != x && s != y && s != loose && fs[s].present && !Mapped(fs, table, s) ==>
          fs[s].pg in table && table[fs[s].pg] != x && table[fs[s].pg] != y)
  }

  /** A page's frame and its shadow are apart from the rest. */
  lemma PairIsApart(fs: Frames, table: map<nat, nat>, disk: map<nat, Image>, held: multiset<nat>, loose: int, i: nat)
    requires PoolOk(fs, table, disk, held, loose) && Mapped(fs, table, i)
    ensures FrameOk(fs, table, disk, held, i)
    ensures Apart(fs, table, loose, i, fs[i].wsibling)
  {
    var y := fs[i].wsibling;
    assert FrameOk(fs, table, disk, held, i);
    forall k | Mapped(fs, table, k) && k != i && k != y && fs[k].wsibling != -1
      ensures fs[k].wsibling != i && fs[k].wsibling != y
    {
      assert FrameOk(fs, table, disk, held, k);
    }
    forall s | 0 <= s < |fs| && s != i && s != y && s != loose && fs[s].present && !Mapped(fs, table, s)
      ensures fs[s].pg in table && table[fs[s].pg] != i && table[fs[s].pg] != y
    {
      assert ShadowOk(fs, table, s);
    }
  }

  /** A free frame is apart from the rest, and so is a loose one. */
  lemma FreeIsApart(fs: Frames, table: map<nat, nat>, disk: map<nat, Image>, held: multiset<nat>, loose: int, r: nat)
    requires PoolOk(fs, table, disk, held, loose) && r < |fs| && (!fs[r].present || r == loose)
    ensures !Mapped(fs, table, r) && Apart(fs, table, loose, r, -1)
  {
    assert !Mapped(fs, table, r);
    forall k | Mapped(fs, table, k) && fs[k].wsibling != -1
      ensures fs[k].wsibling != r
    {
      assert FrameOk(fs, table, disk, held, k);
    }
    forall s | 0 <= s < |fs| && s != r && s != loose && fs[s].present && !Mapped(fs, table, s)
      ensures fs[s].pg in table && table[fs[s].pg] != r && table[fs[s].pg] != -1
    {
      assert ShadowOk(fs, table, s);
    }
  }

  /** From one state of the pool to another, all frames but x and y stay as they were. */
  ghost predicate Carried(fs: Frames, table: map<nat, nat>, fs': Frames, table': map<nat, nat>, x: int, y: int) {
    && |fs'| == |fs|
    && forall k :: 0 <= k < |fs| && k != x && k != y ==>
         fs'[k] == fs[k].(access := fs'[k].access) && (Mapped(fs', table', k) <==> Mapped(fs, table, k))
  }

  /** Frame z is as the pool requires. */
  ghost predicate EachOk(fs: Frames, table: map<nat, nat>, disk: map<nat, Image>, held: multiset<nat>, loose: int, z: int)
    requires TableOk(fs, table, disk)
  {
    && (Mapped(fs, table, z) ==> FrameOk(fs, table, disk, held, z))
    && (0 <= z < |fs| && fs[z].present && !Mapped(fs, table, z) && z != loose ==> ShadowOk(fs, table, z))
  }

  /** A change to two frames that are apart from the rest keeps the pool sound if the two are
      sound after it. */
  lemma PoolKept(fs: Frames, table: map<nat, nat>, disk: map<nat, Image>, held: multiset<nat>, loose: int,
                 fs': Frames, table': map<nat, nat>, disk': map<nat, Image>, held': multiset<nat>, loose': int, x: int, y: int)
    requires PoolOk(fs, table, disk, held, loose)
    requires Apart(fs, table, loose, x, y) && Carried(fs, table, fs', table', x, y)
    requires TableOk(fs', table', disk')
    requires EachOk(fs', table', disk', held', loose', x) && EachOk(fs', table', disk', held', loose', y)
    requires forall k :: Mapped(fs, table, k) && k != x && k != y ==>
      fs[k].pg in disk' && held'[fs[k].pg] == held[fs[k].pg] && disk'[fs[k].pg] == disk[fs[k].pg]
    requires LooseOk(fs', table', loose') && (loose == loose' || loose == x || loose == -1)
    requires forall pg :: pg in held' ==> pg in table'
    ensures PoolOk(fs', table', disk', held', loose')
  {
    forall k | Mapped(fs', table', k)
      ensures FrameOk(fs', table', disk', held', k)
    {
      if k != x && k != y {
        assert FrameOk(fs, table, disk, held, k);
      }
    }
    forall s | 0 <= s < |fs'| && fs'[s].present && !Mapped(fs', table', s) && s != loose'
      ensures ShadowOk(fs', table', s)
    {
      if s != x && s != y {
        assert ShadowOk(fs, table, s);
      }
    }
  }

  /** An unpinned present frame is in the table and has no shadow. */
  lemma UnpinnedIsMapped(fs: Frames, table: map<nat, nat>, disk: map<nat, Image>, held: multiset<nat>, loose: int, i: nat)
    requires PoolOk(fs, table, disk, held, loose) && i < |fs| && fs[i].present && fs[i].pin == 0
    ensures Mapped(fs, table, i) && fs[i].wsibling == -1 && held[fs[i].pg] == 0
    ensures !fs[i].dirty ==> fs[i].image == disk[fs[i].pg]
  {
    forall s | 0 <= s < |fs| && fs[s].present && !Mapped(fs, table, s) && s != loose
      ensures Pinned(fs, s)
    {
      assert ShadowOk(fs, table, s);
    }
    assert FrameOk(fs, table, disk, held, i);
  }

  /** So it may be evicted: the page goes back to the file and its contents stay the same. */
  lemma EvictKeeps(fs: Frames, table: map<nat, nat>, disk: map<nat, Image>, held: multiset<nat>, loose: int, i: nat)
    requires PoolOk(fs, table, disk, held, loose) && i < |fs| && fs[i].present && fs[i].pin == 0
    ensures Mapped(fs, table, i) && fs[i].wsibling == -1
    ensures var f := fs[i];
            var fs' := fs[i := f.(access := false, dirty := false, present := false)];
            var disk' := if f.dirty then disk[f.pg := f.image] else disk;
            && PoolOk(fs', table - {f.pg}, disk', held, loose)
            && ContentsOf(fs', table - {f.pg}, disk') == ContentsOf(fs, table, disk)
  {
    UnpinnedIsMapped(fs, table, disk, held, loose, i);
    PairIsApart(fs, table, disk, held, loose, i);
    hide FrameOk, Apart;
    var f := fs[i];
    var fs', table' := fs[i := f.(access := false, dirty := false, present := false)], table - {f.pg};
    var disk' := if f.dirty then disk[f.pg := f.image] else disk;
    PoolKept(fs, table, disk, held, loose, fs', table', disk', held, loose, i, -1);
    assert TableOk(fs, table, disk);
    hide PoolOk, ContentsOf;
    SameContents(fs, table, disk, fs', table', disk');
  }

  /** Clearing the access bit of a frame changes nothing the pool promises. */
  lemma AccessIsFree(fs: Frames, table: map<nat, nat>, disk: map<nat, Image>, held: multiset<nat>, loose: int, i: nat)
    requires PoolOk(fs, table, disk, held, loose) && i < |fs|
    ensures var fs' := fs[i := fs[i].(access := false)];
            PoolOk(fs', table, disk, held, loose) && ContentsOf(fs', table, disk) == ContentsOf(fs, table, disk)
  {
    var fs' := fs[i := fs[i].(access := false)];
    assert Apart(fs, table, loose, -1, -1) by {
      forall s | 0 <= s < |fs| && s != loose && fs[s].present && !Mapped(fs, table, s)
        ensures fs[s].pg in table && table[fs[s].pg] != -1
      {
        assert ShadowOk(fs, table, s);
      }
    }
    hide FrameOk, ShadowOk, Apart;
    PoolKept(fs, table, disk, held, loose, fs', table, disk, held, loose, -1, -1);
    assert TableOk(fs, table, disk);
    hide PoolOk, ContentsOf;
    SameContents(fs, table, disk, fs', table, disk);
  }

  /** Loading a page that is not in the table into a free frame. */
  lemma LoadKeeps(fs: Frames, table: map<nat, nat>, disk: map<nat, Image>, held: multiset<nat>, i: nat, pg: nat)
    requires PoolOk(fs, table, disk, held, -1) && i < |fs| && !fs[i].present && pg !in table && pg in disk
    ensures var fs' := fs[i := Frame(disk[pg], pg, 1, -1, true, false, true)];
            && PoolOk(fs', table[pg := i], disk, held + multiset{pg}, -1)
            && ContentsOf(fs', table[pg := i], disk) == ContentsOf(fs, table, disk)
            && Mapped(fs', table[pg := i], i)
  {
    var fs', table' := fs[i := Frame(disk[pg], pg, 1, -1, true, false, true)], table[pg := i];
    assert held[pg] == 0;
    FreeIsApart(fs, table, disk, held, -1, i);
    assert TableOk(fs', table', disk);
    assert FrameOk(fs', table', disk, held + multiset{pg}, i);
    hide FrameOk, ShadowOk, Apart;
    PoolKept(fs, table, disk, held, -1, fs', table', disk, held + multiset{pg}, -1, i, -1);
    assert TableOk(fs, table, disk);
    hide PoolOk, ContentsOf;
    SameContents(fs, table, disk, fs', table', disk);
  }

  /** Another handle on a page in the table, or one less. */
  lemma PinKeeps(fs: Frames, table: map<nat, nat>, disk: map<nat, Image>, held: multiset<nat>, held': multiset<nat>, i: nat)
    requires PoolOk(fs, table, disk, held, -1) && Mapped(fs, table, i)
    requires held' == held[fs[i].pg := held'[fs[i].pg]]
    requires fs[i].wsibling == -1 || held'[fs[i].pg] > 0
    ensures var fs' := fs[i := fs[i].(pin := held'[fs[i].pg])];
            PoolOk(fs', table, disk, held', -1) && ContentsOf(fs', table, disk) == ContentsOf(fs, table, disk)
  {
    var fs', y := fs[i := fs[i].(pin := held'[fs[i].pg])], fs[i].wsibling;
    PairIsApart(fs, table, disk, held, -1, i);
    assert TableOk(fs', table, disk);
    assert EachOk(fs', table, disk, held', -1, i);
    assert EachOk(fs', table, disk, held', -1, y);
    hide FrameOk, ShadowOk, Apart, EachOk;
    PoolKept(fs, table, disk, held, -1, fs', table, disk, held', -1, i, y);
    assert TableOk(fs, table, disk);
    hide PoolOk, ContentsOf;
    SameContents(fs, table, disk, fs', table, disk);
  }

  /** Giving a pinned frame a shadow: the free frame s takes a copy of it. */
  lemma ShadowKeeps(fs: Frames, table: map<nat, nat>, disk: map<nat, Image>, held: multiset<nat>, i: nat, s: nat)
    requires PoolOk(fs, table, disk, held, -1) && Mapped(fs, table, i) && fs[i].pin > 0 && fs[i].wsibling == -1
    requires s < |fs| && !fs[s].present
    ensures var fs' := fs[i := fs[i].(dirty := true, wsibling := s)]
                         [s := Frame(fs[i].image, fs[i].pg, 2, -1, false, false, true)];
            && PoolOk(fs', table, disk, held, -1)
            && ContentsOf(fs', table, disk) == ContentsOf(fs, table, disk)
            && Shadows(fs', table, s, i)
  {
    var fs' := fs[i := fs[i].(dirty := true, wsibling := s)][s := Frame(fs[i].image, fs[i].pg, 2, -1, false, false, true)];
    PairIsApart(fs, table, disk, held, -1, i);
    FreeIsApart(fs, table, disk, held, -1, s);
    assert TableOk(fs', table, disk);
    assert Shadows(fs', table, s, i);
    assert EachOk(fs', table, disk, held, -1, i);
    assert EachOk(fs', table, disk, held, -1, s);
    assert Apart(fs, table, -1, i, s);
    hide FrameOk, ShadowOk, Apart, EachOk;
    PoolKept(fs, table, disk, held, -1, fs', table, disk, held, -1, i, s);
    assert TableOk(fs, table, disk);
    hide PoolOk, ContentsOf;
    SameContents(fs, table, disk, fs', table, disk);
  }

  /** Writing to a shadow is not seen through the pool. */
  lemma WriteKeeps(fs: Frames, table: map<nat, nat>, disk: map<nat, Image>, held: multiset<nat>, i: nat, image: Image)
    requires PoolOk(fs, table, disk, held, -1) && Mapped(fs, table, i) && fs[i].wsibling >= 0
    ensures Shadows(fs, table, fs[i].wsibling, i)
    ensures var s := fs[i].wsibling;
            var fs' := fs[s := fs[s].(image := image)];
            PoolOk(fs', table, disk, held, -1) && ContentsOf(fs', table, disk) == ContentsOf(fs, table, disk)
  {
    PairIsApart(fs, table, disk, held, -1, i);
    var s := fs[i].wsibling;
    var fs' := fs[s := fs[s].(image := image)];
    assert Shadows(fs, table, s, i);
    assert TableOk(fs', table, disk);
    assert EachOk(fs', table, disk, held, -1, i);
    assert EachOk(fs', table, disk, held, -1, s);
    hide FrameOk, ShadowOk, Apart, EachOk;
    PoolKept(fs, table, disk, held, -1, fs', table, disk, held, -1, i, s);
    assert forall pg :: pg in table ==> Mapped(fs, table, table[pg]);
    assert TableOk(fs, table, disk);
    hide PoolOk, ContentsOf;
    SameContents(fs, table, disk, fs', table, disk);
  }

  /** Dropping a shadow; the page takes the image given, its own for a cancel, the shadow's
      for a save. */
  lemma UnshadowKeeps(fs: Frames, table: map<nat, nat>, disk: map<nat, Image>, held: multiset<nat>, i: nat, image: Image)
    requires PoolOk(fs, table, disk, held, -1) && Mapped(fs, table, i) && fs[i].wsibling >= 0
    ensures Shadows(fs, table, fs[i].wsibling, i)
    ensures var s := fs[i].wsibling;
            var fs' := fs[s := fs[s].(access := false, dirty := false, present := false)][i := fs[i].(image := image, wsibling := -1)];
            && PoolOk(fs', table, disk, held, -1)
            && ContentsOf(fs', table, disk) == ContentsOf(fs, table, disk)[fs[i].pg := image]
  {
    PairIsApart(fs, table, disk, held, -1, i);
    var s := fs[i].wsibling;
    var fs' := fs[s := fs[s].(access := false, dirty := false, present := false)][i := fs[i].(image := image, wsibling := -1)];
    assert TableOk(fs', table, disk);
    assert EachOk(fs', table, disk, held, -1, i);
    hide FrameOk, ShadowOk, Apart;
    PoolKept(fs, table, disk, held, -1, fs', table, disk, held, -1, i, s);
  }

  /** Reserving a free frame for a page that does not exist yet. */
  lemma LooseKeeps(fs: Frames, table: map<nat, nat>, disk: map<nat, Image>, held: multiset<nat>, r: nat, image: Image)
    requires PoolOk(fs, table, disk, held, -1) && r < |fs| && !fs[r].present
    ensures var fs' := fs[r := Frame(image, fs[r].pg, 1, -1, true, false, true)];
            PoolOk(fs', table, disk, held, r) && ContentsOf(fs', table, disk) == ContentsOf(fs, table, disk)
  {
    var fs' := fs[r := Frame(image, fs[r].pg, 1, -1, true, false, true)];
    FreeIsApart(fs, table, disk, held, -1, r);
    assert TableOk(fs', table, disk);
    assert !Mapped(fs', table, r);
    assert LooseOk(fs', table, r);
    hide FrameOk, ShadowOk, Apart, LooseOk;
    PoolKept(fs, table, disk, held, -1, fs', table, disk, held, r, r, -1);
    assert TableOk(fs, table, disk);
    hide PoolOk, ContentsOf;
    SameContents(fs, table, disk, fs', table, disk);
  }

  lemma UnlooseKeeps(fs: Frames, table: map<nat, nat>, disk: map<nat, Image>, held: multiset<nat>, r: nat)
    requires r < |fs| && PoolOk(fs, table, disk, held, r)
    ensures var fs' := fs[r := fs[r].(pin := 0, access := false, dirty := false, present := false)];
            PoolOk(fs', table, disk, held, -1) && ContentsOf(fs', table, disk) == ContentsOf(fs, table, disk)
  {
    var fs' := fs[r := fs[r].(pin := 0, access := false, dirty := false, present := false)];
    FreeIsApart(fs, table, disk, held, r, r);
    assert TableOk(fs', table, disk);
    hide FrameOk, ShadowOk, Apart;
    PoolKept(fs, table, disk, held, r, fs', table, disk, held, -1, r, -1);
    assert TableOk(fs, table, disk);
    hide PoolOk, ContentsOf;
    SameContents(fs, table, disk, fs', table, disk);
  }

  /** The file has grown by page pg: the loose frame r becomes its frame, w its shadow. */
  lemma EnterKeeps(fs: Frames, table: map<nat, nat>, disk: map<nat, Image>, held: multiset<nat>,
                   r: nat, w: nat, pg: nat, file: Image)
    requires r < |fs| && w < |fs| && PoolOk(fs, table, disk, held, r) && !fs[w].present
    requires fs[r].pin == 1 && fs[r].wsibling == -1 && pg !in disk && pg !in table
    ensures var fs' := fs[r := fs[r].(wsibling := w, pg := pg, dirty := true)][w := Frame(fs[r].image, pg, 1, -1, false, false, true)];
            var table', disk' := table[pg := r], disk[pg := file];
            && PoolOk(fs', table', disk', held + multiset{pg}, -1)
            && ContentsOf(fs', table', disk') == ContentsOf(fs, table, disk)[pg := fs[r].image]
            && Shadows(fs', table', w, r)
  {
    var fs' := fs[r := fs[r].(wsibling := w, pg := pg, dirty := true)][w := Frame(fs[r].image, pg, 1, -1, false, false, true)];
    var table', disk', held' := table[pg := r], disk[pg := file], held + multiset{pg};
    assert held[pg] == 0;
    FreeIsApart(fs, table, disk, held, r, r);
    FreeIsApart(fs, table, disk, held, r, w);
    assert Apart(fs, table, r, r, w);
    EnterEach(fs, table, disk, held, r, w, pg, file);
    EnterContents(fs, table, disk, r, w, pg, file);
    hide FrameOk, ShadowOk, Apart, EachOk, Shadows, ContentsOf;
    PoolKept(fs, table, disk, held, r, fs', table', disk', held', -1, r, w);
  }

  lemma EnterEach(fs: Frames, table: map<nat, nat>, disk: map<nat, Image>, held: multiset<nat>,
                  r: nat, w: nat, pg: nat, file: Image)
    requires r < |fs| && w < |fs| && r != w && TableOk(fs, table, disk) && fs[r].present && fs[r].pin == 1
    requires !Mapped(fs, table, r) && !Mapped(fs, table, w) && pg !in disk && pg !in table && held[pg] == 0
    ensures var fs' := fs[r := fs[r].(wsibling := w, pg := pg, dirty := true)][w := Frame(fs[r].image, pg, 1, -1, false, false, true)];
            var table', disk', held' := table[pg := r], disk[pg := file], held + multiset{pg};
            && TableOk(fs', table', disk')
            && EachOk(fs', table', disk', held', -1, r) && EachOk(fs', table', disk', held', -1, w)
            && Shadows(fs', table', w, r)
  {
    assert forall q :: q in table ==> Mapped(fs, table, table[q]);
  }

  lemma EnterContents(fs: Frames, table: map<nat, nat>, disk: map<nat, Image>, r: nat, w: nat, pg: nat, file: Image)
    requires r < |fs| && w < |fs| && r != w && TableOk(fs, table, disk) && !fs[w].present && !Mapped(fs, table, r)
    requires pg !in disk && pg !in table
    ensures var fs' := fs[r := fs[r].(wsibling := w, pg := pg, dirty := true)][w := Frame(fs[r].image, pg, 1, -1, false, false, true)];
            ContentsOf(fs', table[pg := r], disk[pg := file]) == ContentsOf(fs, table, disk)[pg := fs[r].image]
  {
    assert forall q :: q in table ==> table[q] != w && (fs[r].present ==> table[q] != r);
  }

  // ---------------------------------------------------------------- the pool

  /** The frame d places on from c, once around at most twice. */
  function Pos(c: nat, d: nat, n: nat): (p: nat)
    requires c < n && d <= 2 * n
    ensures p < n
  {
    if c + d < n then c + d else if c + d < 2 * n then c + d - n else c + d - 2 * n
  }

  lemma NextPos(c: nat, d: nat, n: nat)
    requires c < n && d < 2 * n
    ensures (Pos(c, d, n) + 1) % n == Pos(c, d + 1, n)
  {
    var p := Pos(c, d, n);
    if p + 1 < n {
      assert (p + 1) % n == p + 1;
    } else {
      assert (p + 1) % n == 0;
    }
  }

  /** The sweep has passed d frames without finding one: every frame it has passed is present
      and was pinned or has lost its access bit, and every frame it has passed twice is
      pinned. */
  ghost predicate Swept(fs: Frames, c: nat, d: nat)
    requires c < |fs| && d <= 2 * |fs|
  {
    && (forall k :: 0 <= k < d && k < |fs| ==>
          var f := fs[Pos(c, k, |fs|)]; f.present && (f.pin > 0 || !f.access))
    && (forall k :: 0 <= k < d - |fs| ==> Pinned(fs, Pos(c, k, |fs|)))
  }

  lemma SweptNone(fs: Frames, c: nat)
    requires c < |fs|
    ensures Pos(c, 0, |fs|) == c && Swept(fs, c, 0)
  {}

  lemma SweptAll(fs: Frames, c: nat)
    requires c < |fs| && Swept(fs, c, 2 * |fs|)
    ensures forall i :: 0 <= i < |fs| ==> Pinned(fs, i)
  {
    forall i | 0 <= i < |fs|
      ensures Pinned(fs, i)
    {
      assert i == Pos(c, if i >= c then i - c else i - c + |fs|, |fs|);
    }
  }

  lemma SweptNext(fs: Frames, c: nat, d: nat)
    requires c < |fs| && d < 2 * |fs| && Swept(fs, c, d)
    requires var p := Pos(c, d, |fs|); fs[p].present && (fs[p].pin > 0 || fs[p].access)
    ensures var p := Pos(c, d, |fs|);
            Swept(if fs[p].pin > 0 then fs else fs[p := fs[p].(access := false)], c, d + 1)
  {
    var n, p := |fs|, Pos(c, d, |fs|);
    var fs' := if fs[p].pin > 0 then fs else fs[p := fs[p].(access := false)];
    if d >= n {
      assert p == Pos(c, d - n, n);
    }
    forall k | 0 <= k < d + 1 && k < n
      ensures var f := fs'[Pos(c, k, n)]; f.present && (f.pin > 0 || !f.access)
    {}
    forall k | 0 <= k < d + 1 - n
      ensures Pinned(fs', Pos(c, k, n))
    {
      if k < d - n { assert Pinned(fs, Pos(c, k, n)); }
    }
  }

  /** A frame that is taken at sight: it is free, or nobody holds it and its access bit is off. */
  predicate Takable(f: Frame) {
    !f.present || (f.pin == 0 && !f.access)
  }

  /** What the hand leaves of a frame it passes: without its access bit if nobody holds it. */
  function Aged(f: Frame): Frame {
    if f.present && f.pin == 0 then f.(access := false) else f
  }

  /** The choice of the clock, from c on: the first frame that can be taken at sight or, where
      there is none, the first that nobody holds. */
  ghost predicate Chosen(fs: Frames, c: nat, k: nat)
    requires c < |fs|
  {
    && k < |fs|
    && if exists j :: 0 <= j < |fs| && Takable(fs[Pos(c, j, |fs|)])
       then Takable(fs[Pos(c, k, |fs|)]) && forall j :: 0 <= j < k ==> !Takable(fs[Pos(c, j, |fs|)])
       else !Pinned(fs, Pos(c, k, |fs|)) && forall j :: 0 <= j < k ==> Pinned(fs, Pos(c, j, |fs|))
  }

  /** Frame p is the choice of the clock from c on. */
  ghost predicate Choice(fs: Frames, c: nat, p: nat)
    requires c < |fs|
  {
    exists k :: Chosen(fs, c, k) && p == Pos(c, k, |fs|)
  }

  /** The frames once the hand has gone from c to the place k it chose: those it passed are aged,
      every other is as it was. */
  ghost predicate Swung(fs: Frames, c: nat, k: nat, fs': Frames)
    requires c < |fs|
  {
    && Chosen(fs, c, k) && |fs'| == |fs|
    && forall j :: 0 <= j < |fs| && j != k ==>
         var x := Pos(c, j, |fs|);
         fs'[x] == if j < k || !Takable(fs[Pos(c, k, |fs|)]) then Aged(fs[x]) else fs[x]
  }

  ghost predicate SwungTo(fs: Frames, c: nat, fs': Frames, p: nat)
    requires c < |fs|
  {
    exists k :: Swung(fs, c, k, fs') && p == Pos(c, k, |fs|)
  }

  /** The hand has passed d frames from c on, and none of them could be taken. */
  ghost predicate Passing(fs0: Frames, fs: Frames, c: nat, d: nat)
    requires c < |fs0| && d <= 2 * |fs0|
  {
    var n := |fs0|;
    && |fs| == n
    && (forall j :: 0 <= j < n ==> var x := Pos(c, j, n); fs[x] == if j < d then Aged(fs0[x]) else fs0[x])
    && (forall j :: 0 <= j < d && j < n ==> !Takable(fs0[Pos(c, j, n)]))
    && (forall j :: 0 <= j < d - n ==> Pinned(fs0, Pos(c, j, n)))
  }

  lemma PassingNone(fs: Frames, c: nat)
    requires c < |fs|
    ensures Passing(fs, fs, c, 0)
  {}

  /** Where the hand stands, counted once around. */
  function Once(d: nat, n: nat): (k: nat)
    requires d < 2 * n
    ensures k < n
  {
    if d < n then d else d - n
  }

  lemma PosOnce(c: nat, d: nat, n: nat)
    requires c < n && d < 2 * n
    ensures Pos(c, d, n) == Pos(c, Once(d, n), n)
    ensures forall j :: 0 <= j < n && j != Once(d, n) ==> Pos(c, j, n) != Pos(c, d, n)
  {}

  lemma PassingNext(fs0: Frames, fs: Frames, c: nat, d: nat)
    requires c < |fs0| && d < 2 * |fs0| && Passing(fs0, fs, c, d) && !Takable(fs[Pos(c, d, |fs0|)])
    ensures var p := Pos(c, d, |fs0|);
            Passing(fs0, fs[p := if fs[p].pin > 0 then fs[p] else fs[p].(access := false)], c, d + 1)
  {
    var n, p := |fs0|, Pos(c, d, |fs0|);
    var fs' := fs[p := if fs[p].pin > 0 then fs[p] else fs[p].(access := false)];
    PosOnce(c, d, n);
    forall j | 0 <= j < n
      ensures fs'[Pos(c, j, n)] == if j < d + 1 then Aged(fs0[Pos(c, j, n)]) else fs0[Pos(c, j, n)]
    {
      if j == Once(d, n) { assert Pos(c, j, n) == p; } else { assert Pos(c, j, n) != p; }
    }
    forall j | 0 <= j < d + 1 - n
      ensures Pinned(fs0, Pos(c, j, n))
    {
      if j == d - n { assert Pos(c, j, n) == p; }
    }
  }

  lemma PassingFound(fs0: Frames, fs: Frames, c: nat, d: nat, taken: Frame)
    requires c < |fs0| && d < 2 * |fs0| && Passing(fs0, fs, c, d) && Takable(fs[Pos(c, d, |fs0|)])
    ensures var k := Once(d, |fs0|);
            && Pos(c, k, |fs0|) == Pos(c, d, |fs0|)
            && Swung(fs0, c, k, fs[Pos(c, d, |fs0|) := taken])
            && !Pinned(fs0, Pos(c, d, |fs0|))
            && Aged(fs[Pos(c, d, |fs0|)]) == Aged(fs0[Pos(c, d, |fs0|)])
  {
    var n, k := |fs0|, Once(d, |fs0|);
    PosOnce(c, d, n);
    if d < n {
      assert Takable(fs0[Pos(c, k, n)]);
    } else {
      assert forall j :: 0 <= j < n ==> !Takable(fs0[Pos(c, j, n)]);
    }
  }

  /** The file now holds, of each page, what it held or what the page is. */
  predicate WrittenBack(disk: map<nat, Image>, disk': map<nat, Image>, contents: map<nat, Image>) {
    && disk'.Keys == disk.Keys == contents.Keys
    && forall pg :: pg in disk ==> disk'[pg] == disk[pg] || disk'[pg] == contents[pg]
  }

  lemma NoneWrittenBack(fs: Frames, table: map<nat, nat>, disk: map<nat, Image>)
    ensures WrittenBack(disk, disk, ContentsOf(fs, table, disk))
  {}

  lemma WrittenBackTwice(a: map<nat, Image>, b: map<nat, Image>, c: map<nat, Image>, contents: map<nat, Image>)
    requires WrittenBack(a, b, contents) && WrittenBack(b, c, contents)
    ensures WrittenBack(a, c, contents)
  {}

  class Pool {
    const frames: array<Frame>
    var table: map<nat, nat>
    var disk: map<nat, Image>
    var clock: nat
    ghost var held: multiset<nat>

    ghost predicate ValidBut(loose: int)
      reads this, frames
    {
      && clock < frames.Length
      && PoolOk(frames[..], table, disk, held, loose)
    }

    ghost predicate Valid()
      reads this, frames
    {
      ValidBut(-1)
    }

    /** The last saved image of every page of the file. */
    ghost function Contents(): map<nat, Image>
      reads this, frames
    {
      ContentsOf(frames[..], table, disk)
    }

    constructor (n: nat, file: map<nat, Image>)
      requires n > 0
      ensures Valid() && fresh(frames) && frames.Length == n
      ensures Contents() == file && held == multiset{}
    {
      frames := new Frame[n](_ => Frame([], 0, 0, -1, false, false, false));
      table, disk, clock, held := map[], file, 0, multiset{};
    }

    /** Writes a dirty page back and frees its frame. */
    method Evict(i: nat, ghost loose: int)
      requires ValidBut(loose) && i < frames.Length && frames[i].present && frames[i].pin == 0
      modifies frames, `table, `disk
      ensures ValidBut(loose) && Contents() == old(Contents())
      ensures !frames[i].present
      ensures frames[..] == old(frames[..])[i := old(frames[i]).(access := false, dirty := false, present := false)]
      ensures disk == if old(frames[i]).dirty then old(disk)[old(frames[i]).pg := old(frames[i]).image] else old(disk)
      ensures WrittenBack(old(disk), disk, Contents())
      ensures disk.Keys == old(disk.Keys) && table == old(table) - {old(frames[i]).pg} && Mapped(old(frames[..]), old(table), i)
    {
      EvictKeeps(frames[..], table, disk, held, loose, i);
      ghost var fs := frames[..];
      var f := frames[i];
      if f.dirty {
        disk := disk[f.pg := f.image];
      }
      table := table - {f.pg};
      frames[i] := f.(access := false, dirty := false, present := false);
      assert frames[..] == fs[i := f.(access := false, dirty := false, present := false)];
    }

    method ClearAccess(i: nat, ghost loose: int)
      requires ValidBut(loose) && i < frames.Length
      modifies frames
      ensures ValidBut(loose) && Contents() == old(Contents())
      ensures frames[..] == old(frames[..])[i := old(frames[i]).(access := false)]
    {
      AccessIsFree(frames[..], table, disk, held, loose, i);
      hide PoolOk, ContentsOf;
      frames[i] := frames[i].(access := false);
      assert frames[..] == old(frames[..])[i := old(frames[i]).(access := false)];
    }

    /** The sweep looks at the frame under the clock: it takes it if it can be taken at sight,
        writing its page out if it has one, and otherwise ages it and moves on. */
    method Look(ghost c: nat, ghost d: nat, ghost loose: int) returns (found: bool)
      requires ValidBut(loose) && c < frames.Length && d < 2 * frames.Length
      requires clock == Pos(c, d, frames.Length) && Swept(frames[..], c, d)
      modifies frames, `table, `disk, `clock
      ensures ValidBut(loose) && Contents() == old(Contents())
      ensures var f := old(frames[..])[old(clock)];
              && (found <==> !f.present || (f.pin == 0 && !f.access))
              && frames[..] == old(frames[..])[old(clock) :=
                   if !f.present || f.pin > 0 then f
                   else if f.access then f.(access := false)
                   else f.(access := false, dirty := false, present := false)]
              && table == (if found && f.present then old(table) - {f.pg} else old(table))
              && disk == (if found && f.present && f.dirty then old(disk)[f.pg := f.image] else old(disk))
      ensures found ==> !frames[clock].present && !old(Pinned(frames[..], clock)) && clock == old(clock)
      ensures !found ==> clock == Pos(c, d + 1, frames.Length) && Swept(frames[..], c, d + 1)
      ensures Alike(old(frames[..]), old(table), frames[..], table)
      ensures table.Keys <= old(table.Keys) && disk.Keys == old(disk.Keys)
      ensures WrittenBack(old(disk), disk, Contents())
    {
      hide PoolOk, ContentsOf, Swept, Pos, WrittenBack;
      NoneWrittenBack(frames[..], table, disk);
      NextPos(c, d, frames.Length);
      var f := frames[clock];
      found := !f.present;
      if found {
        return;
      }
      if f.pin > 0 {
        SweptNext(frames[..], c, d);
        clock := (clock + 1) % frames.Length;
      } else if f.access {
        SweptNext(frames[..], c, d);
        ClearAccess(clock, loose);
        clock := (clock + 1) % frames.Length;
      } else {
        Evict(clock, loose);
        found := true;
      }
    }

    /** The clock: goes around at most twice, and gives up exactly when every frame is present
        and pinned.  It takes the first frame from the hand on that is free, or that nobody holds
        and whose access bit is off; if there is none, the first that nobody holds.  No page but
        the one in that frame leaves the pool. */
    method Reserve(ghost loose: int) returns (ok: bool)
      requires ValidBut(loose)
      modifies frames, `table, `disk, `clock
      ensures ValidBut(loose) && Contents() == old(Contents())
      ensures ok ==> !frames[clock].present
      ensures ok <==> exists i :: 0 <= i < frames.Length && !old(Pinned(frames[..], i))
      ensures ok ==> SwungTo(old(frames[..]), old(clock), frames[..], clock) && Choice(old(frames[..]), old(clock), clock)
      ensures ok ==> var f := old(frames[..])[clock];
                && table == (if f.present then old(table) - {f.pg} else old(table))
                && disk == (if f.present && f.dirty then old(disk)[f.pg := f.image] else old(disk))
      ensures !ok ==> table == old(table) && disk == old(disk)
      ensures Alike(old(frames[..]), old(table), frames[..], table)
      ensures table.Keys <= old(table.Keys) && disk.Keys == old(disk.Keys)
      ensures WrittenBack(old(disk), disk, Contents())
    {
      ghost var fs0, c0 := frames[..], clock;
      SweptNone(fs0, c0);
      PassingNone(fs0, c0);
      AlikeItself(fs0, table);
      NoneWrittenBack(fs0, table, disk);
      assert WrittenBack(disk, disk, Contents());
      hide *;
      ok := Sweep(fs0, c0, loose);
    }

    /** The sweep itself, from the frames fs0 and the hand at c. */
    method Sweep(ghost fs0: Frames, ghost c: nat, ghost loose: int) returns (ok: bool)
      requires ValidBut(loose) && c == clock < frames.Length == |fs0| && clock == Pos(c, 0, frames.Length)
      requires Swept(frames[..], c, 0) && Passing(fs0, frames[..], c, 0) && Alike(fs0, table, frames[..], table)
      requires WrittenBack(disk, disk, Contents())
      modifies frames, `table, `disk, `clock
      ensures ValidBut(loose) && Contents() == old(Contents())
      ensures ok ==> clock < frames.Length && !frames[clock].present && !Pinned(fs0, clock)
                     && SwungTo(fs0, c, frames[..], clock) && Choice(fs0, c, clock)
      ensures ok ==> var f := fs0[clock];
                && table == (if f.present then old(table) - {f.pg} else old(table))
                && disk == (if f.present && f.dirty then old(disk)[f.pg := f.image] else old(disk))
      ensures !ok ==> table == old(table) && disk == old(disk) && forall i :: 0 <= i < |fs0| ==> Pinned(fs0, i)
      ensures Alike(fs0, old(table), frames[..], table)
      ensures table.Keys <= old(table.Keys) && disk.Keys == old(disk.Keys)
      ensures WrittenBack(old(disk), disk, Contents())
    {
      hide *;
      var i := 0;
      while i < 2 * frames.Length
        invariant i <= 2 * frames.Length && clock == Pos(c, i, frames.Length)
        invariant ValidBut(loose) && Contents() == old(Contents())
        invariant Alike(fs0, old(table), frames[..], table)
        invariant table == old(table) && disk == old(disk)
        invariant Swept(frames[..], c, i) && Passing(fs0, frames[..], c, i)
        invariant WrittenBack(old(disk), disk, Contents())
      {
        var found := SweepTurn(fs0, c, i, loose);
        if found {
          return true;
        }
        i := i + 1;
      }
      AllPinned(fs0, old(table), frames[..], table, c);
      return false;
    }

    /** The body of the sweep, with what is known of the frames passed. */
    method SweepTurn(ghost fs0: Frames, ghost c: nat, ghost d: nat, ghost loose: int) returns (found: bool)
      requires ValidBut(loose) && c < frames.Length == |fs0| && d < 2 * frames.Length
      requires clock == Pos(c, d, frames.Length) && Swept(frames[..], c, d) && Passing(fs0, frames[..], c, d)
      requires Alike(fs0, table, frames[..], table)
      modifies frames, `table, `disk, `clock
      ensures ValidBut(loose) && Contents() == old(Contents())
      ensures Alike(fs0, old(table), frames[..], table)
      ensures found ==> clock < frames.Length && !frames[clock].present && !Pinned(fs0, clock)
                        && SwungTo(fs0, c, frames[..], clock) && Choice(fs0, c, clock)
      ensures found ==> var f := fs0[clock];
                && table == (if f.present then old(table) - {f.pg} else old(table))
                && disk == (if f.present && f.dirty then old(disk)[f.pg := f.image] else old(disk))
      ensures !found ==> clock == Pos(c, d + 1, frames.Length) && table == old(table) && disk == old(disk)
                         && Swept(frames[..], c, d + 1) && Passing(fs0, frames[..], c, d + 1)
      ensures table.Keys <= old(table.Keys) && disk.Keys == old(disk.Keys)
      ensures WrittenBack(old(disk), disk, Contents())
    {
      hide PoolOk, ContentsOf, Swept, Passing, SwungTo, Choice, Pos, WrittenBack, Alike;
      ghost var fs := frames[..];
      found := Look(c, d, loose);
      AlikeChain(fs0, old(table), fs, old(table), frames[..], table);
      if found {
        FoundAt(fs0, fs, frames[..], c, d, clock);
        SwungIsChoice(fs0, c, frames[..], clock);
      } else {
        PassingNext(fs0, fs, c, d);
      }
    }

    /** Another handle on a page the pool has. */
    method GetMapped(pg: nat) returns (h: Handle)
      requires Valid() && pg in table && frames[table[pg]].wsibling == -1
      modifies frames, `held
      ensures Valid() && Contents() == old(Contents()) && held == old(held) + multiset{pg}
      ensures KeepsHandles(old(frames[..]), old(table), frames[..], table)
      ensures Fixes(frames[..], table, h, pg) && pg in Contents() && frames[h.r].image == Contents()[pg]
      ensures var f := old(frames[..])[table[pg]]; frames[..] == old(frames[..])[table[pg] := f.(pin := f.pin + 1)]
    {
      var i := table[pg];
      ghost var fs, held' := frames[..], held + multiset{pg};
      PinKeeps(fs, table, disk, held, held', i);
      assert pg in Contents() && Contents()[pg] == frames[i].image;
      hide PoolOk, ContentsOf;
      frames[i] := frames[i].(pin := frames[i].pin + 1);
      held := held';
      assert frames[..] == fs[i := fs[i].(pin := held'[pg])];
      h := Handle(S, i, 0);
    }

    /** Reads a page of the file into the frame the clock has found. */
    method Load(pg: nat) returns (h: Handle)
      requires Valid() && !frames[clock].present && pg in disk && pg !in table
      modifies frames, `table, `clock, `held
      ensures Valid() && Contents() == old(Contents()) && held == old(held) + multiset{pg}
      ensures KeepsHandles(old(frames[..]), old(table), frames[..], table)
      ensures Fixes(frames[..], table, h, pg) && pg in Contents() && frames[h.r].image == Contents()[pg]
      ensures frames[..] == old(frames[..])[old(clock) := Frame(disk[pg], pg, 1, -1, true, false, true)]
      ensures h.r == old(clock) && table == old(table)[pg := h.r] && clock == (h.r + 1) % frames.Length
    {
      ghost var fs := frames[..];
      LoadKeeps(fs, table, disk, held, clock, pg);
      LoadedPage(fs, table, disk, clock, pg);
      hide PoolOk, ContentsOf, KeepsHandles, Mapped;
      frames[clock] := Frame(disk[pg], pg, 1, -1, true, false, true);
      assert frames[..] == fs[clock := Frame(disk[pg], pg, 1, -1, true, false, true)];
      table := table[pg := clock];
      held := held + multiset{pg};
      h := Handle(S, clock, 0);
      clock := (clock + 1) % frames.Length;
    }

    /** Fixes a page for reading.  A page some handle holds for writing may not be asked for:
        the source would have to wait there. */
    method Get(pg: nat) returns (res: Fixed)
      requires Valid() && (pg in table ==> frames[table[pg]].wsibling == -1)
      modifies frames, `table, `disk, `clock, `held
      ensures Valid() && Contents() == old(Contents())
      ensures KeepsHandles(old(frames[..]), old(table), frames[..], table)
      ensures res.Got? ==> Fixes(frames[..], table, res.h, pg) && pg in Contents()
                           && frames[res.h.r].image == Contents()[pg]
      ensures held == old(held) + if res.Got? then multiset{pg} else multiset{}
      ensures res.Full? <==> pg !in old(table) && forall i :: 0 <= i < frames.Length ==> old(Pinned(frames[..], i))
      ensures res.ReadError? <==> pg !in old(table) && pg !in old(disk) && !res.Full?
      ensures WrittenBack(old(disk), disk, Contents())
      ensures pg in old(table) ==> table == old(table) && disk == old(disk) && clock == old(clock)
      ensures res.Got? && pg !in old(table) ==>
                && Choice(old(frames[..]), old(clock), res.h.r) && frames[res.h.r].access
                && clock == (res.h.r + 1) % frames.Length
                && var f := old(frames[..])[res.h.r];
                   table == (if f.present then old(table) - {f.pg} else old(table))[pg := res.h.r]
    {
      hide PoolOk, ContentsOf, Alike, WrittenBack, Choice, SwungTo;
      NoneWrittenBack(frames[..], table, disk);
      if pg in table {
        var h := GetMapped(pg);
        return Got(h);
      }
      var ok := Reserve(-1);
      AlikeKeepsHandles(old(frames[..]), old(table), frames[..], table);
      if !ok {
        return Full;
      }
      if pg !in disk {
        return ReadError;
      }
      var h := Load(pg);
      res := Got(h);
    }

    /** Turns a read handle into a write handle by giving its frame a shadow. */
    method MakeWritable(h: Handle) returns (ok: bool, h': Handle)
      requires Valid() && HandleOk(frames[..], table, h) && h.mode == S && frames[h.r].wsibling == -1
      modifies frames, `table, `disk, `clock
      ensures Valid() && Contents() == old(Contents())
      ensures KeepsHandles(old(frames[..]), old(table), frames[..], table)
      ensures !ok <==> forall i :: 0 <= i < frames.Length ==> old(Pinned(frames[..], i))
      ensures if ok then h' == Handle(X, h.r, h'.w) && HandleOk(frames[..], table, h')
                         && Shadows(frames[..], table, h'.w, h'.r) && frames[h'.w].image == frames[h.r].image
              else h' == h
      ensures WrittenBack(old(disk), disk, Contents())
      ensures ok ==> Choice(old(frames[..]), old(clock), h'.w) && clock == (h'.w + 1) % frames.Length
    {
      hide PoolOk, ContentsOf, Alike, WrittenBack, Choice, SwungTo;
      ok := Reserve(-1);
      HandlesLast(old(frames[..]), old(table), frames[..], table, h);
      AlikeKeepsHandles(old(frames[..]), old(table), frames[..], table);
      h' := h;
      if !ok {
        return;
      }
      h' := AddShadow(h);
    }

    method AddShadow(h: Handle) returns (h': Handle)
      requires Valid() && HandleOk(frames[..], table, h) && frames[h.r].wsibling == -1 && !frames[clock].present
      modifies frames, `clock
      ensures Valid() && Contents() == old(Contents())
      ensures KeepsHandles(old(frames[..]), table, frames[..], table)
      ensures h' == Handle(X, h.r, h'.w) && HandleOk(frames[..], table, h')
      ensures Shadows(frames[..], table, h'.w, h'.r) && frames[h'.w].image == frames[h.r].image
      ensures h'.w == old(clock) && clock == (h'.w + 1) % frames.Length
      ensures var f := old(frames[h.r]);
              frames[..] == old(frames[..])[h.r := f.(dirty := true, wsibling := h'.w)]
                                           [h'.w := Frame(f.image, f.pg, 2, -1, false, false, true)]
    {
      ghost var fs := frames[..];
      var s, f := clock, frames[h.r];
      ShadowKeeps(fs, table, disk, held, h.r, s);
      frames[h.r] := f.(dirty := true, wsibling := s);
      frames[s] := Frame(f.image, f.pg, 2, -1, false, false, true);
      assert frames[..] == fs[h.r := f.(dirty := true, wsibling := s)][s := Frame(f.image, f.pg, 2, -1, false, false, true)];
      h' := Handle(X, h.r, s);
      clock := (clock + 1) % frames.Length;
    }

    /** Writing through a handle goes to the shadow alone. */
    method Write(h: Handle, image: Image)
      requires Valid() && HandleOk(frames[..], table, h) && h.mode == X
      modifies frames
      ensures Valid() && Contents() == old(Contents())
      ensures KeepsHandles(old(frames[..]), table, frames[..], table)
      ensures frames[h.w].image == image
    {
      ghost var fs := frames[..];
      WriteKeeps(fs, table, disk, held, h.r, image);
      frames[h.w] := frames[h.w].(image := image);
      assert frames[..] == fs[h.w := fs[h.w].(image := image)];
    }

    /** Saves a written page: what the shadow holds becomes the page. */
    method Save(h: Handle) returns (h': Handle)
      requires Valid() && HandleOk(frames[..], table, h) && h.mode == X
      modifies frames
      ensures Valid() && Contents() == old(Contents())[old(frames[h.r]).pg := old(frames[h.w]).image]
      ensures h' == Handle(S, h.r, 0) && HandleOk(frames[..], table, h') && frames[h.r].wsibling == -1
      ensures frames[h.r].pg == old(frames[h.r]).pg
      ensures forall g :: HandleOk(old(frames[..]), table, g) && (g.mode == S || g.r != h.r) ==> HandleOk(frames[..], table, g)
    {
      h' := DropShadow(h, frames[h.w].image);
    }

    /** Cancels a write: the page stays as it was. */
    method CancelW(h: Handle) returns (h': Handle)
      requires Valid() && HandleOk(frames[..], table, h) && h.mode == X
      modifies frames
      ensures Valid() && Contents() == old(Contents())
      ensures h' == Handle(S, h.r, 0) && HandleOk(frames[..], table, h') && frames[h.r].wsibling == -1
      ensures frames[h.r].pg == old(frames[h.r]).pg
      ensures forall g :: HandleOk(old(frames[..]), table, g) && (g.mode == S || g.r != h.r) ==> HandleOk(frames[..], table, g)
    {
      ghost var f := frames[h.r];
      assert Contents()[f.pg := f.image] == Contents();
      h' := DropShadow(h, frames[h.r].image);
    }

    method DropShadow(h: Handle, image: Image) returns (h': Handle)
      requires Valid() && HandleOk(frames[..], table, h) && h.mode == X
      modifies frames
      ensures Valid() && Contents() == old(Contents())[old(frames[h.r]).pg := image]
      ensures h' == Handle(S, h.r, 0) && HandleOk(frames[..], table, h') && frames[h.r].wsibling == -1
      ensures frames[h.r].pg == old(frames[h.r]).pg
      ensures forall g :: HandleOk(old(frames[..]), table, g) && (g.mode == S || g.r != h.r) ==> HandleOk(frames[..], table, g)
      ensures frames[..] == old(frames[..])[h.w := old(frames[h.w]).(access := false, dirty := false, present := false)]
                                           [h.r := old(frames[h.r]).(image := image, wsibling := -1)]
    {
      ghost var fs := frames[..];
      UnshadowKeeps(fs, table, disk, held, h.r, image);
      hide PoolOk, ContentsOf;
      frames[h.w] := frames[h.w].(access := false, dirty := false, present := false);
      frames[h.r] := frames[h.r].(image := image, wsibling := -1);
      assert frames[..] == fs[h.w := fs[h.w].(access := false, dirty := false, present := false)]
                             [h.r := fs[h.r].(image := image, wsibling := -1)];
      h' := Handle(S, h.r, 0);
    }

    /** Allocates a page at the end of the file.  The frame to read it by is reserved before
        the frame to write it by, and it is loose until the file has grown; file is the image
        of a page the file has just grown by.  It succeeds exactly when two frames can be had. */
    method NewExtend(pg: nat, tombstone: Image, file: Image) returns (ok: bool, h: Handle)
      requires Valid() && pg !in disk && pg !in table
      modifies frames, `table, `disk, `clock, `held
      ensures Valid() && KeepsHandles(old(frames[..]), old(table), frames[..], table)
      ensures ok <==> exists i, j ::
                0 <= i < j < frames.Length && !old(Pinned(frames[..], i)) && !old(Pinned(frames[..], j))
      ensures !ok ==> Contents() == old(Contents()) && held == old(held)
      ensures ok ==> Contents() == old(Contents())[pg := tombstone] && held == old(held) + multiset{pg}
      ensures ok ==> h.mode == X && HandleOk(frames[..], table, h) && frames[h.r].pg == pg
                     && frames[h.w].image == tombstone && Shadows(frames[..], table, h.w, h.r)
      ensures ok ==> Choice(old(frames[..]), old(clock), h.r)
    {
      hide PoolOk, ContentsOf, Alike, WrittenBack, Choice, SwungTo;
      h := Handle(S, 0, 0);
      ok := Reserve(-1);
      AlikeKeepsHandles(old(frames[..]), old(table), frames[..], table);
      if !ok {
        return;
      }
      var r := clock;
      ghost var fs1 := frames[..];
      ReserveLoose(r, tombstone);
      ghost var fs, tab := frames[..], table;
      AnotherFree(old(frames[..]), old(table), fs1, table, r, fs);
      ok := Reserve(r);
      AlikeKeepsHandles(fs, tab, frames[..], table);
      PinnedLasts(fs, tab, frames[..], table, r);
      if !ok {
        DropLoose(r);
        return;
      }
      h := EnterNew(r, pg, tombstone, file);
    }

    /** Marks the frame the clock has found as taken. */
    method ReserveLoose(r: nat, tombstone: Image)
      requires Valid() && r < frames.Length && !frames[r].present
      modifies frames
      ensures ValidBut(r) && Contents() == old(Contents()) && frames[r].image == tombstone
      ensures frames[r].present && frames[r].pin == 1 && frames[r].wsibling == -1
      ensures forall i :: 0 <= i < frames.Length && i != r ==> frames[i] == old(frames[i])
      ensures KeepsHandles(old(frames[..]), table, frames[..], table)
    {
      ghost var fs := frames[..];
      LooseKeeps(fs, table, disk, held, r, tombstone);
      frames[r] := Frame(tombstone, frames[r].pg, 1, -1, true, false, true);
      assert frames[..] == fs[r := Frame(tombstone, fs[r].pg, 1, -1, true, false, true)];
    }

    method DropLoose(r: nat)
      requires r < frames.Length && ValidBut(r)
      modifies frames
      ensures Valid() && Contents() == old(Contents())
      ensures KeepsHandles(old(frames[..]), table, frames[..], table)
    {
      ghost var fs := frames[..];
      UnlooseKeeps(fs, table, disk, held, r);
      frames[r] := frames[r].(pin := 0, access := false, dirty := false, present := false);
      assert frames[..] == fs[r := fs[r].(pin := 0, access := false, dirty := false, present := false)];
    }

    /** Grows the file and enters the new page with its shadow. */
    method EnterNew(r: nat, pg: nat, tombstone: Image, file: Image) returns (h: Handle)
      requires r < frames.Length && ValidBut(r) && !frames[clock].present && pg !in disk && pg !in table
      requires frames[r].image == tombstone && frames[r].pin == 1 && frames[r].wsibling == -1
      modifies frames, `table, `disk, `held
      ensures Valid() && Contents() == old(Contents())[pg := tombstone] && held == old(held) + multiset{pg}
      ensures KeepsHandles(old(frames[..]), old(table), frames[..], table)
      ensures h.mode == X && HandleOk(frames[..], table, h) && frames[h.r].pg == pg
      ensures frames[h.w].image == tombstone && Shadows(frames[..], table, h.w, h.r) && h.r == r && h.w == clock
      ensures frames[..] == old(frames[..])[r := old(frames[r]).(wsibling := clock, pg := pg, dirty := true)]
                                           [clock := Frame(tombstone, pg, 1, -1, false, false, true)]
    {
      ghost var fs := frames[..];
      var w := clock;
      EnterKeeps(fs, table, disk, held, r, w, pg, file);
      assert !Mapped(fs, table, r) && !Mapped(fs, table, w);
      hide PoolOk, ContentsOf, KeepsHandles;
      disk := disk[pg := file];
      frames[r] := frames[r].(wsibling := w, pg := pg, dirty := true);
      frames[w] := Frame(frames[r].image, pg, 1, -1, false, false, true);
      assert frames[..] == fs[r := fs[r].(wsibling := w, pg := pg, dirty := true)][w := Frame(fs[r].image, pg, 1, -1, false, false, true)];
      table := table[pg := r];
      held := held + multiset{pg};
      EnteredHandles(fs, old(table), frames[..], table, r, w);
      h := Handle(X, r, w);
    }

    /** Gives up a handle, saving the page first if it is held for writing. */
    method Release(h: Handle)
      requires Valid() && HandleOk(frames[..], table, h)
      requires h.mode == S && frames[h.r].wsibling != -1 ==> held[frames[h.r].pg] > 1
      modifies frames, `held
      ensures Valid()
      ensures Contents() == if h.mode == X then old(Contents())[old(frames[h.r]).pg := old(frames[h.w]).image] else old(Contents())
      ensures held == old(held) - multiset{old(frames[h.r]).pg}
      ensures forall g :: HandleOk(old(frames[..]), table, g) && g.r != h.r ==> HandleOk(frames[..], table, g)
    {
      var g := h;
      if h.mode == X {
        g := Save(h);
      }
      Unpin(g);
    }

    method Unpin(h: Handle)
      requires Valid() && HandleOk(frames[..], table, h)
      requires frames[h.r].wsibling != -1 ==> held[frames[h.r].pg] > 1
      modifies frames, `held
      ensures Valid() && Contents() == old(Contents()) && held == old(held) - multiset{old(frames[h.r]).pg}
      ensures frames[..] == old(frames[..])[h.r := old(frames[h.r]).(pin := old(frames[h.r]).pin - 1)]
      ensures forall g :: HandleOk(old(frames[..]), table, g) && g.r != h.r ==> HandleOk(frames[..], table, g)
    {
      var i := h.r;
      ghost var fs, held' := frames[..], held - multiset{frames[h.r].pg};
      assert FrameOk(fs, table, disk, held, i);
      PinKeeps(fs, table, disk, held, held', i);
      hide PoolOk, ContentsOf;
      frames[i] := frames[i].(pin := frames[i].pin - 1);
      held := held';
      assert frames[..] == fs[i := fs[i].(pin := held'[fs[i].pg])];
    }
  }

  /** h is a live read handle on page pg. */
  predicate Fixes(fs: Frames, table: map<nat, nat>, h: Handle, pg: nat) {
    HandleOk(fs, table, h) && h.mode == S && fs[h.r].pg == pg
  }

  /** Every handle that was live is live. */
  ghost predicate KeepsHandles(fs: Frames, table: map<nat, nat>, fs': Frames, table': map<nat, nat>) {
    forall h :: HandleOk(fs, table, h) ==> HandleOk(fs', table', h) && fs'[h.r].pg == fs[h.r].pg
  }

  /** Entries added to the table for frames that had none leave every handle live. */
  lemma EnteredHandles(fs: Frames, table: map<nat, nat>, fs': Frames, table': map<nat, nat>, r: nat, w: nat)
    requires |fs'| == |fs| && !Mapped(fs, table, r) && !Mapped(fs, table, w)
    requires forall k :: 0 <= k < |fs| && k != r && k != w ==> fs'[k] == fs[k]
    requires forall pg :: pg in table ==> pg in table' && table'[pg] == table[pg]
    ensures KeepsHandles(fs, table, fs', table')
  {
  }

  lemma LoadedPage(fs: Frames, table: map<nat, nat>, disk: map<nat, Image>, i: nat, pg: nat)
    requires i < |fs| && !fs[i].present && pg !in table && pg in disk
    ensures var fs' := fs[i := Frame(disk[pg], pg, 1, -1, true, false, true)];
            KeepsHandles(fs, table, fs', table[pg := i]) && Mapped(fs', table[pg := i], i)
    ensures pg in ContentsOf(fs, table, disk) && ContentsOf(fs, table, disk)[pg] == disk[pg]
  {}

  /** Once one frame has been taken, another can be had exactly if two could before. */
  lemma AnotherFree(fs: Frames, table: map<nat, nat>, fs1: Frames, table1: map<nat, nat>, r: nat, fs2: Frames)
    requires Alike(fs, table, fs1, table1) && r < |fs| == |fs1| == |fs2| && !fs1[r].present && Pinned(fs2, r)
    requires forall i :: 0 <= i < |fs| && i != r ==> fs2[i] == fs1[i]
    ensures (exists i :: 0 <= i < |fs| && !Pinned(fs2, i))
       <==> exists i, j :: 0 <= i < j < |fs| && !Pinned(fs, i) && !Pinned(fs, j)
  {
    assert !Pinned(fs, r);
    assert forall i :: 0 <= i < |fs| && i != r ==> (Pinned(fs2, i) <==> Pinned(fs, i));
    if i :| 0 <= i < |fs| && !Pinned(fs2, i) {
      assert i < r || r < i;
    }
  }

  lemma FoundAt(fs0: Frames, fs: Frames, fs': Frames, c: nat, d: nat, p: nat)
    requires c < |fs0| && d < 2 * |fs0| && Passing(fs0, fs, c, d) && p == Pos(c, d, |fs0|) && Takable(fs[p])
    requires |fs'| == |fs0| && fs' == fs[p := fs'[p]]
    ensures SwungTo(fs0, c, fs', p)
    ensures !Pinned(fs0, p) && Aged(fs[p]) == Aged(fs0[p])
  {
    PassingFound(fs0, fs, c, d, fs'[p]);
  }

  lemma AlikeItself(fs: Frames, table: map<nat, nat>)
    ensures Alike(fs, table, fs, table)
  {}

  lemma AllPinned(fs: Frames, table: map<nat, nat>, fs': Frames, table': map<nat, nat>, c: nat)
    requires Alike(fs, table, fs', table') && c < |fs'| && Swept(fs', c, 2 * |fs'|)
    ensures |fs'| == |fs| && forall i :: 0 <= i < |fs| ==> Pinned(fs, i)
  {
    SweptAll(fs', c);
  }

  lemma SwungIsChoice(fs: Frames, c: nat, fs': Frames, p: nat)
    requires c < |fs| && SwungTo(fs, c, fs', p)
    ensures Choice(fs, c, p)
  {}

  lemma PinnedLasts(fs: Frames, table: map<nat, nat>, fs': Frames, table': map<nat, nat>, k: nat)
    requires Alike(fs, table, fs', table') && Pinned(fs, k)
    ensures fs'[k] == fs[k]
  {}

  lemma AlikeKeepsHandles(fs: Frames, table: map<nat, nat>, fs': Frames, table': map<nat, nat>)
    requires Alike(fs, table, fs', table')
    ensures KeepsHandles(fs, table, fs', table')
  {}

  datatype Fixed = Got(h: Handle) | Full | ReadError

  /** No pinned frame has changed, and no frame has become pinned or been unpinned. */
  ghost predicate Alike(fs: Frames, table: map<nat, nat>, fs': Frames, table': map<nat, nat>) {
    && |fs'| == |fs|
    && (forall k :: Pinned(fs, k) ==> (Mapped(fs', table', k) <==> Mapped(fs, table, k)))
    && (forall k :: 0 <= k < |fs| ==> (Pinned(fs', k) <==> Pinned(fs, k)))
    && (forall k :: 0 <= k < |fs| && Pinned(fs, k) ==> fs'[k] == fs[k])
  }

  lemma AlikeChain(a: Frames, ta: map<nat, nat>, b: Frames, tb: map<nat, nat>, c: Frames, tc: map<nat, nat>)
    requires Alike(a, ta, b, tb) && Alike(b, tb, c, tc)
    ensures Alike(a, ta, c, tc)
  {}

  /** A live handle outlives whatever leaves the pinned frames alone. */
  lemma HandlesLast(fs: Frames, table: map<nat, nat>, fs': Frames, table': map<nat, nat>, h: Handle)
    requires Alike(fs, table, fs', table') && HandleOk(fs, table, h)
    ensures HandleOk(fs', table', h) && fs'[h.r] == fs[h.r]
  {}
}
