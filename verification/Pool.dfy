// The buffer pool: page frames over a disk, CLOCK eviction, pins and dirty bits.
//
// `View()` is what the pool stands for: the current contents of every allocated
// page, wherever they are.  Caching, eviction and flushing never change it.
module BufferPool {
  import opened Bytes
  import opened Layout

  datatype Frame = Frame(id: PageId, data: Image, pins: nat, dirty: bool, ref: bool)

  datatype Outcome = Ok | Full | IoError | NotFound

  /** `Page::new`: zeroes, the page id and the free offset. */
  function FreshPage(id: PageId): Image {
    var zero := seq(PAGE_SIZE, i => 0 as byte);
    Splice(Splice(zero, 0, Le32(id)), 7, Le16(HEADER_SIZE))
  }

  /** What an allocated but never written page of the file reads as. */
  function BlankPage(): Image {
    seq(PAGE_SIZE, i => 0 as byte)
  }

  // ----- the clock -----

  /** How many steps the hand takes from `hand` to reach frame `i`. */
  function Distance(hand: nat, i: nat, capacity: nat): (d: nat)
    requires hand < capacity && i < capacity
    ensures d < capacity && (hand + d == i || hand + d == i + capacity)
  {
    if hand <= i then i - hand else i + capacity - hand
  }

  /** The frame after `i`, the first one again after the last. */
  function After(i: nat, capacity: nat): (r: nat)
    requires i < capacity
    ensures r < capacity && (r == i + 1 || r + capacity == i + 1)
  {
    if i + 1 == capacity then 0 else i + 1
  }

  predicate Unpinned(f: Option<Frame>) {
    f.Some? && f.value.pins == 0
  }

  predicate Cold(f: Option<Frame>) {
    Unpinned(f) && !f.value.ref
  }

  /** The second chance: an unpinned frame the hand passes loses its reference bit. */
  function Passed(f: Option<Frame>): Option<Frame> {
    if Unpinned(f) then Some(f.value.(ref := false)) else f
  }

  /** The frame with nothing to write back. */
  function Clean(f: Option<Frame>): Option<Frame> {
    if f.Some? then Some(f.value.(dirty := false)) else None
  }

  /** `i` is the first frame from `hand` on that satisfies `p`. */
  ghost predicate FirstFrom(frames: seq<Option<Frame>>, hand: nat, i: nat, p: Option<Frame> -> bool)
    requires hand < |frames| && i < |frames|
  {
    && p(frames[i])
    && forall k :: 0 <= k < |frames| && Distance(hand, k, |frames|) < Distance(hand, i, |frames|) ==> !p(frames[k])
  }

  /** The frame CLOCK evicts: the first cold one; failing that, the first unpinned one. */
  ghost predicate Victim(frames: seq<Option<Frame>>, hand: nat, i: nat)
    requires hand < |frames| && i < |frames|
  {
    if exists k :: 0 <= k < |frames| && Cold(frames[k]) then FirstFrom(frames, hand, i, Cold)
    else FirstFrom(frames, hand, i, Unpinned)
  }

  ghost predicate AllPinned(frames: seq<Option<Frame>>) {
    forall k :: 0 <= k < |frames| ==> !Unpinned(frames[k])
  }

  // ----- coherence of the fields -----

  ghost predicate FramesOk(frames: seq<Option<Frame>>, table: map<PageId, nat>, disk: seq<Image>) {
    && (forall p :: p in table ==> table[p] < |frames| && frames[table[p]].Some? && frames[table[p]].value.id == p)
    && (forall i :: 0 <= i < |frames| && frames[i].Some? ==>
          var f := frames[i].value;
          && f.id in table && table[f.id] == i && f.id < |disk|
          && (!f.dirty ==> f.data == disk[f.id]))
  }

  ghost predicate FreeOk(frames: seq<Option<Frame>>, free: seq<nat>) {
    && (forall j :: 0 <= j < |free| ==> free[j] < |frames| && frames[free[j]].None?)
    && (forall j, k :: 0 <= j < k < |free| ==> free[j] != free[k])
  }

  function PageAt(frames: seq<Option<Frame>>, table: map<PageId, nat>, disk: seq<Image>, p: nat): Image
    requires p < |disk|
  {
    if p < 0x1_0000_0000 && p in table && table[p] < |frames| && frames[table[p]].Some?
    then frames[table[p]].value.data else disk[p]
  }

  function Pages(frames: seq<Option<Frame>>, table: map<PageId, nat>, disk: seq<Image>): (ps: seq<Image>)
    ensures |ps| == |disk|
  {
    seq(|disk|, p requires 0 <= p < |disk| => PageAt(frames, table, disk, p))
  }

  function PinsAt(frames: seq<Option<Frame>>, table: map<PageId, nat>, p: PageId): nat {
    if p in table && table[p] < |frames| && frames[table[p]].Some? then frames[table[p]].value.pins else 0
  }

  /** Some pages were written out with the contents `view`, the others are as they were. */
  ghost predicate Spilled(disk: seq<Image>, disk': seq<Image>, view: seq<Image>) {
    |disk'| == |disk| == |view| && forall p :: 0 <= p < |disk| ==> disk'[p] == disk[p] || disk'[p] == view[p]
  }

  class Pool {
    var frames: seq<Option<Frame>>
    var table: map<PageId, nat>
    var free: seq<nat>
    var hand: nat
    const capacity: nat
    var disk: seq<Image>

    ghost predicate Valid()
      reads this
    {
      capacity > 0 && hand < capacity && Coherent()
    }

    ghost predicate Coherent()
      reads this`frames, this`table, this`free, this`disk
    {
      |frames| == capacity && FramesOk(frames, table, disk) && FreeOk(frames, free)
    }

    ghost function View(): (ps: seq<Image>)
      reads this`frames, this`table, this`disk
      ensures |ps| == |disk|
    {
      Pages(frames, table, disk)
    }

    /** How often page `p` is pinned; a page that is not cached is not pinned. */
    ghost function Pins(p: PageId): nat
      reads this`frames, this`table
    {
      PinsAt(frames, table, p)
    }

    /** No frame can be had: the free list is empty and nothing can be evicted. */
    ghost predicate NoRoom()
      reads this
    {
      free == [] && AllPinned(frames)
    }

    /** Every empty frame is on the free list. */
    ghost predicate NoLeak()
      reads this
    {
      forall i :: 0 <= i < |frames| && frames[i].None? ==> i in free
    }

    constructor (disk: seq<Image>, capacity: nat)
      requires capacity > 0
      ensures Valid() && NoLeak() && View() == disk && this.disk == disk && this.capacity == capacity && table == map[]
      ensures hand == 0 && forall i :: 0 <= i < capacity ==> frames[i] == None && i < |free| && free[i] == i
    {
      this.disk, this.capacity := disk, capacity;
      frames := seq(capacity, i => None);
      free := seq(capacity, i => i);
      table, hand := map[], 0;
      new;
      forall i | 0 <= i < capacity ensures i in free { assert free[i] == i; }
      assert View() == disk;
    }

    /** Write the page back if dirty, drop it, and move the hand past the frame. */
    method Evict(i: nat)
      requires Valid() && i < capacity && Unpinned(frames[i]) && hand == i
      modifies this`frames, this`table, this`hand, this`disk
      ensures Valid() && View() == old(View()) && Spilled(old(disk), disk, View())
      ensures frames == old(frames)[i := None] && table == old(table) - {old(frames)[i].value.id}
      ensures hand == After(i, capacity)
    {
      var f := frames[i].value;
      EvictCoherent(frames, table, disk, i);
      if f.dirty {
        disk := disk[f.id := f.data];
      }
      table := table - {f.id};
      frames := frames[i := None];
      hand := After(hand, capacity);
    }

    /** A frame to load into: from the free list, or by CLOCK eviction. */
    method GetFreeFrame() returns (r: Option<nat>)
      requires Valid()
      modifies this
      ensures Valid() && View() == old(View()) && Spilled(old(disk), disk, View())
      ensures forall p :: Pins(p) == old(Pins(p)) && (p in table ==> p in old(table))
      ensures r == None <==> old(NoRoom())
      ensures r == None ==> frames == old(frames) && table == old(table) && free == old(free)
                            && hand == old(hand) && disk == old(disk)
      ensures r.Some? ==> r.value < capacity && frames[r.value].None? && r.value !in free
      ensures r.Some? && old(NoLeak()) ==>
                forall i :: 0 <= i < capacity && frames[i].None? && i != r.value ==> i in free
      ensures r.Some? && old(free) != [] ==> old(free) == [r.value] + free && frames == old(frames)
                                             && table == old(table) && hand == old(hand) && disk == old(disk)
      ensures r.Some? && old(free) == [] ==>
                && free == [] && Victim(old(frames), old(hand), r.value) && hand == After(r.value, capacity)
                && table == old(table) - {old(frames)[r.value].value.id}
                && Chanced(old(frames), old(hand), r.value, frames)
    {
      if |free| > 0 {
        var idx := free[0];
        free := free[1..];
        return Some(idx);
      }
      r := EvictOne();
    }

    /** CLOCK: a sweep that gives second chances, then one that takes any unpinned frame. */
    method EvictOne() returns (r: Option<nat>)
      requires Valid() && free == []
      modifies this`frames, this`table, this`hand, this`disk
      ensures Valid() && View() == old(View()) && Spilled(old(disk), disk, View())
      ensures forall p :: Pins(p) == old(Pins(p)) && (p in table ==> p in old(table))
      ensures r == None <==> AllPinned(old(frames))
      ensures r == None ==> frames == old(frames) && table == old(table) && hand == old(hand) && disk == old(disk)
      ensures r.Some? ==>
                && r.value < capacity && frames[r.value].None?
                && Victim(old(frames), old(hand), r.value) && hand == After(r.value, capacity)
                && table == old(table) - {old(frames)[r.value].value.id}
                && Chanced(old(frames), old(hand), r.value, frames)
    {
      r := FirstPass();
      if r == None {
        r := SecondPass(old(frames));
      }
      if r.Some? {
        forall p ensures Pins(p) == old(Pins(p)) {
          ChancedPins(old(frames), old(table), old(disk), old(hand), frames, r.value, p);
        }
      }
    }

    /** The same, with what its callers rely on. */
    method TakeFrame() returns (r: Option<nat>)
      requires Valid()
      modifies this
      ensures Valid() && View() == old(View()) && Spilled(old(disk), disk, View())
      ensures forall p :: Pins(p) == old(Pins(p)) && (p in table ==> p in old(table))
      ensures r == None <==> old(NoRoom())
      ensures r == None && old(NoLeak()) ==> NoLeak()
      ensures r.Some? ==> r.value < capacity && frames[r.value].None? && r.value !in free
      ensures r.Some? ==> Taken(old(frames), old(free), old(hand), r.value, frames, free, hand)
      ensures r.Some? && old(NoLeak()) ==> NoLeakBut(r.value)
    {
      r := GetFreeFrame();
    }

    ghost predicate NoLeakBut(i: nat)
      reads this
    {
      forall k :: 0 <= k < |frames| && frames[k].None? && k != i ==> k in free
    }

    /** The frame is in the pool, where the table says. */
    ghost predicate Placed(f: Frame)
      reads this
    {
      f.id in table && table[f.id] < |frames| && frames[table[f.id]] == Some(f)
    }

    /** The frames, but for the one of page `p`. */
    ghost function Without(p: PageId): seq<Option<Frame>>
      reads this
    {
      if p in table && table[p] < |frames| then frames[table[p] := None] else frames
    }

    /** Load a page into a free frame. */
    method Load(p: PageId, pins: nat) returns (o: Outcome)
      requires Valid() && p !in table
      modifies this
      ensures Valid() && View() == old(View()) && Spilled(old(disk), disk, View())
      ensures o == Full <==> old(NoRoom())
      ensures o == IoError <==> !old(NoRoom()) && p >= |disk|
      ensures o in {Ok, Full, IoError}
      ensures o == Ok ==> p in table && Pins(p) == pins && Placed(Frame(p, disk[p], pins, false, true))
      ensures o == Ok ==> Taken(old(frames), old(free), old(hand), table[p], Without(p), free, hand)
      ensures forall q :: q != p ==> Pins(q) == old(Pins(q))
      ensures old(NoLeak()) ==> (NoLeak() <==> o != IoError)
    {
      var r := TakeFrame();
      if r == None {
        return Full;
      }
      if p >= |disk| {
        return IoError;
      }
      assert View()[p] == disk[p];
      Install(r.value, Frame(p, disk[p], pins, false, true));
      return Ok;
    }

    ghost function FrameOf(p: PageId): Frame
      requires Valid()
      reads this
    {
      if p in table then frames[table[p]].value else Frame(p, BlankPage(), 0, false, false)
    }

    /** Fetch a page for reading; pins it. */
    method FetchPage(p: PageId) returns (o: Outcome, d: Image)
      requires Valid()
      modifies this
      ensures Valid() && View() == old(View()) && Spilled(old(disk), disk, View())
      ensures o == Full <==> p !in old(table) && old(NoRoom())
      ensures o == IoError <==> p !in old(table) && !old(NoRoom()) && p >= |disk|
      ensures o in {Ok, Full, IoError}
      ensures o == Ok ==> p < |disk| && d == View()[p] && p in table && Pins(p) == old(Pins(p)) + 1
      ensures o == Ok && p in old(table) ==>
                && Placed(old(FrameOf(p)).(pins := old(Pins(p)) + 1, ref := true)) && Without(p) == old(Without(p))
                && table == old(table) && free == old(free) && hand == old(hand) && disk == old(disk)
      ensures o == Ok && p !in old(table) ==>
                && Placed(Frame(p, disk[p], 1, false, true))
                && Taken(old(frames), old(free), old(hand), table[p], Without(p), free, hand)
      ensures forall q :: q != p ==> Pins(q) == old(Pins(q))
      ensures old(NoLeak()) ==> (NoLeak() <==> o != IoError)
    {
      d := BlankPage();
      if p in table {
        var f := frames[table[p]].value;
        Retouch(frames, table, disk, free, table[p], f.(pins := f.pins + 1, ref := true));
        ghost var rest := Without(p);
        frames := frames[table[p] := Some(f.(pins := f.pins + 1, ref := true))];
        assert Without(p) == rest;
        return Ok, f.data;
      }
      o := Load(p, 1);
      if o == Ok {
        d := frames[table[p]].value.data;
      }
    }

    /** Fetch a page for writing; pins it and marks it dirty. */
    method FetchPageMut(p: PageId) returns (o: Outcome)
      requires Valid()
      modifies this
      ensures Valid() && View() == old(View()) && Spilled(old(disk), disk, View())
      ensures o == Full <==> p !in old(table) && old(NoRoom())
      ensures o == IoError <==> p !in old(table) && !old(NoRoom()) && p >= |disk|
      ensures o in {Ok, Full, IoError}
      ensures o == Ok ==> p < |disk| && p in table && Pins(p) == old(Pins(p)) + 1
      ensures o == Ok && p in old(table) ==>
                && Placed(old(FrameOf(p)).(pins := old(Pins(p)) + 1, dirty := true, ref := true))
                && Without(p) == old(Without(p)) && table == old(table) && free == old(free)
                && hand == old(hand) && disk == old(disk)
      ensures o == Ok && p !in old(table) ==>
                && Placed(Frame(p, disk[p], 1, true, true))
                && Taken(old(frames), old(free), old(hand), table[p], Without(p), free, hand)
      ensures forall q :: q != p ==> Pins(q) == old(Pins(q))
      ensures old(NoLeak()) ==> (NoLeak() <==> o != IoError)
    {
      if p !in table {
        o := Load(p, 0);
        if o != Ok {
          return;
        }
      }
      var f := frames[table[p]].value;
      ghost var rest := Without(p);
      Retouch(frames, table, disk, free, table[p], f.(pins := f.pins + 1, dirty := true, ref := true));
      frames := frames[table[p] := Some(f.(pins := f.pins + 1, dirty := true, ref := true))];
      assert Without(p) == rest;
      return Ok;
    }

    /** Overwrite a cached page through the reference `FetchPageMut` handed out. */
    method WritePage(p: PageId, d: Image)
      requires Valid() && p in table && Pins(p) > 0
      modifies this`frames
      ensures Valid() && p < |disk| && View() == old(View())[p := d]
      ensures frames == old(frames)[table[p] := Some(old(FrameOf(p)).(data := d, dirty := true))]
      ensures forall q :: Pins(q) == old(Pins(q))
      ensures old(NoLeak()) ==> NoLeak()
    {
      WriteCoherent(frames, table, disk, free, table[p], d);
      frames := frames[table[p] := Some(frames[table[p]].value.(data := d, dirty := true))];
    }

    /** Give a pin back, remembering whether the page was modified. */
    method UnpinPage(p: PageId, dirty: bool) returns (o: Outcome)
      requires Valid()
      modifies this`frames
      ensures Valid() && View() == old(View())
      ensures o == (if p in table then Ok else NotFound)
      ensures Pins(p) == if old(Pins(p)) > 0 then old(Pins(p)) - 1 else 0
      ensures o == NotFound ==> frames == old(frames)
      ensures o == Ok ==>
                && Placed(old(FrameOf(p)).(pins := Pins(p), dirty := old(FrameOf(p)).dirty || dirty))
                && Without(p) == old(Without(p))
      ensures forall q :: q != p ==> Pins(q) == old(Pins(q))
      ensures old(NoLeak()) ==> NoLeak()
    {
      if p !in table {
        return NotFound;
      }
      var f := frames[table[p]].value;
      var f' := f.(pins := if f.pins > 0 then f.pins - 1 else 0, dirty := f.dirty || dirty);
      Retouch(frames, table, disk, free, table[p], f');
      ghost var rest := Without(p);
      frames := frames[table[p] := Some(f')];
      assert Without(p) == rest;
      return Ok;
    }

    /** Allocate a page on disk and cache it, pinned and dirty. */
    method NewPage() returns (o: Outcome, id: PageId)
      requires Valid() && |disk| < INVALID_PAGE_ID
      modifies this
      ensures Valid() && id == |old(disk)| && |disk| == |old(disk)| + 1
      ensures o == (if old(NoRoom()) then Full else Ok)
      ensures View() == old(View()) + [if o == Ok then FreshPage(id) else BlankPage()]
      ensures o == Ok ==> id in table && Pins(id) == 1 && Placed(Frame(id, FreshPage(id), 1, true, true))
      ensures o == Ok ==> Taken(old(frames), old(free), old(hand), table[id], Without(id), free, hand)
      ensures forall q :: q != id ==> Pins(q) == old(Pins(q))
      ensures old(NoLeak()) ==> NoLeak()
    {
      id := |disk|;
      GrowCoherent(frames, table, disk, free);
      disk := disk + [BlankPage()];
      ghost var view := View();
      var r := TakeFrame();
      if r == None {
        return Full, id;
      }
      Install(r.value, Frame(id, FreshPage(id), 1, true, true));
      return Ok, id;
    }

    /** Put a page into an empty frame. */
    method Install(i: nat, f: Frame)
      requires Valid() && i < capacity && frames[i].None? && i !in free
      requires f.id !in table && f.id < |disk| && (f.dirty || f.data == disk[f.id])
      modifies this`frames, this`table
      ensures Valid() && View() == old(View())[f.id := f.data] && f.id in table && Pins(f.id) == f.pins
      ensures Placed(f) && table[f.id] == i && Without(f.id) == old(frames)
      ensures forall q :: q != f.id ==> Pins(q) == old(Pins(q))
      ensures old(NoLeakBut(i)) ==> NoLeak()
    {
      InstallCoherent(frames, table, disk, free, i, f);
      frames := frames[i := Some(f)];
      table := table[f.id := i];
      assert Without(f.id) == old(frames);
    }

    /** Write one page back if it is cached and dirty. */
    method FlushPage(p: PageId)
      requires Valid()
      modifies this`frames, this`disk
      ensures Valid() && View() == old(View()) && |disk| == |old(disk)|
      ensures p < |disk| ==> disk == old(disk)[p := View()[p]]
      ensures frames == if p !in table then old(frames)
                        else old(frames)[table[p] := Some(old(FrameOf(p)).(dirty := false))]
      ensures forall q :: Pins(q) == old(Pins(q))
      ensures old(NoLeak()) ==> NoLeak()
    {
      if p in table {
        var i := table[p];
        var f := frames[i].value;
        if f.dirty {
          CleanCoherent(frames, table, disk, free, i);
          disk := disk[p := f.data];
          frames := frames[i := Some(f.(dirty := false))];
        }
      }
    }

    /** Write every dirty page back: afterwards the disk holds the logical contents. */
    method FlushAll()
      requires Valid()
      modifies this`frames, this`disk
      ensures Valid() && View() == old(View()) && disk == View()
      ensures forall k :: 0 <= k < capacity ==> frames[k] == Clean(old(frames)[k])
      ensures forall q :: Pins(q) == old(Pins(q))
      ensures old(NoLeak()) ==> NoLeak()
    {
      var i := 0;
      while i < capacity
        invariant 0 <= i <= capacity && Valid() && View() == old(View()) && |disk| == |old(disk)|
        invariant forall q :: Pins(q) == old(Pins(q))
        invariant old(NoLeak()) ==> NoLeak()
        invariant forall k :: 0 <= k < capacity ==> frames[k] == if k < i then Clean(old(frames)[k]) else old(frames)[k]
      {
        if frames[i].Some? && frames[i].value.dirty {
          CleanCoherent(frames, table, disk, free, i);
          disk := disk[frames[i].value.id := frames[i].value.data];
          frames := frames[i := Some(frames[i].value.(dirty := false))];
        }
        i := i + 1;
      }
      assert forall p :: 0 <= p < |disk| ==> View()[p] == disk[p];
    }

    /** Clear the reference bit of an unpinned frame and move on. */
    method SecondChance()
      requires Valid()
      modifies this`frames, this`hand
      ensures Coherent() && View() == old(View()) && hand == After(old(hand), capacity)
      ensures frames == old(frames)[old(hand) := Passed(old(frames)[old(hand)])]
    {
      PassCoherent(frames, table, disk, hand);
      if Unpinned(frames[hand]) {
        frames := frames[hand := Some(frames[hand].value.(ref := false))];
      }
      hand := After(hand, capacity);
    }

    /** One turn of the clock: take the first cold frame, clearing reference bits on the way. */
    method FirstPass() returns (r: Option<nat>)
      requires Valid() && free == []
      modifies this`frames, this`table, this`hand, this`disk
      ensures Valid() && View() == old(View()) && Spilled(old(disk), disk, View())
      ensures r == None ==> table == old(table) && hand == old(hand) && disk == old(disk)
                            && Swept(old(frames), frames, hand, capacity)
      ensures r.Some? ==>
                && r.value < capacity && frames[r.value].None?
                && Victim(old(frames), old(hand), r.value) && hand == After(r.value, capacity)
                && table == old(table) - {old(frames)[r.value].value.id}
                && Chanced(old(frames), old(hand), r.value, frames)
    {
      var start := hand;
      ghost var j := 0;
      while true
        invariant 0 <= j < capacity && hand < capacity && Coherent() && table == old(table) && disk == old(disk)
        invariant Distance(start, hand, capacity) == j && Swept(old(frames), frames, start, j)
        invariant View() == old(View())
        decreases capacity - j
      {
        if Cold(frames[hand]) {
          SweptVictim(old(frames), frames, start, j, hand);
          var idx := hand;
          Evict(idx);
          return Some(idx);
        }
        SweepOn(old(frames), frames, start, j, hand);
        AfterDistance(start, hand, capacity);
        SecondChance();
        if hand == start {
          return None;
        }
        j := j + 1;
      }
    }

    /** All reference bits are clear now: take the first unpinned frame, if any. */
    method SecondPass(ghost frames0: seq<Option<Frame>>) returns (r: Option<nat>)
      requires Valid() && free == [] && |frames0| == capacity && Swept(frames0, frames, hand, capacity)
      modifies this`frames, this`table, this`hand, this`disk
      ensures Valid() && View() == old(View()) && Spilled(old(disk), disk, View())
      ensures r == None <==> AllPinned(frames0)
      ensures r == None ==> frames == frames0 && table == old(table) && hand == old(hand) && disk == old(disk)
      ensures r.Some? ==>
                && r.value < capacity && frames[r.value].None?
                && Victim(frames0, old(hand), r.value) && hand == After(r.value, capacity)
                && table == old(table) - {frames0[r.value].value.id}
                && Chanced(frames0, old(hand), r.value, frames)
    {
      ghost var start := hand;
      var found := NextUnpinned();
      if found {
        var idx := hand;
        SecondVictim(frames0, frames, start, idx);
        Evict(idx);
        return Some(idx);
      }
      NothingToEvict(frames0, frames, start);
      return None;
    }

    /** Move the hand to the first unpinned frame, or once around. */
    method NextUnpinned() returns (found: bool)
      requires Valid()
      modifies this`hand
      ensures Valid() && (found <==> !AllPinned(frames)) && (!found ==> hand == old(hand))
      ensures found ==> FirstFrom(frames, old(hand), hand, Unpinned)
    {
      var j := 0;
      while j < capacity
        invariant 0 <= j <= capacity && hand < capacity
        invariant j < capacity ==> Distance(old(hand), hand, capacity) == j
        invariant j == capacity ==> hand == old(hand)
        invariant forall k :: 0 <= k < capacity && Distance(old(hand), k, capacity) < j ==> !Unpinned(frames[k])
      {
        if Unpinned(frames[hand]) {
          return true;
        }
        AfterDistance(old(hand), hand, capacity);
        hand := After(hand, capacity);
        j := j + 1;
      }
      return false;
    }

    // ----- how the tree uses the pool -----

    /** The pool between operations: nothing pinned, no frame lost. */
    ghost predicate Idle()
      reads this
    {
      Valid() && NoLeak() && forall p :: Pins(p) == 0
    }

    // An idle pool, however small, can always make room.
    lemma RoomWhenIdle()
      requires Idle()
      ensures !NoRoom()
    {
      var f := frames[0];
      if f.Some? {
        assert Pins(f.value.id) == 0;
        assert Unpinned(frames[0]);
      }
    }

    /** Use a cached page, then make room: the page is still there if anything else could go. */
    method UseThenTake(p: PageId, c: nat) returns (r: Option<nat>)
      requires Valid() && p in table && free == [] && c < capacity && c != table[p] && Cold(frames[c])
      modifies this
      ensures Valid() && View() == old(View()) && r.Some? && r.value != old(table)[p]
      ensures p in table && table[p] == old(table)[p]
    {
      var i := table[p];
      var o, d := FetchPage(p);
      assert frames[c] == Without(p)[c];
      o := UnpinPage(p, false);
      assert frames[c] == Without(p)[c];
      ghost var used, at := frames, hand;
      r := GetFreeFrame();
      assert Unpinned(used[c]);
      UsedStays(used, at, i, r.value, c);
    }

    /** Fetch, copy, unpin. */
    method ReadCopy(p: PageId) returns (d: Image)
      requires Idle() && p < |disk|
      modifies this
      ensures Idle() && View() == old(View()) && Spilled(old(disk), disk, View()) && d == View()[p]
    {
      RoomWhenIdle();
      var o;
      o, d := FetchPage(p);
      o := UnpinPage(p, false);
    }

    /** Fetch for writing, overwrite, unpin. */
    method Overwrite(p: PageId, d: Image)
      requires Idle() && p < |disk|
      modifies this
      ensures Idle() && View() == old(View())[p := d] && Spilled(old(disk), disk, old(View()))
    {
      RoomWhenIdle();
      var o := FetchPageMut(p);
      WritePage(p, d);
      o := UnpinPage(p, true);
    }

    /** Allocate, unpin. */
    method Allocate() returns (id: PageId)
      requires Idle() && |disk| < INVALID_PAGE_ID
      modifies this
      ensures Idle() && id == |old(disk)| && |disk| == id + 1 && View() == old(View()) + [FreshPage(id)]
    {
      RoomWhenIdle();
      var o;
      o, id := NewPage();
      o := UnpinPage(id, false);
    }
  }

  /** The hand goes by frame `k` before it takes frame `i`: on its way there, or once around if none is cold. */
  ghost predicate GoesBy(frames0: seq<Option<Frame>>, hand: nat, i: nat, k: nat)
    requires hand < |frames0| && i < |frames0| && k < |frames0|
  {
    (forall j :: 0 <= j < |frames0| ==> !Cold(frames0[j]))
    || Distance(hand, k, |frames0|) < Distance(hand, i, |frames0|)
  }

  /** Apart from frame `i`, the unpinned frames the hand goes by lose their reference bit, and nothing else changes. */
  ghost predicate Chanced(frames0: seq<Option<Frame>>, hand: nat, i: nat, frames: seq<Option<Frame>>)
    requires hand < |frames0| && i < |frames0|
  {
    && |frames| == |frames0|
    && forall k :: 0 <= k < |frames0| && k != i ==>
         frames[k] == if GoesBy(frames0, hand, i, k) && frames0[k].Some? && frames0[k].value.pins == 0
                      then Some(frames0[k].value.(ref := false)) else frames0[k]
  }

  /** Frame `i` was taken: the first of the free list, or else the victim of the clock. */
  ghost predicate Taken(frames0: seq<Option<Frame>>, free0: seq<nat>, hand0: nat, i: nat,
                        frames: seq<Option<Frame>>, free: seq<nat>, hand: nat)
    requires hand0 < |frames0| && i < |frames0|
  {
    if free0 != [] then free0 == [i] + free && frames == frames0 && hand == hand0
    else free == [] && Victim(frames0, hand0, i) && hand == After(i, |frames0|)
         && Chanced(frames0, hand0, i, frames) && frames[i].None?
  }

  // A frame that was referenced is not the one taken while some frame is cold.
  lemma UsedStays(frames: seq<Option<Frame>>, hand: nat, i: nat, v: nat, c: nat)
    requires hand < |frames| && i < |frames| && v < |frames| && c < |frames| && Victim(frames, hand, v)
    requires frames[i].Some? && frames[i].value.ref && Cold(frames[c])
    ensures v != i
  {
  }

  lemma AfterDistance(start: nat, h: nat, capacity: nat)
    requires start < capacity && h < capacity
    ensures After(h, capacity) < capacity
    ensures After(h, capacity) == start <==> Distance(start, h, capacity) == capacity - 1
    ensures After(h, capacity) != start ==>
              Distance(start, After(h, capacity), capacity) == Distance(start, h, capacity) + 1
  {
  }

  lemma SweepOn(frames0: seq<Option<Frame>>, frames: seq<Option<Frame>>, start: nat, j: nat, h: nat)
    requires start < |frames0| && h < |frames0| && Swept(frames0, frames, start, j)
    requires Distance(start, h, |frames0|) == j && !Cold(frames[h])
    ensures Swept(frames0, frames[h := Passed(frames[h])], start, j + 1)
  {
  }

  lemma SweptVictim(frames0: seq<Option<Frame>>, frames: seq<Option<Frame>>, start: nat, j: nat, h: nat)
    requires start < |frames0| && h < |frames0| && Swept(frames0, frames, start, j)
    requires Distance(start, h, |frames0|) == j && Cold(frames[h])
    ensures Victim(frames0, start, h) && frames[h] == frames0[h] && Chanced(frames0, start, h, frames)
  {
  }

  lemma SecondVictim(frames0: seq<Option<Frame>>, frames: seq<Option<Frame>>, start: nat, h: nat)
    requires start < |frames0| && h < |frames0| && Swept(frames0, frames, start, |frames0|) && Unpinned(frames[h])
    requires forall k :: 0 <= k < |frames0| && Distance(start, k, |frames0|) < Distance(start, h, |frames0|) ==>
               !Unpinned(frames[k])
    ensures Victim(frames0, start, h) && Unpinned(frames0[h]) && frames[h].value.id == frames0[h].value.id
    ensures Chanced(frames0, start, h, frames)
  {
    assert forall k :: 0 <= k < |frames0| ==> Unpinned(frames[k]) == Unpinned(frames0[k]);
  }

  // Eviction touches no pin: the victim had none, and the others keep theirs.
  lemma ChancedPins(frames0: seq<Option<Frame>>, table0: map<PageId, nat>, disk: seq<Image>, hand: nat,
                    frames: seq<Option<Frame>>, v: nat, p: PageId)
    requires FramesOk(frames0, table0, disk) && hand < |frames0| && v < |frames0| && Unpinned(frames0[v])
    requires Chanced(frames0, hand, v, frames)
    ensures PinsAt(frames, table0 - {frames0[v].value.id}, p) == PinsAt(frames0, table0, p)
  {
  }

  // Pin counts, reference bits and extra dirty marks do not show in the contents.
  lemma Retouch(frames: seq<Option<Frame>>, table: map<PageId, nat>, disk: seq<Image>, free: seq<nat>,
                i: nat, f': Frame)
    requires FramesOk(frames, table, disk) && FreeOk(frames, free) && i < |frames| && frames[i].Some?
    requires f'.id == frames[i].value.id && f'.data == frames[i].value.data && (frames[i].value.dirty ==> f'.dirty)
    ensures FramesOk(frames[i := Some(f')], table, disk) && FreeOk(frames[i := Some(f')], free)
    ensures Pages(frames[i := Some(f')], table, disk) == Pages(frames, table, disk)
  {
    forall p | 0 <= p < |disk|
      ensures PageAt(frames[i := Some(f')], table, disk, p) == PageAt(frames, table, disk, p)
    {
    }
  }

  lemma GrowCoherent(frames: seq<Option<Frame>>, table: map<PageId, nat>, disk: seq<Image>, free: seq<nat>)
    requires FramesOk(frames, table, disk) && FreeOk(frames, free)
    ensures FramesOk(frames, table, disk + [BlankPage()])
    ensures Pages(frames, table, disk + [BlankPage()]) == Pages(frames, table, disk) + [BlankPage()]
    ensures |disk| < 0x1_0000_0000 ==> |disk| !in table
  {
    var disk' := disk + [BlankPage()];
    forall p | 0 <= p < |disk'|
      ensures PageAt(frames, table, disk', p) == if p < |disk| then PageAt(frames, table, disk, p) else BlankPage()
    {
    }
  }

  lemma InstallCoherent(frames: seq<Option<Frame>>, table: map<PageId, nat>, disk: seq<Image>, free: seq<nat>,
                      i: nat, f: Frame)
    requires FramesOk(frames, table, disk) && FreeOk(frames, free) && i < |frames| && frames[i].None? && i !in free
    requires f.id !in table && f.id < |disk| && (f.dirty || f.data == disk[f.id])
    ensures FramesOk(frames[i := Some(f)], table[f.id := i], disk) && FreeOk(frames[i := Some(f)], free)
    ensures Pages(frames[i := Some(f)], table[f.id := i], disk) == Pages(frames, table, disk)[f.id := f.data]
  {
    forall p | 0 <= p < |disk|
      ensures PageAt(frames[i := Some(f)], table[f.id := i], disk, p)
              == if p == f.id then f.data else PageAt(frames, table, disk, p)
    {
    }
  }

  lemma CleanCoherent(frames: seq<Option<Frame>>, table: map<PageId, nat>, disk: seq<Image>, free: seq<nat>, i: nat)
    requires FramesOk(frames, table, disk) && FreeOk(frames, free) && i < |frames| && frames[i].Some?
    ensures var f := frames[i].value;
            var frames', disk' := frames[i := Some(f.(dirty := false))], disk[f.id := f.data];
            && FramesOk(frames', table, disk') && FreeOk(frames', free)
            && Pages(frames', table, disk') == Pages(frames, table, disk)
            && (forall q :: PinsAt(frames', table, q) == PinsAt(frames, table, q))
  {
    var f := frames[i].value;
    var frames', disk' := frames[i := Some(f.(dirty := false))], disk[f.id := f.data];
    forall p | 0 <= p < |disk| ensures PageAt(frames', table, disk', p) == PageAt(frames, table, disk, p) {
    }
  }

  lemma WriteCoherent(frames: seq<Option<Frame>>, table: map<PageId, nat>, disk: seq<Image>, free: seq<nat>,
                      i: nat, d: Image)
    requires FramesOk(frames, table, disk) && FreeOk(frames, free) && i < |frames| && frames[i].Some?
    ensures var f := frames[i].value;
            var frames' := frames[i := Some(f.(data := d, dirty := true))];
            && FramesOk(frames', table, disk) && FreeOk(frames', free)
            && Pages(frames', table, disk) == Pages(frames, table, disk)[f.id := d]
  {
    var f := frames[i].value;
    var frames' := frames[i := Some(f.(data := d, dirty := true))];
    forall p | 0 <= p < |disk|
      ensures PageAt(frames', table, disk, p) == if p == f.id then d else PageAt(frames, table, disk, p)
    {
    }
  }

  lemma NothingToEvict(frames0: seq<Option<Frame>>, frames: seq<Option<Frame>>, start: nat)
    requires start < |frames0| && Swept(frames0, frames, start, |frames0|) && AllPinned(frames)
    ensures frames == frames0
  {
    forall k | 0 <= k < |frames0| ensures frames[k] == frames0[k] {
      assert !Unpinned(frames[k]);
    }
  }

  lemma PassCoherent(frames: seq<Option<Frame>>, table: map<PageId, nat>, disk: seq<Image>, h: nat)
    requires FramesOk(frames, table, disk) && h < |frames|
    ensures FramesOk(frames[h := Passed(frames[h])], table, disk)
    ensures Pages(frames[h := Passed(frames[h])], table, disk) == Pages(frames, table, disk)
  {
    var frames' := frames[h := Passed(frames[h])];
    forall p | 0 <= p < |disk| ensures PageAt(frames', table, disk, p) == PageAt(frames, table, disk, p) {
    }
  }

  /** Frames at distance less than `j` have been passed, and none of them was cold. */
  ghost predicate Swept(frames0: seq<Option<Frame>>, frames: seq<Option<Frame>>, start: nat, j: nat)
    requires start < |frames0|
  {
    && |frames| == |frames0|
    && forall k :: 0 <= k < |frames0| ==>
         if Distance(start, k, |frames0|) < j then !Cold(frames0[k]) && frames[k] == Passed(frames0[k])
         else frames[k] == frames0[k]
  }

  lemma EvictCoherent(frames: seq<Option<Frame>>, table: map<PageId, nat>, disk: seq<Image>, i: nat)
    requires FramesOk(frames, table, disk) && i < |frames| && frames[i].Some?
    ensures var f := frames[i].value;
            var disk' := if f.dirty then disk[f.id := f.data] else disk;
            && FramesOk(frames[i := None], table - {f.id}, disk')
            && Pages(frames[i := None], table - {f.id}, disk') == Pages(frames, table, disk)
  {
    var f := frames[i].value;
    var disk' := if f.dirty then disk[f.id := f.data] else disk;
    var frames', table' := frames[i := None], table - {f.id};
    forall p | 0 <= p < |disk| ensures PageAt(frames', table', disk', p) == PageAt(frames, table, disk, p) {
    }
  }
}
