/** The PagedArray class: a cache of SLOTS page buffers over a file-resident
    int array, with least-recently-used replacement, dirty tracking and
    write-back on eviction and on destruction. The file is the field `disk`,
    addressed in elements rather than bytes. */
module PagedArrays {
  import opened CacheModel

  class PagedArray {
    /** The page buffers, one row of PAGE_SIZE ints per slot. */
    const pages: array2<int>
    /** The page held by each slot, EMPTY for none. */
    var loadedPages: seq<int>
    /** Whether each slot was written since it was loaded or saved. */
    var dirtyPages: seq<bool>
    /** Source of access timestamps. */
    var accessCounter: nat
    /** Timestamp of the latest access to each slot. */
    var lastAccessed: seq<nat>
    /** The backing file, one entry per int. */
    var disk: seq<int>
    /** The output buffer of the file stream: an int written but not yet
        pushed to the file, which the next seek or the closing of the file
        does. */
    var output: Output
    /** The logical int array the cache presents to its clients. */
    ghost var contents: seq<int>

    /** The invariant kept at every step: the slot table fits the store and
        holds no page twice, the timestamps are ordered, contents is the
        logical array of the buffers over the file, and an int the stream
        still holds is the logical value of a resident element. */
    ghost predicate Formed()
      reads this, pages
    {
      pages.Length0 == SLOTS && pages.Length1 == PAGE_SIZE &&
      SlotsOk(disk, loadedPages, dirtyPages) &&
      |lastAccessed| == SLOTS && TimestampsOk(lastAccessed, accessCounter) &&
      Presents(contents, disk, loadedPages, Rows()) &&
      (output.Pending? ==>
         0 <= output.at < |disk| && SlotFor(loadedPages, output.at / PAGE_SIZE) != EMPTY &&
         output.value == contents[output.at])
    }

    /** Object invariant between the operations of the cache: Formed, with
        nothing held by the stream. */
    ghost predicate Valid()
      reads this, pages
    {
      pages.Length0 == SLOTS && pages.Length1 == PAGE_SIZE &&
      SlotsOk(disk, loadedPages, dirtyPages) &&
      |lastAccessed| == SLOTS && TimestampsOk(lastAccessed, accessCounter) &&
      Presents(contents, disk, loadedPages, Rows()) &&
      output.Drained?
    }

    /** The contents of one page buffer. */
    function RowOf(s: int): (row: seq<int>)
      reads pages
      requires 0 <= s < pages.Length0 && pages.Length1 == PAGE_SIZE
      ensures |row| == PAGE_SIZE
      ensures forall o :: 0 <= o < PAGE_SIZE ==> row[o] == pages[s, o]
    {
      seq(PAGE_SIZE, o requires 0 <= o < PAGE_SIZE reads pages => pages[s, o])
    }

    /** All page buffers as values. */
    ghost function Rows(): (rows: seq<seq<int>>)
      reads pages
      requires pages.Length0 == SLOTS && pages.Length1 == PAGE_SIZE
      ensures RowsOk(rows)
      ensures forall s, o :: 0 <= s < SLOTS && 0 <= o < PAGE_SIZE ==> rows[s][o] == pages[s, o]
    {
      seq(SLOTS, s requires 0 <= s < SLOTS reads pages => RowOf(s))
    }

    /** Every clean resident page buffer equals its page in the file. */
    ghost predicate Coherent()
      reads this, pages
      requires Valid()
    {
      CoherentOf(disk, loadedPages, dirtyPages, Rows())
    }

    /** Buffers equal to the rows r are the rows r. */
    lemma RowsAre(r: seq<seq<int>>)
      requires pages.Length0 == SLOTS && pages.Length1 == PAGE_SIZE && RowsOk(r)
      requires forall s, o :: 0 <= s < SLOTS && 0 <= o < PAGE_SIZE ==> pages[s, o] == r[s][o]
      ensures Rows() == r
    {
      var rows := Rows();
      forall s | 0 <= s < SLOTS
        ensures rows[s] == r[s]
      {
        assert |rows[s]| == |r[s]|;
      }
    }

    /** Opens the array over a file of whole pages: every slot empty and clean,
        every timestamp and the counter at 0, every buffer zero-filled. */
    constructor (store: seq<int>)
      requires |store| % PAGE_SIZE == 0
      ensures Valid() && Coherent() && fresh(pages)
      ensures disk == store && contents == store
      ensures loadedPages == seq(SLOTS, s => EMPTY) && dirtyPages == seq(SLOTS, s => false)
      ensures lastAccessed == seq(SLOTS, s => 0) && accessCounter == 0
      ensures forall s, o :: 0 <= s < SLOTS && 0 <= o < PAGE_SIZE ==> pages[s, o] == 0
    {
      pages := new int[SLOTS, PAGE_SIZE];
      dirtyPages := seq(SLOTS, s => false);
      accessCounter := 0;
      lastAccessed := seq(SLOTS, s => 0);
      // the C++ array starts indeterminate; the loop below sets every entry
      loadedPages := seq(SLOTS, s => 0);
      disk := store;
      output := Drained;
      contents := store;
      new;
      for i := 0 to SLOTS
        invariant |loadedPages| == SLOTS
        invariant forall k :: 0 <= k < i ==> loadedPages[k] == EMPTY
        invariant forall k, o :: 0 <= k < i && 0 <= o < PAGE_SIZE ==> pages[k, o] == 0
        invariant dirtyPages == seq(SLOTS, s => false) && disk == store && contents == store
        invariant output == Drained
        invariant lastAccessed == seq(SLOTS, s => 0) && accessCounter == 0
      {
        loadedPages := loadedPages[i := EMPTY];
        forall o | 0 <= o < PAGE_SIZE {
          pages[i, o] := 0;
        }
      }
      assert loadedPages == seq(SLOTS, s => EMPTY);
      forall k | 0 <= k < |store|
        ensures contents[k] == CellOf(disk, loadedPages, Rows(), k)
      {
        assert SlotFor(loadedPages, k / PAGE_SIZE) == EMPTY;
      }
    }

    /** findLRUPage: the slot with the smallest timestamp, the lowest index
        among equals. */
    method FindLRUPage() returns (oldest: int)
      requires Valid()
      ensures oldest == Lru(lastAccessed)
      ensures 0 <= oldest < SLOTS
      ensures forall k :: 0 <= k < SLOTS ==> lastAccessed[oldest] <= lastAccessed[k]
      ensures forall k :: 0 <= k < oldest ==> lastAccessed[oldest] < lastAccessed[k]
    {
      oldest := 0;
      for i := 1 to SLOTS
        invariant 0 <= oldest < i
        invariant oldest == LruAmong(lastAccessed, i)
      {
        if lastAccessed[i] < lastAccessed[oldest] {
          oldest := i;
        }
      }
    }

    /** savePageToDisk: a dirty slot's buffer is written over its page of the
        file and the slot becomes clean; a clean slot writes nothing. */
    method SavePageToDisk(slot: int)
      requires Valid() && 0 <= slot < SLOTS
      modifies this`disk, this`dirtyPages
      ensures Valid()
      ensures disk == old(FlushSlot(disk, loadedPages, dirtyPages, Rows(), slot))
      ensures dirtyPages == old(dirtyPages)[slot := false]
    {
      FlushKeepsView(disk, loadedPages, dirtyPages, Rows(), slot);
      PresentsIsView(contents, disk, loadedPages, Rows());
      PresentsIsView(contents, FlushSlot(disk, loadedPages, dirtyPages, Rows(), slot), loadedPages, Rows());
      if dirtyPages[slot] {
        ghost var flushed := FlushSlot(disk, loadedPages, dirtyPages, Rows(), slot);
        var base := loadedPages[slot] * PAGE_SIZE;
        disk := disk[..base] + RowOf(slot) + disk[base + PAGE_SIZE..];
        forall k | 0 <= k < |disk|
          ensures disk[k] == flushed[k]
        {
          PagePosition(k);
        }
        dirtyPages := dirtyPages[slot := false];
      }
    }

    /** The destructor: every slot is saved in slot order, so no slot stays
        dirty and each slot that was dirty has its buffer in the file. An int
        the stream still holds reaches the file first: the seek of the first
        dirty slot's save pushes it out, and when no slot is dirty the
        closing of the file does, after which nothing else is written. On a
        coherent cache the file then holds the logical array. */
    method Close()
      requires Formed()
      modifies this`disk, this`dirtyPages, this`output
      ensures Valid() && |disk| == old(|disk|)
      ensures forall s :: 0 <= s < SLOTS ==> !dirtyPages[s]
      ensures forall k :: 0 <= k < |disk| ==>
        disk[k] == (var s := SlotFor(loadedPages, k / PAGE_SIZE);
                    if s != EMPTY && old(dirtyPages[s]) then pages[s, k % PAGE_SIZE]
                    else old(Drain(disk, output))[k])
      ensures old(CoherentOf(disk, loadedPages, dirtyPages, Rows())) ==> Coherent() && disk == contents
    {
      FlushOutput();
      SaveAll();
    }

    /** The loop of the destructor: every slot is saved in slot order. */
    method SaveAll()
      requires Valid()
      modifies this`disk, this`dirtyPages
      ensures Valid() && |disk| == old(|disk|)
      ensures forall s :: 0 <= s < SLOTS ==> !dirtyPages[s]
      ensures forall k :: 0 <= k < |disk| ==>
        disk[k] == (var s := SlotFor(loadedPages, k / PAGE_SIZE);
                    if s != EMPTY && old(dirtyPages[s]) then pages[s, k % PAGE_SIZE] else old(disk[k]))
      ensures old(Coherent()) ==> Coherent() && disk == contents
    {
      ghost var d0, l0, dp0, r0 := disk, loadedPages, dirtyPages, Rows();
      ghost var coherent := Coherent();
      for i := 0 to SLOTS
        invariant Valid() && unchanged(pages) && loadedPages == l0
        invariant forall s :: 0 <= s < i ==> !dirtyPages[s]
        invariant forall s :: i <= s < SLOTS ==> dirtyPages[s] == dp0[s]
        invariant SavedBelow(disk, d0, l0, dp0, r0, i)
        invariant coherent ==> Coherent()
      {
        SaveNext(disk, d0, l0, dp0, dirtyPages, r0, i);
        if coherent {
          FlushKeepsView(disk, loadedPages, dirtyPages, r0, i);
          FlushKeepsCoherent(disk, loadedPages, dirtyPages, r0, i);
        }
        SavePageToDisk(i);
      }
      if coherent {
        CleanViewIsStore(disk, loadedPages, dirtyPages, Rows());
        PresentsIsView(contents, disk, loadedPages, Rows());
      }
    }

    /** operator[]: the slot and offset of element index, loading its page on
        a miss. A hit only restamps the slot. A miss takes the least recently
        used slot, saves it if dirty, then loads the page into it. On a
        coherent cache the logical array is unchanged and stays coherent. */
    method Access(index: int) returns (slot: int, offset: int)
      requires Valid() && 0 <= index < |disk|
      modifies this, pages
      ensures Valid()
      ensures 0 <= slot < SLOTS && offset == index % PAGE_SIZE && loadedPages[slot] == index / PAGE_SIZE
      ensures accessCounter == old(accessCounter) + 1
      ensures lastAccessed == old(lastAccessed)[slot := old(accessCounter)]
      ensures old(SlotFor(loadedPages, index / PAGE_SIZE)) != EMPTY ==>
        slot == old(SlotFor(loadedPages, index / PAGE_SIZE)) &&
        loadedPages == old(loadedPages) && dirtyPages == old(dirtyPages) &&
        disk == old(disk) && unchanged(pages) && contents == old(contents)
      ensures old(SlotFor(loadedPages, index / PAGE_SIZE)) == EMPTY ==>
        slot == Lru(old(lastAccessed)) &&
        disk == old(FlushSlot(disk, loadedPages, dirtyPages, Rows(), slot)) &&
        dirtyPages == old(dirtyPages)[slot := false] &&
        loadedPages == old(loadedPages)[slot := index / PAGE_SIZE] &&
        Rows() == old(Rows())[slot := PageOf(disk, index / PAGE_SIZE)]
      ensures forall k :: 0 <= k < |disk| ==> disk[k] == old(disk[k]) || disk[k] == old(contents[k])
      ensures old(Coherent()) ==> Coherent() && contents == old(contents)
    {
      var page := index / PAGE_SIZE;
      offset := index % PAGE_SIZE;
      for i := 0 to SLOTS
        invariant unchanged(this, pages)
        invariant forall k :: 0 <= k < i ==> loadedPages[k] != page
      {
        if loadedPages[i] == page {
          StampKeepsOrder(lastAccessed, accessCounter, i);
          lastAccessed := lastAccessed[i := accessCounter];
          accessCounter := accessCounter + 1;
          slot := i;
          return;
        }
      }
      slot := LoadPage(index);
    }

    /** The miss path of operator[]: the least recently used slot is saved
        if dirty, then takes the page of index, a fresh timestamp and that
        page's contents from the file. */
    method LoadPage(index: int) returns (slot: int)
      requires Valid() && 0 <= index < |disk|
      requires SlotFor(loadedPages, index / PAGE_SIZE) == EMPTY
      modifies this, pages
      ensures Valid()
      ensures 0 <= slot < SLOTS && loadedPages[slot] == index / PAGE_SIZE
      ensures accessCounter == old(accessCounter) + 1
      ensures lastAccessed == old(lastAccessed)[slot := old(accessCounter)]
      ensures slot == Lru(old(lastAccessed))
      ensures disk == old(FlushSlot(disk, loadedPages, dirtyPages, Rows(), slot))
      ensures dirtyPages == old(dirtyPages)[slot := false]
      ensures loadedPages == old(loadedPages)[slot := index / PAGE_SIZE]
      ensures Rows() == old(Rows())[slot := PageOf(disk, index / PAGE_SIZE)]
      ensures forall k :: 0 <= k < |disk| ==> disk[k] == old(disk[k]) || disk[k] == old(contents[k])
      ensures old(Coherent()) ==> Coherent() && contents == old(contents)
    {
      var page := index / PAGE_SIZE;
      ghost var d0, l0, dp0, r0 := disk, loadedPages, dirtyPages, Rows();
      PresentsIsView(contents, d0, l0, r0);
      slot := FindLRUPage();
      PageOfElementInStore(|disk|, index);
      MissKeepsView(d0, l0, dp0, r0, slot, page);
      SavePageToDisk(slot);
      loadedPages := loadedPages[slot := page];
      StampKeepsOrder(lastAccessed, accessCounter, slot);
      lastAccessed := lastAccessed[slot := accessCounter];
      accessCounter := accessCounter + 1;
      ReadPage(slot, page);
      contents := ViewOf(disk, loadedPages, Rows());
      PresentsIsView(contents, disk, loadedPages, Rows());
    }

    /** The `file.read` of a miss: the buffer of slot takes page of the file. */
    method ReadPage(slot: int, page: int)
      requires pages.Length0 == SLOTS && pages.Length1 == PAGE_SIZE
      requires 0 <= slot < SLOTS && PageInStore(|disk|, page)
      modifies pages
      ensures Rows() == old(Rows())[slot := PageOf(disk, page)]
    {
      ghost var r0 := Rows();
      forall o | 0 <= o < PAGE_SIZE {
        pages[slot, o] := disk[page * PAGE_SIZE + o];
      }
      RowsAre(r0[slot := PageOf(disk, page)]);
    }


    /** markPageDirty: the slot holding the page of index becomes dirty; when
        no slot holds it nothing happens. */
    method MarkPageDirty(index: int)
      requires Valid() && 0 <= index
      modifies this`dirtyPages
      ensures Valid()
      ensures var s := SlotFor(loadedPages, index / PAGE_SIZE);
        dirtyPages == if s == EMPTY then old(dirtyPages) else old(dirtyPages)[s := true]
    {
      var page := index / PAGE_SIZE;
      for i := 0 to SLOTS
        invariant dirtyPages == old(dirtyPages)
        invariant forall k :: 0 <= k < i ==> loadedPages[k] != page
      {
        if loadedPages[i] == page {
          dirtyPages := dirtyPages[i := true];
          break;
        }
      }
    }

    /** The flush that every seek and the closing of the file perform: an
        int the stream still holds reaches the file. It is the logical value
        of a resident element, so the logical array is kept, and so is
        coherence. */
    method FlushOutput()
      requires Formed()
      modifies this`disk, this`output
      ensures Valid() && disk == old(Drain(disk, output))
      ensures old(CoherentOf(disk, loadedPages, dirtyPages, Rows())) ==> Coherent()
    {
      if output.Pending? {
        ghost var r := Rows();
        PresentsIsView(contents, disk, loadedPages, r);
        StoreLogicalValue(disk, loadedPages, dirtyPages, r, output.at);
        disk := disk[output.at := output.value];
        PresentsIsView(contents, disk, loadedPages, r);
      }
      output := Drained;
    }

    /** One iteration of writeToFile: element i is read through the cache,
        then written for position i of the file, where the stream holds it.
        The seek before that write pushes the previous iteration's int out;
        the model pushes it before the access, which leaves the same file,
        because a miss seeks before it touches the file and a hit touches
        neither the file nor the stream. The loop state moves from i to
        i + 1. */
    method WriteElement(i: int, ghost v0: seq<int>, ghost d0: seq<int>, ghost l0: seq<int>,
                        ghost coherent: bool, ghost resident: bool)
      requires Writing(i, v0, d0, l0, coherent, resident) && i < |disk|
      requires resident ==> SlotFor(l0, i / PAGE_SIZE) != EMPTY
      modifies this, pages
      ensures Writing(i + 1, v0, d0, l0, coherent, resident)
    {
      FlushOutput();
      var value := ReadElement(i);
      output := Pending(i, value);
    }

    /** `(*this)[i]` read as an int: the logical element i, whose page is
        then resident. A hit changes neither the slot table nor the file; on
        a coherent cache the logical array is kept and every file cell keeps
        its value or takes its logical value. */
    method ReadElement(i: int) returns (x: int)
      requires Valid() && 0 <= i < |disk|
      modifies this, pages
      ensures Valid() && |disk| == old(|disk|) && accessCounter > old(accessCounter)
      ensures x == contents[i] && SlotFor(loadedPages, i / PAGE_SIZE) != EMPTY
      ensures old(SlotFor(loadedPages, i / PAGE_SIZE)) != EMPTY ==>
        loadedPages == old(loadedPages) && disk == old(disk)
      ensures old(Coherent()) ==>
        Coherent() && contents == old(contents) &&
        forall k :: 0 <= k < |disk| ==> disk[k] == old(disk[k]) || disk[k] == contents[k]
    {
      var s, o := Access(i);
      x := pages[s, o];
      SlotForExact(loadedPages, i / PAGE_SIZE, s);
      assert contents[i] == CellOf(disk, loadedPages, Rows(), i);
    }

    /** writeToFile: elements 0 .. totalNumbers-1 are read through the cache
        and each is written for its own position of the file. Each int
        reaches the file at the next seek, and nothing seeks after the last
        one, so the stream still holds it when the method returns. On a
        coherent cache the file holds the logical array below position
        totalNumbers-1, and the stream holds the logical value for that
        position. When every element written is on a resident page no
        access misses, and the file from position totalNumbers-1 on is as
        it was. */
    method WriteToFile(totalNumbers: int)
      requires Valid() && totalNumbers <= |disk|
      modifies this, pages
      ensures Formed() && |disk| == old(|disk|)
      ensures totalNumbers <= 0 ==> output == Drained
      ensures totalNumbers > 0 ==> output == Pending(totalNumbers - 1, contents[totalNumbers - 1])
      ensures old(Coherent()) ==>
        CoherentOf(disk, loadedPages, dirtyPages, Rows()) && contents == old(contents) &&
        forall k :: 0 <= k < totalNumbers - 1 ==> disk[k] == contents[k]
      ensures (forall k :: 0 <= k < totalNumbers ==> old(SlotFor(loadedPages, k / PAGE_SIZE)) != EMPTY) ==>
        forall k :: 0 <= k < |disk| && totalNumbers - 1 <= k ==> disk[k] == old(disk[k])
    {
      ghost var coherent := Coherent();
      ghost var resident := forall k :: 0 <= k < totalNumbers ==> SlotFor(loadedPages, k / PAGE_SIZE) != EMPTY;
      ghost var v0, d0, l0 := contents, disk, loadedPages;
      var i := 0;
      while i < totalNumbers
        invariant Writing(i, v0, d0, l0, coherent, resident)
        invariant i <= totalNumbers || i == 0
      {
        WriteElement(i, v0, d0, l0, coherent, resident);
        i := i + 1;
      }
    }

    /** The state of writeToFile's loop before element i is written, from
        logical array v0, file d0 and slot table l0: the stream holds element
        i-1; on a coherent cache the cache stays coherent, the logical array
        is kept and the file holds it below i-1; and when every page written
        was resident (no access misses) the slot table is kept and the file
        from i-1 on is as it was. */
    ghost predicate Writing(i: int, v0: seq<int>, d0: seq<int>, l0: seq<int>, coherent: bool, resident: bool)
      reads this, pages
    {
      Formed() && |disk| == |d0| == |v0| == |contents| && 0 <= i <= |disk| &&
      output == (if i == 0 then Drained else Pending(i - 1, contents[i - 1])) &&
      (coherent ==>
         CoherentOf(disk, loadedPages, dirtyPages, Rows()) && contents == v0 &&
         forall k :: 0 <= k < i - 1 ==> disk[k] == v0[k]) &&
      (resident ==>
         loadedPages == l0 && forall k :: 0 <= k < |disk| && i - 1 <= k ==> disk[k] == d0[k])
    }

    /** writeToFile followed by a flush of the stream: positions 0 ..
        totalNumbers-1 of the file end up holding the logical array. */
    method WriteToFileFlushed(totalNumbers: int)
      requires Valid() && totalNumbers <= |disk|
      modifies this, pages
      ensures Valid() && |disk| == old(|disk|)
      ensures old(Coherent()) ==>
        Coherent() && contents == old(contents) &&
        forall k :: 0 <= k < totalNumbers ==> disk[k] == contents[k]
    {
      WriteToFile(totalNumbers);
      FlushOutput();
    }
  }
}
