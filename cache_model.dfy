/** Value-level model of the page cache behind PagedArray: which slot holds a
    page, which slot is least recently used, what the logical array is, and
    when the in-memory pages agree with the backing store. The class in
    paged_array.dfy is proved against these definitions. */
module CacheModel {

  /** Number of ints in one page. */
  const PAGE_SIZE: nat := 256
  /** Number of page slots in the cache. */
  const SLOTS: nat := 6
  /** Page number of a slot that holds no page. */
  const EMPTY: int := -1

  /** The first slot holding page p, or EMPTY when no slot does (the scan of
      loadedPages that both the element access and markPageDirty perform). */
  function SlotFor(loaded: seq<int>, p: int): (s: int)
    ensures EMPTY <= s < |loaded|
    ensures s == EMPTY <==> forall k :: 0 <= k < |loaded| ==> loaded[k] != p
    ensures s != EMPTY ==> loaded[s] == p && forall k :: 0 <= k < s ==> loaded[k] != p
  {
    if |loaded| == 0 then EMPTY
    else if loaded[0] == p then 0
    else
      var r := SlotFor(loaded[1..], p);
      if r == EMPTY then EMPTY else r + 1
  }

  /** No page is held by two slots. */
  predicate AliasFree(loaded: seq<int>)
  {
    forall s, t :: 0 <= s < t < |loaded| && loaded[s] != EMPTY ==> loaded[s] != loaded[t]
  }

  /** In an alias-free table the first slot holding a page is the only one. */
  lemma SlotForExact(loaded: seq<int>, p: int, s: int)
    requires AliasFree(loaded) && p != EMPTY
    requires 0 <= s < |loaded| && loaded[s] == p
    ensures SlotFor(loaded, p) == s
  {
  }

  /** The slot with the smallest timestamp among the first n, the earliest slot
      winning ties: the loop of findLRUPage after it has looked at n slots. */
  function LruAmong(ts: seq<nat>, n: nat): (r: nat)
    requires 0 < n <= |ts|
    ensures r < n
    ensures forall k :: 0 <= k < n ==> ts[r] <= ts[k]
    ensures forall k :: 0 <= k < r ==> ts[r] < ts[k]
  {
    if n == 1 then 0
    else
      var best := LruAmong(ts, n - 1);
      if ts[n - 1] < ts[best] then n - 1 else best
  }

  /** The replacement victim: least recently used slot, lowest index on ties. */
  function Lru(ts: seq<nat>): (r: nat)
    requires |ts| > 0
    ensures r < |ts|
    ensures forall k :: 0 <= k < |ts| ==> ts[r] <= ts[k]
    ensures forall k :: 0 <= k < r ==> ts[r] < ts[k]
  {
    LruAmong(ts, |ts|)
  }

  /** Timestamps come from a counter that only grows: each is below the
      counter or is the initial 0, and no two slots share a non-zero one. */
  predicate TimestampsOk(ts: seq<nat>, counter: nat)
  {
    (forall s :: 0 <= s < |ts| ==> ts[s] < counter || ts[s] == 0) &&
    (forall s, t :: 0 <= s < t < |ts| && ts[s] == ts[t] ==> ts[s] == 0)
  }

  /** Stamping a slot with the counter and then advancing the counter keeps
      the timestamps well ordered. */
  lemma {:induction false} StampKeepsOrder(ts: seq<nat>, counter: nat, s: int)
    requires TimestampsOk(ts, counter) && 0 <= s < |ts|
    ensures TimestampsOk(ts[s := counter], counter + 1)
  {
    var ts' := ts[s := counter];
    forall a, b | 0 <= a < b < |ts'| && ts'[a] == ts'[b]
      ensures ts'[a] == 0
    {
      if a == s || b == s {
        var other := if a == s then b else a;
        assert ts'[other] == ts[other];
        assert ts[other] < counter || ts[other] == 0;
      }
    }
  }

  /** Once at least one stamp above 0 has been handed out, the slot stamped
      last is never the next victim: two element references taken one after
      the other both stay valid. */
  lemma {:induction false} MostRecentNotVictim(ts: seq<nat>, counter: nat, m: int)
    requires |ts| >= 2 && TimestampsOk(ts, counter)
    requires 0 <= m < |ts| && ts[m] + 1 == counter && counter >= 2
    ensures Lru(ts) != m
  {
    var other := if m == 0 then 1 else 0;
    assert ts[other] != ts[m];
    assert ts[Lru(ts)] <= ts[other] < ts[m];
  }

  /** On a fresh cache every timestamp is 0 and the counter starts at 0, so the
      first page loaded goes to slot 0 with timestamp 0, and the next miss
      chooses slot 0 again although five slots are still empty. */
  lemma FreshCacheReusesFirstSlot(ts: seq<nat>)
    requires ts == seq(SLOTS, k => 0)
    ensures Lru(ts) == 0
    ensures Lru(ts[Lru(ts) := 0]) == 0
  {
    assert forall k :: 0 <= k < |ts| ==> ts[k] == 0;
    assert ts[0] == 0;
    assert ts[0 := 0] == ts;
  }

  /** Page p lies wholly inside a store of n elements. */
  predicate PageInStore(n: int, p: int)
  {
    0 <= p && (p + 1) * PAGE_SIZE <= n
  }

  /** The page buffers: one row of PAGE_SIZE ints per slot. */
  predicate RowsOk(rows: seq<seq<int>>)
  {
    |rows| == SLOTS && forall s :: 0 <= s < SLOTS ==> |rows[s]| == PAGE_SIZE
  }

  /** Slot table over a store of whole pages: every slot is empty or holds a
      page of the store, only occupied slots are dirty, no page is held twice. */
  predicate SlotsOk(disk: seq<int>, loaded: seq<int>, dirty: seq<bool>)
  {
    |disk| % PAGE_SIZE == 0 && |loaded| == SLOTS && |dirty| == SLOTS &&
    (forall s :: 0 <= s < SLOTS ==> loaded[s] == EMPTY || PageInStore(|disk|, loaded[s])) &&
    (forall s :: 0 <= s < SLOTS && dirty[s] ==> loaded[s] != EMPTY) &&
    AliasFree(loaded)
  }

  /** Value of logical element i: the buffered copy when its page is resident,
      the store otherwise. */
  function CellOf(disk: seq<int>, loaded: seq<int>, rows: seq<seq<int>>, i: int): int
    requires |loaded| == SLOTS && RowsOk(rows) && 0 <= i < |disk|
  {
    var s := SlotFor(loaded, i / PAGE_SIZE);
    if s == EMPTY then disk[i] else rows[s][i % PAGE_SIZE]
  }

  /** The logical array a client of the cache sees. */
  function ViewOf(disk: seq<int>, loaded: seq<int>, rows: seq<seq<int>>): (v: seq<int>)
    requires |loaded| == SLOTS && RowsOk(rows)
    ensures |v| == |disk|
  {
    seq(|disk|, i requires 0 <= i < |disk| => CellOf(disk, loaded, rows, i))
  }

  /** v is the logical array of the cache state, stated element by element;
      each element is only unfolded where CellOf is mentioned. */
  predicate Presents(v: seq<int>, disk: seq<int>, loaded: seq<int>, rows: seq<seq<int>>)
    requires |loaded| == SLOTS && RowsOk(rows)
  {
    |v| == |disk| &&
    forall i {:trigger CellOf(disk, loaded, rows, i)} :: 0 <= i < |disk| ==> v[i] == CellOf(disk, loaded, rows, i)
  }

  /** Presents pins down exactly the logical array ViewOf computes. */
  lemma PresentsIsView(v: seq<int>, disk: seq<int>, loaded: seq<int>, rows: seq<seq<int>>)
    requires |loaded| == SLOTS && RowsOk(rows)
    ensures Presents(v, disk, loaded, rows) <==> v == ViewOf(disk, loaded, rows)
  {
    var w := ViewOf(disk, loaded, rows);
    if Presents(v, disk, loaded, rows) {
      forall k | 0 <= k < |disk|
        ensures v[k] == w[k]
      {
        assert v[k] == CellOf(disk, loaded, rows, k);
      }
    }
  }

  /** Every clean resident slot holds exactly its page of the store. */
  predicate CoherentOf(disk: seq<int>, loaded: seq<int>, dirty: seq<bool>, rows: seq<seq<int>>)
    requires SlotsOk(disk, loaded, dirty) && RowsOk(rows)
  {
    forall s, o :: 0 <= s < SLOTS && loaded[s] != EMPTY && !dirty[s] && 0 <= o < PAGE_SIZE ==>
      rows[s][o] == disk[loaded[s] * PAGE_SIZE + o]
  }

  /** The store after savePageToDisk(s): a dirty slot's row overwrites its
      page, a clean slot writes nothing. */
  function FlushSlot(disk: seq<int>, loaded: seq<int>, dirty: seq<bool>, rows: seq<seq<int>>, s: int): (d: seq<int>)
    requires SlotsOk(disk, loaded, dirty) && RowsOk(rows) && 0 <= s < SLOTS
    ensures |d| == |disk|
  {
    seq(|disk|, k requires 0 <= k < |disk| =>
      if dirty[s] && k / PAGE_SIZE == loaded[s] then rows[s][k % PAGE_SIZE] else disk[k])
  }

  /** The output buffer of the file stream: empty, or holding one int
      written for position `at` that has not reached the file yet. */
  datatype Output = Drained | Pending(at: int, value: int)

  /** The file once the stream has pushed its buffer out. */
  function Drain(disk: seq<int>, out: Output): seq<int>
    requires out.Pending? ==> 0 <= out.at < |disk|
  {
    if out.Pending? then disk[out.at := out.value] else disk
  }

  /** A store page as a row. */
  function PageOf(disk: seq<int>, p: int): (row: seq<int>)
    requires PageInStore(|disk|, p)
    ensures |row| == PAGE_SIZE
    ensures forall o :: 0 <= o < PAGE_SIZE ==> row[o] == disk[p * PAGE_SIZE + o]
  {
    disk[p * PAGE_SIZE .. (p + 1) * PAGE_SIZE]
  }

  /** Element i lies at offset i % PAGE_SIZE of page i / PAGE_SIZE. */
  lemma PagePosition(i: int)
    requires 0 <= i
    ensures i == i / PAGE_SIZE * PAGE_SIZE + i % PAGE_SIZE
    ensures 0 <= i % PAGE_SIZE < PAGE_SIZE
  {
  }

  /** A store of whole pages holds the page of every one of its elements. */
  lemma {:induction false} PageOfElementInStore(n: int, i: int)
    requires n % PAGE_SIZE == 0 && 0 <= i < n
    ensures PageInStore(n, i / PAGE_SIZE)
  {
    PagePosition(i);
    PagePosition(n);
  }

  /** Flushing a slot never changes the logical array, only moves the store
      towards it, and leaves the slot clean. */
  lemma {:induction false} FlushKeepsView(disk: seq<int>, loaded: seq<int>, dirty: seq<bool>, rows: seq<seq<int>>, s: int)
    requires SlotsOk(disk, loaded, dirty) && RowsOk(rows) && 0 <= s < SLOTS
    ensures SlotsOk(FlushSlot(disk, loaded, dirty, rows, s), loaded, dirty[s := false])
    ensures ViewOf(FlushSlot(disk, loaded, dirty, rows, s), loaded, rows) == ViewOf(disk, loaded, rows)
    ensures forall k :: 0 <= k < |disk| ==>
      FlushSlot(disk, loaded, dirty, rows, s)[k] == disk[k] ||
      FlushSlot(disk, loaded, dirty, rows, s)[k] == ViewOf(disk, loaded, rows)[k]
  {
    var d := FlushSlot(disk, loaded, dirty, rows, s);
    var v, v' := ViewOf(disk, loaded, rows), ViewOf(d, loaded, rows);
    forall k | 0 <= k < |disk|
      ensures v'[k] == v[k]
      ensures d[k] == disk[k] || d[k] == v[k]
    {
      if dirty[s] && k / PAGE_SIZE == loaded[s] {
        SlotForExact(loaded, loaded[s], s);
      }
    }
  }

  /** Flushing a slot keeps a coherent cache coherent. */
  lemma {:induction false} FlushKeepsCoherent(disk: seq<int>, loaded: seq<int>, dirty: seq<bool>, rows: seq<seq<int>>, s: int)
    requires SlotsOk(disk, loaded, dirty) && RowsOk(rows) && 0 <= s < SLOTS
    requires CoherentOf(disk, loaded, dirty, rows)
    ensures SlotsOk(FlushSlot(disk, loaded, dirty, rows, s), loaded, dirty[s := false])
    ensures CoherentOf(FlushSlot(disk, loaded, dirty, rows, s), loaded, dirty[s := false], rows)
  {
    FlushKeepsView(disk, loaded, dirty, rows, s);
    var d := FlushSlot(disk, loaded, dirty, rows, s);
    forall t, o | 0 <= t < SLOTS && loaded[t] != EMPTY && !dirty[s := false][t] && 0 <= o < PAGE_SIZE
      ensures rows[t][o] == d[loaded[t] * PAGE_SIZE + o]
    {
      var k := loaded[t] * PAGE_SIZE + o;
      assert k / PAGE_SIZE == loaded[t] && k % PAGE_SIZE == o;
      if t != s && dirty[s] {
        assert loaded[s] != loaded[t] by {
          if s < t { } else { }
        }
      }
    }
  }

  /** Loading a page that no slot holds into a clean slot keeps the slot
      table alias free; on a coherent cache it also leaves the logical array
      unchanged and the cache coherent. */
  lemma {:induction false} LoadKeepsView(disk: seq<int>, loaded: seq<int>, dirty: seq<bool>, rows: seq<seq<int>>, v: int, p: int)
    requires SlotsOk(disk, loaded, dirty) && RowsOk(rows)
    requires 0 <= v < SLOTS && !dirty[v]
    requires PageInStore(|disk|, p) && SlotFor(loaded, p) == EMPTY
    ensures SlotsOk(disk, loaded[v := p], dirty) && RowsOk(rows[v := PageOf(disk, p)])
    ensures CoherentOf(disk, loaded, dirty, rows) ==>
      CoherentOf(disk, loaded[v := p], dirty, rows[v := PageOf(disk, p)]) &&
      ViewOf(disk, loaded[v := p], rows[v := PageOf(disk, p)]) == ViewOf(disk, loaded, rows)
  {
    var l, r := loaded[v := p], rows[v := PageOf(disk, p)];
    assert AliasFree(l) by {
      forall a, b | 0 <= a < b < |l| && l[a] != EMPTY
        ensures l[a] != l[b]
      {
        if a == v { assert l[b] == loaded[b]; } else if b == v { assert l[a] == loaded[a]; }
      }
    }
    if CoherentOf(disk, loaded, dirty, rows) {
      var old', new' := ViewOf(disk, loaded, rows), ViewOf(disk, l, r);
      forall k | 0 <= k < |disk|
        ensures new'[k] == old'[k]
      {
        var q := k / PAGE_SIZE;
        PagePosition(k);
        if q == p {
          SlotForExact(l, p, v);
        } else {
          var s := SlotFor(loaded, q);
          if s == EMPTY || s == v {
            assert SlotFor(l, q) == EMPTY;
            if s == v {
              assert rows[v][k % PAGE_SIZE] == disk[loaded[v] * PAGE_SIZE + k % PAGE_SIZE];
            }
          } else {
            SlotForExact(l, q, s);
          }
        }
      }
    }
  }

  /** d is store d0 after slots 0 .. i-1 of the slot table (pages l, dirty
      flags dp, rows r) were saved in slot order. */
  predicate SavedBelow(d: seq<int>, d0: seq<int>, l: seq<int>, dp: seq<bool>, r: seq<seq<int>>, i: int)
    requires |l| == SLOTS && |dp| == SLOTS && RowsOk(r)
  {
    |d| == |d0| &&
    forall k :: 0 <= k < |d0| ==>
      d[k] == (var s := SlotFor(l, k / PAGE_SIZE); if 0 <= s < i && dp[s] then r[s][k % PAGE_SIZE] else d0[k])
  }

  /** Saving slot i, still carrying its original dirty flag, extends the
      saved prefix of slots by one. */
  lemma {:induction false} SaveNext(d: seq<int>, d0: seq<int>, l: seq<int>, dp: seq<bool>, dirty: seq<bool>, r: seq<seq<int>>, i: int)
    requires SlotsOk(d, l, dirty) && |dp| == SLOTS && RowsOk(r) && 0 <= i < SLOTS
    requires SavedBelow(d, d0, l, dp, r, i) && dirty[i] == dp[i]
    ensures SavedBelow(FlushSlot(d, l, dirty, r, i), d0, l, dp, r, i + 1)
  {
    var f := FlushSlot(d, l, dirty, r, i);
    forall k | 0 <= k < |d0|
      ensures f[k] == (var s := SlotFor(l, k / PAGE_SIZE); if 0 <= s < i + 1 && dp[s] then r[s][k % PAGE_SIZE] else d0[k])
    {
      if dp[i] && k / PAGE_SIZE == l[i] {
        SlotForExact(l, l[i], i);
      }
    }
  }

  /** The miss path of operator[] on values: slot v is flushed, then takes
      page p, clean, with that page of the flushed store as its row. The slot
      table stays well formed; on a coherent cache the logical array is
      unchanged and the cache stays coherent. */
  lemma {:induction false} MissKeepsView(disk: seq<int>, loaded: seq<int>, dirty: seq<bool>, rows: seq<seq<int>>, v: int, p: int)
    requires SlotsOk(disk, loaded, dirty) && RowsOk(rows) && 0 <= v < SLOTS
    requires PageInStore(|disk|, p) && SlotFor(loaded, p) == EMPTY
    ensures var d := FlushSlot(disk, loaded, dirty, rows, v);
      SlotsOk(d, loaded[v := p], dirty[v := false]) && RowsOk(rows[v := PageOf(d, p)]) &&
      (CoherentOf(disk, loaded, dirty, rows) ==>
        CoherentOf(d, loaded[v := p], dirty[v := false], rows[v := PageOf(d, p)]) &&
        ViewOf(d, loaded[v := p], rows[v := PageOf(d, p)]) == ViewOf(disk, loaded, rows)) &&
      forall k :: 0 <= k < |disk| ==> d[k] == disk[k] || d[k] == ViewOf(disk, loaded, rows)[k]
  {
    var d := FlushSlot(disk, loaded, dirty, rows, v);
    FlushKeepsView(disk, loaded, dirty, rows, v);
    if CoherentOf(disk, loaded, dirty, rows) {
      FlushKeepsCoherent(disk, loaded, dirty, rows, v);
    }
    LoadKeepsView(d, loaded, dirty[v := false], rows, v, p);
  }

  /** Writing value x into the buffered copy of element i changes the logical
      array at i and nowhere else. */
  lemma {:induction false} WriteCell(disk: seq<int>, loaded: seq<int>, rows: seq<seq<int>>, i: int, x: int)
    requires |loaded| == SLOTS && AliasFree(loaded) && RowsOk(rows) && 0 <= i < |disk|
    requires SlotFor(loaded, i / PAGE_SIZE) != EMPTY
    ensures var s := SlotFor(loaded, i / PAGE_SIZE);
      RowsOk(rows[s := rows[s][i % PAGE_SIZE := x]]) &&
      ViewOf(disk, loaded, rows[s := rows[s][i % PAGE_SIZE := x]]) == ViewOf(disk, loaded, rows)[i := x]
  {
    var s := SlotFor(loaded, i / PAGE_SIZE);
    var r := rows[s := rows[s][i % PAGE_SIZE := x]];
    var v, v' := ViewOf(disk, loaded, rows), ViewOf(disk, loaded, r);
    forall k | 0 <= k < |disk|
      ensures v'[k] == v[i := x][k]
    {
      if SlotFor(loaded, k / PAGE_SIZE) == s && k % PAGE_SIZE == i % PAGE_SIZE {
        PagePosition(i);
        PagePosition(k);
      }
    }
  }

  /** A dirty slot may hold anything: writing x at offset o of an occupied
      slot and marking that slot dirty keeps the cache coherent. */
  lemma MarkedSlotMayDiffer(disk: seq<int>, loaded: seq<int>, dirty: seq<bool>, rows: seq<seq<int>>, s: int, o: int, x: int)
    requires SlotsOk(disk, loaded, dirty) && RowsOk(rows) && CoherentOf(disk, loaded, dirty, rows)
    requires 0 <= s < SLOTS && loaded[s] != EMPTY && 0 <= o < PAGE_SIZE
    ensures SlotsOk(disk, loaded, dirty[s := true]) && RowsOk(rows[s := rows[s][o := x]])
    ensures CoherentOf(disk, loaded, dirty[s := true], rows[s := rows[s][o := x]])
  {
  }

  /** When no slot is dirty the logical array is the store itself. */
  lemma {:induction false} CleanViewIsStore(disk: seq<int>, loaded: seq<int>, dirty: seq<bool>, rows: seq<seq<int>>)
    requires SlotsOk(disk, loaded, dirty) && RowsOk(rows) && CoherentOf(disk, loaded, dirty, rows)
    requires forall s :: 0 <= s < SLOTS ==> !dirty[s]
    ensures ViewOf(disk, loaded, rows) == disk
  {
    var v := ViewOf(disk, loaded, rows);
    forall k | 0 <= k < |disk|
      ensures v[k] == disk[k]
    {
      var s := SlotFor(loaded, k / PAGE_SIZE);
      if s != EMPTY {
        PagePosition(k);
        assert rows[s][k % PAGE_SIZE] == disk[loaded[s] * PAGE_SIZE + k % PAGE_SIZE];
      }
    }
  }

  /** Storing the logical value of a resident element at its own position in
      the store keeps the logical array, and keeps a coherent cache coherent. */
  lemma {:induction false} StoreLogicalValue(disk: seq<int>, loaded: seq<int>, dirty: seq<bool>, rows: seq<seq<int>>, i: int)
    requires SlotsOk(disk, loaded, dirty) && RowsOk(rows)
    requires 0 <= i < |disk| && SlotFor(loaded, i / PAGE_SIZE) != EMPTY
    ensures SlotsOk(disk[i := ViewOf(disk, loaded, rows)[i]], loaded, dirty)
    ensures ViewOf(disk[i := ViewOf(disk, loaded, rows)[i]], loaded, rows) == ViewOf(disk, loaded, rows)
    ensures CoherentOf(disk, loaded, dirty, rows) ==>
      CoherentOf(disk[i := ViewOf(disk, loaded, rows)[i]], loaded, dirty, rows)
  {
    var v := ViewOf(disk, loaded, rows);
    var d := disk[i := v[i]];
    var s := SlotFor(loaded, i / PAGE_SIZE);
    PagePosition(i);
    if CoherentOf(disk, loaded, dirty, rows) {
      forall t, o | 0 <= t < SLOTS && loaded[t] != EMPTY && !dirty[t] && 0 <= o < PAGE_SIZE
        ensures rows[t][o] == d[loaded[t] * PAGE_SIZE + o]
      {
        var k := loaded[t] * PAGE_SIZE + o;
        if k == i {
          assert k / PAGE_SIZE == loaded[t] && k % PAGE_SIZE == o;
          SlotForExact(loaded, loaded[t], t);
        }
      }
    }
    var v' := ViewOf(d, loaded, rows);
    forall k | 0 <= k < |disk|
      ensures v'[k] == v[k]
    {
    }
  }
}
