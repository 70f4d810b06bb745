/** The sorting step of the command-line program: a PagedArray is opened
    over the binary file, the chosen sort runs over all its numbers,
    writeToFile stores the logical array back (its last int held in the
    stream, see LastWriteHeld), the text conversion reads the file, and the
    destructor flushes the stream and the cache. Argument parsing and the
    text/binary conversions are not part of this model. */
module SortDriver {
  import opened CacheModel
  import opened PagedArrays
  import opened Sorts

  datatype Option<T> = None | Some(value: T)

  /** The four sorts the program offers. */
  datatype Algorithm = Quick | Insertion | Selection | Bubble

  /** The algorithm named by the `-a` argument, if the code is one of the
      four the program recognises. */
  function AlgorithmOf(code: string): (a: Option<Algorithm>)
    ensures a.Some? <==> code in {"QS", "IS", "SS", "PS"}
    ensures a == Some(Quick) <==> code == "QS"
    ensures a == Some(Insertion) <==> code == "IS"
    ensures a == Some(Selection) <==> code == "SS"
    ensures a == Some(Bubble) <==> code == "PS"
  {
    if code == "QS" then Some(Quick)
    else if code == "IS" then Some(Insertion)
    else if code == "SS" then Some(Selection)
    else if code == "PS" then Some(Bubble)
    else None
  }

  /** Sorts a file of whole pages holding `store` with the algorithm named
      by code, storing the result with writeToFile followed by a flush of the
      stream (WriteToFileFlushed; without the flush the last int is still in
      the stream when the text conversion reads the file, see
      LastWriteHeld). An unknown code fails before anything is written.
      Otherwise the file the text conversion reads, and the file left once
      the destructor has run, are one and the same sorted rearrangement of
      the original numbers. */
  method SortFile(store: seq<int>, code: string) returns (converted: Option<seq<int>>, closed: Option<seq<int>>)
    requires |store| % PAGE_SIZE == 0
    ensures converted.Some? <==> AlgorithmOf(code).Some?
    ensures closed == converted
    ensures converted.Some? ==>
      PermutedWithin(converted.value, store, 0, |store| - 1) &&
      SortedBetween(converted.value, 0, |store| - 1)
  {
    var arr := new PagedArray(store);
    var totalNumbers := |store|;
    var algorithm := AlgorithmOf(code);
    match algorithm {
      case None =>
        arr.Close();
        return None, None;
      case Some(Quick) =>
        QuickSort(arr, 0, totalNumbers - 1);
      case Some(Insertion) =>
        InsertionSort(arr, totalNumbers);
      case Some(Selection) =>
        SelectionSort(arr, totalNumbers);
      case Some(Bubble) =>
        BubbleSort(arr, totalNumbers);
    }
    ghost var sorted := arr.contents;
    arr.WriteToFileFlushed(totalNumbers);
    assert arr.disk == sorted;
    converted := Some(arr.disk);
    arr.Close();
    closed := Some(arr.disk);
  }

  /** The int writeToFile leaves in the stream. Over one page holding 1
      everywhere but 0 at its last element, the program stores 2 there and
      marks the page dirty (`arr[255] = 2; arr.markPageDirty(255);`), then
      runs writeToFile(256). The page stays resident, so no access misses
      and nothing seeks after the last write: a reader of the file at that
      point, as the text conversion in main is, finds the old 0 after a 1,
      out of order, although the logical array ends with 2. Only the
      destructor puts the 2 in the file. */
  method LastWriteHeld() returns (seen: seq<int>, closed: seq<int>)
    ensures |seen| == PAGE_SIZE && seen[PAGE_SIZE - 2] == 1 && seen[PAGE_SIZE - 1] == 0
    ensures |closed| == PAGE_SIZE && closed[PAGE_SIZE - 2] == 1 && closed[PAGE_SIZE - 1] == 2
  {
    var store := seq(PAGE_SIZE, k => if k < PAGE_SIZE - 1 then 1 else 0);
    var arr := DirtyLastElement(store);
    arr.WriteToFile(PAGE_SIZE);
    seen := arr.disk;
    arr.Close();
    closed := arr.disk;
  }

  /** `arr[255] = 2; arr.markPageDirty(255);` on a fresh PagedArray over one
      page: the page is loaded and dirty, the file is still store, and the
      logical array ends with 2. */
  method DirtyLastElement(store: seq<int>) returns (arr: PagedArray)
    requires |store| == PAGE_SIZE
    ensures fresh(arr) && fresh(arr.pages) && arr.Valid() && arr.Coherent()
    ensures arr.disk == store && arr.contents == store[PAGE_SIZE - 1 := 2]
    ensures forall k :: 0 <= k < PAGE_SIZE ==> SlotFor(arr.loadedPages, k / PAGE_SIZE) != EMPTY
  {
    arr := new PagedArray(store);
    var last := PAGE_SIZE - 1;
    var s, o := arr.Access(last);
    SlotForExact(arr.loadedPages, 0, s);
    ghost var d, l, dp, r := arr.disk, arr.loadedPages, arr.dirtyPages, arr.Rows();
    assert d == store;
    WriteThrough(arr, s, o, last, 2);
    MarkedSlotMayDiffer(d, l, dp, r, s, o, 2);
    arr.MarkPageDirty(last);
    assert forall k :: 0 <= k < PAGE_SIZE ==> k / PAGE_SIZE == 0;
  }
}
