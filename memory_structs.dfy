/** struct memory of memory/memory_structs.h, with its main-memory and
    virtual-memory segments and the Working Set components folded into one
    object, and mem_init as its constructor. */
module MemoryStructs {
  import opened Types
  import opened Queues

  /** The number of occupied slots of an inverse page table. */
  function CountSet(s: seq<VmemEntry>): (n: nat)
    ensures n <= |s|
  {
    if s == [] then 0 else CountSet(s[..|s| - 1]) + (if s[|s| - 1].isSet then 1 else 0)
  }

  /** The hit test of ipt_search. */
  predicate Matches(e: VmemEntry, pid: uint8, page: uint32)
  {
    e.isSet && e.addr == page && e.pid == pid
  }

  /** Page `page` of process `pid` occupies some frame. */
  predicate Resident(s: seq<VmemEntry>, pid: uint8, page: uint32)
  {
    exists i :: 0 <= i < |s| && Matches(s[i], pid, page)
  }

  /** No two occupied frames hold the same (pid, page). */
  predicate NoDuplicates(s: seq<VmemEntry>)
  {
    forall i, j :: 0 <= i < j < |s| && s[i].isSet && s[j].isSet ==> !SameRef(s[i], s[j])
  }

  /** The two tables have one slot per frame and agree on which are occupied. */
  predicate Aligned(s: seq<VmemEntry>, e: seq<MmemEntry>)
  {
    |s| == |e| && forall i :: 0 <= i < |s| ==> s[i].isSet == e[i].isSet
  }

  // ---------------------------------------------------------------------------
  // Lemmas about the occupancy count

  /** Overwriting one slot changes the count by the change of that slot's flag. */
  lemma {:induction false} CountSetUpdate(s: seq<VmemEntry>, i: nat, e: VmemEntry)
    requires i < |s|
    ensures CountSet(s[i := e]) ==
            CountSet(s) - (if s[i].isSet then 1 else 0) + (if e.isSet then 1 else 0)
    decreases |s|
  {
    var t := s[i := e];
    var n := |s| - 1;
    if i == n {
      assert t[..n] == s[..n];
    } else {
      assert t[..n] == s[..n][i := e];
      CountSetUpdate(s[..n], i, e);
    }
  }

  /** The table is full exactly when every slot is occupied. */
  lemma {:induction false} CountSetFull(s: seq<VmemEntry>)
    ensures CountSet(s) == |s| <==> forall i :: 0 <= i < |s| ==> s[i].isSet
    decreases |s|
  {
    if s != [] {
      var n := |s| - 1;
      CountSetFull(s[..n]);
      if CountSet(s) == |s| {
        forall i | 0 <= i < |s| ensures s[i].isSet {
          if i < n { assert s[..n][i] == s[i]; }
        }
      }
      if forall i :: 0 <= i < |s| ==> s[i].isSet {
        assert forall i :: 0 <= i < n ==> s[..n][i].isSet;
      }
    }
  }

  /** ipt_fit relies on this: below capacity there is a free slot. */
  lemma FreeSlotExists(s: seq<VmemEntry>)
    requires CountSet(s) < |s|
    ensures exists i :: 0 <= i < |s| && !s[i].isSet
  {
    CountSetFull(s);
  }

  /** An occupied slot makes the count positive. */
  lemma CountSetPositive(s: seq<VmemEntry>, i: nat)
    requires i < |s| && s[i].isSet
    ensures CountSet(s) >= 1
  {
    CountSetUpdate(s, i, s[i].(isSet := false));
  }

  /** A resident reference occupies exactly one frame of a duplicate-free table. */
  lemma ResidentOnce(s: seq<VmemEntry>, pid: uint8, page: uint32)
    requires NoDuplicates(s) && Resident(s, pid, page)
    ensures exists i :: 0 <= i < |s| && Matches(s[i], pid, page) &&
              forall j :: 0 <= j < |s| && Matches(s[j], pid, page) ==> j == i
  {
    var i :| 0 <= i < |s| && Matches(s[i], pid, page);
    assert forall j :: 0 <= j < |s| && Matches(s[j], pid, page) ==> j == i;
  }

  // ---------------------------------------------------------------------------

  /** struct memory. The pointers ipt, entries, history_index and history[] are
      set once by mem_init and never reassigned, so they are constants here;
      ipt_size and mm_size are the lengths of the two arrays. */
  class Memory {
    const ipt: array<VmemEntry>
    const entries: array<MmemEntry>
    const alg: Algorithm
    const windowSize: nat
    const historyIndex: array<uint8>
    const history: seq<Queue>

    var iptCurr: nat
    var hdReads: nat
    var hdWrites: nat
    var pageFaults: nat
    var totalReq: nat

    /** The invariants of the engine. */
    ghost predicate Valid()
      reads this, ipt, entries, historyIndex, history
    {
      TablesValid() && (alg == WS ==> WsValid())
    }

    /** The two tables agree slot by slot, `ipt_curr` counts the occupied
        slots, no reference is resident twice and every page fault was one
        disk read. */
    ghost predicate TablesValid()
      reads this, ipt, entries
    {
      && iptCurr == CountSet(ipt[..])
      && Aligned(ipt[..], entries[..])
      && NoDuplicates(ipt[..])
      && hdReads == pageFaults
      && pageFaults <= totalReq
    }

    /** The Working Set components: one bounded history window per tracked
        process, each holding only references of that process. */
    ghost predicate WsValid()
      reads historyIndex, history
    {
      && windowSize >= 2
      && historyIndex.Length == NumOfProcesses
      && |history| == NumOfProcesses
      && (forall a, b :: 0 <= a < b < |history| ==> history[a] != history[b])
      && (forall k :: 0 <= k < |history| ==>
            && history[k].Valid()
            && |history[k].items| <= windowSize
            && AllOwnedBy(history[k].items, historyIndex[k]))
    }

    /** mem_init: zeroed tables of `frames` slots, zero counters and, under WS,
        the window size, the tracked pids and one empty history window each.
        Under LRU the Working Set components are not created. */
    constructor Init(frames: nat, alg: Algorithm, pids: seq<uint8>, windowSize: nat)
      requires alg == WS ==> windowSize >= 2 && |pids| >= NumOfProcesses
      ensures Valid()
      ensures fresh(ipt) && fresh(entries) && fresh(historyIndex)
      ensures forall k :: 0 <= k < |history| ==> fresh(history[k])
      ensures ipt.Length == frames && entries.Length == frames
      ensures forall i :: 0 <= i < frames ==> ipt[i] == EmptyVmem && entries[i] == EmptyMmem
      ensures iptCurr == 0
      ensures hdReads == 0 && hdWrites == 0 && pageFaults == 0 && totalReq == 0
      ensures this.alg == alg
      ensures alg == WS ==>
                && this.windowSize == windowSize
                && historyIndex[..] == pids[..NumOfProcesses]
                && |history| == NumOfProcesses
                && forall k :: 0 <= k < NumOfProcesses ==> history[k].items == []
      ensures alg == LRU ==> history == [] && historyIndex.Length == 0
    {
      var vmem := new VmemEntry[frames](_ => EmptyVmem);
      var mmem := new MmemEntry[frames](_ => EmptyMmem);
      var index := new uint8[0];
      var windows: seq<Queue> := [];
      if alg == WS {
        index, windows := NewHistory(pids);
      }
      this.ipt := vmem;
      this.entries := mmem;
      this.alg := alg;
      this.windowSize := if alg == WS then windowSize else 0;
      this.historyIndex := index;
      this.history := windows;
      iptCurr := 0;
      hdReads, hdWrites, pageFaults, totalReq := 0, 0, 0, 0;
      ZeroTableIsEmpty(vmem[..]);
    }
  }

  /** The Working Set components of mem_init: the tracked pids copied from
      `pids`, and one fresh empty history window per tracked process. */
  method NewHistory(pids: seq<uint8>) returns (index: array<uint8>, windows: seq<Queue>)
    requires |pids| >= NumOfProcesses
    ensures fresh(index) && index[..] == pids[..NumOfProcesses]
    ensures |windows| == NumOfProcesses
    ensures forall a, b :: 0 <= a < b < |windows| ==> windows[a] != windows[b]
    ensures forall k :: 0 <= k < |windows| ==> fresh(windows[k]) && windows[k].Valid() && windows[k].items == []
  {
    index := new uint8[NumOfProcesses];
    for i := 0 to NumOfProcesses
      modifies index
      invariant forall j :: 0 <= j < i ==> index[j] == pids[j]
    {
      index[i] := pids[i];
    }
    windows := [];
    for i := 0 to NumOfProcesses
      modifies {}
      invariant |windows| == i
      invariant forall a, b :: 0 <= a < b < i ==> windows[a] != windows[b]
      invariant forall k :: 0 <= k < i ==> fresh(windows[k]) && windows[k].Valid() && windows[k].items == []
      invariant index[..] == pids[..NumOfProcesses]
    {
      var q := new Queue();
      windows := windows + [q];
    }
  }

  /** A table of unoccupied slots has count zero. */
  lemma {:induction false} ZeroTableIsEmpty(s: seq<VmemEntry>)
    requires forall i :: 0 <= i < |s| ==> !s[i].isSet
    ensures CountSet(s) == 0
    decreases |s|
  {
    if s != [] {
      ZeroTableIsEmpty(s[..|s| - 1]);
    }
  }
}
