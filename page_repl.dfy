/** The page replacement algorithms of page_repl_algorithms/page_repl.c: LRU,
    the Working Set with its per-process history windows, and rm_page. */
module PageRepl {
  import opened Types
  import opened Queues
  import opened MemoryStructs

  // ---------------------------------------------------------------------------
  // find_history_window

  /** The index of the first tracked pid equal to `pid`. */
  function FirstIndex(s: seq<uint8>, pid: uint8): (r: nat)
    requires pid in s
    ensures r < |s| && s[r] == pid
    ensures forall j :: 0 <= j < r ==> s[j] != pid
  {
    if s[0] == pid then 0 else 1 + FirstIndex(s[1..], pid)
  }

  /** find_history_window, comparing the pid as the unsigned byte it is
      everywhere else in the engine. */
  method FindHistoryWindow(historyIndex: array<uint8>, pid: uint8) returns (index: nat)
    requires historyIndex.Length == NumOfProcesses && pid in historyIndex[..]
    ensures index == FirstIndex(historyIndex[..], pid)
  {
    index := 0;
    while historyIndex[index] != pid
      invariant index < NumOfProcesses
      invariant forall j :: 0 <= j < index ==> historyIndex[j] != pid
      invariant pid in historyIndex[index..]
      decreases NumOfProcesses - index
    {
      assert historyIndex[index..] == [historyIndex[index]] + historyIndex[index + 1..];
      index := index + 1;
    }
    ghost var s := historyIndex[..];
    assert forall j :: 0 <= j < index ==> s[j] != pid;
    FirstIndexUnique(s, pid, index);
  }

  lemma FirstIndexUnique(s: seq<uint8>, pid: uint8, r: nat)
    requires r < |s| && s[r] == pid && forall j :: 0 <= j < r ==> s[j] != pid
    ensures pid in s && r == FirstIndex(s, pid)
  {
    var f := FirstIndex(s, pid);
  }

  /** The implicit uint8_t to int8_t conversion of the pid argument
      (two's complement). */
  function ToInt8(x: uint8): int
  {
    if x < 128 then x else x - 256
  }

  /** find_history_window as written: its parameter is int8_t while the
      tracked pids are uint8_t, so both are promoted to int and compared.
      `found` is false where the code falls off the end without a return. */
  method FindHistoryWindowAsWritten(historyIndex: array<uint8>, pid: uint8)
    returns (found: bool, index: nat)
    requires historyIndex.Length == NumOfProcesses
    ensures found <==> exists i :: 0 <= i < NumOfProcesses && historyIndex[i] as int == ToInt8(pid)
    ensures found ==> index < NumOfProcesses && historyIndex[index] as int == ToInt8(pid)
                      && forall j :: 0 <= j < index ==> historyIndex[j] as int != ToInt8(pid)
  {
    for i := 0 to NumOfProcesses
      invariant forall j :: 0 <= j < i ==> historyIndex[j] as int != ToInt8(pid)
    {
      if historyIndex[i] as int == ToInt8(pid) {
        return true, i;
      }
    }
    return false, 0;
  }

  /** A tracked pid of 128 or more is never matched by the code as written:
      with pids {200, 1}, looking up pid 200 finds no history window. */
  lemma AsWrittenMissesHighPid(historyIndex: seq<uint8>, pid: uint8)
    requires pid >= 128 && pid in historyIndex
    ensures forall i :: 0 <= i < |historyIndex| ==> historyIndex[i] as int != ToInt8(pid)
    ensures FirstIndex(historyIndex, pid) < |historyIndex|
  {
  }

  /** The tracked pids 200 and 1: the code as written finds no window for
      pid 200, where the corrected lookup finds window 0. */
  method AsWrittenMissExample() returns (found: bool, index: nat)
    ensures !found && index == 0
  {
    var pids := new uint8[NumOfProcesses](i => if i == 0 then 200 else 1);
    found, index := FindHistoryWindowAsWritten(pids, 200);
    assert pids[..][0] == 200;
    index := FindHistoryWindow(pids, 200);
  }

  // ---------------------------------------------------------------------------
  // ws_update_history_window

  /** The history window after one reference: when full (length w) the oldest
      item is dropped, and the new one is appended. */
  function Window(s: seq<VmemEntry>, e: VmemEntry, w: nat): (r: seq<VmemEntry>)
    requires 0 < w && |s| <= w
    ensures |r| <= w && r != [] && r[|r| - 1] == e
    ensures |r| == if |s| == w then w else |s| + 1
  {
    if |s| == w then s[1..] + [e] else s + [e]
  }

  /** The last (at most) `w` references of `h`. */
  function LastN(h: seq<VmemEntry>, w: nat): seq<VmemEntry>
  {
    if |h| <= w then h else h[|h| - w..]
  }

  /** Rolling the window keeps exactly the `w` most recent references. */
  lemma WindowKeepsLatest(h: seq<VmemEntry>, e: VmemEntry, w: nat)
    requires 0 < w
    ensures |LastN(h, w)| <= w
    ensures Window(LastN(h, w), e, w) == LastN(h + [e], w)
  {
    if |h| >= w {
      assert (h + [e])[|h| + 1 - w..] == h[|h| - w..][1..] + [e];
    }
  }

  /** The window of process `pid` in the engine is rolled in place. */
  method WsUpdateHistoryWindow(mem: Memory, pid: uint8, page: uint32)
    requires mem.Valid() && mem.alg == WS && pid in mem.historyIndex[..]
    modifies mem.history
    ensures mem.Valid()
    ensures var k := FirstIndex(mem.historyIndex[..], pid);
            && mem.history[k].items == Window(old(mem.history[k].items), VmemEntry(true, pid, page), mem.windowSize)
            && forall j :: 0 <= j < |mem.history| && j != k ==> mem.history[j].items == old(mem.history[j].items)
  {
    var entry := VmemEntry(true, pid, page);
    var index := FindHistoryWindow(mem.historyIndex, pid);
    var q := mem.history[index];
    var full := q.IsFull(mem.windowSize);
    if full {
      q.EmplaceLast(entry);
    } else {
      q.InsertLast(entry);
    }
    assert q.items == Window(old(q.items), entry, mem.windowSize);
    WindowOwned(old(q.items), entry, mem.windowSize, pid);
    assert mem.historyIndex[index] == pid;
    assert forall j :: 0 <= j < |mem.history| && j != index ==> mem.history[j] != q;
    assert mem.WsValid();
  }

  /** The window of a process only ever holds references of that process. */
  lemma WindowOwned(s: seq<VmemEntry>, e: VmemEntry, w: nat, pid: uint8)
    requires 0 < w && |s| <= w && AllOwnedBy(s, pid) && e.pid == pid
    ensures AllOwnedBy(Window(s, e, w), pid)
  {
    var r := Window(s, e, w);
    forall k | 0 <= k < |r| ensures r[k].pid == pid {
      if k < |r| - 1 {
        assert r[k] == (if |s| == w then s[k + 1] else s[k]);
      }
    }
  }

  // ---------------------------------------------------------------------------
  // rm_page

  /** rm_page: write the frame back if it is dirty, clear both `set` flags and
      decrement the occupancy count. Every caller passes an occupied frame. */
  method RmPage(mem: Memory, index: nat)
    requires mem.Valid() && index < mem.ipt.Length && mem.ipt[index].isSet
    modifies mem`hdWrites, mem`iptCurr, mem.ipt, mem.entries
    ensures mem.Valid()
    ensures mem.hdWrites == old(mem.hdWrites) + (if old(mem.entries[index].modified) then 1 else 0)
    ensures mem.ipt[..] == old(mem.ipt[..])[index := old(mem.ipt[index]).(isSet := false)]
    ensures mem.entries[..] == old(mem.entries[..])[index := old(mem.entries[index]).(isSet := false)]
    ensures mem.iptCurr == old(mem.iptCurr) - 1
  {
    ghost var s := mem.ipt[..];
    CountSetUpdate(s, index, s[index].(isSet := false));
    if mem.entries[index].modified {
      mem.hdWrites := mem.hdWrites + 1;
    }
    mem.ipt[index] := mem.ipt[index].(isSet := false);
    mem.entries[index] := mem.entries[index].(isSet := false);
    mem.iptCurr := mem.iptCurr - 1;
    assert mem.ipt[..] == s[index := s[index].(isSet := false)];
  }

  // ---------------------------------------------------------------------------
  // lru

  /** Frame `p` holds the first minimal timestamp: strictly older than every
      frame before it, and no frame after it is strictly older. */
  predicate IsOldest(s: seq<MmemEntry>, p: int)
  {
    && 0 <= p < |s|
    && (forall j :: 0 <= j < p ==> Before(s[p].latency, s[j].latency))
    && (forall j :: p < j < |s| ==> !Before(s[j].latency, s[p].latency))
  }

  /** The LRU victim, defined on prefixes independently of the scan. */
  function Oldest(s: seq<MmemEntry>): (p: nat)
    requires |s| > 0
    ensures IsOldest(s, p)
  {
    if |s| == 1 then 0
    else
      var q := Oldest(s[..|s| - 1]);
      assert forall j :: 0 <= j < |s| - 1 ==> s[..|s| - 1][j] == s[j];
      if Before(s[|s| - 1].latency, s[q].latency) then |s| - 1 else q
  }

  lemma OldestUnique(s: seq<MmemEntry>, p: int)
    requires IsOldest(s, p)
    ensures p == Oldest(s)
  {
  }

  /** With timestamps strictly increasing along the frames, the LRU victim is
      the first frame, the one touched earliest. */
  lemma OldestOfIncreasing(s: seq<MmemEntry>)
    requires |s| > 0
    requires forall i, j :: 0 <= i < j < |s| ==> Before(s[i].latency, s[j].latency)
    ensures Oldest(s) == 0
  {
    assert IsOldest(s, 0);
    OldestUnique(s, 0);
  }

  /** The scan of lru: a running minimum replaced only on a strictly older
      timestamp, so ties keep the lowest index. */
  method FindOldest(mem: Memory) returns (pos: nat)
    requires mem.entries.Length > 0
    ensures pos == Oldest(mem.entries[..])
  {
    var e := mem.entries;
    pos := 0;
    var minT := e[0].latency;
    for i := 1 to e.Length
      invariant pos < i && minT == e[pos].latency
      invariant forall j :: 0 <= j < pos ==> Before(e[pos].latency, e[j].latency)
      invariant forall j :: pos < j < i ==> !Before(e[j].latency, e[pos].latency)
    {
      if Before(e[i].latency, minT) {
        minT := e[i].latency;
        pos := i;
      }
    }
    OldestUnique(e[..], pos);
  }

  /** lru: evict the oldest frame and return its index. The scan ignores the
      `set` flags, so the table must be full. */
  method Lru(mem: Memory) returns (pos: nat)
    requires mem.Valid() && mem.ipt.Length > 0 && mem.iptCurr == mem.ipt.Length
    modifies mem`hdWrites, mem`iptCurr, mem.ipt, mem.entries
    ensures mem.Valid()
    ensures pos == Oldest(old(mem.entries[..])) && !mem.ipt[pos].isSet
    ensures mem.hdWrites == old(mem.hdWrites) + (if old(mem.entries[pos].modified) then 1 else 0)
    ensures mem.ipt[..] == old(mem.ipt[..])[pos := old(mem.ipt[pos]).(isSet := false)]
    ensures mem.entries[..] == old(mem.entries[..])[pos := old(mem.entries[pos]).(isSet := false)]
    ensures mem.iptCurr == old(mem.iptCurr) - 1
  {
    pos := FindOldest(mem);
    CountSetFull(mem.ipt[..]);
    RmPage(mem, pos);
  }

  // ---------------------------------------------------------------------------
  // make_set

  /** make_set: sorted-insert every item of history window `index`. */
  method MakeSet(target: Queue, history: seq<Queue>, index: nat)
    requires index < |history| && target.Valid() && history[index].Valid()
    requires target != history[index]
    modifies target
    ensures target.Valid()
    ensures target.items == BuildSet(old(target.items), history[index].items)
  {
    var h := history[index].items;
    var k := 0;
    while k < |h|
      invariant k <= |h| && target.Valid()
      invariant BuildSet(old(target.items), h) == BuildSet(target.items, h[k..])
    {
      assert h[k..][1..] == h[k + 1..];
      target.SortedInsert(h[k]);
      k := k + 1;
    }
  }

  // ---------------------------------------------------------------------------
  // working_set

  /** A frame the Working Set evicts in its scan: owned by `pid` and its page
      not found in the working set `wset`. */
  predicate Stale(e: VmemEntry, pid: uint8, wset: seq<VmemEntry>)
  {
    e.pid == pid && !Contains(wset, VmemEntry(true, pid, e.addr))
  }

  /** The highest-indexed frame owned by `pid`, or -1. */
  function LastOwned(s: seq<VmemEntry>, pid: uint8): (r: int)
    ensures -1 <= r < |s|
    ensures r >= 0 ==> s[r].pid == pid
    ensures forall j :: r < j < |s| ==> s[j].pid != pid
  {
    if s == [] then -1
    else if s[|s| - 1].pid == pid then |s| - 1
    else
      assert forall j :: 0 <= j < |s| - 1 ==> s[..|s| - 1][j] == s[j];
      LastOwned(s[..|s| - 1], pid)
  }

  /** The highest-indexed stale frame, or -1. */
  function LastStale(s: seq<VmemEntry>, pid: uint8, wset: seq<VmemEntry>): (r: int)
    ensures -1 <= r < |s|
    ensures r >= 0 ==> Stale(s[r], pid, wset)
    ensures forall j :: r < j < |s| ==> !Stale(s[j], pid, wset)
  {
    if s == [] then -1
    else if Stale(s[|s| - 1], pid, wset) then |s| - 1
    else
      assert forall j :: 0 <= j < |s| - 1 ==> s[..|s| - 1][j] == s[j];
      LastStale(s[..|s| - 1], pid, wset)
  }

  /** The number of stale frames that are dirty: the write-backs of the scan. */
  function CountDirtyStale(s: seq<VmemEntry>, e: seq<MmemEntry>, pid: uint8, wset: seq<VmemEntry>): nat
    requires |s| == |e|
  {
    if s == [] then 0
    else
      CountDirtyStale(s[..|s| - 1], e[..|e| - 1], pid, wset)
      + (if Stale(s[|s| - 1], pid, wset) && e[|e| - 1].modified then 1 else 0)
  }

  /** The frames working_set evicts: every stale frame, or, when there is
      none, the highest-indexed frame `pid` owns. */
  predicate WsVictim(s: seq<VmemEntry>, pid: uint8, wset: seq<VmemEntry>, j: int)
    requires 0 <= j < |s|
  {
    Stale(s[j], pid, wset) || (LastStale(s, pid, wset) == -1 && j == LastOwned(s, pid))
  }

  /** The frame working_set returns: the highest-indexed victim. */
  function WsTarget(s: seq<VmemEntry>, pid: uint8, wset: seq<VmemEntry>): int
  {
    var st := LastStale(s, pid, wset);
    if st != -1 then st else LastOwned(s, pid)
  }

  /** The write-backs of working_set, fallback eviction included. */
  function WsWrites(s: seq<VmemEntry>, e: seq<MmemEntry>, pid: uint8, wset: seq<VmemEntry>): nat
    requires |s| == |e|
  {
    var lo := LastOwned(s, pid);
    CountDirtyStale(s, e, pid, wset)
    + (if LastStale(s, pid, wset) == -1 && lo != -1 && e[lo].modified then 1 else 0)
  }

  /** The working set of `pid`: the set make_set builds from its window. */
  ghost function WorkingSetOf(mem: Memory, pid: uint8): seq<VmemEntry>
    reads mem.historyIndex, mem.history
    requires |mem.history| == mem.historyIndex.Length && pid in mem.historyIndex[..]
  {
    BuildSet([], mem.history[FirstIndex(mem.historyIndex[..], pid)].items)
  }

  lemma {:induction false} NoStaleNoWrites(s: seq<VmemEntry>, e: seq<MmemEntry>, pid: uint8, wset: seq<VmemEntry>)
    requires |s| == |e| && forall j :: 0 <= j < |s| ==> !Stale(s[j], pid, wset)
    ensures CountDirtyStale(s, e, pid, wset) == 0
    decreases |s|
  {
    if s != [] {
      var n := |s| - 1;
      assert forall j :: 0 <= j < n ==> s[..n][j] == s[j];
      NoStaleNoWrites(s[..n], e[..n], pid, wset);
    }
  }

  /** Table `s` after the scan has passed its first `i` frames: every stale
      frame among them cleared. */
  function ClearStale(s: seq<VmemEntry>, pid: uint8, wset: seq<VmemEntry>, i: nat): (r: seq<VmemEntry>)
    requires i <= |s|
    ensures |r| == |s|
  {
    if i == 0 then s
    else
      var t := ClearStale(s, pid, wset, i - 1);
      if Stale(s[i - 1], pid, wset) then t[i - 1 := s[i - 1].(isSet := false)] else t
  }

  /** The frames of `e` after the scan has passed the first `i` slots of `s`. */
  function ClearStaleFrames(s: seq<VmemEntry>, e: seq<MmemEntry>, pid: uint8, wset: seq<VmemEntry>, i: nat): (r: seq<MmemEntry>)
    requires |s| == |e| && i <= |s|
    ensures |r| == |e|
  {
    if i == 0 then e
    else
      var f := ClearStaleFrames(s, e, pid, wset, i - 1);
      if Stale(s[i - 1], pid, wset) then f[i - 1 := e[i - 1].(isSet := false)] else f
  }

  /** The scan clears a slot iff it has passed it and it is stale. */
  lemma {:induction false} ClearStaleAt(s: seq<VmemEntry>, e: seq<MmemEntry>, pid: uint8, wset: seq<VmemEntry>, i: nat)
    requires |s| == |e| && i <= |s|
    ensures forall j :: 0 <= j < |s| ==>
              ClearStale(s, pid, wset, i)[j] == (if j < i && Stale(s[j], pid, wset) then s[j].(isSet := false) else s[j])
    ensures forall j :: 0 <= j < |s| ==>
              ClearStaleFrames(s, e, pid, wset, i)[j] == (if j < i && Stale(s[j], pid, wset) then e[j].(isSet := false) else e[j])
    decreases i
  {
    if i > 0 {
      ClearStaleAt(s, e, pid, wset, i - 1);
    }
  }

  /** The slot the scan is about to visit is still untouched. */
  lemma ClearStaleAhead(s: seq<VmemEntry>, e: seq<MmemEntry>, pid: uint8, wset: seq<VmemEntry>, i: nat)
    requires |s| == |e| && i < |s|
    ensures ClearStale(s, pid, wset, i)[i] == s[i]
    ensures ClearStaleFrames(s, e, pid, wset, i)[i] == e[i]
  {
    ClearStaleAt(s, e, pid, wset, i);
  }

  /** One step of the scan on the prefix functions. */
  lemma ScanStep(s: seq<VmemEntry>, e: seq<MmemEntry>, pid: uint8, wset: seq<VmemEntry>, i: nat)
    requires |s| == |e| && i < |s|
    ensures LastOwned(s[..i + 1], pid) == if s[i].pid == pid then i else LastOwned(s[..i], pid)
    ensures LastStale(s[..i + 1], pid, wset) == if Stale(s[i], pid, wset) then i else LastStale(s[..i], pid, wset)
    ensures CountDirtyStale(s[..i + 1], e[..i + 1], pid, wset) ==
            CountDirtyStale(s[..i], e[..i], pid, wset) + (if Stale(s[i], pid, wset) && e[i].modified then 1 else 0)
  {
    assert s[..i + 1][..i] == s[..i] && e[..i + 1][..i] == e[..i];
  }

  /** One iteration of the scan of working_set on frame `i`: a frame of
      `pid` whose page is not in the working set is removed. */
  method ScanFrame(mem: Memory, pid: uint8, wsQueue: Queue, i: nat) returns (owned: bool, stale: bool)
    requires mem.Valid() && wsQueue.Valid() && i < mem.ipt.Length && mem.ipt[i].isSet
    modifies mem`hdWrites, mem`iptCurr, mem.ipt, mem.entries
    ensures mem.Valid()
    ensures owned == (old(mem.ipt[i]).pid == pid)
    ensures stale == Stale(old(mem.ipt[i]), pid, wsQueue.items)
    ensures mem.ipt[..] == if stale then old(mem.ipt[..])[i := old(mem.ipt[i]).(isSet := false)] else old(mem.ipt[..])
    ensures mem.entries[..] == if stale then old(mem.entries[..])[i := old(mem.entries[i]).(isSet := false)] else old(mem.entries[..])
    ensures mem.hdWrites == old(mem.hdWrites) + (if stale && old(mem.entries[i]).modified then 1 else 0)
  {
    owned := mem.ipt[i].pid == pid;
    stale := false;
    if owned {
      var found := wsQueue.Search(VmemEntry(true, mem.ipt[i].pid, mem.ipt[i].addr));
      if !found {
        RmPage(mem, i);
        stale := true;
      }
    }
  }

  /** The scan of working_set: every frame of `pid` is recorded as the last
      one seen, and evicted when its page is not in the working set. */
  method EvictStale(mem: Memory, pid: uint8, wsQueue: Queue) returns (last: int, empty: int)
    requires mem.Valid() && wsQueue.Valid()
    requires forall j :: 0 <= j < mem.ipt.Length ==> mem.ipt[j].isSet
    modifies mem`hdWrites, mem`iptCurr, mem.ipt, mem.entries
    ensures mem.Valid()
    ensures last == LastOwned(old(mem.ipt[..]), pid)
    ensures empty == LastStale(old(mem.ipt[..]), pid, wsQueue.items)
    ensures mem.ipt[..] == ClearStale(old(mem.ipt[..]), pid, wsQueue.items, mem.ipt.Length)
    ensures mem.entries[..] == ClearStaleFrames(old(mem.ipt[..]), old(mem.entries[..]), pid, wsQueue.items, mem.ipt.Length)
    ensures mem.hdWrites == old(mem.hdWrites) + CountDirtyStale(old(mem.ipt[..]), old(mem.entries[..]), pid, wsQueue.items)
  {
    ghost var ws := wsQueue.items;
    ghost var s0 := mem.ipt[..];
    ghost var e0 := mem.entries[..];
    var n := mem.ipt.Length;
    empty := -1;
    last := -1;
    var i := 0;
    while i < n
      invariant 0 <= i <= n
      invariant mem.Valid()
      invariant last == LastOwned(s0[..i], pid)
      invariant empty == LastStale(s0[..i], pid, ws)
      invariant mem.ipt[..] == ClearStale(s0, pid, ws, i)
      invariant mem.entries[..] == ClearStaleFrames(s0, e0, pid, ws, i)
      invariant mem.hdWrites == old(mem.hdWrites) + CountDirtyStale(s0[..i], e0[..i], pid, ws)
    {
      ScanStep(s0, e0, pid, ws, i);
      ClearStaleAhead(s0, e0, pid, ws, i);
      var owned, stale := ScanFrame(mem, pid, wsQueue, i);
      if owned {
        last := i;
      }
      if stale {
        empty := i;
      }
      i := i + 1;
    }
    assert s0[..n] == s0 && e0[..n] == e0;
  }

  /** Table `s` with exactly the victims of working_set cleared. */
  function Evicted(s: seq<VmemEntry>, pid: uint8, wset: seq<VmemEntry>): (t: seq<VmemEntry>)
    ensures |t| == |s|
  {
    seq(|s|, j requires 0 <= j < |s| => if WsVictim(s, pid, wset, j) then s[j].(isSet := false) else s[j])
  }

  /** Frames `e` with exactly the victims of working_set cleared. */
  function EvictedFrames(s: seq<VmemEntry>, e: seq<MmemEntry>, pid: uint8, wset: seq<VmemEntry>): (f: seq<MmemEntry>)
    requires |s| == |e|
    ensures |f| == |e|
  {
    seq(|e|, j requires 0 <= j < |e| => if WsVictim(s, pid, wset, j) then e[j].(isSet := false) else e[j])
  }

  /** When the scan evicted a stale frame, the scan alone is the outcome. */
  lemma ScanOutcome(s: seq<VmemEntry>, e: seq<MmemEntry>, pid: uint8, wset: seq<VmemEntry>)
    requires |e| == |s| && LastStale(s, pid, wset) != -1
    ensures ClearStale(s, pid, wset, |s|) == Evicted(s, pid, wset)
    ensures ClearStaleFrames(s, e, pid, wset, |s|) == EvictedFrames(s, e, pid, wset)
    ensures WsWrites(s, e, pid, wset) == CountDirtyStale(s, e, pid, wset)
    ensures WsTarget(s, pid, wset) == LastStale(s, pid, wset)
  {
    ClearStaleAt(s, e, pid, wset, |s|);
  }

  /** When nothing was stale, the scan changed nothing and the fallback
      eviction of the last owned frame is the outcome. */
  lemma FallbackOutcome(s: seq<VmemEntry>, e: seq<MmemEntry>, pid: uint8, wset: seq<VmemEntry>)
    requires |e| == |s| && LastStale(s, pid, wset) == -1
    ensures ClearStale(s, pid, wset, |s|) == s && ClearStaleFrames(s, e, pid, wset, |s|) == e
    ensures CountDirtyStale(s, e, pid, wset) == 0
    ensures var lo := LastOwned(s, pid);
            lo != -1 ==>
            && s[lo := s[lo].(isSet := false)] == Evicted(s, pid, wset)
            && e[lo := e[lo].(isSet := false)] == EvictedFrames(s, e, pid, wset)
            && WsWrites(s, e, pid, wset) == (if e[lo].modified then 1 else 0)
            && WsTarget(s, pid, wset) == lo
  {
    ClearStaleAt(s, e, pid, wset, |s|);
    NoStaleNoWrites(s, e, pid, wset);
  }

  /** The body of working_set after make_set: the scan, then the fallback
      eviction of the last frame of `pid` when nothing was stale. */
  method ReplaceAgainst(mem: Memory, pid: uint8, wsQueue: Queue) returns (starved: bool, empty: int)
    requires mem.Valid() && wsQueue.Valid() && mem.iptCurr == mem.ipt.Length
    modifies mem`hdWrites, mem`iptCurr, mem.ipt, mem.entries
    ensures mem.Valid()
    ensures var s, e, ws := old(mem.ipt[..]), old(mem.entries[..]), wsQueue.items;
            && (starved <==> LastOwned(s, pid) == -1)
            && (starved ==> mem.ipt[..] == s && mem.entries[..] == e && mem.hdWrites == old(mem.hdWrites))
            && (!starved ==>
                  && empty == WsTarget(s, pid, ws) && 0 <= empty < |s| && !mem.ipt[empty].isSet
                  && mem.ipt[..] == Evicted(s, pid, ws)
                  && mem.entries[..] == EvictedFrames(s, e, pid, ws)
                  && mem.hdWrites == old(mem.hdWrites) + WsWrites(s, e, pid, ws))
  {
    ghost var ws := wsQueue.items;
    ghost var s0 := mem.ipt[..];
    ghost var e0 := mem.entries[..];
    CountSetFull(s0);
    var last;
    last, empty := EvictStale(mem, pid, wsQueue);
    if empty == -1 {
      FallbackOutcome(s0, e0, pid, ws);
      if last == -1 {
        return true, empty;
      }
      RmPage(mem, last);
      empty := last;
    } else {
      ScanOutcome(s0, e0, pid, ws);
    }
    starved := false;
  }

  /** working_set: scan the table, evicting each frame of `pid` whose page is
      not in its working set; if none was evicted, evict the last frame of
      `pid`. `starved` is the "Starvation!" exit: `pid` owns no frame. */
  method WorkingSet(mem: Memory, pid: uint8) returns (starved: bool, empty: int)
    requires mem.Valid() && mem.alg == WS && pid in mem.historyIndex[..]
    requires mem.iptCurr == mem.ipt.Length
    modifies mem`hdWrites, mem`iptCurr, mem.ipt, mem.entries
    ensures mem.Valid()
    ensures var s, e, ws := old(mem.ipt[..]), old(mem.entries[..]), WorkingSetOf(mem, pid);
            && (starved <==> LastOwned(s, pid) == -1)
            && (starved ==> mem.ipt[..] == s && mem.entries[..] == e && mem.hdWrites == old(mem.hdWrites))
            && (!starved ==>
                  && empty == WsTarget(s, pid, ws) && 0 <= empty < |s| && !mem.ipt[empty].isSet
                  && mem.ipt[..] == Evicted(s, pid, ws)
                  && mem.entries[..] == EvictedFrames(s, e, pid, ws)
                  && mem.hdWrites == old(mem.hdWrites) + WsWrites(s, e, pid, ws))
  {
    var wsQueue := new Queue();
    var k := FindHistoryWindow(mem.historyIndex, pid);
    MakeSet(wsQueue, mem.history, k);
    assert wsQueue.items == WorkingSetOf(mem, pid);
    ghost var ws := wsQueue.items;
    starved, empty := ReplaceAgainst(mem, pid, wsQueue);
    assert WorkingSetOf(mem, pid) == ws;
  }

  // ---------------------------------------------------------------------------
  // Properties of the Working Set victim rule

  /** working_set never touches a frame of another process. */
  lemma WsVictimOwned(s: seq<VmemEntry>, pid: uint8, wset: seq<VmemEntry>, j: int)
    requires 0 <= j < |s| && WsVictim(s, pid, wset, j)
    ensures s[j].pid == pid
  {
  }

  /** The frame working_set returns is the highest-indexed frame it evicts. */
  lemma WsTargetIsLastVictim(s: seq<VmemEntry>, pid: uint8, wset: seq<VmemEntry>)
    requires LastOwned(s, pid) != -1
    ensures var p := WsTarget(s, pid, wset);
            && 0 <= p < |s| && WsVictim(s, pid, wset, p)
            && forall j :: p < j < |s| ==> !WsVictim(s, pid, wset, j)
  {
    var st := LastStale(s, pid, wset);
    if st != -1 {
      forall j | st < j < |s| ensures !WsVictim(s, pid, wset, j) {
        assert !Stale(s[j], pid, wset);
      }
    }
  }

  /** The victim rule in terms of the history window `h` of `pid`: a frame is
      evicted iff `pid` owns it and either its page is absent from `h`, or
      every page `pid` holds is in `h` and this is its highest-indexed frame. */
  lemma WsVictimByWindow(s: seq<VmemEntry>, pid: uint8, h: seq<VmemEntry>, j: int)
    requires AllOwnedBy(h, pid) && 0 <= j < |s|
    ensures WsVictim(s, pid, BuildSet([], h), j) <==>
              s[j].pid == pid &&
              (s[j].addr !in Addrs(h) ||
               ((forall k :: 0 <= k < |s| && s[k].pid == pid ==> s[k].addr in Addrs(h)) &&
                (forall k :: j < k < |s| ==> s[k].pid != pid)))
  {
    var ws := BuildSet([], h);
    forall k | 0 <= k < |s|
      ensures Stale(s[k], pid, ws) <==> s[k].pid == pid && s[k].addr !in Addrs(h)
    {
      WorkingSetMembership(h, pid, s[k].addr);
    }
    var st := LastStale(s, pid, ws);
    if st != -1 {
      assert Stale(s[st], pid, ws);
    }
    var lo := LastOwned(s, pid);
    if s[j].pid == pid && (forall k :: j < k < |s| ==> s[k].pid != pid) {
      assert lo == j;
    }
  }

  /** The example of a window of three: after pages 1, 2, 3, 1, 4 of one
      process the window holds 3, 1, 4, so its working set is {1, 3, 4} and
      page 2 has aged out. make_set keeps the first item in front, so the
      set it builds is 3, 1, 4 and not sorted. */
  lemma WorkingSetExample()
    ensures var r := (a: uint32) => VmemEntry(true, 0, a);
            var w1 := Window([], r(1), 3);
            var w2 := Window(w1, r(2), 3);
            var w3 := Window(w2, r(3), 3);
            var w4 := Window(w3, r(1), 3);
            var w5 := Window(w4, r(4), 3);
            && w5 == [r(3), r(1), r(4)]
            && BuildSet([], w5) == [r(3), r(1), r(4)]
            && Addrs(BuildSet([], w5)) == {1, 3, 4}
  {
    var r := (a: uint32) => VmemEntry(true, 0, a);
    var w3 := [r(1), r(2), r(3)];
    assert Window(Window(Window([], r(1), 3), r(2), 3), r(3), 3) == w3;
    var w4 := Window(w3, r(1), 3);
    assert w4 == [r(2), r(3), r(1)];
    var w5 := Window(w4, r(4), 3);
    assert w5 == [r(3), r(1), r(4)];
    assert w5[1..] == [r(1), r(4)] && w5[1..][1..] == [r(4)];
    var b1 := SortedInserted([], r(3));
    assert b1 == [r(3)];
    var b2 := SortedInserted(b1, r(1));
    assert b2 == [r(3), r(1)];
    var b3 := SortedInserted(b2, r(4));
    assert b2[1..] == [r(1)];
    assert Place([r(1)], r(4)) == [r(1), r(4)];
    assert b3 == [r(3), r(1), r(4)];
    assert BuildSet([], w5) == BuildSet(b1, w5[1..]) == BuildSet(b2, [r(4)]) == BuildSet(b3, []);
    assert [r(3), r(1), r(4)][1..] == [r(1), r(4)] && [r(1), r(4)][1..] == [r(4)] && [r(4)][1..] == [];
    assert Addrs([r(4)]) == {4};
    assert Addrs([r(1), r(4)]) == {1, 4};
    assert Addrs(b3) == {3, 1, 4};
  }
}
