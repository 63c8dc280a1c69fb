/** The inverse page table operations of memory/ipt_management.c: the lookup
    of a reference, its placement in a free frame, and its placement by page
    replacement when the table is full. */
module IptManagement {
  import opened Types
  import opened Queues
  import opened MemoryStructs
  import opened PageRepl

  /** The main-memory side of a frame just loaded by set_new_entry: occupied,
      dirty exactly for a write, with the offset and time of the reference. */
  function NewFrame(mode: char, t: Timespec, ofs: uint16): (f: MmemEntry)
    ensures f.isSet && (f.modified <==> mode == 'W')
    ensures f.offset == ofs && f.latency == t
  {
    MmemEntry(true, mode == 'W', ofs, t)
  }

  /** A resident frame after ipt_search hits it: a write marks it dirty (a
      read never cleans it) and the time and offset are those of the hit. */
  function Touched(e: MmemEntry, mode: char, t: Timespec, ofs: uint16): (r: MmemEntry)
    ensures r.isSet == e.isSet
    ensures mode == 'W' ==> r.modified
    ensures mode != 'W' ==> r.modified == e.modified
    ensures r.offset == ofs && r.latency == t
  {
    e.(modified := e.modified || mode == 'W', latency := t, offset := ofs)
  }

  /** The first frame holding page `page` of `pid`, or -1. */
  function FirstMatch(s: seq<VmemEntry>, pid: uint8, page: uint32): (r: int)
    ensures -1 <= r < |s|
    ensures r >= 0 ==> Matches(s[r], pid, page) && forall j :: 0 <= j < r ==> !Matches(s[j], pid, page)
    ensures r == -1 <==> !Resident(s, pid, page)
  {
    if s == [] then -1
    else if Matches(s[0], pid, page) then 0
    else
      var r := FirstMatch(s[1..], pid, page);
      assert forall j :: 0 < j < |s| ==> s[1..][j - 1] == s[j];
      if r == -1 then -1 else r + 1
  }

  /** The first unoccupied slot, or -1. */
  function FirstFree(s: seq<VmemEntry>): (r: int)
    ensures -1 <= r < |s|
    ensures r >= 0 ==> !s[r].isSet && forall j :: 0 <= j < r ==> s[j].isSet
    ensures r == -1 <==> forall j :: 0 <= j < |s| ==> s[j].isSet
  {
    if s == [] then -1
    else if !s[0].isSet then 0
    else
      var r := FirstFree(s[1..]);
      assert forall j :: 0 < j < |s| ==> s[1..][j - 1] == s[j];
      if r == -1 then -1 else r + 1
  }

  /** In a table without duplicates the first match is the only one. */
  lemma FirstMatchOnly(s: seq<VmemEntry>, pid: uint8, page: uint32, j: int)
    requires NoDuplicates(s) && 0 <= j < |s| && Matches(s[j], pid, page)
    ensures FirstMatch(s, pid, page) == j
  {
    var r := FirstMatch(s, pid, page);
    if r != j {
      assert r < j && SameRef(s[r], s[j]);
      assert false;
    }
  }

  /** Below capacity a free slot exists, so the placement of ipt_fit is
      defined exactly when the count says there is room. */
  lemma FreeIffRoom(s: seq<VmemEntry>)
    ensures FirstFree(s) != -1 <==> CountSet(s) < |s|
  {
    CountSetFull(s);
  }

  /** Clearing `set` flags makes nothing resident. */
  lemma ClearedNotResident(s: seq<VmemEntry>, t: seq<VmemEntry>, pid: uint8, page: uint32)
    requires |t| == |s| && !Resident(s, pid, page)
    requires forall j :: 0 <= j < |s| ==> t[j] == s[j] || t[j] == s[j].(isSet := false)
    ensures !Resident(t, pid, page)
  {
    forall j | 0 <= j < |t| ensures !Matches(t[j], pid, page) {
      assert !Matches(s[j], pid, page);
    }
  }

  /** set_new_entry: both sides of frame `index` take the new reference. */
  method SetNewEntry(mem: Memory, index: nat, page: uint32, pid: uint8, mode: char, t: Timespec, ofs: uint16)
    requires index < mem.ipt.Length && index < mem.entries.Length
    modifies mem.ipt, mem.entries
    ensures mem.ipt[..] == old(mem.ipt[..])[index := VmemEntry(true, pid, page)]
    ensures mem.entries[..] == old(mem.entries[..])[index := NewFrame(mode, t, ofs)]
  {
    mem.ipt[index] := VmemEntry(true, pid, page);
    mem.entries[index] := MmemEntry(true, false, ofs, t);
    mem.entries[index] := mem.entries[index].(modified := mode == 'W');
  }

  /** Placing a reference that is not resident in an unoccupied slot keeps
      the tables consistent and raises the count by one. */
  lemma PlaceKeepsTables(s: seq<VmemEntry>, e: seq<MmemEntry>, p: nat, pid: uint8, page: uint32, f: MmemEntry)
    requires p < |s| && !s[p].isSet && f.isSet
    requires NoDuplicates(s) && !Resident(s, pid, page)
    requires Aligned(s, e)
    ensures CountSet(s[p := VmemEntry(true, pid, page)]) == CountSet(s) + 1
    ensures NoDuplicates(s[p := VmemEntry(true, pid, page)])
    ensures Aligned(s[p := VmemEntry(true, pid, page)], e[p := f])
  {
    var v := VmemEntry(true, pid, page);
    CountSetUpdate(s, p, v);
    var t := s[p := v];
    forall i, j | 0 <= i < j < |t| && t[i].isSet && t[j].isSet ensures !SameRef(t[i], t[j]) {
      if i == p {
        assert !Matches(s[j], pid, page);
      } else if j == p {
        assert !Matches(s[i], pid, page);
      }
    }
  }

  /** set_new_entry on an unoccupied frame followed by the increment of
      `ipt_curr`, as both ipt_fit and ipt_replace_page do. */
  method PlaceAt(mem: Memory, pos: nat, page: uint32, pid: uint8, mode: char, t: Timespec, ofs: uint16)
    requires mem.Valid() && pos < mem.ipt.Length && !mem.ipt[pos].isSet && !Resident(mem.ipt[..], pid, page)
    modifies mem`iptCurr, mem.ipt, mem.entries
    ensures mem.Valid()
    ensures mem.ipt[..] == old(mem.ipt[..])[pos := VmemEntry(true, pid, page)]
    ensures mem.entries[..] == old(mem.entries[..])[pos := NewFrame(mode, t, ofs)]
    ensures mem.iptCurr == old(mem.iptCurr) + 1
  {
    PlaceKeepsTables(mem.ipt[..], mem.entries[..], pos, pid, page, NewFrame(mode, t, ofs));
    SetNewEntry(mem, pos, page, pid, mode, t, ofs);
    mem.iptCurr := mem.iptCurr + 1;
  }

  /** ipt_search: find the frame holding page `page` of `pid`; on a hit,
      touch it (dirty on a write, new timestamp and offset). */
  method IptSearch(mem: Memory, page: uint32, pid: uint8, mode: char, t: Timespec, ofs: uint16) returns (found: bool)
    requires mem.Valid()
    modifies mem.entries
    ensures mem.Valid()
    ensures found <==> Resident(mem.ipt[..], pid, page)
    ensures found ==>
              var i := FirstMatch(mem.ipt[..], pid, page);
              mem.entries[..] == old(mem.entries[..])[i := Touched(old(mem.entries[i]), mode, t, ofs)]
    ensures !found ==> mem.entries[..] == old(mem.entries[..])
  {
    for i := 0 to mem.ipt.Length
      invariant forall j :: 0 <= j < i ==> !Matches(mem.ipt[j], pid, page)
    {
      if mem.ipt[i].isSet && mem.ipt[i].addr == page && mem.ipt[i].pid == pid {
        if mode == 'W' {
          mem.entries[i] := mem.entries[i].(modified := true);
        }
        mem.entries[i] := mem.entries[i].(latency := t);
        mem.entries[i] := mem.entries[i].(offset := ofs);
        assert mem.entries[..] == old(mem.entries[..])[i := Touched(old(mem.entries[i]), mode, t, ofs)];
        FirstMatchOnly(mem.ipt[..], pid, page, i);
        return true;
      }
    }
    return false;
  }

  /** ipt_fit: when the table is not full, load the reference into the first
      unoccupied slot. */
  method IptFit(mem: Memory, page: uint32, pid: uint8, mode: char, t: Timespec, ofs: uint16) returns (placed: bool)
    requires mem.Valid() && !Resident(mem.ipt[..], pid, page)
    modifies mem`iptCurr, mem.ipt, mem.entries
    ensures mem.Valid()
    ensures placed <==> old(mem.iptCurr) < mem.ipt.Length
    ensures !placed ==> mem.ipt[..] == old(mem.ipt[..]) && mem.entries[..] == old(mem.entries[..])
                        && mem.iptCurr == old(mem.iptCurr)
    ensures placed ==>
              var p := FirstFree(old(mem.ipt[..]));
              && 0 <= p
              && mem.ipt[..] == old(mem.ipt[..])[p := VmemEntry(true, pid, page)]
              && mem.entries[..] == old(mem.entries[..])[p := NewFrame(mode, t, ofs)]
              && mem.iptCurr == old(mem.iptCurr) + 1
  {
    if mem.iptCurr == mem.ipt.Length {
      return false;
    }
    ghost var s := mem.ipt[..];
    ghost var e := mem.entries[..];
    FreeIffRoom(s);
    var pos := 0;
    while mem.ipt[pos].isSet
      invariant pos <= FirstFree(s)
      invariant forall j :: 0 <= j < pos ==> mem.ipt[j].isSet
      decreases FirstFree(s) - pos
    {
      pos := pos + 1;
    }
    PlaceAt(mem, pos, page, pid, mode, t, ofs);
    placed := true;
  }

  /** The tables `s1`, `e1` and the `writes` disk writes that ipt_replace_page
      leaves under LRU: the oldest frame of `e` holds the new reference. */
  predicate LruReplaced(s: seq<VmemEntry>, e: seq<MmemEntry>, s1: seq<VmemEntry>, e1: seq<MmemEntry>, writes: int,
                        pid: uint8, page: uint32, mode: char, t: Timespec, ofs: uint16)
  {
    && |s| == |e| > 0
    && var p := Oldest(e);
       && s1 == s[p := VmemEntry(true, pid, page)]
       && e1 == e[p := NewFrame(mode, t, ofs)]
       && writes == (if e[p].modified then 1 else 0)
  }

  /** The tables `s1`, `e1` and the `writes` disk writes that ipt_replace_page
      leaves under the Working Set with working set `ws`: the victims of the
      scan are cleared and the frame working_set returns holds the reference. */
  predicate WsReplaced(s: seq<VmemEntry>, e: seq<MmemEntry>, ws: seq<VmemEntry>, s1: seq<VmemEntry>, e1: seq<MmemEntry>,
                       writes: int, pid: uint8, page: uint32, mode: char, t: Timespec, ofs: uint16)
  {
    && |s| == |e|
    && var p := WsTarget(s, pid, ws);
       && 0 <= p < |s|
       && s1 == Evicted(s, pid, ws)[p := VmemEntry(true, pid, page)]
       && e1 == EvictedFrames(s, e, pid, ws)[p := NewFrame(mode, t, ofs)]
       && writes == WsWrites(s, e, pid, ws)
  }

  /** LRU replaces one frame: every other frame is as it was. */
  lemma LruReplacedSparesOthers(s: seq<VmemEntry>, e: seq<MmemEntry>, s1: seq<VmemEntry>, e1: seq<MmemEntry>, writes: int,
                                pid: uint8, page: uint32, mode: char, t: Timespec, ofs: uint16)
    requires LruReplaced(s, e, s1, e1, writes, pid, page, mode, t, ofs)
    ensures |s1| == |s| && |e1| == |e|
    ensures forall j :: 0 <= j < |s| && j != Oldest(e) ==> s1[j] == s[j] && e1[j] == e[j]
    ensures s1[Oldest(e)] == VmemEntry(true, pid, page)
  {
  }

  /** The Working Set replaces only frames of the requesting process: every
      frame of another process is as it was. */
  lemma WsReplacedSparesOthers(s: seq<VmemEntry>, e: seq<MmemEntry>, ws: seq<VmemEntry>, s1: seq<VmemEntry>, e1: seq<MmemEntry>,
                               writes: int, pid: uint8, page: uint32, mode: char, t: Timespec, ofs: uint16)
    requires WsReplaced(s, e, ws, s1, e1, writes, pid, page, mode, t, ofs)
    ensures |s1| == |s| && |e1| == |e|
    ensures forall j :: 0 <= j < |s| && s[j].pid != pid ==> s1[j] == s[j] && e1[j] == e[j]
  {
    var p := WsTarget(s, pid, ws);
    var st := LastStale(s, pid, ws);
    if st != -1 {
      assert s[st].pid == pid;
    }
    WsTargetIsLastVictim(s, pid, ws);
    WsVictimOwned(s, pid, ws, p);
    forall j | 0 <= j < |s| && s[j].pid != pid ensures s1[j] == s[j] && e1[j] == e[j] {
      assert !Stale(s[j], pid, ws);
      assert !WsVictim(s, pid, ws, j);
    }
  }

  /** ipt_replace_page: the table is full, so free a frame by the policy of
      the memory (lru, or working_set for `pid`) and load the reference into
      the frame the policy returned. `ok` is false on the Working Set's
      starvation exit, where the tables are as the scan left them. */
  method IptReplacePage(mem: Memory, page: uint32, pid: uint8, mode: char, t: Timespec, ofs: uint16) returns (ok: bool)
    requires mem.Valid() && !Resident(mem.ipt[..], pid, page) && mem.iptCurr == mem.ipt.Length
    requires mem.alg == LRU ==> mem.ipt.Length > 0
    requires mem.alg == WS ==> pid in mem.historyIndex[..]
    modifies mem`hdWrites, mem`iptCurr, mem.ipt, mem.entries
    ensures mem.Valid()
    ensures !ok <==> mem.alg == WS && LastOwned(old(mem.ipt[..]), pid) == -1
    ensures !ok ==> mem.ipt[..] == old(mem.ipt[..]) && mem.entries[..] == old(mem.entries[..])
                    && mem.hdWrites == old(mem.hdWrites) && mem.iptCurr == old(mem.iptCurr)
    ensures ok && mem.alg == LRU ==>
              && LruReplaced(old(mem.ipt[..]), old(mem.entries[..]), mem.ipt[..], mem.entries[..],
                             mem.hdWrites - old(mem.hdWrites), pid, page, mode, t, ofs)
              && mem.iptCurr == old(mem.iptCurr)
    ensures ok && mem.alg == WS ==>
              WsReplaced(old(mem.ipt[..]), old(mem.entries[..]), WorkingSetOf(mem, pid), mem.ipt[..], mem.entries[..],
                         mem.hdWrites - old(mem.hdWrites), pid, page, mode, t, ofs)
  {
    var emptyPos: int;
    if mem.alg == LRU {
      emptyPos := Lru(mem);
      assert old(mem.entries[emptyPos]) == old(mem.entries[..])[emptyPos];
    } else {
      var starved;
      starved, emptyPos := WorkingSet(mem, pid);
      if starved {
        return false;
      }
    }
    ClearedNotResident(old(mem.ipt[..]), mem.ipt[..], pid, page);
    PlaceAt(mem, emptyPos, page, pid, mode, t, ofs);
    ok := true;
  }
}
