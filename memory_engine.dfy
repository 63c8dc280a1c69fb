/** The memory engine's entry point of memory/memory.c: mem_retrieve splits a
    32-bit address into page and offset, rolls the history window under the
    Working Set, and serves the reference from memory, from a free frame or
    by page replacement. */
module MemoryEngine {
  import opened Types
  import opened Queues
  import opened MemoryStructs
  import opened PageRepl
  import opened IptManagement

  /** `x << 20` on a uint32_t: the bits shifted past bit 31 are lost. */
  function Shl20(x: uint32): uint32
  {
    (x * 0x10_0000) % 0x1_0000_0000
  }

  /** The two shifts of mem_retrieve keep the low 12 bits. */
  lemma ShiftsKeepLowBits(addr: uint32)
    ensures Shl20(addr) / 0x10_0000 == addr % PageSize
  {
    var q := addr / 0x1000;
    var r := addr % 0x1000;
    var x := addr * 0x10_0000;
    assert x == q * 0x1_0000_0000 + r * 0x10_0000;
    assert r * 0x10_0000 < 0x1_0000_0000;
    assert x / 0x1_0000_0000 == q;
    assert Shl20(addr) == r * 0x10_0000;
  }

  /** The offset of mem_retrieve, `(addr << 20) >> 20`, cast to uint16_t:
      the position of the address inside its page. */
  function OffsetOf(addr: uint32): (ofs: uint16)
    ensures ofs == addr % PageSize
  {
    ShiftsKeepLowBits(addr);
    Shl20(addr) / 0x10_0000
  }

  /** The page number of mem_retrieve, `addr >> 12`: the number of the
      4096-byte page holding the address. */
  function PageOf(addr: uint32): (page: uint32)
    ensures page * PageSize <= addr < (page + 1) * PageSize
  {
    addr / PageSize
  }

  /** The split is lossless: page and offset give back the address, and
      every offset lies inside the page. */
  lemma AddressSplit(addr: uint32)
    ensures addr == PageOf(addr) * PageSize + OffsetOf(addr)
    ensures OffsetOf(addr) < PageSize && PageOf(addr) < 0x10_0000
  {
  }

  /** The reference is resident, stamped with the time and offset of the
      call that served it, and dirty if that call was a write. */
  predicate Served(s: seq<VmemEntry>, e: seq<MmemEntry>, pid: uint8, page: uint32, mode: char, t: Timespec, ofs: uint16)
  {
    && Resident(s, pid, page)
    && var i := FirstMatch(s, pid, page);
       && i < |e| && e[i].latency == t && e[i].offset == ofs && (mode == 'W' ==> e[i].modified)
  }

  /** The miss path of mem_retrieve: count the page fault and the disk read,
      then place the page in a free frame or by page replacement. */
  method ServeMiss(mem: Memory, page: uint32, pid: uint8, mode: char, t: Timespec, ofs: uint16) returns (ok: bool)
    requires mem.Valid() && mem.pageFaults < mem.totalReq && !Resident(mem.ipt[..], pid, page)
    requires mem.alg == LRU ==> mem.ipt.Length > 0
    requires mem.alg == WS ==> pid in mem.historyIndex[..]
    modifies mem`hdReads, mem`pageFaults, mem`hdWrites, mem`iptCurr, mem.ipt, mem.entries
    ensures mem.Valid()
    ensures mem.pageFaults == old(mem.pageFaults) + 1 && mem.hdReads == old(mem.hdReads) + 1
    ensures old(mem.iptCurr) < mem.ipt.Length ==>
              var p := FirstFree(old(mem.ipt[..]));
              && ok && 0 <= p
              && mem.ipt[..] == old(mem.ipt[..])[p := VmemEntry(true, pid, page)]
              && mem.entries[..] == old(mem.entries[..])[p := NewFrame(mode, t, ofs)]
              && mem.hdWrites == old(mem.hdWrites) && mem.iptCurr == old(mem.iptCurr) + 1
    ensures old(mem.iptCurr) == mem.ipt.Length ==>
              && (!ok <==> mem.alg == WS && LastOwned(old(mem.ipt[..]), pid) == -1)
              && (!ok ==> mem.ipt[..] == old(mem.ipt[..]) && mem.entries[..] == old(mem.entries[..])
                          && mem.hdWrites == old(mem.hdWrites))
              && (mem.alg == LRU ==>
                    LruReplaced(old(mem.ipt[..]), old(mem.entries[..]), mem.ipt[..], mem.entries[..],
                                mem.hdWrites - old(mem.hdWrites), pid, page, mode, t, ofs))
              && (ok && mem.alg == WS ==>
                    WsReplaced(old(mem.ipt[..]), old(mem.entries[..]), WorkingSetOf(mem, pid), mem.ipt[..], mem.entries[..],
                               mem.hdWrites - old(mem.hdWrites), pid, page, mode, t, ofs))
    ensures ok ==> Served(mem.ipt[..], mem.entries[..], pid, page, mode, t, ofs)
  {
    ghost var s0 := mem.ipt[..];
    ghost var e0 := mem.entries[..];
    mem.hdReads := mem.hdReads + 1;
    mem.pageFaults := mem.pageFaults + 1;
    var placed := IptFit(mem, page, pid, mode, t, ofs);
    if placed {
      FirstMatchOnly(mem.ipt[..], pid, page, FirstFree(s0));
      return true;
    }
    ok := IptReplacePage(mem, page, pid, mode, t, ofs);
    if ok {
      ghost var p := if mem.alg == LRU then Oldest(e0) else WsTarget(s0, pid, WorkingSetOf(mem, pid));
      assert Matches(mem.ipt[p], pid, page);
      FirstMatchOnly(mem.ipt[..], pid, page, p);
    }
  }

  /** The lookup of mem_retrieve once the window has rolled: a hit in the
      table, else a page fault served by ipt_fit or ipt_replace_page. */
  method Lookup(mem: Memory, page: uint32, pid: uint8, mode: char, t: Timespec, ofs: uint16) returns (ok: bool)
    requires mem.Valid() && mem.pageFaults < mem.totalReq
    requires mem.alg == LRU ==> mem.ipt.Length > 0
    requires mem.alg == WS ==> pid in mem.historyIndex[..]
    modifies mem`hdReads, mem`pageFaults, mem`hdWrites, mem`iptCurr, mem.ipt, mem.entries
    ensures mem.Valid()
    // a hit touches the frame and nothing else
    ensures old(Resident(mem.ipt[..], pid, page)) ==>
              var i := FirstMatch(old(mem.ipt[..]), pid, page);
              && ok
              && mem.ipt[..] == old(mem.ipt[..])
              && mem.entries[..] == old(mem.entries[..])[i := Touched(old(mem.entries[i]), mode, t, ofs)]
              && mem.pageFaults == old(mem.pageFaults) && mem.hdReads == old(mem.hdReads)
              && mem.hdWrites == old(mem.hdWrites) && mem.iptCurr == old(mem.iptCurr)
    // a miss is a page fault and a disk read
    ensures !old(Resident(mem.ipt[..], pid, page)) ==>
              mem.pageFaults == old(mem.pageFaults) + 1 && mem.hdReads == old(mem.hdReads) + 1
    // a miss with room fills the first free slot
    ensures !old(Resident(mem.ipt[..], pid, page)) && old(mem.iptCurr) < mem.ipt.Length ==>
              var p := FirstFree(old(mem.ipt[..]));
              && ok && 0 <= p
              && mem.ipt[..] == old(mem.ipt[..])[p := VmemEntry(true, pid, page)]
              && mem.entries[..] == old(mem.entries[..])[p := NewFrame(mode, t, ofs)]
              && mem.hdWrites == old(mem.hdWrites) && mem.iptCurr == old(mem.iptCurr) + 1
    // a miss on a full table replaces a page
    ensures !old(Resident(mem.ipt[..], pid, page)) && old(mem.iptCurr) == mem.ipt.Length ==>
              && (!ok <==> mem.alg == WS && LastOwned(old(mem.ipt[..]), pid) == -1)
              && (!ok ==> mem.ipt[..] == old(mem.ipt[..]) && mem.entries[..] == old(mem.entries[..])
                          && mem.hdWrites == old(mem.hdWrites))
              && (mem.alg == LRU ==>
                    LruReplaced(old(mem.ipt[..]), old(mem.entries[..]), mem.ipt[..], mem.entries[..],
                                mem.hdWrites - old(mem.hdWrites), pid, page, mode, t, ofs))
              && (ok && mem.alg == WS ==>
                    WsReplaced(old(mem.ipt[..]), old(mem.entries[..]), WorkingSetOf(mem, pid), mem.ipt[..], mem.entries[..],
                               mem.hdWrites - old(mem.hdWrites), pid, page, mode, t, ofs))
    // once served, the reference is resident with the time and offset of this call
    ensures ok ==> Served(mem.ipt[..], mem.entries[..], pid, page, mode, t, ofs)
  {
    var found := IptSearch(mem, page, pid, mode, t, ofs);
    if found {
      return true;
    }
    ok := ServeMiss(mem, page, pid, mode, t, ofs);
  }

  /** mem_retrieve: serve one reference of process `pid` to address `addr`
      at time `t` (the clock reading of the call). `ok` is false only on the
      Working Set's starvation exit. */
  method MemRetrieve(mem: Memory, addr: uint32, mode: char, pid: uint8, t: Timespec) returns (ok: bool)
    requires mem.Valid()
    requires mem.alg == LRU ==> mem.ipt.Length > 0
    requires mem.alg == WS ==> pid in mem.historyIndex[..]
    modifies mem`totalReq, mem`hdReads, mem`pageFaults, mem`hdWrites, mem`iptCurr
    modifies mem.ipt, mem.entries, mem.history
    ensures mem.Valid()
    ensures mem.totalReq == old(mem.totalReq) + 1
    // the history window of `pid` rolls before the lookup
    ensures mem.alg == WS ==>
              var k := FirstIndex(mem.historyIndex[..], pid);
              && mem.history[k].items == Window(old(mem.history[k].items), VmemEntry(true, pid, PageOf(addr)), mem.windowSize)
              && forall j :: 0 <= j < |mem.history| && j != k ==> mem.history[j].items == old(mem.history[j].items)
    // a hit touches the frame and nothing else
    ensures old(Resident(mem.ipt[..], pid, PageOf(addr))) ==>
              var i := FirstMatch(old(mem.ipt[..]), pid, PageOf(addr));
              && ok
              && mem.ipt[..] == old(mem.ipt[..])
              && mem.entries[..] == old(mem.entries[..])[i := Touched(old(mem.entries[i]), mode, t, OffsetOf(addr))]
              && mem.pageFaults == old(mem.pageFaults) && mem.hdReads == old(mem.hdReads)
              && mem.hdWrites == old(mem.hdWrites) && mem.iptCurr == old(mem.iptCurr)
    // a miss is a page fault and a disk read
    ensures !old(Resident(mem.ipt[..], pid, PageOf(addr))) ==>
              mem.pageFaults == old(mem.pageFaults) + 1 && mem.hdReads == old(mem.hdReads) + 1
    // a miss with room fills the first free slot
    ensures !old(Resident(mem.ipt[..], pid, PageOf(addr))) && old(mem.iptCurr) < mem.ipt.Length ==>
              var p := FirstFree(old(mem.ipt[..]));
              && ok && 0 <= p
              && mem.ipt[..] == old(mem.ipt[..])[p := VmemEntry(true, pid, PageOf(addr))]
              && mem.entries[..] == old(mem.entries[..])[p := NewFrame(mode, t, OffsetOf(addr))]
              && mem.hdWrites == old(mem.hdWrites) && mem.iptCurr == old(mem.iptCurr) + 1
    // a miss on a full table replaces a page
    ensures !old(Resident(mem.ipt[..], pid, PageOf(addr))) && old(mem.iptCurr) == mem.ipt.Length ==>
              && (!ok <==> mem.alg == WS && LastOwned(old(mem.ipt[..]), pid) == -1)
              && (!ok ==> mem.ipt[..] == old(mem.ipt[..]) && mem.entries[..] == old(mem.entries[..])
                          && mem.hdWrites == old(mem.hdWrites))
              && (mem.alg == LRU ==>
                    LruReplaced(old(mem.ipt[..]), old(mem.entries[..]), mem.ipt[..], mem.entries[..],
                                mem.hdWrites - old(mem.hdWrites), pid, PageOf(addr), mode, t, OffsetOf(addr)))
              && (ok && mem.alg == WS ==>
                    WsReplaced(old(mem.ipt[..]), old(mem.entries[..]), WorkingSetOf(mem, pid), mem.ipt[..], mem.entries[..],
                               mem.hdWrites - old(mem.hdWrites), pid, PageOf(addr), mode, t, OffsetOf(addr)))
    // once served, the reference is resident with the time and offset of this call
    ensures ok ==> Served(mem.ipt[..], mem.entries[..], pid, PageOf(addr), mode, t, OffsetOf(addr))
  {
    ghost var s0, e0 := mem.ipt[..], mem.entries[..];
    mem.totalReq := mem.totalReq + 1;
    var offset := OffsetOf(addr);
    var page := PageOf(addr);
    if mem.alg == WS {
      WsUpdateHistoryWindow(mem, pid, page);
    }
    assert mem.ipt[..] == s0 && mem.entries[..] == e0;
    ok := Lookup(mem, page, pid, mode, t, offset);
  }
}
