/** The queue container of queue/queue.c: a FIFO of VmemEntry items with a
    separate `size` counter. The linked nodes are modelled by the sequence of
    the items reachable from `front`, in order. */
module Queues {
  import opened Types

  /** compare_equal: two items are the same reference iff pid and page agree
      (the `set` flag is ignored). */
  predicate SameRef(a: VmemEntry, b: VmemEntry)
  {
    a.pid == b.pid && a.addr == b.addr
  }

  /** Some item of `s` is the same reference as `v`. */
  predicate Contains(s: seq<VmemEntry>, v: VmemEntry)
  {
    exists k :: 0 <= k < |s| && SameRef(s[k], v)
  }

  /** The set of page numbers held by `s`. */
  function Addrs(s: seq<VmemEntry>): set<uint32>
  {
    if s == [] then {} else {s[0].addr} + Addrs(s[1..])
  }

  /** Every item of `s` belongs to process `pid`. */
  predicate AllOwnedBy(s: seq<VmemEntry>, pid: uint8)
  {
    forall k :: 0 <= k < |s| ==> s[k].pid == pid
  }

  /** Page numbers strictly increase along `s`. */
  predicate Increasing(s: seq<VmemEntry>)
  {
    forall i, j :: 0 <= i < j < |s| ==> s[i].addr < s[j].addr
  }

  /** What queue_sorted_insert leaves after any run of calls: the nodes after
      the front strictly increase by page number. The front itself is never
      compared. */
  predicate IncreasingAfterFront(s: seq<VmemEntry>)
  {
    s == [] || Increasing(s[1..])
  }

  /** The walk of queue_sorted_insert over the nodes that follow the front:
      stop (and insert nothing) at an equal page, insert before the first
      larger page, or append at the end. */
  function Place(t: seq<VmemEntry>, v: VmemEntry): seq<VmemEntry>
  {
    if t == [] then [v]
    else if t[0].addr == v.addr then t
    else if t[0].addr > v.addr then [v] + t
    else [t[0]] + Place(t[1..], v)
  }

  /** queue_sorted_insert as a function of the old contents: an empty queue
      gets one node; otherwise the front is kept and the walk starts after it. */
  function SortedInserted(s: seq<VmemEntry>, v: VmemEntry): seq<VmemEntry>
  {
    if s == [] then [v] else [s[0]] + Place(s[1..], v)
  }

  /** make_set as a function: sorted-insert every item of `h`, front first,
      into a queue holding `acc`. */
  function BuildSet(acc: seq<VmemEntry>, h: seq<VmemEntry>): seq<VmemEntry>
    decreases |h|
  {
    if h == [] then acc else BuildSet(SortedInserted(acc, h[0]), h[1..])
  }

  // ---------------------------------------------------------------------------
  // Lemmas about the specification functions

  lemma {:induction false} AddrsMember(s: seq<VmemEntry>, a: uint32)
    ensures a in Addrs(s) <==> exists k :: 0 <= k < |s| && s[k].addr == a
  {
    if s != [] {
      AddrsMember(s[1..], a);
      if a in Addrs(s[1..]) {
        var k :| 0 <= k < |s[1..]| && s[1..][k].addr == a;
        assert s[k + 1].addr == a;
      }
      if exists k :: 0 <= k < |s| && s[k].addr == a {
        var k :| 0 <= k < |s| && s[k].addr == a;
        if k > 0 { assert s[1..][k - 1].addr == a; }
      }
    }
  }

  /** Under one owner, membership by (pid, page) is membership of the page. */
  lemma ContainsOwned(s: seq<VmemEntry>, pid: uint8, a: uint32)
    requires AllOwnedBy(s, pid)
    ensures Contains(s, VmemEntry(true, pid, a)) <==> a in Addrs(s)
  {
    AddrsMember(s, a);
  }

  lemma {:induction false} PlaceAddrs(t: seq<VmemEntry>, v: VmemEntry)
    ensures Addrs(Place(t, v)) == Addrs(t) + {v.addr}
  {
    if t != [] && t[0].addr < v.addr {
      PlaceAddrs(t[1..], v);
      assert ([t[0]] + Place(t[1..], v))[1..] == Place(t[1..], v);
    } else if t != [] && t[0].addr > v.addr {
      assert ([v] + t)[1..] == t;
    }
  }

  /** Place keeps every old item and adds nothing but `v`. */
  lemma {:induction false} PlaceItems(t: seq<VmemEntry>, v: VmemEntry)
    ensures forall x :: x in t ==> x in Place(t, v)
    ensures forall x :: x in Place(t, v) ==> x in t || x == v
  {
    if t != [] && t[0].addr < v.addr {
      PlaceItems(t[1..], v);
      assert t == [t[0]] + t[1..];
    }
  }

  /** Prepending a page below every page of an increasing sequence keeps it
      increasing. */
  lemma ConsIncreasing(x: VmemEntry, p: seq<VmemEntry>)
    requires Increasing(p) && forall k :: 0 <= k < |p| ==> x.addr < p[k].addr
    ensures Increasing([x] + p)
  {
    var r := [x] + p;
    forall i, j | 0 <= i < j < |r| ensures r[i].addr < r[j].addr {
      assert r[j] == p[j - 1];
      if i > 0 {
        assert r[i] == p[i - 1];
      }
    }
  }

  lemma {:induction false} PlaceIncreasing(t: seq<VmemEntry>, v: VmemEntry)
    requires Increasing(t)
    ensures Increasing(Place(t, v))
  {
    if t == [] {
      assert Place(t, v) == [v];
    } else if t[0].addr > v.addr {
      assert forall k :: 0 <= k < |t| ==> v.addr < t[k].addr;
      ConsIncreasing(v, t);
    } else if t[0].addr < v.addr {
      var rest := t[1..];
      assert Increasing(rest);
      PlaceIncreasing(rest, v);
      var p := Place(rest, v);
      forall k | 0 <= k < |p| ensures t[0].addr < p[k].addr {
        PlaceItems(rest, v);
        assert p[k] in p;
        if p[k] != v {
          var m :| 0 <= m < |rest| && rest[m] == p[k];
          assert rest[m] == t[m + 1];
        }
      }
      ConsIncreasing(t[0], p);
    }
  }

  /** On an increasing tail, a page already present is not inserted again
      and a new page adds exactly one node. */
  lemma {:induction false} PlaceSize(t: seq<VmemEntry>, v: VmemEntry)
    requires Increasing(t)
    ensures v.addr in Addrs(t) ==> Place(t, v) == t
    ensures v.addr !in Addrs(t) ==> |Place(t, v)| == |t| + 1
  {
    if t != [] {
      AddrsMember(t, v.addr);
      if t[0].addr < v.addr {
        assert Increasing(t[1..]);
        PlaceSize(t[1..], v);
        AddrsMember(t[1..], v.addr);
        assert t == [t[0]] + t[1..];
      } else if t[0].addr > v.addr {
        assert v.addr !in Addrs(t);
      }
    }
  }

  lemma SortedInsertedAddrs(s: seq<VmemEntry>, v: VmemEntry)
    ensures Addrs(SortedInserted(s, v)) == Addrs(s) + {v.addr}
  {
    if s != [] {
      PlaceAddrs(s[1..], v);
      assert SortedInserted(s, v)[1..] == Place(s[1..], v);
    }
  }

  lemma SortedInsertedItems(s: seq<VmemEntry>, v: VmemEntry)
    ensures forall x :: x in s ==> x in SortedInserted(s, v)
    ensures forall x :: x in SortedInserted(s, v) ==> x in s || x == v
  {
    if s != [] {
      PlaceItems(s[1..], v);
      assert s == [s[0]] + s[1..];
    }
  }

  /** queue_sorted_insert keeps the nodes after the front strictly increasing. */
  lemma SortedInsertedIncreasing(s: seq<VmemEntry>, v: VmemEntry)
    requires IncreasingAfterFront(s)
    ensures IncreasingAfterFront(SortedInserted(s, v))
  {
    if s != [] {
      PlaceIncreasing(s[1..], v);
      assert SortedInserted(s, v)[1..] == Place(s[1..], v);
    }
  }

  /** The size rule of queue_sorted_insert: a page already present after the
      front leaves the queue unchanged; any other page adds one node (even one
      equal to the front's page, which is never compared). */
  lemma SortedInsertedSize(s: seq<VmemEntry>, v: VmemEntry)
    requires IncreasingAfterFront(s)
    ensures s != [] && v.addr in Addrs(s[1..]) ==> SortedInserted(s, v) == s
    ensures !(s != [] && v.addr in Addrs(s[1..])) ==> |SortedInserted(s, v)| == |s| + 1
  {
    if s != [] {
      PlaceSize(s[1..], v);
      assert s == [s[0]] + s[1..];
    }
  }

  lemma {:induction false} BuildSetAddrs(acc: seq<VmemEntry>, h: seq<VmemEntry>)
    ensures Addrs(BuildSet(acc, h)) == Addrs(acc) + Addrs(h)
    decreases |h|
  {
    if h != [] {
      SortedInsertedAddrs(acc, h[0]);
      BuildSetAddrs(SortedInserted(acc, h[0]), h[1..]);
    }
  }

  lemma {:induction false} BuildSetOwned(acc: seq<VmemEntry>, h: seq<VmemEntry>, pid: uint8)
    requires AllOwnedBy(acc, pid) && AllOwnedBy(h, pid)
    ensures AllOwnedBy(BuildSet(acc, h), pid)
    decreases |h|
  {
    if h != [] {
      var next := SortedInserted(acc, h[0]);
      SortedInsertedItems(acc, h[0]);
      forall k | 0 <= k < |next| ensures next[k].pid == pid {
        assert next[k] in next;
      }
      BuildSetOwned(next, h[1..], pid);
    }
  }

  lemma {:induction false} BuildSetIncreasing(acc: seq<VmemEntry>, h: seq<VmemEntry>)
    requires IncreasingAfterFront(acc)
    ensures IncreasingAfterFront(BuildSet(acc, h))
    decreases |h|
  {
    if h != [] {
      SortedInsertedIncreasing(acc, h[0]);
      BuildSetIncreasing(SortedInserted(acc, h[0]), h[1..]);
    }
  }

  /** The working set of a history window that one process owns: a reference
      of that process is found in it iff its page occurs in the window. */
  lemma WorkingSetMembership(h: seq<VmemEntry>, pid: uint8, a: uint32)
    requires AllOwnedBy(h, pid)
    ensures Contains(BuildSet([], h), VmemEntry(true, pid, a)) <==> a in Addrs(h)
    ensures IncreasingAfterFront(BuildSet([], h))
  {
    BuildSetAddrs([], h);
    BuildSetOwned([], h, pid);
    ContainsOwned(BuildSet([], h), pid, a);
    BuildSetIncreasing([], h);
  }

  // ---------------------------------------------------------------------------

  // Steps of the walk in queue_sorted_insert, stated on the old contents `s`
  // with the current node at index j.

  lemma PlaceAdvance(s: seq<VmemEntry>, j: nat, v: VmemEntry)
    requires j + 1 < |s| && s[j + 1].addr < v.addr
    ensures s[..j + 1] + Place(s[j + 1..], v) == s[..j + 2] + Place(s[j + 2..], v)
  {
    var t := s[j + 1..];
    assert t[0] == s[j + 1] && t[1..] == s[j + 2..];
    assert Place(t, v) == [s[j + 1]] + Place(s[j + 2..], v);
    assert s[..j + 2] == s[..j + 1] + [s[j + 1]];
  }

  lemma PlaceStop(s: seq<VmemEntry>, j: nat, v: VmemEntry)
    requires j + 1 < |s| && s[j + 1].addr == v.addr
    ensures s[..j + 1] + Place(s[j + 1..], v) == s
  {
    assert s == s[..j + 1] + s[j + 1..];
  }

  lemma PlaceEnd(s: seq<VmemEntry>, j: nat, v: VmemEntry)
    requires j < |s| && (j + 1 == |s| || s[j + 1].addr > v.addr)
    ensures s[..j + 1] + Place(s[j + 1..], v) == s[..j + 1] + [v] + s[j + 1..]
  {
  }

  /** struct queue. */
  class Queue {
    var size: nat
    var items: seq<VmemEntry>

    /** `size` counts the nodes of the list. */
    ghost predicate Valid()
      reads this
    {
      size == |items|
    }

    /** queue_initialize */
    constructor ()
      ensures Valid() && items == []
    {
      size := 0;
      items := [];
    }

    /** queue_is_empty */
    method IsEmpty() returns (empty: bool)
      requires Valid()
      ensures empty <==> items == []
    {
      empty := size == 0;
    }

    /** queue_is_full */
    method IsFull(maxSize: nat) returns (full: bool)
      requires Valid()
      ensures full <==> |items| == maxSize
    {
      full := size == maxSize;
    }

    /** queue_remove_first: the front node is unlinked and its item returned. */
    method RemoveFirst() returns (item: VmemEntry)
      requires Valid() && items != []
      modifies this
      ensures Valid()
      ensures item == old(items)[0] && items == old(items)[1..]
      ensures size == old(size) - 1
    {
      size := size - 1;
      item := items[0];
      items := items[1..];
    }

    /** queue_insert_last: a new node after the tail. */
    method InsertLast(value: VmemEntry)
      requires Valid()
      modifies this
      ensures Valid()
      ensures items == old(items) + [value] && size == old(size) + 1
    {
      size := size + 1;
      items := items + [value];
    }

    /** queue_emplace_last: the front node is relinked after the tail and
        overwritten, so the oldest item is dropped and `size` is unchanged.
        With a single node the code leaves `front` NULL while `size` stays 1,
        so at least two nodes are required. */
    method EmplaceLast(value: VmemEntry)
      requires Valid() && size >= 2
      modifies this
      ensures Valid()
      ensures items == old(items)[1..] + [value] && size == old(size)
    {
      items := items[1..] + [value];
    }

    /** queue_sorted_insert: walk from the front, comparing against the node
        after the current one. */
    method SortedInsert(value: VmemEntry)
      requires Valid()
      modifies this
      ensures Valid()
      ensures items == SortedInserted(old(items), value)
    {
      size := size + 1;
      if items == [] {
        items := [value];
        return;
      }
      var s := items;
      var j := 0;
      assert s[..1] == [s[0]];
      while j + 1 < |s|
        invariant 0 <= j < |s|
        invariant items == s && size == |s| + 1
        invariant SortedInserted(s, value) == s[..j + 1] + Place(s[j + 1..], value)
      {
        if s[j + 1].addr == value.addr {
          size := size - 1;
          PlaceStop(s, j, value);
          return;
        }
        if s[j + 1].addr > value.addr {
          break;
        }
        PlaceAdvance(s, j, value);
        j := j + 1;
      }
      PlaceEnd(s, j, value);
      items := s[..j + 1] + [value] + s[j + 1..];
    }

    /** queue_search: is some node the same reference as `value`? */
    method Search(value: VmemEntry) returns (found: bool)
      requires Valid()
      ensures found <==> Contains(items, value)
    {
      var k := 0;
      while k < |items|
        invariant 0 <= k <= |items|
        invariant forall i :: 0 <= i < k ==> !SameRef(items[i], value)
      {
        if SameRef(items[k], value) {
          return true;
        }
        k := k + 1;
      }
      return false;
    }
  }
}
