/**
 * The search frontier. Python's `heapq` keeps a binary heap of tuples and
 * `heappop` removes the least tuple; here the frontier is a sequence of
 * entries and extract-min scans it. Tuples compare lexicographically, and a
 * `Vec3d` compares as the tuple (x, y, z).
 */
module Frontier {
  import opened Geometry

  /** A frontier entry `(f, g, cell)`. */
  datatype Entry = Entry(f: int, g: int, cell: Vec3d)

  predicate CellLe(a: Vec3d, b: Vec3d)
  {
    a.x < b.x || (a.x == b.x && (a.y < b.y || (a.y == b.y && a.z <= b.z)))
  }

  /** Python's tuple order on `(f, g, (x, y, z))`. */
  predicate EntryLe(a: Entry, b: Entry)
  {
    a.f < b.f || (a.f == b.f && (a.g < b.g || (a.g == b.g && CellLe(a.cell, b.cell))))
  }

  lemma EntryLeIsTotalOrder(a: Entry, b: Entry, c: Entry)
    ensures EntryLe(a, a)
    ensures EntryLe(a, b) || EntryLe(b, a)
    ensures EntryLe(a, b) && EntryLe(b, a) ==> a == b
    ensures EntryLe(a, b) && EntryLe(b, c) ==> EntryLe(a, c)
  {
  }

  /** `heapq.heappop`: remove one least entry and return it. */
  method PopMin(heap: seq<Entry>) returns (e: Entry, rest: seq<Entry>)
    requires |heap| > 0
    ensures e in heap
    ensures forall x :: x in heap ==> EntryLe(e, x)
    ensures multiset(heap) == multiset(rest) + multiset{e}
    ensures |rest| == |heap| - 1
  {
    var k := 0;
    var i := 1;
    while i < |heap|
      invariant 0 <= k < i <= |heap|
      invariant forall j :: 0 <= j < i ==> EntryLe(heap[k], heap[j])
    {
      if !EntryLe(heap[k], heap[i]) {
        k := i;
      }
      i := i + 1;
    }
    e := heap[k];
    rest := heap[..k] + heap[k + 1..];
    assert heap == heap[..k] + [e] + heap[k + 1..];
  }

  lemma PopKeepsOthers(heap: seq<Entry>, e: Entry, rest: seq<Entry>, x: Entry)
    requires multiset(heap) == multiset(rest) + multiset{e}
    requires x in heap && x != e
    ensures x in rest
  {
    assert x in multiset(heap);
  }

  lemma PopRemovesOnly(heap: seq<Entry>, e: Entry, rest: seq<Entry>, x: Entry)
    requires multiset(heap) == multiset(rest) + multiset{e}
    requires x in rest
    ensures x in heap
  {
    assert x in multiset(rest);
    assert x in multiset(heap);
  }
}
