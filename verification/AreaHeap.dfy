/** The binary min-heap of point keys that orders the remaining points of a line by
    effective area.  The functions here are the heap operations as values; the class
    EffectiveAreas performs the same operations in place and is proved equal to them. */
module AreaHeap {

  /** One entry per point: its current area, its slot in the heap, and its neighbours
      among the points that have not been eliminated. */
  datatype AreaNode = AreaNode(area: real, treeindex: nat, prev: nat, next: nat)

  /** `keys` holds point numbers (pointers into `nodes` in the source); only the first
      `used` slots belong to the heap. */
  datatype MinHeap = MinHeap(nodes: seq<AreaNode>, keys: seq<nat>, used: nat)

  /** Integer division in C truncates toward zero, so the root is its own parent. */
  function Parent(k: nat): nat {
    if k == 0 then 0 else (k - 1) / 2
  }

  predicate InRange(h: MinHeap) {
    && h.used <= |h.keys| == |h.nodes|
    && forall k :: 0 <= k < |h.keys| ==> h.keys[k] < |h.nodes|
  }

  function AreaAt(h: MinHeap, k: nat): real
    requires InRange(h) && k < |h.keys|
  {
    h.nodes[h.keys[k]].area
  }

  /** A point is live while its back-pointer names a used slot that holds it. */
  predicate Live(h: MinHeap, q: nat) {
    && q < |h.nodes|
    && h.nodes[q].treeindex < h.used <= |h.keys|
    && h.keys[h.nodes[q].treeindex] == q
  }

  /** Every used slot is named by the back-pointer of the point it holds. */
  predicate BackPointers(h: MinHeap) {
    && InRange(h)
    && forall k :: 0 <= k < h.used ==> h.nodes[h.keys[k]].treeindex == k
  }

  predicate Ordered(h: MinHeap)
    requires InRange(h)
  {
    forall k :: 0 <= k < h.used ==> AreaAt(h, Parent(k)) <= AreaAt(h, k)
  }

  /** `r` is `h` with live keys moved between slots: areas, links and the set of live
      points are unchanged. */
  predicate Rearranged(h: MinHeap, r: MinHeap) {
    && r.used == h.used
    && |r.nodes| == |h.nodes|
    && |r.keys| == |h.keys|
    && (forall q :: 0 <= q < |h.nodes| ==>
          && r.nodes[q].area == h.nodes[q].area
          && r.nodes[q].prev == h.nodes[q].prev
          && r.nodes[q].next == h.nodes[q].next)
    && (forall q :: 0 <= q < |h.nodes| ==> (Live(r, q) <==> Live(h, q)))
  }

  /** Exchanges slots `i` and `j` and repairs both back-pointers. */
  function Swap(h: MinHeap, i: nat, j: nat): (r: MinHeap)
    requires InRange(h) && i < h.used && j < h.used
    ensures InRange(r) && |r.nodes| == |h.nodes| && r.used == h.used
    ensures forall k :: 0 <= k < |h.keys| ==>
              AreaAt(r, k) == AreaAt(h, if k == i then j else if k == j then i else k)
    ensures BackPointers(h) && i != j ==> BackPointers(r) && Rearranged(h, r)
  {
    var a, b := h.keys[i], h.keys[j];
    var nodes := h.nodes[b := h.nodes[b].(treeindex := i)];
    var r := h.(keys := h.keys[i := b][j := a], nodes := nodes[a := nodes[a].(treeindex := j)]);
    r
  }

  /** The child slot that `down` exchanges with `p`, or `p` itself. */
  function DownTarget(h: MinHeap, p: nat): (s: nat)
    requires InRange(h) && p < h.used
    ensures s == p || (p < s < h.used && Parent(s) == p)
    ensures forall k :: 0 < k < h.used && Parent(k) == p ==> AreaAt(h, s) <= AreaAt(h, k)
    ensures s != p ==> AreaAt(h, s) < AreaAt(h, p)
  {
    var left, right := 2 * p + 1, 2 * p + 2;
    var parentArea := AreaAt(h, p);
    var leftArea := if left < h.used then AreaAt(h, left) else 0.0;
    var s := if left < h.used && parentArea > leftArea then left else p;
    if right < h.used && AreaAt(h, right) < parentArea && AreaAt(h, right) < leftArea then right else s
  }

  /** Sift down. */
  function DownF(h: MinHeap, p: nat): (r: MinHeap)
    requires InRange(h) && p < h.used
    ensures InRange(r) && |r.nodes| == |h.nodes| && r.used == h.used
    ensures BackPointers(h) ==> BackPointers(r) && Rearranged(h, r)
    decreases h.used - p
  {
    var s := DownTarget(h, p);
    if s > p then DownF(Swap(h, p, s), s) else h
  }

  /** Sift up. */
  function UpF(h: MinHeap, c: nat): (r: MinHeap)
    requires InRange(h) && c < h.used
    ensures InRange(r) && |r.nodes| == |h.nodes| && r.used == h.used
    ensures BackPointers(h) ==> BackPointers(r) && Rearranged(h, r)
    decreases c
  {
    if AreaAt(h, c) < AreaAt(h, Parent(c)) then UpF(Swap(h, Parent(c), c), Parent(c)) else h
  }

  function UpdateF(h: MinHeap, idx: nat): (r: MinHeap)
    requires InRange(h) && idx < h.used
    ensures InRange(r) && |r.nodes| == |h.nodes| && r.used == h.used
    ensures BackPointers(h) ==> BackPointers(r) && Rearranged(h, r)
  {
    if AreaAt(h, idx) < AreaAt(h, Parent(idx)) then UpF(h, idx) else DownF(h, idx)
  }

  /** The heap after its last key has been moved to the root, before sifting. */
  function Uprooted(h: MinHeap): (r: MinHeap)
    requires InRange(h) && h.used >= 2
    ensures InRange(r) && |r.nodes| == |h.nodes|
  {
    var last := h.keys[h.used - 1];
    h.(keys := h.keys[0 := last], nodes := h.nodes[last := h.nodes[last].(treeindex := 0)], used := h.used - 1)
  }

  /** `r` is `h` without its root point. */
  predicate Popped(h: MinHeap, r: MinHeap)
    requires InRange(h) && h.used >= 2
  {
    && r.used == h.used - 1
    && |r.nodes| == |h.nodes|
    && (forall q :: 0 <= q < |h.nodes| ==>
          && r.nodes[q].area == h.nodes[q].area
          && r.nodes[q].prev == h.nodes[q].prev
          && r.nodes[q].next == h.nodes[q].next)
    && (forall q :: 0 <= q < |h.nodes| ==> (Live(r, q) <==> Live(h, q) && q != h.keys[0]))
  }

  lemma UprootedIsPopped(h: MinHeap)
    requires BackPointers(h) && h.used >= 2
    ensures BackPointers(Uprooted(h)) && Popped(h, Uprooted(h))
  {
  }

  function PopF(h: MinHeap): (r: MinHeap)
    requires InRange(h) && h.used >= 2
    ensures InRange(r) && |r.nodes| == |h.nodes| && r.used == h.used - 1
    ensures BackPointers(h) ==> BackPointers(r) && Popped(h, r)
  {
    assert BackPointers(h) ==> BackPointers(Uprooted(h)) && Popped(h, Uprooted(h)) by {
      if BackPointers(h) {
        UprootedIsPopped(h);
      }
    }
    DownF(Uprooted(h), 0)
  }

  /** Order everywhere except between slot `p` and its children. */
  predicate OrderedExceptBelow(h: MinHeap, p: nat)
    requires InRange(h) && p < h.used
  {
    && (forall k :: 0 <= k < h.used && Parent(k) != p ==> AreaAt(h, Parent(k)) <= AreaAt(h, k))
    && (p > 0 ==> forall k :: 0 < k < h.used && Parent(k) == p ==> AreaAt(h, Parent(p)) <= AreaAt(h, k))
  }

  /** Order everywhere except between slot `c` and its parent. */
  predicate OrderedExceptAbove(h: MinHeap, c: nat)
    requires InRange(h) && c < h.used
  {
    && (forall k :: 0 <= k < h.used && k != c ==> AreaAt(h, Parent(k)) <= AreaAt(h, k))
    && (forall k :: 0 < k < h.used && Parent(k) == c ==> AreaAt(h, Parent(c)) <= AreaAt(h, k))
  }

  /** The violation moves down with the key. */
  lemma SwapDown(h: MinHeap, p: nat)
    requires InRange(h) && p < h.used && OrderedExceptBelow(h, p) && DownTarget(h, p) > p
    ensures OrderedExceptBelow(Swap(h, p, DownTarget(h, p)), DownTarget(h, p))
  {
    var s := DownTarget(h, p);
    var r := Swap(h, p, s);
    forall k | 0 <= k < r.used && Parent(k) != s
      ensures AreaAt(r, Parent(k)) <= AreaAt(r, k)
    {
      assert Parent(k) == p || AreaAt(h, Parent(k)) <= AreaAt(h, k);
    }
    forall k | 0 < k < r.used && Parent(k) == s
      ensures AreaAt(r, p) <= AreaAt(r, k)
    {
      assert AreaAt(h, Parent(k)) <= AreaAt(h, k);
    }
  }

  /** The violation moves up with the key. */
  lemma SwapUp(h: MinHeap, c: nat)
    requires InRange(h) && 0 < c < h.used && OrderedExceptAbove(h, c) && AreaAt(h, c) < AreaAt(h, Parent(c))
    ensures OrderedExceptAbove(Swap(h, Parent(c), c), Parent(c))
  {
    var p := Parent(c);
    var r := Swap(h, p, c);
    forall k | 0 <= k < r.used && k != p
      ensures AreaAt(r, Parent(k)) <= AreaAt(r, k)
    {
      assert AreaAt(h, Parent(k)) <= AreaAt(h, k) || k == c;
    }
  }

  lemma {:induction false} DownRestoresOrder(h: MinHeap, p: nat)
    requires InRange(h) && p < h.used && OrderedExceptBelow(h, p)
    ensures Ordered(DownF(h, p))
    decreases h.used - p
  {
    var s := DownTarget(h, p);
    if s > p {
      SwapDown(h, p);
      DownRestoresOrder(Swap(h, p, s), s);
    }
  }

  lemma {:induction false} UpRestoresOrder(h: MinHeap, c: nat)
    requires InRange(h) && c < h.used && OrderedExceptAbove(h, c)
    ensures Ordered(UpF(h, c))
    decreases c
  {
    var p := Parent(c);
    if AreaAt(h, c) < AreaAt(h, p) {
      SwapUp(h, c);
      UpRestoresOrder(Swap(h, p, c), p);
    }
  }

  lemma PopKeepsOrder(h: MinHeap)
    requires BackPointers(h) && Ordered(h) && h.used >= 2
    ensures Ordered(PopF(h))
  {
    var r := Uprooted(h);
    forall k | 0 <= k < r.used && Parent(k) != 0
      ensures AreaAt(r, Parent(k)) <= AreaAt(r, k)
    {
      assert AreaAt(h, Parent(k)) <= AreaAt(h, k);
    }
    DownRestoresOrder(r, 0);
  }

  /** Gives point `q` a new area and restores the heap around it. */
  function RefreshF(h: MinHeap, q: nat, area: real): (r: MinHeap)
    requires BackPointers(h) && Live(h, q)
    ensures BackPointers(r) && r.used == h.used && |r.nodes| == |h.nodes|
    ensures forall x :: 0 <= x < |h.nodes| ==>
              && r.nodes[x].area == (if x == q then area else h.nodes[x].area)
              && r.nodes[x].prev == h.nodes[x].prev
              && r.nodes[x].next == h.nodes[x].next
    ensures forall x :: 0 <= x < |h.nodes| ==> (Live(r, x) <==> Live(h, x))
  {
    UpdateF(h.(nodes := h.nodes[q := h.nodes[q].(area := area)]), h.nodes[q].treeindex)
  }

  lemma RefreshKeepsOrder(h: MinHeap, q: nat, area: real)
    requires BackPointers(h) && Live(h, q) && Ordered(h)
    ensures Ordered(RefreshF(h, q, area))
  {
    var r := h.(nodes := h.nodes[q := h.nodes[q].(area := area)]);
    var idx := h.nodes[q].treeindex;
    assert forall k :: 0 <= k < h.used ==> AreaAt(r, k) == if k == idx then area else AreaAt(h, k);
    if AreaAt(r, idx) < AreaAt(r, Parent(idx)) {
      UpRestoresOrder(r, idx);
    } else {
      DownRestoresOrder(r, idx);
    }
  }

  /** The root of an ordered heap is no larger than any slot. */
  lemma {:induction false} RootIsLeast(h: MinHeap, k: nat)
    requires InRange(h) && Ordered(h) && k < h.used
    ensures AreaAt(h, 0) <= AreaAt(h, k)
    decreases k
  {
    if k > 0 {
      RootIsLeast(h, Parent(k));
    }
  }
}
