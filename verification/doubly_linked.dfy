/** `Lista<T>`, the doubly linked implementation of `IListCollection<T>`,
    which is also its own enumerator. The object's nodes live in a heap of
    references; `back` is the first element and `next` points towards
    `front`, where `Add` appends. Every operation returns the object's new
    state. Nodes that are unlinked stay in the heap, because the cursor
    `curr` may still point at them. */
module DoublyLinked {
  import opened Wrappers
  import opened Lists

  type Ref = nat

  datatype Node<T> = Node(value: T, next: Option<Ref>, prev: Option<Ref>)

  /** The fields of a `Lista<T>`, its nodes, and the next unused reference.
      `spine` is bookkeeping of the model: the references of the linked
      nodes from `back` to `front`. No operation reads it to decide what to
      do; it only names the nodes the pointers reach. */
  datatype Lista<T> = Lista(heap: map<Ref, Node<T>>, alloc: Ref,
                            front: Option<Ref>, back: Option<Ref>,
                            curr: Option<Ref>, nextCurr: Option<Ref>,
                            empty: bool, len: int, spine: seq<Ref>)

  predicate InHeap<T>(heap: map<Ref, Node<T>>, r: Option<Ref>) {
    r.Some? ==> r.value in heap
  }

  /** The successor and the predecessor of node `k` of a spine. */
  function NextOf(spine: seq<Ref>, k: int): Option<Ref>
    requires 0 <= k < |spine|
  {
    if k + 1 < |spine| then Some(spine[k + 1]) else None
  }

  function PrevOf(spine: seq<Ref>, k: int): Option<Ref>
    requires 0 <= k < |spine|
  {
    if k > 0 then Some(spine[k - 1]) else None
  }

  /** Node `k` of the spine is in the heap and points at its neighbours. */
  ghost predicate LinkedAt<T>(heap: map<Ref, Node<T>>, spine: seq<Ref>, k: int)
    requires 0 <= k < |spine|
  {
    spine[k] in heap && heap[spine[k]].next == NextOf(spine, k) && heap[spine[k]].prev == PrevOf(spine, k)
  }

  /** Every reference is below `alloc`, and a node off the spine, one that
      was unlinked, points nowhere. */
  ghost predicate Closed<T>(heap: map<Ref, Node<T>>, alloc: Ref, spine: seq<Ref>) {
    && (forall r :: r in heap ==> r < alloc)
    && (forall r {:trigger heap[r]} :: r in heap && r !in spine ==> heap[r].next == None && heap[r].prev == None)
  }

  ghost predicate Distinct(spine: seq<Ref>) {
    forall i, j :: 0 <= i < j < |spine| ==> spine[i] != spine[j]
  }

  /** `empty` says whether there are nodes; `back` and `front` are the ends. */
  ghost predicate Ends<T>(l: Lista<T>) {
    && l.empty == (l.spine == [])
    && l.back == (if l.spine == [] then None else Some(l.spine[0]))
    && l.front == (if l.spine == [] then None else Some(l.spine[|l.spine| - 1]))
  }

  /** The linked structure: `spine` lists distinct nodes of the heap, each
      node's `next` is its successor and its `prev` its predecessor, and the
      cursors point into the heap. */
  ghost predicate Linked<T>(l: Lista<T>) {
    && Closed(l.heap, l.alloc, l.spine) && Distinct(l.spine) && Ends(l)
    && (forall k :: 0 <= k < |l.spine| ==> l.spine[k] in l.heap)
    && (forall k :: 0 <= k < |l.spine| ==> LinkedAt(l.heap, l.spine, k))
    && InHeap(l.heap, l.curr) && InHeap(l.heap, l.nextCurr)
  }

  /** The class invariant: a linked structure whose `len` counts its nodes. */
  ghost predicate Valid<T>(l: Lista<T>) {
    Linked(l) && l.len == |l.spine|
  }

  /** The values in enumeration order, from `back` to `front`. */
  ghost function Elements<T>(l: Lista<T>): seq<T>
    requires Linked(l)
  {
    seq(|l.spine|, k requires 0 <= k < |l.spine| => l.heap[l.spine[k]].value)
  }

  /** The link invariant: from a linked node, following `next` and then
      `prev`, or `prev` and then `next`, returns to it; `back` has no
      predecessor and `front` no successor. */
  lemma LinkInvariant<T>(l: Lista<T>)
    requires Linked(l)
    ensures forall x :: x in l.spine && l.heap[x].next.Some? ==>
              l.heap[x].next.value in l.heap && l.heap[l.heap[x].next.value].prev == Some(x)
    ensures forall x :: x in l.spine && l.heap[x].prev.Some? ==>
              l.heap[x].prev.value in l.heap && l.heap[l.heap[x].prev.value].next == Some(x)
    ensures l.back.Some? ==> l.heap[l.back.value].prev == None
    ensures l.front.Some? ==> l.heap[l.front.value].next == None
  {
    forall x | x in l.spine
      ensures l.heap[x].next.Some? ==> l.heap[x].next.value in l.heap && l.heap[l.heap[x].next.value].prev == Some(x)
      ensures l.heap[x].prev.Some? ==> l.heap[x].prev.value in l.heap && l.heap[l.heap[x].prev.value].next == Some(x)
    {
      var k := IndexOf(l.spine, x);
      assert LinkedAt(l.heap, l.spine, k);
      if k + 1 < |l.spine| {
        assert LinkedAt(l.heap, l.spine, k + 1);
      }
      if k > 0 {
        assert LinkedAt(l.heap, l.spine, k - 1);
      }
    }
    if l.spine != [] {
      assert LinkedAt(l.heap, l.spine, 0);
      assert LinkedAt(l.heap, l.spine, |l.spine| - 1);
    }
  }

  /** `IsEmpty()` agrees with `Length == 0` in every valid state. */
  lemma EmptyIffZeroLength<T>(l: Lista<T>)
    requires Valid(l)
    ensures IsEmpty(l) <==> Length(l) == 0
  {
  }

  /** The constructor: no nodes, `empty` set, `len` 0. */
  function New<T>(): (l: Lista<T>)
    ensures Valid(l) && Elements(l) == [] && IsEmpty(l)
  {
    Lista(map[], 0, None, None, None, None, true, 0, [])
  }

  function Length<T>(l: Lista<T>): int {
    l.len
  }

  predicate IsEmpty<T>(l: Lista<T>) {
    l.empty
  }

  /** The position of `c` in a sequence. */
  function IndexOf(s: seq<Ref>, c: Ref): (k: nat)
    requires c in s
    ensures k < |s| && s[k] == c && c !in s[..k]
  {
    if s[0] == c then 0
    else
      var k := IndexOf(s[1..], c);
      assert s[..k + 1] == [s[0]] + s[1..][..k];
      k + 1
  }

  /** `Add`: a new node becomes the front, linked after the old front, or
      becomes both ends while `empty` is set. */
  function Add<T>(l: Lista<T>, value: T): (r: Lista<T>)
    requires Valid(l)
    ensures Valid(r) && Elements(r) == Elements(l) + [value]
    ensures !IsEmpty(r) && Length(r) == Length(l) + 1
    ensures r.curr == l.curr && r.nextCurr == l.nextCurr
  {
    var a := l.alloc;
    if l.empty then
      var r := l.(heap := l.heap[a := Node(value, None, None)], alloc := a + 1,
                  front := Some(a), back := Some(a), empty := false, len := l.len + 1, spine := [a]);
      assert LinkedAt(r.heap, r.spine, 0);
      r
    else
      var f := l.front.value;
      var heap := l.heap[f := l.heap[f].(next := Some(a))];
      var heap := heap[a := Node(value, None, Some(f))];
      var r := l.(heap := heap, alloc := a + 1, front := Some(a), len := l.len + 1, spine := l.spine + [a]);
      AppendLinked(l, r, value);
      r
  }

  /** The proof obligations of `Add` on a list with nodes. */
  lemma AppendLinked<T>(l: Lista<T>, r: Lista<T>, value: T)
    requires Valid(l) && !l.empty
    requires r == l.(heap := l.heap[l.front.value := l.heap[l.front.value].(next := Some(l.alloc))]
                                   [l.alloc := Node(value, None, l.front)],
                     alloc := l.alloc + 1, front := Some(l.alloc), len := l.len + 1,
                     spine := l.spine + [l.alloc])
    ensures Valid(r) && Elements(r) == Elements(l) + [value]
  {
    var n, a, f := |l.spine|, l.alloc, l.front.value;
    assert a !in l.heap;
    forall k | 0 <= k < n + 1
      ensures LinkedAt(r.heap, r.spine, k)
    {
      AppendLinkAt(l, r, value, k);
    }
    assert Closed(r.heap, r.alloc, r.spine) by {
      forall x | x in r.heap && x !in r.spine
        ensures r.heap[x].next == None && r.heap[x].prev == None
      {
        assert r.spine[n] == a && r.spine[n - 1] == f;
        assert x !in l.spine;
      }
    }
    assert Distinct(r.spine) by {
      forall i, j | 0 <= i < j < n + 1
        ensures r.spine[i] != r.spine[j]
      {
        assert LinkedAt(l.heap, l.spine, i);
      }
    }
    assert Ends(r) by {
      assert r.spine[0] == l.spine[0];
    }
    LinkedOfParts(r);
    forall k | 0 <= k < n
      ensures r.heap[l.spine[k]].value == l.heap[l.spine[k]].value
    {
      assert l.spine[k] != a;
    }
    SnocElements(l, r);
  }

  /** A spine grown by one node whose old nodes kept their values lists
      one more element. */
  lemma SnocElements<T>(l: Lista<T>, r: Lista<T>)
    requires Linked(l) && Linked(r) && |r.spine| == |l.spine| + 1 && r.spine[..|l.spine|] == l.spine
    requires forall k :: 0 <= k < |l.spine| ==> r.heap[l.spine[k]].value == l.heap[l.spine[k]].value
    ensures Elements(r) == Elements(l) + [r.heap[r.spine[|l.spine|]].value]
  {
    forall k | 0 <= k < |l.spine|
      ensures Elements(r)[k] == Elements(l)[k]
    {
      assert r.spine[k] == l.spine[k];
    }
  }

  /** Node `k` after `Add`: the old front now points at the new node, the
      new node points back at it, and every other node kept its links. */
  lemma AppendLinkAt<T>(l: Lista<T>, r: Lista<T>, value: T, k: int)
    requires Valid(l) && !l.empty
    requires r == l.(heap := l.heap[l.front.value := l.heap[l.front.value].(next := Some(l.alloc))]
                                   [l.alloc := Node(value, None, l.front)],
                     alloc := l.alloc + 1, front := Some(l.alloc), len := l.len + 1,
                     spine := l.spine + [l.alloc])
    requires 0 <= k <= |l.spine|
    ensures LinkedAt(r.heap, r.spine, k)
  {
    var n, a := |l.spine|, l.alloc;
    assert a !in l.heap;
    if k < n {
      assert r.spine[k] == l.spine[k];
      assert LinkedAt(l.heap, l.spine, k);
      assert l.spine[k] != a;
      if k > 0 {
        assert r.spine[k - 1] == l.spine[k - 1];
      }
      if k < n - 1 {
        assert r.spine[k + 1] == l.spine[k + 1];
        assert l.spine[k] != l.spine[n - 1];
      }
    }
  }

  /** `pop_front`: unlink the front node. `len` is left to the caller. */
  function PopFront<T>(l: Lista<T>): (r: Lista<T>)
    requires Linked(l)
    ensures Linked(r) && r.len == l.len && r.curr == l.curr && r.nextCurr == l.nextCurr
    ensures Elements(r) == if l.empty then Elements(l) else Elements(l)[..|Elements(l)| - 1]
  {
    if l.empty then l
    else
      var n := |l.spine|;
      var f := l.front.value;
      assert LinkedAt(l.heap, l.spine, n - 1);
      if l.heap[f].prev == None then
        l.(empty := true, front := None, back := None, spine := [])
      else
        var p := l.heap[f].prev.value;
        assert LinkedAt(l.heap, l.spine, n - 2);
        var g := l.heap[p].next.value;
        var heap := l.heap[g := l.heap[g].(prev := None)];
        var heap := heap[p := heap[p].(next := None)];
        var r := l.(heap := heap, front := Some(p), spine := l.spine[..n - 1]);
        DropFrontLinked(l, r);
        r
  }

  /** The proof obligations of `pop_front` on a list with two nodes or more. */
  lemma DropFrontLinked<T>(l: Lista<T>, r: Lista<T>)
    requires Linked(l) && |l.spine| >= 2
    requires var n, f := |l.spine|, l.spine[|l.spine| - 1];
             var p := l.spine[n - 2];
             var heap := l.heap[f := l.heap[f].(prev := None)];
             r == l.(heap := heap[p := heap[p].(next := None)], front := Some(p), spine := l.spine[..n - 1])
    ensures Linked(r) && Elements(r) == Elements(l)[..|Elements(l)| - 1]
  {
    var n := |l.spine|;
    var f, p := l.spine[n - 1], l.spine[n - 2];
    assert forall k :: 0 <= k < n - 1 ==> r.spine[k] == l.spine[k];
    forall k | 0 <= k < n - 1
      ensures LinkedAt(r.heap, r.spine, k)
    {
      assert LinkedAt(l.heap, l.spine, k);
      assert l.spine[k] != f;
      if k < n - 2 {
        assert l.spine[k] != p;
      }
    }
    forall k | 0 <= k < n - 1
      ensures r.heap[r.spine[k]].value == l.heap[l.spine[k]].value
    {
      assert l.spine[k] != f;
    }
    assert Closed(r.heap, r.alloc, r.spine) by {
      assert LinkedAt(l.heap, l.spine, n - 1);
      forall x | x in r.heap
        ensures x < r.alloc && (x !in r.spine ==> r.heap[x].next == None && r.heap[x].prev == None)
      {
        assert r.spine[n - 2] == p;
        if x !in r.spine && x in l.spine {
          var i :| 0 <= i < n && l.spine[i] == x;
        }
      }
    }
    assert Linked(r);
    PrefixElements(l, r);
  }

  lemma PrefixElements<T>(l: Lista<T>, r: Lista<T>)
    requires Linked(l) && Linked(r) && |r.spine| == |l.spine| - 1
    requires forall k :: 0 <= k < |r.spine| ==> r.heap[r.spine[k]].value == l.heap[l.spine[k]].value
    ensures Elements(r) == Elements(l)[..|r.spine|]
  {
  }

  /** `pop_back`: unlink the back node. `len` is left to the caller. */
  function PopBack<T>(l: Lista<T>): (r: Lista<T>)
    requires Linked(l)
    ensures Linked(r) && r.len == l.len && r.curr == l.curr && r.nextCurr == l.nextCurr
    ensures Elements(r) == if l.empty then Elements(l) else Elements(l)[1..]
  {
    if l.empty then l
    else
      var b := l.back.value;
      assert LinkedAt(l.heap, l.spine, 0);
      if l.heap[b].next == None then
        l.(empty := true, front := None, back := None, spine := [])
      else
        var s := l.heap[b].next.value;
        assert LinkedAt(l.heap, l.spine, 1);
        var g := l.heap[s].prev.value;
        var heap := l.heap[g := l.heap[g].(next := None)];
        var heap := heap[s := heap[s].(prev := None)];
        var r := l.(heap := heap, back := Some(s), spine := l.spine[1..]);
        DropBackLinked(l, r);
        r
  }

  /** The proof obligations of `pop_back` on a list with two nodes or more. */
  lemma DropBackLinked<T>(l: Lista<T>, r: Lista<T>)
    requires Linked(l) && |l.spine| >= 2
    requires var b, s := l.spine[0], l.spine[1];
             var heap := l.heap[b := l.heap[b].(next := None)];
             r == l.(heap := heap[s := heap[s].(prev := None)], back := Some(s), spine := l.spine[1..])
    ensures Linked(r) && Elements(r) == Elements(l)[1..]
  {
    var n := |l.spine|;
    var b, s := l.spine[0], l.spine[1];
    assert forall k :: 0 <= k < n - 1 ==> r.spine[k] == l.spine[k + 1];
    forall k | 0 <= k < n - 1
      ensures LinkedAt(r.heap, r.spine, k)
    {
      assert LinkedAt(l.heap, l.spine, k + 1);
      assert l.spine[k + 1] != b;
      if k > 0 {
        assert l.spine[k + 1] != s;
      }
    }
    forall k | 0 <= k < n - 1
      ensures r.heap[r.spine[k]].value == l.heap[l.spine[k + 1]].value
    {
      assert l.spine[k + 1] != b;
    }
    assert LinkedAt(l.heap, l.spine, 0);
    assert Closed(r.heap, r.alloc, r.spine) by {
      forall x | x in r.heap
        ensures x < r.alloc && (x !in r.spine ==> r.heap[x].next == None && r.heap[x].prev == None)
      {
        assert r.spine[0] == s;
        if x !in r.spine && x in l.spine {
          var i :| 0 <= i < n && l.spine[i] == x;
        }
      }
    }
    assert Linked(r);
    SuffixElements(l, r);
  }

  lemma SuffixElements<T>(l: Lista<T>, r: Lista<T>)
    requires Linked(l) && Linked(r) && |r.spine| == |l.spine| - 1
    requires forall k :: 0 <= k < |r.spine| ==> r.heap[r.spine[k]].value == l.heap[l.spine[k + 1]].value
    ensures Elements(r) == Elements(l)[1..]
  {
  }

  /** The middle-node branch of `Remove` and `RemoveAt`: link the node's
      neighbours to each other and clear its own links. */
  function Unlink<T>(l: Lista<T>, c: Ref): (r: Lista<T>)
    requires Linked(l) && c in l.spine && Some(c) != l.back && Some(c) != l.front
    ensures Linked(r) && r.len == l.len && r.curr == l.curr && r.nextCurr == l.nextCurr
    ensures var k := IndexOf(l.spine, c); Elements(r) == Elements(l)[..k] + Elements(l)[k + 1..]
  {
    var k := IndexOf(l.spine, c);
    assert LinkedAt(l.heap, l.spine, k);
    var p, s := l.heap[c].prev.value, l.heap[c].next.value;
    var heap := l.heap[p := l.heap[p].(next := Some(s))];
    var heap := heap[s := heap[s].(prev := heap[c].prev)];
    var heap := heap[c := heap[c].(next := None)];
    var heap := heap[c := heap[c].(prev := None)];
    var r := l.(heap := heap, spine := l.spine[..k] + l.spine[k + 1..]);
    assert p == l.spine[k - 1] && s == l.spine[k + 1];
    UnlinkLinked(l, r, k);
    r
  }

  /** The proof obligations of unlinking node `k`, which has two
      neighbours. */
  lemma UnlinkLinked<T>(l: Lista<T>, r: Lista<T>, k: int)
    requires Linked(l) && 0 < k < |l.spine| - 1
    requires var p, c, s := l.spine[k - 1], l.spine[k], l.spine[k + 1];
             var heap := l.heap[p := l.heap[p].(next := Some(s))];
             var heap := heap[s := heap[s].(prev := heap[c].prev)];
             var heap := heap[c := heap[c].(next := None)];
             var heap := heap[c := heap[c].(prev := None)];
             r == l.(heap := heap, spine := l.spine[..k] + l.spine[k + 1..])
    ensures Linked(r) && Elements(r) == Elements(l)[..k] + Elements(l)[k + 1..]
  {
    var n := |l.spine|;
    var p, c, s := l.spine[k - 1], l.spine[k], l.spine[k + 1];
    assert LinkedAt(l.heap, l.spine, k);
    assert p != c && s != c && p != s;
    assert r.heap.Keys == l.heap.Keys;
    assert forall x :: x in l.heap && x != p && x != c && x != s ==> r.heap[x] == l.heap[x];
    assert r.heap[p] == l.heap[p].(next := Some(s));
    assert r.heap[s] == l.heap[s].(prev := Some(p));
    assert r.heap[c] == Node(l.heap[c].value, None, None);
    UnlinkFramed(l, r, k);
  }

  /** `r` differs from `l` at most in its heap and its spine. */
  ghost predicate OnlyLinksChanged<T>(l: Lista<T>, r: Lista<T>) {
    && r.alloc == l.alloc && r.front == l.front && r.back == l.back
    && r.curr == l.curr && r.nextCurr == l.nextCurr && r.empty == l.empty && r.len == l.len
  }

  /** The same obligations, stated by what the writes did to each node. */
  lemma UnlinkFramed<T>(l: Lista<T>, r: Lista<T>, k: int)
    requires Linked(l) && 0 < k < |l.spine| - 1
    requires OnlyLinksChanged(l, r) && r.spine == l.spine[..k] + l.spine[k + 1..]
    requires r.heap.Keys == l.heap.Keys
    requires forall x :: x in l.heap && x != l.spine[k - 1] && x != l.spine[k] && x != l.spine[k + 1] ==>
               r.heap[x] == l.heap[x]
    requires r.heap[l.spine[k - 1]] == l.heap[l.spine[k - 1]].(next := Some(l.spine[k + 1]))
    requires r.heap[l.spine[k + 1]] == l.heap[l.spine[k + 1]].(prev := Some(l.spine[k - 1]))
    requires r.heap[l.spine[k]] == Node(l.heap[l.spine[k]].value, None, None)
    ensures Linked(r) && Elements(r) == Elements(l)[..k] + Elements(l)[k + 1..]
  {
    UnlinkLinks(l, r, k);
    RemovedDistinct(l.spine, k);
    UnlinkClosed(l, r, k);
    UnlinkEnds(l, r, k);
    LinkedOfParts(r);
    UnlinkValues(l, r, k);
    GapElements(l, r, k);
  }

  /** The parts of `Linked`, where the links of every node of the spine
      already put it in the heap. */
  lemma LinkedOfParts<T>(l: Lista<T>)
    requires Closed(l.heap, l.alloc, l.spine) && Distinct(l.spine) && Ends(l)
    requires forall k :: 0 <= k < |l.spine| ==> LinkedAt(l.heap, l.spine, k)
    requires InHeap(l.heap, l.curr) && InHeap(l.heap, l.nextCurr)
    ensures Linked(l)
  {
    forall k | 0 <= k < |l.spine|
      ensures l.spine[k] in l.heap
    {
      assert LinkedAt(l.heap, l.spine, k);
    }
  }

  /** Dropping a middle node keeps the ends and the cursors. */
  lemma UnlinkEnds<T>(l: Lista<T>, r: Lista<T>, k: int)
    requires Linked(l) && 0 < k < |l.spine| - 1
    requires OnlyLinksChanged(l, r) && r.spine == l.spine[..k] + l.spine[k + 1..]
    requires r.heap.Keys == l.heap.Keys
    ensures Ends(r) && InHeap(r.heap, r.curr) && InHeap(r.heap, r.nextCurr)
  {
    var n := |l.spine|;
    assert r.spine[0] == l.spine[0] && r.spine[n - 2] == l.spine[n - 1];
  }

  /** An unlinked node points nowhere, and every other node off the spine
      is untouched, so the nodes off the spine still point nowhere. */
  lemma UnlinkClosed<T>(l: Lista<T>, r: Lista<T>, k: int)
    requires Closed(l.heap, l.alloc, l.spine) && 0 < k < |l.spine| - 1 && l.spine[k] in l.heap
    requires forall x :: x in l.spine && x !in l.spine[..k] + l.spine[k + 1..] ==> x == l.spine[k]
    requires r.alloc == l.alloc && r.spine == l.spine[..k] + l.spine[k + 1..]
    requires r.heap.Keys == l.heap.Keys
    requires forall x :: x in l.heap && x != l.spine[k - 1] && x != l.spine[k] && x != l.spine[k + 1] ==>
               r.heap[x] == l.heap[x]
    requires r.heap[l.spine[k]] == Node(l.heap[l.spine[k]].value, None, None)
    ensures Closed(r.heap, r.alloc, r.spine)
  {
    assert l.spine[k - 1] in r.spine by {
      assert r.spine[k - 1] == l.spine[k - 1];
    }
    assert l.spine[k + 1] in r.spine by {
      assert r.spine[k] == l.spine[k + 1];
    }
    forall x | x in r.heap && x !in r.spine
      ensures r.heap[x].next == None && r.heap[x].prev == None
    {
      if x != l.spine[k] {
        assert x !in l.spine;
      }
    }
  }

  /** Dropping one entry of a sequence of distinct references keeps them
      distinct, and loses only that entry. */
  lemma RemovedDistinct(s: seq<Ref>, k: int)
    requires Distinct(s) && 0 <= k < |s|
    ensures Distinct(s[..k] + s[k + 1..])
    ensures forall x :: x in s && x !in s[..k] + s[k + 1..] ==> x == s[k]
  {
    var t := s[..k] + s[k + 1..];
    forall i, j | 0 <= i < j < |t|
      ensures t[i] != t[j]
    {
      var i', j' := if i < k then i else i + 1, if j < k then j else j + 1;
      assert t[i] == s[i'] && t[j] == s[j'];
    }
  }

  lemma UnlinkLinks<T>(l: Lista<T>, r: Lista<T>, k: int)
    requires Linked(l) && 0 < k < |l.spine| - 1
    requires OnlyLinksChanged(l, r) && r.spine == l.spine[..k] + l.spine[k + 1..]
    requires r.heap.Keys == l.heap.Keys
    requires forall x :: x in l.heap && x != l.spine[k - 1] && x != l.spine[k] && x != l.spine[k + 1] ==>
               r.heap[x] == l.heap[x]
    requires r.heap[l.spine[k - 1]] == l.heap[l.spine[k - 1]].(next := Some(l.spine[k + 1]))
    requires r.heap[l.spine[k + 1]] == l.heap[l.spine[k + 1]].(prev := Some(l.spine[k - 1]))
    requires r.heap[l.spine[k]] == Node(l.heap[l.spine[k]].value, None, None)
    ensures forall j :: 0 <= j < |r.spine| ==> LinkedAt(r.heap, r.spine, j)
  {
    forall j | 0 <= j < |r.spine|
      ensures LinkedAt(r.heap, r.spine, j)
    {
      UnlinkLinkAt(l, r, k, j);
    }
  }

  /** Node `j` of the shortened spine: the neighbours of the unlinked node
      now point at each other, and every other node kept its links. */
  lemma UnlinkLinkAt<T>(l: Lista<T>, r: Lista<T>, k: int, j: int)
    requires Linked(l) && 0 < k < |l.spine| - 1
    requires r.spine == l.spine[..k] + l.spine[k + 1..] && r.heap.Keys == l.heap.Keys
    requires forall x :: x in l.heap && x != l.spine[k - 1] && x != l.spine[k] && x != l.spine[k + 1] ==>
               r.heap[x] == l.heap[x]
    requires r.heap[l.spine[k - 1]] == l.heap[l.spine[k - 1]].(next := Some(l.spine[k + 1]))
    requires r.heap[l.spine[k + 1]] == l.heap[l.spine[k + 1]].(prev := Some(l.spine[k - 1]))
    requires 0 <= j < |r.spine|
    ensures LinkedAt(r.heap, r.spine, j)
  {
    var n := |l.spine|;
    var i := if j < k then j else j + 1;
    assert r.spine[j] == l.spine[i];
    assert LinkedAt(l.heap, l.spine, i);
    if j > 0 {
      assert r.spine[j - 1] == l.spine[if j - 1 < k then j - 1 else j];
    }
    if j < n - 2 {
      assert r.spine[j + 1] == l.spine[if j + 1 < k then j + 1 else j + 2];
    }
    if i != k - 1 && i != k + 1 {
      assert l.spine[i] != l.spine[k - 1] && l.spine[i] != l.spine[k] && l.spine[i] != l.spine[k + 1];
    }
  }

  lemma UnlinkValues<T>(l: Lista<T>, r: Lista<T>, k: int)
    requires Linked(l) && 0 < k < |l.spine| - 1
    requires OnlyLinksChanged(l, r) && r.spine == l.spine[..k] + l.spine[k + 1..]
    requires r.heap.Keys == l.heap.Keys
    requires forall x :: x in l.heap && x != l.spine[k - 1] && x != l.spine[k] && x != l.spine[k + 1] ==>
               r.heap[x] == l.heap[x]
    requires r.heap[l.spine[k - 1]] == l.heap[l.spine[k - 1]].(next := Some(l.spine[k + 1]))
    requires r.heap[l.spine[k + 1]] == l.heap[l.spine[k + 1]].(prev := Some(l.spine[k - 1]))
    requires r.heap[l.spine[k]] == Node(l.heap[l.spine[k]].value, None, None)
    ensures forall j :: 0 <= j < |r.spine| ==>
              r.heap[r.spine[j]].value == l.heap[l.spine[if j < k then j else j + 1]].value
  {
    forall j | 0 <= j < |r.spine|
      ensures r.heap[r.spine[j]].value == l.heap[l.spine[if j < k then j else j + 1]].value
    {
      var i := if j < k then j else j + 1;
      assert r.spine[j] == l.spine[i];
      assert l.spine[i] != l.spine[k];
    }
  }

  lemma GapElements<T>(l: Lista<T>, r: Lista<T>, k: int)
    requires Linked(l) && Linked(r) && |r.spine| == |l.spine| - 1 && 0 <= k < |l.spine|
    requires forall j :: 0 <= j < |r.spine| ==>
               r.heap[r.spine[j]].value == l.heap[l.spine[if j < k then j else j + 1]].value
    ensures Elements(r) == Elements(l)[..k] + Elements(l)[k + 1..]
  {
    forall j | 0 <= j < |r.spine|
      ensures Elements(r)[j] == (Elements(l)[..k] + Elements(l)[k + 1..])[j]
    {
    }
  }

  /** The branching shared by `Remove` and `RemoveAt`: the back node goes by
      `pop_back`, the front node by `pop_front`, any other by unlinking it;
      then `len` shrinks by one. */
  function DeleteNode<T>(l: Lista<T>, c: Ref): (r: Lista<T>)
    requires Valid(l) && c in l.spine
    ensures Valid(r) && r.curr == l.curr && r.nextCurr == l.nextCurr
    ensures var k := IndexOf(l.spine, c);
            Elements(r) == Elements(l)[..k] + Elements(l)[k + 1..] && Length(r) == Length(l) - 1
  {
    var popped := Detach(l, c);
    Recount(popped, popped.len - 1);
    popped.(len := popped.len - 1)
  }

  /** The node `c` taken off the spine by whichever of the three ways
      `Remove` picks, before the counter is decremented. */
  function Detach<T>(l: Lista<T>, c: Ref): (r: Lista<T>)
    requires Linked(l) && c in l.spine
    ensures Linked(r) && r.len == l.len && r.curr == l.curr && r.nextCurr == l.nextCurr
    ensures var k := IndexOf(l.spine, c);
            Elements(r) == Elements(l)[..k] + Elements(l)[k + 1..]
  {
    if Some(c) == l.back then
      PopBackAt(l, c);
      PopBack(l)
    else if Some(c) == l.front then
      PopFrontAt(l, c);
      PopFront(l)
    else Unlink(l, c)
  }

  lemma PopBackAt<T>(l: Lista<T>, c: Ref)
    requires Linked(l) && c in l.spine && Some(c) == l.back
    ensures var k := IndexOf(l.spine, c);
            Elements(PopBack(l)) == Elements(l)[..k] + Elements(l)[k + 1..]
  {
    EndIndices(l, c);
    var xs := Elements(l);
    assert !l.empty && IndexOf(l.spine, c) == 0;
    assert xs[..0] + xs[1..] == xs[1..];
  }

  lemma PopFrontAt<T>(l: Lista<T>, c: Ref)
    requires Linked(l) && c in l.spine && Some(c) == l.front
    ensures var k := IndexOf(l.spine, c);
            Elements(PopFront(l)) == Elements(l)[..k] + Elements(l)[k + 1..]
  {
    EndIndices(l, c);
    var xs := Elements(l);
    assert !l.empty && IndexOf(l.spine, c) == |xs| - 1;
    assert xs[..|xs| - 1] + xs[|xs|..] == xs[..|xs| - 1];
  }

  /** `back` is the first node of the spine and `front` the last. */
  lemma EndIndices<T>(l: Lista<T>, c: Ref)
    requires Linked(l) && c in l.spine
    ensures Some(c) == l.back ==> IndexOf(l.spine, c) == 0
    ensures Some(c) == l.front ==> IndexOf(l.spine, c) == |l.spine| - 1
  {
  }

  /** The counter takes no part in the linked structure. */
  lemma Recount<T>(l: Lista<T>, n: int)
    requires Linked(l)
    ensures Linked(l.(len := n)) && Elements(l.(len := n)) == Elements(l)
  {
    var r := l.(len := n);
    assert r.heap == l.heap && r.spine == l.spine;
  }

  /** `Reset`: both cursors at `back`. */
  function Reset<T>(l: Lista<T>): (r: Lista<T>)
    requires Linked(l)
    ensures Linked(r) && r.curr == l.back && r.nextCurr == l.back
    ensures r == l.(curr := l.back, nextCurr := l.back)
  {
    l.(curr := l.back, nextCurr := l.back)
  }

  /** The links of node `c`: those of its place on the spine, or none. */
  lemma LinksOf<T>(l: Lista<T>, c: Ref)
    requires Linked(l) && c in l.heap
    ensures c in l.spine ==> LinkedAt(l.heap, l.spine, IndexOf(l.spine, c))
    ensures c !in l.spine ==> l.heap[c].next == None && l.heap[c].prev == None
  {
    if c in l.spine {
      assert LinkedAt(l.heap, l.spine, IndexOf(l.spine, c));
    }
  }

  /** `MoveNext`: the cursor advances to `next_curr`, reporting whether it
      reached a node; from a linked node it prepares that node's successor,
      and from an unlinked one it prepares nothing. */
  function MoveNext<T>(l: Lista<T>): (r: (Lista<T>, bool))
    requires Linked(l)
    ensures Linked(r.0) && r.0.curr == l.nextCurr && r.1 == l.nextCurr.Some?
    ensures l.nextCurr.None? ==> r.0 == l.(curr := None)
    ensures l.nextCurr.Some? && l.nextCurr.value in l.spine ==>
              r.0 == l.(curr := l.nextCurr, nextCurr := NextOf(l.spine, IndexOf(l.spine, l.nextCurr.value)))
    ensures l.nextCurr.Some? && l.nextCurr.value !in l.spine ==> r.0 == l.(curr := l.nextCurr, nextCurr := None)
  {
    match l.nextCurr
    case None => (l.(curr := None), false)
    case Some(c) =>
      LinksOf(l, c);
      (l.(curr := Some(c), nextCurr := l.heap[c].next), true)
  }

  /** On distinct references, the node at position `i` is found at `i`. */
  lemma SpinePosition<T>(l: Lista<T>, i: int)
    requires Linked(l) && 0 <= i < |l.spine|
    ensures IndexOf(l.spine, l.spine[i]) == i
  {
  }

  /** `Current`: the value under the cursor; with no node under it the
      read dereferences `null`. */
  function Current<T>(l: Lista<T>): (r: Result<T, Fault>)
    requires Linked(l)
    ensures r.Success? <==> l.curr.Some?
    ensures forall i :: 0 <= i < |l.spine| && l.curr == Some(l.spine[i]) ==> r == Success(Elements(l)[i])
  {
    match l.curr
    case None => Failure(NullReference)
    case Some(c) => Success(l.heap[c].value)
  }

  /** The walk of the indexer: `Reset()`, then `index` steps along `next`. */
  method Seek<T>(l: Lista<T>, index: int) returns (r: Lista<T>)
    requires Valid(l) && 0 <= index < l.len
    ensures r == l.(curr := Some(l.spine[index]), nextCurr := l.back)
  {
    r := Reset(l);
    var i := 0;
    while i < index
      invariant 0 <= i <= index
      invariant r == l.(curr := Some(l.spine[i]), nextCurr := l.back)
    {
      assert LinkedAt(l.heap, l.spine, i);
      r := r.(curr := r.heap[r.curr.value].next);
      i := i + 1;
    }
  }

  /** The indexer's getter: out of [0, Length) it returns `default(T)`,
      passed in here as `default`, and changes nothing. */
  method GetAt<T>(l: Lista<T>, index: int, default: T) returns (r: Lista<T>, value: T)
    requires Valid(l)
    ensures Valid(r) && Elements(r) == Elements(l) && Length(r) == Length(l)
    ensures !(0 <= index < Length(l)) ==> r == l && value == default
    ensures 0 <= index < Length(l) ==> value == Elements(l)[index]
    ensures 0 <= index < Length(l) ==> r == l.(curr := Some(l.spine[index]), nextCurr := l.back)
  {
    if index >= l.len || index < 0 {
      return l, default;
    }
    r := Seek(l, index);
    value := r.heap[r.curr.value].value;
  }

  /** The indexer's setter: out of [0, Length) nothing changes; otherwise
      the value at `index` is replaced. */
  method SetAt<T>(l: Lista<T>, index: int, value: T) returns (r: Lista<T>)
    requires Valid(l)
    ensures Valid(r) && Length(r) == Length(l)
    ensures !(0 <= index < Length(l)) ==> r == l
    ensures 0 <= index < Length(l) ==> Elements(r) == Elements(l)[index := value]
  {
    if index >= l.len || index < 0 {
      return l;
    }
    r := Seek(l, index);
    r := Overwrite(r, r.curr.value, value);
  }

  /** `curr.Value = value` for a node of the spine. */
  function Overwrite<T>(l: Lista<T>, c: Ref, value: T): (r: Lista<T>)
    requires Valid(l) && c in l.spine
    ensures Valid(r) && Length(r) == Length(l) && r.curr == l.curr && r.nextCurr == l.nextCurr
    ensures Elements(r) == Elements(l)[IndexOf(l.spine, c) := value]
  {
    var r := l.(heap := l.heap[c := l.heap[c].(value := value)]);
    OverwriteLinked(l, r, c, value);
    r
  }

  lemma OverwriteLinked<T>(l: Lista<T>, r: Lista<T>, c: Ref, value: T)
    requires Valid(l) && c in l.spine
    requires r == l.(heap := l.heap[c := l.heap[c].(value := value)])
    ensures Valid(r) && Elements(r) == Elements(l)[IndexOf(l.spine, c) := value]
  {
    forall j | 0 <= j < |l.spine|
      ensures LinkedAt(r.heap, r.spine, j)
    {
      assert LinkedAt(l.heap, l.spine, j);
    }
    assert Valid(r);
    OverwriteElements(l, r, c, value);
  }

  lemma OverwriteElements<T>(l: Lista<T>, r: Lista<T>, c: Ref, value: T)
    requires Linked(l) && Linked(r) && c in l.spine
    requires r == l.(heap := l.heap[c := l.heap[c].(value := value)])
    ensures Elements(r) == Elements(l)[IndexOf(l.spine, c) := value]
  {
    var k := IndexOf(l.spine, c);
    forall j | 0 <= j < |l.spine|
      ensures Elements(r)[j] == Elements(l)[k := value][j]
    {
      if j != k {
        assert l.spine[j] != c;
      }
    }
  }

  /** `Insert`: despite its name it overwrites the value at `index`. It
      reads the indexer's getter, whose walk leaves the cursor on that node,
      and writes there; out of [0, Length) nothing changes. */
  method Insert<T>(l: Lista<T>, index: int, value: T) returns (r: Lista<T>)
    requires Valid(l)
    ensures Valid(r) && Length(r) == Length(l)
    ensures !(0 <= index < Length(l)) ==> r == l
    ensures 0 <= index < Length(l) ==> Elements(r) == Elements(l)[index := value]
  {
    if index >= l.len || index < 0 {
      return l;
    }
    var dummy;
    r, dummy := GetAt(l, index, value);
    r := Overwrite(r, r.curr.value, value);
  }

  /** The walk of `Remove`: from `back` along `next` until a node holds
      `value`, which is left under the cursor, or until `null`. */
  method SeekValue<T(==)>(l: Lista<T>, value: T) returns (r: Lista<T>, ghost i: nat)
    requires Valid(l)
    ensures i <= |l.spine| && value !in Elements(l)[..i]
    ensures r == l.(curr := if i < |l.spine| then Some(l.spine[i]) else None, nextCurr := l.back)
    ensures i < |l.spine| <==> value in Elements(l)
    ensures i < |l.spine| ==> Elements(l)[i] == value
  {
    r := Reset(l);
    i := 0;
    while r.curr != None
      invariant 0 <= i <= |l.spine|
      invariant r == l.(curr := if i < |l.spine| then Some(l.spine[i]) else None, nextCurr := l.back)
      invariant value !in Elements(l)[..i]
      decreases |l.spine| - i
    {
      var c := r.curr.value;
      if r.heap[c].value == value {
        assert Elements(l)[i] == value;
        return;
      }
      assert Elements(l)[..i + 1] == Elements(l)[..i] + [Elements(l)[i]];
      assert LinkedAt(l.heap, l.spine, i);
      r := r.(curr := r.heap[c].next);
      i := i + 1;
    }
    assert Elements(l)[..i] == Elements(l);
  }

  /** `Remove`: walk from `back` and delete the first node holding `value`;
      with no match nothing but the cursors changes. */
  method Remove<T(==)>(l: Lista<T>, value: T) returns (r: Lista<T>)
    requires Valid(l)
    ensures Valid(r)
    ensures value !in Elements(l) ==> Elements(r) == Elements(l) && Length(r) == Length(l)
    ensures value in Elements(l) ==>
              exists k :: 0 <= k < |Elements(l)| && Elements(l)[k] == value && value !in Elements(l)[..k]
                && Elements(r) == Elements(l)[..k] + Elements(l)[k + 1..] && Length(r) == Length(l) - 1
  {
    ghost var i;
    r, i := SeekValue(l, value);
    assert Elements(r) == Elements(l);
    if r.curr != None {
      var c := r.curr.value;
      SpinePosition(l, i);
      r := DeleteNode(r, c);
      assert Elements(l)[i] == value && value !in Elements(l)[..i];
    }
  }

  /** `RemoveAt`: out of [0, Length) nothing changes; otherwise the node the
      indexer's walk reaches is deleted. */
  method RemoveAt<T>(l: Lista<T>, index: int) returns (r: Lista<T>)
    requires Valid(l)
    ensures Valid(r)
    ensures !(0 <= index < Length(l)) ==> r == l
    ensures 0 <= index < Length(l) ==>
              Elements(r) == Elements(l)[..index] + Elements(l)[index + 1..] && Length(r) == Length(l) - 1
  {
    if index >= l.len || index < 0 {
      return l;
    }
    r := Seek(l, index);
    var c := r.curr.value;
    assert IndexOf(l.spine, c) == index by {
      var k := IndexOf(l.spine, c);
      assert l.spine[k] == l.spine[index];
    }
    r := DeleteNode(r, c);
  }

  /** `Get`: the indexer's getter. */
  method Get<T>(l: Lista<T>, index: int, default: T) returns (r: Lista<T>, value: T)
    requires Valid(l)
    ensures Valid(r) && Elements(r) == Elements(l)
    ensures !(0 <= index < Length(l)) ==> value == default
    ensures 0 <= index < Length(l) ==> value == Elements(l)[index]
  {
    r, value := GetAt(l, index, default);
  }

  /** The enumerator positioned on element `i`: the cursor on node `i`, or
      `null` past the end, with its successor prepared. */
  function EnumeratorAt<T>(l: Lista<T>, i: nat): Lista<T> {
    l.(curr := if i < |l.spine| then Some(l.spine[i]) else None,
       nextCurr := if i + 1 < |l.spine| then Some(l.spine[i + 1]) else None)
  }

  /** Moving the cursors keeps the structure linked. */
  lemma CursorsMove<T>(l: Lista<T>, curr: Option<Ref>, nextCurr: Option<Ref>)
    requires Linked(l) && InHeap(l.heap, curr) && InHeap(l.heap, nextCurr)
    ensures Linked(l.(curr := curr, nextCurr := nextCurr))
  {
    var r := l.(curr := curr, nextCurr := nextCurr);
    assert forall k :: 0 <= k < |r.spine| ==> LinkedAt(r.heap, r.spine, k) == LinkedAt(l.heap, l.spine, k);
  }

  /** `Reset` then `MoveNext` puts the enumerator on the first element; each
      later `MoveNext` advances it by one and reports whether it still is on
      a node, and `Current` reads the element under it. */
  lemma EnumerationSteps<T>(l: Lista<T>, i: nat)
    requires Linked(l) && i < |l.spine|
    ensures Linked(Reset(l)) && Linked(EnumeratorAt(l, i)) && Linked(EnumeratorAt(l, i + 1))
    ensures MoveNext(Reset(l)) == (EnumeratorAt(l, 0), true)
    ensures MoveNext(EnumeratorAt(l, i)) == (EnumeratorAt(l, i + 1), i + 1 < |l.spine|)
    ensures Current(EnumeratorAt(l, i)) == Success(Elements(l)[i])
  {
    CursorsMove(l, l.back, l.back);
    CursorsMove(l, EnumeratorAt(l, i).curr, EnumeratorAt(l, i).nextCurr);
    CursorsMove(l, EnumeratorAt(l, i + 1).curr, EnumeratorAt(l, i + 1).nextCurr);
    SpinePosition(l, 0);
    if i + 1 < |l.spine| {
      SpinePosition(l, i + 1);
    }
  }

  /** One step of `ToString`'s loop: the first part is written alone, each
      later one after ", ". */
  lemma JoinCommaStep(parts: seq<string>, i: nat)
    requires i < |parts|
    ensures JoinComma(parts[..i + 1]) == if i == 0 then parts[i] else JoinComma(parts[..i]) + ", " + parts[i]
  {
    JoinCommaSnoc(parts[..i], parts[i]);
    assert parts[..i + 1] == parts[..i] + [parts[i]];
  }

  /** On an empty list the first `MoveNext` finds nothing and clears both
      cursors. */
  lemma EmptyEnumeration<T>(l: Lista<T>)
    requires Linked(l) && l.spine == []
    ensures Linked(Reset(l)) && MoveNext(Reset(l)) == (l.(curr := None, nextCurr := None), false)
  {
    assert Reset(l).nextCurr == None;
  }

  /** The first `MoveNext` after `Reset` puts the enumerator on the first
      element and reports whether there is one. */
  lemma FirstMove<T>(l: Lista<T>)
    requires Linked(l)
    ensures MoveNext(Reset(l)) == (EnumeratorAt(l, 0), l.spine != [])
  {
    if l.spine == [] {
      EmptyEnumeration(l);
    } else {
      EnumerationSteps(l, 0);
    }
  }

  /** The state of `ToString`'s `foreach` before the turn for the element at
      `i`: the enumerator is on that element, `more` says whether there is
      one, and `body` holds the first `i` values shown. */
  ghost predicate Enumerating<T>(l: Lista<T>, shown: seq<string>, e: Lista<T>, more: bool,
                                 first: bool, body: string, i: nat)
  {
    && i <= |l.spine| && more == (i < |l.spine|) && e == EnumeratorAt(l, i)
    && first == (i == 0) && |shown| == |l.spine| && body == JoinComma(shown[..i])
  }

  /** One turn of `ToString`'s `foreach` from the enumerator on the element
      at `i`: that element is shown after what came before it, and the
      enumerator moves to the next one. */
  method ShowNext<T>(l: Lista<T>, show: T -> string, ghost shown: seq<string>,
                     e: Lista<T>, body: string, first: bool, ghost i: nat)
    returns (e': Lista<T>, more: bool, body': string, first': bool, ghost i': nat)
    requires Linked(l) && shown == Map(Elements(l), show)
    requires Enumerating(l, shown, e, true, first, body, i)
    ensures i' == i + 1 && Enumerating(l, shown, e', more, first', body', i')
  {
    i' := i + 1;
    EnumerationSteps(l, i);
    var x := Current(e).value;
    assert show(x) == shown[i];
    JoinCommaStep(shown, i);
    if first {
      body' := body + show(x);
    } else {
      body' := body + ", " + show(x);
    }
    first' := false;
    var step := MoveNext(e);
    e', more := step.0, step.1;
  }

  /** `ToString`: `foreach` over the list, the first value formatted alone
      and each later one after ", ", all between brackets. The formatting of
      one value is the parameter `show`. The enumeration leaves both
      cursors at `null`. */
  method ToString<T>(l: Lista<T>, show: T -> string) returns (r: Lista<T>, s: string)
    requires Valid(l)
    ensures s == "[" + JoinComma(Map(Elements(l), show)) + "]"
    ensures r == l.(curr := None, nextCurr := None)
  {
    ghost var shown := Map(Elements(l), show);
    var body := "";
    var first := true;
    FirstMove(l);
    var step := MoveNext(Reset(l));
    var more;
    r, more := step.0, step.1;
    ghost var i := 0;
    while more
      invariant Enumerating(l, shown, r, more, first, body, i)
      decreases |l.spine| - i
    {
      r, more, body, first, i := ShowNext(l, show, shown, r, body, first, i);
    }
    assert shown[..i] == shown;
    s := "[" + body + "]";
  }
}
