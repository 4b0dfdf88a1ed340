/** `Linked<T>`, the singly linked implementation of `IListCollection<T>`.
    The object is modelled by what its fields reach: the values of the nodes
    chained from `head` by `Next`, the `empty` flag and the counter `len`.
    The three evolve independently, as in the class: removing the head node
    sets `empty` although nodes may remain, `Insert` overwrites a value yet
    increments `len`, and an `Add` while `empty` is set starts a new chain.
    A walk that dereferences `null` ends in the `NullReference` fault. */
module SinglyLinked {
  import opened Wrappers

  datatype Linked<T> = Linked(chain: seq<T>, empty: bool, len: int)

  /** A fresh list: no head, `empty` set, `len` 0. */
  function New<T>(): (l: Linked<T>)
    ensures Valid(l) && l.chain == [] && l.empty && l.len == 0
  {
    Linked([], true, 0)
  }

  /** What every operation maintains: while `empty` is clear there is a head
      node, and `len` never falls below the number of reachable nodes. */
  ghost predicate Valid<T>(l: Linked<T>) {
    |l.chain| <= l.len && (!l.empty ==> l.chain != [])
  }

  function Length<T>(l: Linked<T>): int {
    l.len
  }

  predicate IsEmpty<T>(l: Linked<T>) {
    l.empty
  }

  /** The walk `while (aux.Next != null) aux = aux.Next;` followed by
      `aux.Next = new Node(value)`, from a non-null head. */
  function AppendAtTail<T>(chain: seq<T>, value: T): (r: seq<T>)
    requires chain != []
    ensures r == chain + [value]
  {
    if |chain| == 1 then [chain[0], value]
    else [chain[0]] + AppendAtTail(chain[1..], value)
  }

  /** The walk `aux = head; for (i = 0; i < index; i++) aux = aux.Next;`
      followed by a read of `aux.Value`: the value at `index`, or the fault
      once the walk runs past the last node. */
  function ValueAt<T>(chain: seq<T>, index: nat): (r: Result<T, Fault>)
    ensures r == if index < |chain| then Success(chain[index]) else Failure(NullReference)
  {
    if chain == [] then Failure(NullReference)
    else if index == 0 then Success(chain[0])
    else ValueAt(chain[1..], index - 1)
  }

  /** The same walk followed by `aux.Value = value`. */
  function OverwriteAt<T>(chain: seq<T>, index: nat, value: T): (r: Result<seq<T>, Fault>)
    ensures r == if index < |chain| then Success(chain[index := value]) else Failure(NullReference)
  {
    if chain == [] then Failure(NullReference)
    else if index == 0 then
      assert chain[0 := value] == [value] + chain[1..];
      Success([value] + chain[1..])
    else
      var rest :- OverwriteAt(chain[1..], index - 1, value);
      assert chain[index := value] == [chain[0]] + chain[1..][index - 1 := value];
      Success([chain[0]] + rest)
  }

  /** The walk with a trailing `prev` followed by `prev.Next = aux.Next`, for
      `index >= 1`: the chain without node `index`. */
  function UnlinkAt<T>(chain: seq<T>, index: nat): (r: Result<seq<T>, Fault>)
    requires index >= 1 && chain != []
    ensures r == if index < |chain| then Success(chain[..index] + chain[index + 1..]) else Failure(NullReference)
  {
    if index == 1 then
      if |chain| == 1 then Failure(NullReference)
      else
        assert chain[..1] + chain[2..] == [chain[0]] + chain[2..];
        Success([chain[0]] + chain[2..])
    else if |chain| == 1 then Failure(NullReference)
    else
      var rest :- UnlinkAt(chain[1..], index - 1);
      assert chain[..index] + chain[index + 1..] == [chain[0]] + (chain[1..][..index - 1] + chain[1..][index..]);
      Success([chain[0]] + rest)
  }

  /** The search loop of `Remove`: the position of the first node whose value
      equals `value`, if any. */
  function FirstMatch<T(==)>(chain: seq<T>, value: T): (r: Option<nat>)
    ensures r.None? <==> value !in chain
    ensures r.Some? ==> r.value < |chain| && chain[r.value] == value && value !in chain[..r.value]
  {
    if chain == [] then None
    else if chain[0] == value then Some(0)
    else
      match FirstMatch(chain[1..], value)
      case None => None
      case Some(k) =>
        assert chain[..k + 1] == [chain[0]] + chain[1..][..k];
        Some(k + 1)
  }

  /** `Add`: a new node at the tail, or, while `empty` is set, a new head
      that replaces whatever chain the old head held. */
  function Add<T>(l: Linked<T>, value: T): (r: Linked<T>)
    requires Valid(l)
    ensures Valid(r) && !r.empty && r.len == l.len + 1
    ensures r.chain == if l.empty then [value] else l.chain + [value]
  {
    if l.empty then Linked([value], false, l.len + 1)
    else Linked(AppendAtTail(l.chain, value), false, l.len + 1)
  }

  /** `Insert`: out of [0, Length) nothing changes; otherwise the value at
      `index` is overwritten (nothing shifts) and `len` still grows by one. */
  function Insert<T>(l: Linked<T>, index: int, value: T): (r: Result<Linked<T>, Fault>)
    requires Valid(l)
    ensures !(0 <= index < l.len) ==> r == Success(l)
    ensures 0 <= index < |l.chain| ==> r == Success(Linked(l.chain[index := value], l.empty, l.len + 1))
    ensures |l.chain| <= index < l.len ==> r == Failure(NullReference)
    ensures r.Success? ==> Valid(r.value)
  {
    if index >= l.len || index < 0 then Success(l)
    else
      var chain :- OverwriteAt(l.chain, index, value);
      Success(Linked(chain, l.empty, l.len + 1))
  }

  /** `Remove`: unlink the first node holding `value`. Unlinking the head
      sets `empty`, however many nodes follow it. While `empty` is set, or
      with no match, nothing changes. */
  function Remove<T(==)>(l: Linked<T>, value: T): (r: Linked<T>)
    requires Valid(l)
    ensures Valid(r)
    ensures l.empty || value !in l.chain ==> r == l
    ensures !l.empty && value in l.chain ==>
              exists k :: 0 <= k < |l.chain| && l.chain[k] == value && value !in l.chain[..k]
                && r == Linked(l.chain[..k] + l.chain[k + 1..], l.empty || k == 0, l.len - 1)
  {
    if l.empty then l
    else
      match FirstMatch(l.chain, value)
      case None => l
      case Some(k) =>
        if k == 0 then
          assert l.chain[..0] + l.chain[1..] == l.chain[1..];
          Linked(l.chain[1..], true, l.len - 1)
        else
          var chain := l.chain[..k] + l.chain[k + 1..];
          assert UnlinkAt(l.chain, k) == Success(chain);
          Linked(chain, l.empty, l.len - 1)
  }

  /** `RemoveAt`: while `empty` is set, or out of [0, Length), nothing
      changes; otherwise node `index` is unlinked, the head removal setting
      `empty`, and `len` shrinks by one. */
  function RemoveAt<T>(l: Linked<T>, index: int): (r: Result<Linked<T>, Fault>)
    requires Valid(l)
    ensures l.empty || !(0 <= index < l.len) ==> r == Success(l)
    ensures !l.empty && 0 <= index < |l.chain| ==>
              r == Success(Linked(l.chain[..index] + l.chain[index + 1..], l.empty || index == 0, l.len - 1))
    ensures !l.empty && |l.chain| <= index < l.len ==> r == Failure(NullReference)
    ensures r.Success? ==> Valid(r.value)
  {
    if l.empty then Success(l)
    else if index >= l.len || index < 0 then Success(l)
    else if index == 0 then
      assert l.chain[..0] + l.chain[1..] == l.chain[1..];
      Success(Linked(l.chain[1..], true, l.len - 1))
    else
      var chain :- UnlinkAt(l.chain, index);
      Success(Linked(chain, l.empty, l.len - 1))
  }

  /** `Get`: the value at `index`; out of [0, Length) it is `default(T)`,
      passed in here as `default`. */
  function Get<T>(l: Linked<T>, index: int, default: T): (r: Result<T, Fault>)
    ensures !(0 <= index < l.len) ==> r == Success(default)
    ensures 0 <= index < l.len && index < |l.chain| ==> r == Success(l.chain[index])
    ensures 0 <= index < l.len && index >= |l.chain| ==> r == Failure(NullReference)
  {
    if index >= l.len || index < 0 then Success(default)
    else ValueAt(l.chain, index)
  }

  /** A list built by `Add` alone holds the added values, in order, with a
      correct `Length` and `IsEmpty`. */
  function AddAll<T>(l: Linked<T>, values: seq<T>): (r: Linked<T>)
    requires Valid(l)
    ensures Valid(r)
    decreases |values|
  {
    if values == [] then l else AddAll(Add(l, values[0]), values[1..])
  }

  lemma {:induction false} AddAllFromNew<T>(values: seq<T>)
    ensures AddAll(New(), values) == Linked(values, values == [], |values|)
  {
    AddAllOnto(Linked([], true, 0), values);
  }

  lemma {:induction false} AddAllOnto<T>(l: Linked<T>, values: seq<T>)
    requires Valid(l) && l.len == |l.chain| && l.empty == (l.chain == [])
    ensures AddAll(l, values) == Linked(l.chain + values, l.chain + values == [], |l.chain| + |values|)
    decreases |values|
  {
    if values == [] {
      assert l.chain + values == l.chain;
    } else {
      var l' := Add(l, values[0]);
      assert l'.chain == l.chain + [values[0]] && !l'.empty && l'.len == |l'.chain|;
      AddAllOnto(l', values[1..]);
      ConsTail(l.chain, values);
    }
  }

  lemma ConsTail<T>(prefix: seq<T>, values: seq<T>)
    requires values != []
    ensures prefix + [values[0]] + values[1..] == prefix + values
  {
    assert values == [values[0]] + values[1..];
  }

  /** On a list built by `Add` alone, `Get` in range returns the value added
      at that position, and `IsEmpty` agrees with `Length == 0`. */
  lemma GetAfterAdds<T>(values: seq<T>, index: int, default: T)
    ensures var l := AddAll(New(), values);
            && (0 <= index < |values| ==> Get(l, index, default) == Success(values[index]))
            && (IsEmpty(l) <==> Length(l) == 0)
  {
    AddAllFromNew(values);
  }

  /** The head-removal quirk: after `Add(a)`, `Add(b)` and `RemoveAt(0)` the
      node holding `b` is still reachable, yet `IsEmpty` holds; a following
      `Add(c)` drops `b` while `Length` counts both, so `Get(1)` faults. */
  lemma HeadRemovalScenario<T>(a: T, b: T, c: T, default: T)
    ensures var l := AddAll(New(), [a, b]);
            var removed := RemoveAt(l, 0);
            && removed == Success(Linked([b], true, 1))
            && IsEmpty(removed.value)
            && Add(removed.value, c) == Linked([c], false, 2)
            && Get(Add(removed.value, c), 0, default) == Success(c)
            && Get(Add(removed.value, c), 1, default) == Failure(NullReference)
  {
    AddAllFromNew([a, b]);
    assert [a, b][1..] == [b];
  }

  /** The same quirk through `Remove`: removing the head's value sets
      `IsEmpty`, after which `Remove` no longer finds the remaining values. */
  lemma RemoveHeadValueScenario<T>(a: T, b: T)
    requires a != b
    ensures var l := Remove(AddAll(New(), [a, b]), a);
            && l == Linked([b], true, 1)
            && Remove(l, b) == l
  {
    AddAllFromNew([a, b]);
    assert [a, b][1..] == [b];
  }

  /** The insert quirk: `Insert` overwrites and counts one more element than
      it reaches, so a read at the new last position faults. */
  lemma InsertScenario<T>(a: T, b: T, default: T)
    ensures var l := AddAll(New(), [a]);
            var inserted := Insert(l, 0, b);
            && inserted == Success(Linked([b], false, 2))
            && Length(inserted.value) == 2
            && Get(inserted.value, 0, default) == Success(b)
            && Get(inserted.value, 1, default) == Failure(NullReference)
  {
    AddAllFromNew([a]);
    assert [a][0 := b] == [b];
  }
}
