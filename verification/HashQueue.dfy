// A queue from whose middle items can be taken: a doubly linked list and an index into it.
module HashQueue {

  datatype Link = Null | To(n: nat)

  datatype QNode = QNode(prev: Link, item: nat, next: Link)

  // ------------------------------------------------------------ the list

  function PrevOf(order: seq<nat>, i: int): Link
    requires 0 <= i <= |order|
  {
    if i == 0 then Null else To(order[i - 1])
  }

  function NextOf(order: seq<nat>, i: int): Link
    requires -1 <= i < |order|
  {
    if i == |order| - 1 then Null else To(order[i + 1])
  }

  ghost predicate Distinct(s: seq<nat>) {
    forall i, j | 0 <= i < j < |s| :: s[i] != s[j]
  }

  /** The nodes are linked in the given order, both ways. */
  ghost predicate Chain(store: map<nat, QNode>, order: seq<nat>) {
    && (forall i, j {:trigger Apart(order, i, j)} | 0 <= i < j < |order| :: Apart(order, i, j))
    && (forall i {:trigger LinkedAt(store, order, i)} | 0 <= i < |order| :: LinkedAt(store, order, i))
  }

  ghost predicate Apart(order: seq<nat>, i: int, j: int)
    requires 0 <= i < j < |order|
  {
    order[i] != order[j]
  }

  /** A node leads to its neighbours in the order. */
  ghost predicate LinkedAt(store: map<nat, QNode>, order: seq<nat>, i: int)
    requires 0 <= i < |order|
  {
    order[i] in store && store[order[i]].prev == PrevOf(order, i) && store[order[i]].next == NextOf(order, i)
  }

  lemma ChainFacts(store: map<nat, QNode>, order: seq<nat>)
    requires Chain(store, order)
    ensures Distinct(order) && forall i | 0 <= i < |order| :: order[i] in store
  {
    forall i, j | 0 <= i < j < |order|
      ensures order[i] != order[j]
    {
      assert Apart(order, i, j);
    }
    forall i | 0 <= i < |order|
      ensures order[i] in store
    {
      assert LinkedAt(store, order, i);
    }
  }

  lemma ChainMade(store: map<nat, QNode>, order: seq<nat>)
    requires Distinct(order) && forall i | 0 <= i < |order| :: LinkedAt(store, order, i)
    ensures Chain(store, order)
  {
  }

  lemma BackIsThere(store: map<nat, QNode>, order: seq<nat>)
    requires Chain(store, order)
    ensures PrevOf(order, |order|).To? ==> PrevOf(order, |order|).n in store
  {
    assert |order| > 0 ==> LinkedAt(store, order, |order| - 1);
  }

  function ItemAt(store: map<nat, QNode>, id: nat): nat {
    if id in store then store[id].item else 0
  }

  ghost function ItemsOf(store: map<nat, QNode>, order: seq<nat>): seq<nat> {
    seq(|order|, i requires 0 <= i < |order| => ItemAt(store, order[i]))
  }

  function SetNext(store: map<nat, QNode>, at: Link, next: Link): map<nat, QNode> {
    if at.To? && at.n in store then store[at.n := store[at.n].(next := next)] else store
  }

  function SetPrev(store: map<nat, QNode>, at: Link, prev: Link): map<nat, QNode> {
    if at.To? && at.n in store then store[at.n := store[at.n].(prev := prev)] else store
  }

  /** The neighbours of a node linked to each other. */
  function Unlinked(store: map<nat, QNode>, id: nat): map<nat, QNode> {
    if id in store then SetPrev(SetNext(store, store[id].prev, store[id].next), store[id].next, store[id].prev) else store
  }

  /** A node linked behind the last one. */
  function Appended(store: map<nat, QNode>, back: Link, id: nat, item: nat): map<nat, QNode> {
    SetNext(store[id := QNode(back, item, Null)], back, To(id))
  }

  function Cut<T>(s: seq<T>, k: int): (r: seq<T>)
    requires 0 <= k < |s|
    ensures |r| == |s| - 1
    ensures forall i | 0 <= i < k :: r[i] == s[i]
    ensures forall i | k <= i < |r| :: r[i] == s[i + 1]
  {
    s[..k] + s[k + 1..]
  }

  lemma CutDistinct(s: seq<nat>, k: int)
    requires 0 <= k < |s| && Distinct(s)
    ensures Distinct(Cut(s, k)) && s[k] !in Cut(s, k)
    ensures forall x :: x in Cut(s, k) <==> x in s && x != s[k]
  {
    var r := Cut(s, k);
    assert forall i | 0 <= i < |r| :: r[i] == s[if i < k then i else i + 1];
    forall x | x in s && x != s[k]
      ensures x in r
    {
      var i :| 0 <= i < |s| && s[i] == x;
      assert r[if i < k then i else i - 1] == x;
    }
  }

  /** The nodes hold the same items in both stores. */
  ghost predicate SameItems(store: map<nat, QNode>, store': map<nat, QNode>, order: seq<nat>) {
    forall i | 0 <= i < |order| :: order[i] in store && order[i] in store' && ItemAt(store', order[i]) == ItemAt(store, order[i])
  }

  ghost predicate Below(order: seq<nat>, bound: nat) {
    forall i {:trigger BelowAt(order, bound, i)} | 0 <= i < |order| :: BelowAt(order, bound, i)
  }

  ghost predicate BelowAt(order: seq<nat>, bound: nat, i: int)
    requires 0 <= i < |order|
  {
    order[i] < bound
  }

  lemma BelowCut(order: seq<nat>, bound: nat, k: int)
    requires Below(order, bound) && 0 <= k < |order|
    ensures Below(Cut(order, k), bound) && Below(Cut(order, k) + [order[k]], bound)
  {
    var cut := Cut(order, k);
    assert BelowAt(order, bound, k);
    forall i | 0 <= i < |cut|
      ensures cut[i] < bound
    {
      assert BelowAt(order, bound, if i < k then i else i + 1);
    }
  }

  lemma BelowNext(order: seq<nat>, bound: nat)
    requires Below(order, bound)
    ensures bound !in order && Below(order + [bound], bound + 1)
  {
    forall i | 0 <= i < |order|
      ensures order[i] < bound
    {
      assert BelowAt(order, bound, i);
    }
  }

  /** Unlinking a node takes it out of the order. */
  lemma ChainCut(store: map<nat, QNode>, order: seq<nat>, k: int)
    requires Chain(store, order) && 0 <= k < |order|
    ensures Chain(Unlinked(store, order[k]), Cut(order, k))
    ensures ItemsOf(Unlinked(store, order[k]), Cut(order, k)) == Cut(ItemsOf(store, order), k)
  {
    var r, store' := Cut(order, k), Unlinked(store, order[k]);
    ChainFacts(store, order);
    CutDistinct(order, k);
    forall i | 0 <= i < |r|
      ensures r[i] in store' && ItemAt(store', r[i]) == ItemAt(store, r[i]) && LinkedAt(store', r, i)
    {
      UnlinkedNode(store, order, k, if i < k then i else i + 1);
    }
    ChainMade(store', r);
    assert ItemsOf(store', r) == Cut(ItemsOf(store, order), k);
  }

  lemma UnlinkedNode(store: map<nat, QNode>, order: seq<nat>, k: int, i: int)
    requires Chain(store, order) && 0 <= k < |order| && 0 <= i < |order| && i != k
    ensures var store' := Unlinked(store, order[k]);
            && order[i] in store' && ItemAt(store', order[i]) == ItemAt(store, order[i])
            && store'[order[i]].prev == (if i == k + 1 then PrevOf(order, k) else PrevOf(order, i))
            && store'[order[i]].next == (if i == k - 1 then NextOf(order, k) else NextOf(order, i))
  {
    ChainFacts(store, order);
    assert LinkedAt(store, order, k) && LinkedAt(store, order, i);
  }

  /** A new last node extends the order. */
  lemma ChainAppend(store: map<nat, QNode>, order: seq<nat>, id: nat, item: nat)
    requires Chain(store, order) && id !in order
    ensures var store' := Appended(store, PrevOf(order, |order|), id, item);
            && Chain(store', order + [id]) && SameItems(store, store', order) && ItemAt(store', id) == item
            && ItemsOf(store', order + [id]) == ItemsOf(store, order) + [item]
  {
    var r, store' := order + [id], Appended(store, PrevOf(order, |order|), id, item);
    ChainFacts(store, order);
    forall i | 0 <= i < |r|
      ensures r[i] in store' && ItemAt(store', r[i]) == (if i < |order| then ItemAt(store, order[i]) else item) && LinkedAt(store', r, i)
    {
      if i < |order| {
        assert LinkedAt(store, order, i) && r[i] == order[i];
      }
    }
    forall i | 0 <= i < |order|
      ensures order[i] in store' && ItemAt(store', order[i]) == ItemAt(store, order[i])
    {
      assert r[i] == order[i];
    }
    assert r[|order|] == id;
    ChainMade(store', r);
    assert ItemsOf(store', r) == ItemsOf(store, order) + [item];
  }

  lemma ChainDrop(store: map<nat, QNode>, order: seq<nat>, id: nat)
    requires Chain(store, order) && id !in order
    ensures Chain(store - {id}, order) && ItemsOf(store - {id}, order) == ItemsOf(store, order)
  {
    ChainFacts(store, order);
    forall i | 0 <= i < |order|
      ensures LinkedAt(store - {id}, order, i)
    {
      assert LinkedAt(store, order, i);
    }
    assert ItemsOf(store - {id}, order) == ItemsOf(store, order);
  }

  // ------------------------------------------------------------ the index

  /** The index leads from each item to its node. */
  ghost predicate Indexed(store: map<nat, QNode>, order: seq<nat>, index: map<nat, nat>) {
    && (forall i {:trigger IndexedAt(store, order, index, i)} | 0 <= i < |order| :: IndexedAt(store, order, index, i))
    && (forall x {:trigger LeadsBack(store, order, index, x)} | x in index :: LeadsBack(store, order, index, x))
  }

  ghost predicate IndexedAt(store: map<nat, QNode>, order: seq<nat>, index: map<nat, nat>, i: int)
    requires 0 <= i < |order|
  {
    order[i] in store && ItemAt(store, order[i]) in index && index[ItemAt(store, order[i])] == order[i]
  }

  ghost predicate LeadsBack(store: map<nat, QNode>, order: seq<nat>, index: map<nat, nat>, x: nat)
    requires x in index
  {
    index[x] in order && index[x] in store && ItemAt(store, index[x]) == x
  }

  /** The index has the items, and no item is there twice. */
  lemma IndexedItems(store: map<nat, QNode>, order: seq<nat>, index: map<nat, nat>)
    requires Chain(store, order) && Indexed(store, order, index)
    ensures Distinct(ItemsOf(store, order))
    ensures forall x :: x in index <==> x in ItemsOf(store, order)
  {
    var items := ItemsOf(store, order);
    ChainFacts(store, order);
    forall x
      ensures x in index <==> x in items
    {
      if x in index {
        assert LeadsBack(store, order, index, x);
        var i :| 0 <= i < |order| && order[i] == index[x];
        assert items[i] == x;
      }
      if x in items {
        var i :| 0 <= i < |items| && items[i] == x;
        assert IndexedAt(store, order, index, i);
      }
    }
    forall i, j | 0 <= i < j < |items|
      ensures items[i] != items[j]
    {
      assert IndexedAt(store, order, index, i) && IndexedAt(store, order, index, j) && order[i] != order[j];
    }
  }

  lemma IndexedCut(store: map<nat, QNode>, store': map<nat, QNode>, order: seq<nat>, index: map<nat, nat>, k: int)
    requires Chain(store, order) && Indexed(store, order, index) && 0 <= k < |order|
    requires forall i | 0 <= i < |order| && i != k :: order[i] in store' && ItemAt(store', order[i]) == ItemAt(store, order[i])
    ensures Indexed(store', Cut(order, k), index - {ItemAt(store, order[k])})
  {
    var r, index' := Cut(order, k), index - {ItemAt(store, order[k])};
    ChainFacts(store, order);
    CutDistinct(order, k);
    forall i | 0 <= i < |r|
      ensures IndexedAt(store', r, index', i)
    {
      var j := if i < k then i else i + 1;
      assert IndexedAt(store, order, index, j) && IndexedAt(store, order, index, k);
      assert r[i] == order[j] && order[j] != order[k];
    }
    forall x | x in index'
      ensures LeadsBack(store', r, index', x)
    {
      assert LeadsBack(store, order, index, x);
      var j :| 0 <= j < |order| && order[j] == index[x];
      assert j != k;
      assert r[if j < k then j else j - 1] == order[j];
    }
  }

  lemma IndexedAppend(store: map<nat, QNode>, store': map<nat, QNode>, order: seq<nat>, index: map<nat, nat>, id: nat, item: nat)
    requires Indexed(store, order, index) && item !in index && id in store' && ItemAt(store', id) == item
    requires SameItems(store, store', order)
    ensures Indexed(store', order + [id], index[item := id])
  {
    var r, index' := order + [id], index[item := id];
    assert r[|order|] == id;
    forall i | 0 <= i < |r|
      ensures IndexedAt(store', r, index', i)
    {
      if i < |order| {
        assert IndexedAt(store, order, index, i) && r[i] == order[i];
      }
    }
    forall x | x in index'
      ensures LeadsBack(store', r, index', x)
    {
      if x != item {
        assert LeadsBack(store, order, index, x);
        var j :| 0 <= j < |order| && order[j] == index[x];
        assert r[j] == order[j];
      }
    }
  }

  lemma UnlinkedItems(store: map<nat, QNode>, order: seq<nat>, k: int)
    requires Chain(store, order) && 0 <= k < |order|
    ensures var store' := Unlinked(store, order[k]);
            forall i | 0 <= i < |order| && i != k :: order[i] in store' && ItemAt(store', order[i]) == ItemAt(store, order[i])
  {
    forall i | 0 <= i < |order| && i != k
      ensures order[i] in Unlinked(store, order[k]) && Unlinked(store, order[k])[order[i]].item == ItemAt(store, order[i])
    {
      UnlinkedNode(store, order, k, i);
    }
  }

  /** All that holds of a queue but for its ends. */
  ghost predicate Sound(store: map<nat, QNode>, order: seq<nat>, index: map<nat, nat>, unused: nat) {
    Chain(store, order) && Indexed(store, order, index) && Below(order, unused)
  }

  /** Taking a node out of the list, the index and the store. */
  lemma Removal(store: map<nat, QNode>, order: seq<nat>, index: map<nat, nat>, unused: nat, k: int, store': map<nat, QNode>, cut: seq<nat>)
    requires Sound(store, order, index, unused) && 0 <= k < |order|
    requires store' == Unlinked(store, order[k]) - {order[k]} && cut == Cut(order, k)
    ensures Sound(store', cut, index - {ItemAt(store, order[k])}, unused)
    ensures ItemsOf(store', cut) == Cut(ItemsOf(store, order), k)
  {
    var mid := Unlinked(store, order[k]);
    BelowCut(order, unused, k);
    ChainFacts(store, order);
    ChainCut(store, order, k);
    CutDistinct(order, k);
    ChainDrop(mid, cut, order[k]);
    UnlinkedItems(store, order, k);
    assert forall i | 0 <= i < |order| && i != k :: order[i] != order[k];
    IndexedCut(store, store', order, index, k);
  }

  /** Taking a node out of the list and linking it in at the back. */
  lemma {:induction false} Requeuing(store: map<nat, QNode>, order: seq<nat>, index: map<nat, nat>, unused: nat, k: int, id: nat, item: nat,
                  cut: seq<nat>, mid: map<nat, QNode>, store': map<nat, QNode>)
    requires Sound(store, order, index, unused) && 0 <= k < |order| && id == order[k] && item == ItemAt(store, id)
    requires cut == Cut(order, k) && mid == Unlinked(store, id) && store' == Appended(mid, PrevOf(cut, |cut|), id, item)
    ensures Sound(store', cut + [id], index, unused) && Chain(mid, cut)
    ensures ItemsOf(store', cut + [id]) == Cut(ItemsOf(store, order), k) + [item]
  {
    BelowCut(order, unused, k);
    ChainFacts(store, order);
    ChainCut(store, order, k);
    CutDistinct(order, k);
    IndexedMoved(store, order, index, k, id, item, cut, mid, store');
    ChainAppend(mid, cut, id, item);
  }

  lemma IndexedMoved(store: map<nat, QNode>, order: seq<nat>, index: map<nat, nat>, k: int, id: nat, item: nat,
                     cut: seq<nat>, mid: map<nat, QNode>, store': map<nat, QNode>)
    requires Chain(store, order) && Indexed(store, order, index) && 0 <= k < |order| && id == order[k] && item == ItemAt(store, id)
    requires cut == Cut(order, k) && mid == Unlinked(store, id) && store' == Appended(mid, PrevOf(cut, |cut|), id, item)
    ensures Indexed(store', cut + [id], index)
  {
    ChainFacts(store, order);
    ChainCut(store, order, k);
    CutDistinct(order, k);
    UnlinkedItems(store, order, k);
    IndexedCut(store, mid, order, index, k);
    ChainAppend(mid, cut, id, item);
    IndexedAppend(mid, store', cut, index - {item}, id, item);
    assert IndexedAt(store, order, index, k);
    assert (index - {item})[item := id] == index;
  }

  // ------------------------------------------------------------ the queue

  class HashQueue {
    var store: map<nat, QNode>
    var index: map<nat, nat>
    var front: Link
    var back: Link
    var unused: nat
    ghost var order: seq<nat>

    ghost predicate Valid()
      reads this
    {
      && Sound(store, order, index, unused)
      && front == NextOf(order, -1) && back == PrevOf(order, |order|)
    }

    /** The items from front to back. */
    ghost function Items(): seq<nat>
      requires Valid()
      reads this
    {
      ItemsOf(store, order)
    }

    constructor ()
      ensures Valid() && Items() == []
    {
      store, index, front, back, unused, order := map[], map[], Null, Null, 0, [];
    }

    predicate IsEmpty()
      requires Valid()
      reads this
      ensures IsEmpty() <==> Items() == []
    {
      front == Null
    }

    method Enqueue(item: nat)
      requires Valid() && item !in Items()
      modifies this
      ensures Valid() && Items() == old(Items()) + [item]
    {
      IndexedItems(store, order, index);
      BelowNext(order, unused);
      BackIsThere(store, order);
      ChainAppend(store, order, unused, item);
      IndexedAppend(store, Appended(store, back, unused, item), order, index, unused, item);
      LinkBack(unused, item);
      index := index[item := unused];
      order := order + [unused];
      unused := unused + 1;
    }

    /** Links a node in behind the last one. */
    method LinkBack(id: nat, item: nat)
      requires back.To? ==> back.n in store
      modifies this`store, this`front, this`back
      ensures store == Appended(old(store), old(back), id, item) && back == To(id)
      ensures front == if old(back) == Null then To(id) else old(front)
    {
      store := store[id := QNode(back, item, Null)];
      if back.To? {
        store := store[back.n := store[back.n].(next := To(id))];
      } else {
        front := To(id);
      }
      back := To(id);
    }

    /** Takes a node out of the list: its neighbours, or the ends, lead past it. */
    method Unlink(id: nat, ghost k: int)
      requires Valid() && 0 <= k < |order| && order[k] == id
      modifies this`store, this`front, this`back
      ensures store == Unlinked(old(store), id)
      ensures var cut := Cut(order, k); front == NextOf(cut, -1) && back == PrevOf(cut, |cut|)
    {
      assert LinkedAt(store, order, k);
      assert k > 0 ==> LinkedAt(store, order, k - 1);
      assert k + 1 < |order| ==> LinkedAt(store, order, k + 1) && Apart(order, k, k + 1);
      assert 0 < k && k + 1 < |order| ==> Apart(order, k - 1, k + 1);
      var node := store[id];
      if node.prev.To? {
        store := store[node.prev.n := store[node.prev.n].(next := node.next)];
      } else {
        front := node.next;
      }
      if node.next.To? {
        store := store[node.next.n := store[node.next.n].(prev := node.prev)];
      } else {
        back := node.prev;
      }
    }

    /** Takes a node out of the list and the index. */
    method Discard(id: nat, ghost k: int)
      requires Valid() && 0 <= k < |order| && order[k] == id
      modifies this
      ensures Valid() && Items() == Cut(old(Items()), k)
    {
      var item := ItemAt(store, id);
      ghost var cut := Cut(order, k);
      Removal(store, order, index, unused, k, Unlinked(store, id) - {id}, cut);
      Unlink(id, k);
      index, store := index - {item}, store - {id};
      order := cut;
    }

    /** The front item, if there is one. */
    method Dequeue() returns (found: bool, item: nat)
      requires Valid()
      modifies this
      ensures Valid() && found == (old(Items()) != [])
      ensures if found then item == old(Items())[0] && Items() == old(Items())[1..] else Items() == old(Items())
    {
      if front == Null {
        return false, 0;
      }
      item := ItemAt(store, front.n);
      Discard(front.n, 0);
      assert Items() == old(Items())[1..];
      return true, item;
    }

    /** Takes an item out from wherever it is. */
    method Delete(item: nat) returns (found: bool)
      requires Valid()
      modifies this
      ensures Valid() && found == (item in old(Items()))
      ensures if found then TakenOut(old(Items()), item, Items()) else Items() == old(Items())
    {
      IndexedItems(store, order, index);
      if item !in index {
        return false;
      }
      assert LeadsBack(store, order, index, item);
      ghost var k :| 0 <= k < |order| && order[k] == index[item];
      Discard(index[item], k);
      return true;
    }

    /** Moves an item to the back, or puts it there. */
    method MoveToBack(item: nat) returns (found: bool)
      requires Valid()
      modifies this
      ensures Valid() && found == (item in old(Items()))
      ensures if found then MovedBack(old(Items()), item, Items()) else Items() == old(Items()) + [item]
    {
      IndexedItems(store, order, index);
      if item !in index {
        Enqueue(item);
        return false;
      }
      assert LeadsBack(store, order, index, item);
      ghost var k :| 0 <= k < |order| && order[k] == index[item];
      Requeue(index[item], item, k);
      return true;
    }

    /** Takes a node out and links it behind the last one. */
    method Requeue(id: nat, item: nat, ghost k: int)
      requires Valid() && 0 <= k < |order| && order[k] == id && ItemAt(store, id) == item
      modifies this
      ensures Valid() && Items() == Cut(old(Items()), k) + [item]
    {
      ghost var cut, mid := Cut(order, k), Unlinked(store, id);
      ghost var linked := Appended(mid, PrevOf(cut, |cut|), id, item);
      Requeuing(store, order, index, unused, k, id, item, cut, mid, linked);
      Unlink(id, k);
      BackIsThere(mid, cut);
      LinkBack(id, item);
      order := cut + [id];
      assert store == linked;
    }
  }

  /** The sequence without the item. */
  ghost predicate TakenOut(s: seq<nat>, item: nat, s': seq<nat>) {
    exists k :: 0 <= k < |s| && s[k] == item && s' == Cut(s, k)
  }

  /** The sequence with the item moved to the end. */
  ghost predicate MovedBack(s: seq<nat>, item: nat, s': seq<nat>) {
    exists k :: 0 <= k < |s| && s[k] == item && s' == Cut(s, k) + [item]
  }
}
