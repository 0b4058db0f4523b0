// One level of a skip list: links in key order, and the place of a record in them.
module SkipLevels {
  import opened Bytes

  /** A memtable record; the tag is the sequence number above the write type. */
  datatype Item = Item(key: Bytestring, tag: nat, value: Bytestring)

  /** The order of records: by key, and the latest first. */
  predicate Before(a: Item, b: Item) {
    Less(a.key, b.key) || (a.key == b.key && a.tag > b.tag)
  }

  predicate Same(a: Item, b: Item) {
    a.key == b.key && a.tag == b.tag
  }

  /** The order of records as a three-way comparison. */
  function Compare(a: Item, b: Item): int {
    if Less(a.key, b.key) then -1
    else if Less(b.key, a.key) then 1
    else if a.tag < b.tag then 1
    else if a.tag > b.tag then -1
    else 0
  }

  lemma CompareIsOrder(a: Item, b: Item)
    ensures Compare(a, b) < 0 <==> Before(a, b)
    ensures Compare(a, b) == 0 <==> Same(a, b)
    ensures Compare(a, b) > 0 <==> Before(b, a)
  {
    BeforeTotal(a, b);
    LessTotal(a.key, b.key);
    LessIrreflexive(a.key);
    if Less(a.key, b.key) {
      LessAsymmetric(a.key, b.key);
    }
  }

  lemma BeforeTransitive(a: Item, b: Item, c: Item)
    requires Before(a, b) && Before(b, c)
    ensures Before(a, c)
  {
    if Less(a.key, b.key) && Less(b.key, c.key) {
      LessTransitive(a.key, b.key, c.key);
    }
  }

  lemma BeforeTotal(a: Item, b: Item)
    ensures Before(a, b) || Before(b, a) || Same(a, b)
    ensures !(Before(a, b) && Before(b, a))
    ensures Same(a, b) ==> !Before(a, b) && !Before(b, a)
  {
    LessTotal(a.key, b.key);
    LessIrreflexive(a.key);
    if Less(a.key, b.key) {
      LessAsymmetric(a.key, b.key);
    } else if Less(b.key, a.key) {
      LessAsymmetric(b.key, a.key);
    }
  }

  // ------------------------------------------------------------ links

  /** Where a link leads, or where it starts. */
  datatype Ref = Nil | Head | Node(n: nat)

  /** The link behind the first `p` nodes. */
  function At(l: seq<nat>, p: nat): Ref {
    if p < |l| then Node(l[p]) else Nil
  }

  /** The last of the first `p` nodes. */
  function Up(l: seq<nat>, p: nat): Ref
    requires p <= |l|
  {
    if p == 0 then Head else Node(l[p - 1])
  }

  /** The links of a level run through its nodes in order. */
  ghost predicate Linked(m: map<Ref, Ref>, l: seq<nat>) {
    && (forall p | 0 <= p <= |l| :: Up(l, p) in m && m[Up(l, p)] == At(l, p))
    && (forall r | r in m :: exists p :: 0 <= p <= |l| && r == Up(l, p))
  }

  /** The nodes of a level are in strictly ascending order. */
  ghost predicate Ascending(items: seq<Item>, l: seq<nat>) {
    && (forall i | 0 <= i < |l| :: l[i] < |items|)
    && (forall i, j | 0 <= i < j < |l| :: Before(items[l[i]], items[l[j]]))
  }

  // ------------------------------------------------------------ the place of a record

  /** `p` is the place of the record: exactly the first `p` nodes are before it. */
  ghost predicate IsPlace(items: seq<Item>, l: seq<nat>, x: Item, p: nat)
    requires Ascending(items, l)
  {
    && p <= |l|
    && (forall i | 0 <= i < p :: Before(items[l[i]], x))
    && (forall i | p <= i < |l| :: !Before(items[l[i]], x))
  }

  /** A place is where the order changes. */
  lemma PlaceAt(items: seq<Item>, l: seq<nat>, x: Item, p: nat)
    requires Ascending(items, l) && p <= |l|
    requires p > 0 ==> Before(items[l[p - 1]], x)
    requires p < |l| ==> !Before(items[l[p]], x)
    ensures IsPlace(items, l, x, p)
  {
    forall i | 0 <= i < p
      ensures Before(items[l[i]], x)
    {
      if i < p - 1 {
        BeforeTransitive(items[l[i]], items[l[p - 1]], x);
      }
    }
    forall i | p <= i < |l|
      ensures !Before(items[l[i]], x)
    {
      if p < i && Before(items[l[i]], x) {
        BeforeTransitive(items[l[p]], items[l[i]], x);
      }
    }
  }

  /** Only the record at the place can be the same. */
  lemma SameIsAtPlace(items: seq<Item>, l: seq<nat>, x: Item, p: nat, i: nat)
    requires Ascending(items, l) && IsPlace(items, l, x, p) && i < |l| && Same(items[l[i]], x)
    ensures i == p
  {
    BeforeTotal(items[l[i]], x);
    BeforeTotal(items[l[p]], x);
  }

  // ------------------------------------------------------------ inserting a node

  function InsertAt(l: seq<nat>, p: nat, n: nat): (r: seq<nat>)
    requires p <= |l|
    ensures |r| == |l| + 1
  {
    l[..p] + [n] + l[p..]
  }

  lemma InsertAscending(items: seq<Item>, l: seq<nat>, n: nat, p: nat)
    requires Ascending(items, l) && n < |items| && IsPlace(items, l, items[n], p)
    requires p < |l| ==> !Same(items[l[p]], items[n])
    ensures Ascending(items, InsertAt(l, p, n))
  {
    var r := InsertAt(l, p, n);
    forall i, j | 0 <= i < j < |r|
      ensures Before(items[r[i]], items[r[j]])
    {
      var i', j' := if i < p then i else i - 1, if j < p then j else j - 1;
      assert i == p || r[i] == l[i'];
      assert j == p || r[j] == l[j'];
      if i == p {
        BeforeTotal(items[l[p]], items[n]);
        if p < j' {
          BeforeTransitive(items[n], items[l[p]], items[l[j']]);
        }
      }
    }
  }

  ghost predicate NoTwice(l: seq<nat>) {
    forall i, j | 0 <= i < j < |l| :: l[i] != l[j]
  }

  function LinkIn(m: map<Ref, Ref>, prev: Ref, next: Ref, n: nat): map<Ref, Ref> {
    m[Node(n) := next][prev := Node(n)]
  }

  lemma InsertedUp(l: seq<nat>, p: nat, n: nat, q: nat)
    requires p <= |l| && q <= |l| + 1
    ensures q <= p ==> Up(InsertAt(l, p, n), q) == Up(l, q)
    ensures q == p + 1 ==> Up(InsertAt(l, p, n), q) == Node(n)
    ensures q > p + 1 ==> Up(InsertAt(l, p, n), q) == Up(l, q - 1)
  {
  }

  lemma InsertedAt(l: seq<nat>, p: nat, n: nat, q: nat)
    requires p <= |l| && q <= |l| + 1
    ensures q < p ==> At(InsertAt(l, p, n), q) == At(l, q)
    ensures q == p ==> At(InsertAt(l, p, n), q) == Node(n)
    ensures q > p ==> At(InsertAt(l, p, n), q) == At(l, q - 1)
  {
  }

  lemma UpDistinct(l: seq<nat>, p: nat, q: nat)
    requires NoTwice(l) && p <= |l| && q <= |l| && p != q
    ensures Up(l, p) != Up(l, q)
  {
  }

  lemma InsertedLink(m: map<Ref, Ref>, l: seq<nat>, p: nat, n: nat, q: nat)
    requires Linked(m, l) && p <= |l| && n !in l && NoTwice(l) && q <= |l| + 1
    ensures var r, m' := InsertAt(l, p, n), LinkIn(m, Up(l, p), At(l, p), n);
            Up(r, q) in m' && m'[Up(r, q)] == At(r, q)
  {
    InsertedUp(l, p, n, q);
    InsertedAt(l, p, n, q);
    if q < p {
      UpDistinct(l, q, p);
    } else if q > p + 1 {
      UpDistinct(l, q - 1, p);
    }
  }

  /** Linking a node behind the first `p`. */
  lemma InsertLinked(m: map<Ref, Ref>, l: seq<nat>, p: nat, n: nat)
    requires Linked(m, l) && p <= |l| && n !in l && NoTwice(l)
    ensures Linked(LinkIn(m, Up(l, p), At(l, p), n), InsertAt(l, p, n))
  {
    var r, m' := InsertAt(l, p, n), LinkIn(m, Up(l, p), At(l, p), n);
    forall q | 0 <= q <= |r|
      ensures Up(r, q) in m' && m'[Up(r, q)] == At(r, q)
    {
      InsertedLink(m, l, p, n, q);
    }
    forall x | x in m'
      ensures exists q :: 0 <= q <= |r| && x == Up(r, q)
    {
      if x == Node(n) {
        InsertedUp(l, p, n, p + 1);
      } else {
        var q :| 0 <= q <= |l| && x == Up(l, q);
        InsertedUp(l, p, n, if q <= p then q else q + 1);
      }
    }
  }
}
