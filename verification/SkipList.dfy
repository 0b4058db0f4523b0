// The skip list, inserted into one record at a time with a cached splice.
module SkipList {
  import opened Bytes
  import opened SkipLevels

  /** Where an earlier insertion found its place: one node before and one after it at each level. */
  datatype Splice = Splice(height: nat, prev: seq<Ref>, next: seq<Ref>)

  ghost predicate OnLevel(l: seq<nat>, r: Ref) {
    r == Head || (r.Node? && r.n in l)
  }

  ghost predicate NextOn(l: seq<nat>, r: Ref) {
    r == Nil || (r.Node? && r.n in l)
  }

  /** The node, or the head, is before the record. */
  ghost predicate Precedes(items: seq<Item>, r: Ref, x: Item) {
    r == Head || (r.Node? && r.n < |items| && Before(items[r.n], x))
  }

  /** The node, or the end, is not before the record. */
  ghost predicate Follows(items: seq<Item>, r: Ref, x: Item) {
    r == Nil || (r.Node? && r.n < |items| && !Before(items[r.n], x))
  }

  ghost predicate PrevLe(items: seq<Item>, a: Ref, b: Ref) {
    a == Head || a == b || (a.Node? && b.Node? && a.n < |items| && b.n < |items| && Before(items[a.n], items[b.n]))
  }

  ghost predicate NextLe(items: seq<Item>, a: Ref, b: Ref) {
    b == Nil || a == b || (a.Node? && b.Node? && a.n < |items| && b.n < |items| && Before(items[a.n], items[b.n]))
  }

  // ------------------------------------------------------------ the levels

  ghost predicate Contained(lower: seq<nat>, upper: seq<nat>) {
    forall i | 0 <= i < |upper| :: upper[i] in lower
  }

  /** Every level is linked and ascending, and each is a part of the one below. */
  ghost predicate LevelsOk(items: seq<Item>, links: seq<map<Ref, Ref>>, levels: seq<seq<nat>>) {
    && |links| == |levels|
    && (forall i | 0 <= i < |levels| :: Linked(links[i], levels[i]) && Ascending(items, levels[i]))
    && (forall i | 0 <= i < |levels| - 1 :: Contained(levels[i], levels[i + 1]))
  }

  /** Ascending lists of which one contains the other: it is a subsequence. */
  lemma ContainedIsSubsequence(items: seq<Item>, lower: seq<nat>, upper: seq<nat>, i: nat, j: nat)
    returns (p: nat, q: nat)
    requires Ascending(items, lower) && Ascending(items, upper) && Contained(lower, upper) && i < j < |upper|
    ensures p < q < |lower| && lower[p] == upper[i] && lower[q] == upper[j]
  {
    assert upper[i] in lower && upper[j] in lower;
    p :| 0 <= p < |lower| && lower[p] == upper[i];
    q :| 0 <= q < |lower| && lower[q] == upper[j];
    OrderReflects(items, lower, p, q);
  }

  lemma OrderReflects(items: seq<Item>, l: seq<nat>, p: nat, q: nat)
    requires Ascending(items, l) && p < |l| && q < |l| && Before(items[l[p]], items[l[q]])
    ensures p < q
  {
    BeforeTotal(items[l[p]], items[l[q]]);
  }

  lemma EmptyLinked()
    ensures Linked(map[Head := Nil], [])
  {
    assert Up([], 0) == Head;
  }

  /** The tight predecessor is the last of those before the record. */
  lemma TightPrev(items: seq<Item>, l: seq<nat>, x: Item, p: nat, r: Ref)
    requires Ascending(items, l) && IsPlace(items, l, x, p) && OnLevel(l, r) && Precedes(items, r, x)
    ensures PrevLe(items, r, Up(l, p))
  {
    if r.Node? {
      var i :| 0 <= i < |l| && l[i] == r.n;
      assert i < p;
    }
  }

  lemma TightNext(items: seq<Item>, l: seq<nat>, x: Item, p: nat, r: Ref)
    requires Ascending(items, l) && IsPlace(items, l, x, p) && NextOn(l, r) && Follows(items, r, x)
    ensures NextLe(items, At(l, p), r)
  {
    if r.Node? {
      var i :| 0 <= i < |l| && l[i] == r.n;
      assert p <= i;
    }
  }

  // ------------------------------------------------------------ splices

  /** At level `i` the splice has a node before and one not before the record. */
  ghost predicate Brackets(items: seq<Item>, sp: Splice, i: nat, x: Item)
    requires i < |sp.prev| && i < |sp.next|
  {
    Precedes(items, sp.prev[i], x) && Follows(items, sp.next[i], x)
  }

  ghost predicate StepOk(items: seq<Item>, levels: seq<seq<nat>>, sp: Splice, i: nat)
    requires i < |levels| && i + 1 < |sp.prev| && i + 1 < |sp.next|
  {
    && OnLevel(levels[i], sp.prev[i]) && NextOn(levels[i], sp.next[i])
    && PrevLe(items, sp.prev[i + 1], sp.prev[i]) && NextLe(items, sp.next[i], sp.next[i + 1])
  }

  ghost predicate Sized(levels: seq<seq<nat>>, sp: Splice) {
    |sp.prev| == |sp.next| == |levels| + 1 && sp.height <= |levels|
  }

  /** From level `from` up the splice widens. */
  ghost predicate UpperOk(items: seq<Item>, levels: seq<seq<nat>>, sp: Splice, from: nat)
    requires Sized(levels, sp)
  {
    && sp.prev[sp.height] == Head && sp.next[sp.height] == Nil
    && (forall i | from <= i < sp.height :: StepOk(items, levels, sp, i))
  }

  /** A splice that was never used, or one that widens from level to level. */
  ghost predicate SpliceOk(items: seq<Item>, levels: seq<seq<nat>>, sp: Splice) {
    Sized(levels, sp) && (sp.height == 0 || UpperOk(items, levels, sp, 0))
  }

  /** What is bracketed at one level is bracketed at all higher ones. */
  lemma {:induction false} BracketsUp(items: seq<Item>, levels: seq<seq<nat>>, sp: Splice, r: nat, i: nat, x: Item)
    requires Sized(levels, sp) && UpperOk(items, levels, sp, r) && r <= i <= sp.height && Brackets(items, sp, r, x)
    ensures Brackets(items, sp, i, x)
    decreases i
  {
    if i > r {
      BracketsUp(items, levels, sp, r, i - 1, x);
      assert StepOk(items, levels, sp, i - 1);
      WiderPrev(items, sp.prev[i], sp.prev[i - 1], x);
      WiderNext(items, sp.next[i - 1], sp.next[i], x);
    }
  }

  lemma WiderPrev(items: seq<Item>, a: Ref, b: Ref, x: Item)
    requires PrevLe(items, a, b) && Precedes(items, b, x)
    ensures Precedes(items, a, x)
  {
    if a.Node? && a != b {
      BeforeTransitive(items[a.n], items[b.n], x);
    }
  }

  lemma WiderNext(items: seq<Item>, a: Ref, b: Ref, x: Item)
    requires NextLe(items, a, b) && Follows(items, a, x)
    ensures Follows(items, b, x)
  {
    if b.Node? && a != b && Before(items[b.n], x) {
      BeforeTransitive(items[a.n], items[b.n], x);
    }
  }

  /** The splice has the record's own neighbours at the level. */
  ghost predicate Tight(items: seq<Item>, l: seq<nat>, prev: Ref, next: Ref, x: Item)
    requires Ascending(items, l)
  {
    exists p :: IsPlace(items, l, x, p) && prev == Up(l, p) && next == At(l, p)
  }

  /** Neighbours that are linked and bracket the record are its own. */
  lemma LinkedIsTight(items: seq<Item>, m: map<Ref, Ref>, l: seq<nat>, prev: Ref, next: Ref, x: Item)
    requires Ascending(items, l) && Linked(m, l) && OnLevel(l, prev) && Precedes(items, prev, x) && Follows(items, next, x)
    requires prev in m && m[prev] == next
    ensures Tight(items, l, prev, next, x)
  {
    var p := OnLevelAt(l, prev);
    PlaceAt(items, l, x, p);
  }

  lemma OnLevelLinked(m: map<Ref, Ref>, l: seq<nat>, r: Ref)
    requires Linked(m, l) && OnLevel(l, r)
    ensures r in m
  {
    var p := OnLevelAt(l, r);
  }

  /** Setting a level to the record's neighbours, below a level that brackets it. */
  function SetLevel(sp: Splice, i: nat, prev: Ref, next: Ref): Splice
    requires i < |sp.prev| && i < |sp.next|
  {
    sp.(prev := sp.prev[i := prev], next := sp.next[i := next])
  }

  lemma LowerStep(items: seq<Item>, levels: seq<seq<nat>>, sp: Splice, i: nat, x: Item, p: nat)
    requires Sized(levels, sp) && i < sp.height && Ascending(items, levels[i]) && IsPlace(items, levels[i], x, p)
    requires OnLevel(levels[i], sp.prev[i + 1]) && NextOn(levels[i], sp.next[i + 1]) && Brackets(items, sp, i + 1, x)
    requires UpperOk(items, levels, sp, i + 1)
    ensures var sp' := SetLevel(sp, i, Up(levels[i], p), At(levels[i], p));
            UpperOk(items, levels, sp', i) && Brackets(items, sp', i, x)
  {
    var l, sp' := levels[i], SetLevel(sp, i, Up(levels[i], p), At(levels[i], p));
    TightPrev(items, l, x, p, sp.prev[i + 1]);
    TightNext(items, l, x, p, sp.next[i + 1]);
    forall j | i <= j < sp'.height
      ensures StepOk(items, levels, sp', j)
    {
      if j > i {
        assert StepOk(items, levels, sp, j);
      }
    }
  }

  /** The level above is on this one too. */
  lemma AboveIsOn(items: seq<Item>, links: seq<map<Ref, Ref>>, levels: seq<seq<nat>>, sp: Splice, i: nat)
    requires LevelsOk(items, links, levels) && Sized(levels, sp) && i < sp.height && UpperOk(items, levels, sp, i + 1)
    ensures OnLevel(levels[i], sp.prev[i + 1]) && NextOn(levels[i], sp.next[i + 1])
  {
    if i + 1 < sp.height {
      assert StepOk(items, levels, sp, i + 1);
    }
  }

  // ------------------------------------------------------------ more items, more nodes

  lemma MoreItems(items: seq<Item>, links: seq<map<Ref, Ref>>, levels: seq<seq<nat>>, x: Item)
    requires LevelsOk(items, links, levels)
    ensures LevelsOk(items + [x], links, levels)
  {
    forall i | 0 <= i < |levels|
      ensures Ascending(items + [x], levels[i])
    {
      assert Ascending(items, levels[i]);
    }
  }

  lemma MoreItemsSplice(items: seq<Item>, levels: seq<seq<nat>>, sp: Splice, x: Item)
    requires SpliceOk(items, levels, sp)
    ensures SpliceOk(items + [x], levels, sp)
  {
    if sp.height > 0 {
      forall i | 0 <= i < sp.height
        ensures StepOk(items + [x], levels, sp, i)
      {
        assert StepOk(items, levels, sp, i);
      }
    }
  }

  /** A node linked in at its place, above where it is already. */
  lemma {:induction false} LinkLevel(items: seq<Item>, links: seq<map<Ref, Ref>>, levels: seq<seq<nat>>, i: nat, n: nat, p: nat)
    requires LevelsOk(items, links, levels) && i < |levels| && n < |items| && n !in levels[i]
    requires i > 0 ==> n in levels[i - 1]
    requires IsPlace(items, levels[i], items[n], p)
    requires p < |levels[i]| ==> !Same(items[levels[i][p]], items[n])
    ensures LevelsOk(items, links[i := LinkIn(links[i], Up(levels[i], p), At(levels[i], p), n)],
                     levels[i := InsertAt(levels[i], p, n)])
  {
    var l := levels[i];
    assert Linked(links[i], l) && Ascending(items, l);
    LevelNoTwice(items, l);
    InsertLinked(links[i], l, p, n);
    InsertAscending(items, l, n, p);
    InsertContained(levels, i, n, p);
  }

  lemma LevelNoTwice(items: seq<Item>, l: seq<nat>)
    requires Ascending(items, l)
    ensures NoTwice(l)
  {
    forall i, j | 0 <= i < j < |l|
      ensures l[i] != l[j]
    {
      BeforeTotal(items[l[i]], items[l[j]]);
    }
  }

  lemma InsertContained(levels: seq<seq<nat>>, i: nat, n: nat, p: nat)
    requires i < |levels| && p <= |levels[i]| && (i > 0 ==> n in levels[i - 1])
    requires forall j | 0 <= j < |levels| - 1 :: Contained(levels[j], levels[j + 1])
    ensures var levels' := levels[i := InsertAt(levels[i], p, n)];
            forall j | 0 <= j < |levels'| - 1 :: Contained(levels'[j], levels'[j + 1])
  {
    var l, levels' := levels[i], levels[i := InsertAt(levels[i], p, n)];
    forall j | 0 <= j < |levels'| - 1
      ensures Contained(levels'[j], levels'[j + 1])
    {
      assert Contained(levels[j], levels[j + 1]);
      if j == i {
        forall m | m in l
          ensures m in levels'[i]
        {
        }
      } else if j + 1 == i {
        forall m | m in levels'[i]
          ensures m in levels[j]
        {
        }
      }
    }
  }

  /** Every node is on the bottom level. */
  lemma {:induction false} InBottom(levels: seq<seq<nat>>, i: nat, n: nat)
    requires i < |levels| && n in levels[i] && forall j | 0 <= j < |levels| - 1 :: Contained(levels[j], levels[j + 1])
    ensures n in levels[0]
    decreases i
  {
    if i > 0 {
      assert Contained(levels[i - 1], levels[i]);
      InBottom(levels, i - 1, n);
    }
  }

  ghost predicate NoSame(items: seq<Item>, l: seq<nat>, x: Item) {
    forall i | 0 <= i < |l| :: l[i] < |items| && !Same(items[l[i]], x)
  }

  /** The level after the node joined it, and what follows the node there. */
  ghost predicate Joined(items: seq<Item>, l: seq<nat>, l': seq<nat>, n: nat, next: Ref)
    requires n < |items| && Ascending(items, l)
  {
    exists p :: IsPlace(items, l, items[n], p) && l' == InsertAt(l, p, n) && next == At(l, p)
  }

  lemma JoinedFacts(items: seq<Item>, l: seq<nat>, l': seq<nat>, n: nat, next: Ref)
    requires n < |items| && Ascending(items, l) && Joined(items, l, l', n, next)
    ensures n in l' && NextOn(l, next) && Follows(items, next, items[n]) && (forall m | m in l :: m in l')
  {
    var p :| IsPlace(items, l, items[n], p) && l' == InsertAt(l, p, n) && next == At(l, p);
    forall m
      ensures m in l' <==> m in l || m == n
    {
    }
  }

  /** Old and new levels around an insertion: the node is in those below `height`. */
  ghost predicate Grown(items: seq<Item>, levels: seq<seq<nat>>, levels': seq<seq<nat>>, n: nat, height: nat, next: seq<Ref>) {
    && |levels| == |levels'| && height <= |levels| && height <= |next| && n < |items|
    && (forall j | 0 <= j < |levels| :: Ascending(items, levels[j]))
    && (forall j | 0 <= j < height :: Joined(items, levels[j], levels'[j], n, next[j]))
    && (forall j | height <= j < |levels| :: levels'[j] == levels[j])
  }

  ghost predicate GrownBy(items: seq<Item>, levels: seq<seq<nat>>, levels': seq<seq<nat>>, n: nat, height: nat) {
    exists next :: Grown(items, levels, levels', n, height, next)
  }

  /** Other splices stay usable when nodes are added. */
  lemma SpliceStays(items: seq<Item>, levels: seq<seq<nat>>, levels': seq<seq<nat>>, n: nat, height: nat, next: seq<Ref>, sp: Splice)
    requires Grown(items, levels, levels', n, height, next) && SpliceOk(items, levels, sp)
    ensures SpliceOk(items, levels', sp)
  {
    if sp.height > 0 {
      forall i | 0 <= i < sp.height
        ensures StepOk(items, levels', sp, i)
      {
        assert StepOk(items, levels, sp, i);
        if i < height {
          JoinedFacts(items, levels[i], levels'[i], n, next[i]);
        }
      }
    }
  }

  /** The splice of the insertion itself, with the new node before its place. */
  function Behind(sp: Splice, height: nat, n: nat): Splice
    requires height <= |sp.prev|
  {
    sp.(prev := seq(|sp.prev|, i requires 0 <= i < |sp.prev| => if i < height then Node(n) else sp.prev[i]))
  }

  lemma BehindStep(items: seq<Item>, levels: seq<seq<nat>>, levels': seq<seq<nat>>, n: nat,
                   height: nat, old': Splice, sp: Splice, i: nat)
    requires Grown(items, levels, levels', n, height, sp.next)
    requires forall j | 0 <= j < |levels| - 1 :: Contained(levels[j], levels[j + 1])
    requires Sized(levels, old') && Sized(levels, sp) && sp.height == old'.height && 0 < height <= sp.height && i < sp.height
    requires UpperOk(items, levels, old', 0) && Brackets(items, old', 0, items[n])
    requires forall j | height <= j < |sp.prev| :: sp.prev[j] == old'.prev[j] && sp.next[j] == old'.next[j]
    ensures StepOk(items, levels', Behind(sp, height, n), i)
  {
    var x := items[n];
    BracketsUp(items, levels, old', 0, i, x);
    BracketsUp(items, levels, old', 0, i + 1, x);
    assert StepOk(items, levels, old', i);
    if i < height {
      JoinedFacts(items, levels[i], levels'[i], n, sp.next[i]);
      if i + 1 < height {
        JoinedFacts(items, levels[i + 1], levels'[i + 1], n, sp.next[i + 1]);
      } else if i + 1 < sp.height {
        assert StepOk(items, levels, old', i + 1);
      }
    }
  }

  // ------------------------------------------------------------ the list

  class SkipList {
    var items: seq<Item>
    var links: seq<map<Ref, Ref>>
    var maxHeight: nat
    var splice: Splice
    ghost var levels: seq<seq<nat>>

    ghost predicate Valid()
      reads this
    {
      && LevelsOk(items, links, levels)
      && 1 <= maxHeight <= |levels|
      && (forall i | maxHeight <= i < |levels| :: levels[i] == [])
      && SpliceOk(items, levels, splice) && splice.height <= maxHeight
    }

    /** The records of the list in order. */
    ghost function Contents(): seq<Item>
      requires Valid()
      reads this
    {
      ItemsOf(items, levels[0])
    }

    constructor (height: nat)
      requires height > 0
      ensures Valid() && Contents() == [] && |levels| == height
    {
      items, maxHeight := [], 1;
      links := seq(height, _ => map[Head := Nil]);
      levels := seq(height, _ => []);
      splice := Splice(0, seq(height + 1, _ => Nil), seq(height + 1, _ => Nil));
      EmptyLinked();
    }

    predicate KeyIsAfterNode(x: Item, r: Ref)
      reads this
    {
      r.Node? && r.n < |items| && Before(items[r.n], x)
    }

    /** Walks one level from a node before the record to its place. */
    method FindSpliceForLevel(x: Item, before: Ref, after: Ref, level: nat) returns (prev: Ref, next: Ref, ghost p: nat)
      requires LevelsOk(items, links, levels) && level < |levels|
      requires OnLevel(levels[level], before) && Precedes(items, before, x) && Follows(items, after, x)
      ensures IsPlace(items, levels[level], x, p) && prev == Up(levels[level], p) && next == At(levels[level], p)
    {
      ghost var l := levels[level];
      p := OnLevelAt(l, before);
      var b := before;
      while true
        invariant p <= |l| && b == Up(l, p) && Precedes(items, b, x)
        decreases |l| - p
      {
        next := links[level][b];
        if next == after || !KeyIsAfterNode(x, next) {
          PlaceAt(items, l, x, p);
          return b, next, p;
        }
        b, p := next, p + 1;
      }
    }

    /** Finds the record's neighbours at the levels below `r`, from those at `r`. */
    method RecomputeSpliceLevels(x: Item, sp: Splice, r: nat) returns (sp': Splice)
      requires LevelsOk(items, links, levels) && Sized(levels, sp) && r <= sp.height
      requires UpperOk(items, levels, sp, r) && Brackets(items, sp, r, x)
      ensures Sized(levels, sp') && sp'.height == sp.height && UpperOk(items, levels, sp', 0) && Brackets(items, sp', 0, x)
      ensures forall i | 0 <= i < r :: Tight(items, levels[i], sp'.prev[i], sp'.next[i], x)
      ensures forall i | r <= i < |sp.prev| :: sp'.prev[i] == sp.prev[i] && sp'.next[i] == sp.next[i]
    {
      sp' := sp;
      var i: nat := r;
      while i > 0
        invariant i <= r && Sized(levels, sp') && sp'.height == sp.height
        invariant UpperOk(items, levels, sp', i) && Brackets(items, sp', i, x)
        invariant forall j | i <= j < r :: Tight(items, levels[j], sp'.prev[j], sp'.next[j], x)
        invariant forall j | r <= j < |sp.prev| :: sp'.prev[j] == sp.prev[j] && sp'.next[j] == sp.next[j]
      {
        i := i - 1;
        sp' := RecomputeLevel(x, sp', i);
      }
    }

    /** Finds the record's neighbours at one level, from those above. */
    method RecomputeLevel(x: Item, sp: Splice, i: nat) returns (sp': Splice)
      requires LevelsOk(items, links, levels) && Sized(levels, sp) && i < sp.height
      requires UpperOk(items, levels, sp, i + 1) && Brackets(items, sp, i + 1, x)
      ensures Sized(levels, sp') && sp'.height == sp.height && UpperOk(items, levels, sp', i) && Brackets(items, sp', i, x)
      ensures Tight(items, levels[i], sp'.prev[i], sp'.next[i], x)
      ensures sp' == SetLevel(sp, i, sp'.prev[i], sp'.next[i])
    {
      AboveIsOn(items, links, levels, sp, i);
      var prev, next, p := FindSpliceForLevel(x, sp.prev[i + 1], sp.next[i + 1], i);
      LowerStep(items, levels, sp, i, x, p);
      sp' := SetLevel(sp, i, prev, next);
    }

    /** The lowest level from which the splice can be trusted to bracket the record. */
    method RecomputeHeight(x: Item, sp: Splice, partial: bool) returns (r: nat)
      requires LevelsOk(items, links, levels) && Sized(levels, sp) && UpperOk(items, levels, sp, 0)
      ensures r <= sp.height && Brackets(items, sp, r, x)
    {
      r := 0;
      while r < sp.height
        invariant r <= sp.height
        decreases sp.height - r
      {
        assert StepOk(items, levels, sp, r);
        OnLevelLinked(links[r], levels[r], sp.prev[r]);
        if links[r][sp.prev[r]] != sp.next[r] {
          r := r + 1;
        } else if sp.prev[r] != Head && !KeyIsAfterNode(x, sp.prev[r]) {
          r := SkipPrev(sp, r, partial);
        } else if KeyIsAfterNode(x, sp.next[r]) {
          r := SkipNext(sp, r, partial);
        } else {
          return;
        }
      }
    }

    /** The record's neighbours at a level: those of the splice, or found from them if the splice is not tight. */
    method Neighbours(x: Item, sp: Splice, i: nat, r: nat) returns (prev: Ref, next: Ref, ghost p: nat)
      requires LevelsOk(items, links, levels) && Sized(levels, sp) && i < |levels|
      requires OnLevel(levels[i], sp.prev[i]) && Brackets(items, sp, i, x)
      requires i < r ==> Tight(items, levels[i], sp.prev[i], sp.next[i], x)
      ensures IsPlace(items, levels[i], x, p) && prev == Up(levels[i], p) && next == At(levels[i], p)
    {
      assert Linked(links[i], levels[i]) && Ascending(items, levels[i]);
      OnLevelLinked(links[i], levels[i], sp.prev[i]);
      if i >= r && links[i][sp.prev[i]] != sp.next[i] {
        prev, next, p := FindSpliceForLevel(x, sp.prev[i], Nil, i);
        return;
      }
      if i >= r {
        LinkedIsTight(items, links[i], levels[i], sp.prev[i], sp.next[i], x);
      }
      prev, next := sp.prev[i], sp.next[i];
      p :| IsPlace(items, levels[i], x, p) && prev == Up(levels[i], p) && next == At(levels[i], p);
    }

    /** Links a node in at one level. */
    method LinkAt(n: nat, i: nat, prev: Ref, next: Ref, ghost p: nat)
      requires LevelsOk(items, links, levels) && i < |levels| && n < |items| && n !in levels[i]
      requires i > 0 ==> n in levels[i - 1]
      requires IsPlace(items, levels[i], items[n], p) && prev == Up(levels[i], p) && next == At(levels[i], p)
      requires p < |levels[i]| ==> !Same(items[levels[i][p]], items[n])
      modifies this`links, this`levels
      ensures LevelsOk(items, links, levels)
      ensures links == old(links)[i := LinkIn(old(links)[i], prev, next, n)]
      ensures levels == old(levels)[i := InsertAt(old(levels)[i], p, n)]
    {
      LinkLevel(items, links, levels, i, n, p);
      links := links[i := LinkIn(links[i], prev, next, n)];
      levels := levels[i := InsertAt(levels[i], p, n)];
    }

    /** What linking a node level by level starts from: a splice that brackets it, tight below `r`. */
    ghost predicate Ready(before: seq<seq<nat>>, n: nat, sp: Splice, r: nat)
      reads this
    {
      && |before| > 0 && n < |items| && Sized(before, sp)
      && (forall j | 0 <= j < |before| :: Ascending(items, before[j]) && n !in before[j])
      && (forall j | 0 <= j < |before| - 1 :: Contained(before[j], before[j + 1]))
      && NoSame(items, before[0], items[n]) && UpperOk(items, before, sp, 0) && Brackets(items, sp, 0, items[n])
      && (forall i | 0 <= i < r && i < |before| :: Tight(items, before[i], sp.prev[i], sp.next[i], items[n]))
    }

    /** How far the linking of a node has come: done below level `i`, and the splice as it was from there. */
    ghost predicate Underway(before: seq<seq<nat>>, n: nat, first: Splice, r: nat, i: nat, sp: Splice)
      reads this
    {
      && LevelsOk(items, links, levels) && Ready(before, n, first, r)
      && Sized(levels, sp) && sp.height == first.height && Grown(items, before, levels, n, i, sp.next)
      && (forall j | i <= j < |first.prev| :: sp.prev[j] == first.prev[j] && sp.next[j] == first.next[j])
    }

    /** Links a node in at the next level, where its place has been found. */
    method LinkFound(n: nat, i: nat, sp: Splice, r: nat, prev: Ref, next: Ref, ghost p: nat,
                     ghost before: seq<seq<nat>>, ghost first: Splice) returns (sp': Splice)
      requires Underway(before, n, first, r, i, sp) && i < first.height
      requires IsPlace(items, before[i], items[n], p) && prev == Up(before[i], p) && next == At(before[i], p)
      modifies this`links, this`levels
      ensures Underway(before, n, first, r, i + 1, sp')
    {
      if i > 0 {
        JoinedFacts(items, before[i - 1], levels[i - 1], n, sp.next[i - 1]);
      }
      NotSameAt(items, before, i, p, items[n]);
      LinkAt(n, i, prev, next, p);
      sp' := SetLevel(sp, i, prev, next);
      GrownNext(items, before, old(levels), levels, n, i, p, sp.next, sp'.next);
    }

    /** Links a node in at the next level. */
    method LinkNext(n: nat, i: nat, sp: Splice, r: nat, ghost before: seq<seq<nat>>, ghost first: Splice) returns (sp': Splice)
      requires Underway(before, n, first, r, i, sp) && i < first.height
      modifies this`links, this`levels
      ensures Underway(before, n, first, r, i + 1, sp')
    {
      BracketsUp(items, before, first, 0, i, items[n]);
      assert StepOk(items, before, first, i);
      var prev, next, p := Neighbours(items[n], sp, i, r);
      sp' := LinkFound(n, i, sp, r, prev, next, p, before, first);
    }

    /** Links a node in at its remaining levels, from the bottom up. */
    method LinkRest(n: nat, height: nat, sp: Splice, r: nat, ghost before: seq<seq<nat>>, ghost first: Splice) returns (sp': Splice)
      requires Underway(before, n, first, r, 1, sp) && 1 <= height <= first.height
      modifies this`links, this`levels
      ensures Underway(before, n, first, r, height, sp')
    {
      sp' := sp;
      for i := 1 to height
        invariant Underway(before, n, first, r, i, sp')
      {
        sp' := LinkNext(n, i, sp', r, before, first);
      }
    }

    /** A splice as high as the list that brackets the record, and the level below which it is tight. */
    method Prepare(x: Item, sp: Splice, partial: bool) returns (sp': Splice, r: nat)
      requires LevelsOk(items, links, levels) && 1 <= maxHeight <= |levels|
      requires SpliceOk(items, levels, sp) && sp.height <= maxHeight
      ensures Sized(levels, sp') && sp'.height == maxHeight && UpperOk(items, levels, sp', 0) && Brackets(items, sp', 0, x)
      ensures forall i | 0 <= i < r && i < |levels| :: Tight(items, levels[i], sp'.prev[i], sp'.next[i], x)
    {
      sp', r := sp, maxHeight;
      if sp.height < maxHeight {
        sp' := SetLevel(sp, maxHeight, Head, Nil).(height := maxHeight);
      } else {
        r := RecomputeHeight(x, sp, partial);
        AboveOk(items, levels, sp, r);
      }
      if r > 0 {
        sp' := RecomputeSpliceLevels(x, sp', r);
      }
    }

    /** Links a new node in at its levels, unless the bottom level has its record. */
    method LinkNew(n: nat, height: nat, first: Splice, r: nat) returns (ok: bool, sp': Splice)
      requires LevelsOk(items, links, levels) && |levels| > 0 && n < |items| && 1 <= height <= first.height
      requires Sized(levels, first) && UpperOk(items, levels, first, 0) && Brackets(items, first, 0, items[n])
      requires forall i | 0 <= i < |levels| :: n !in levels[i]
      requires forall i | 0 <= i < r && i < |levels| :: Tight(items, levels[i], first.prev[i], first.next[i], items[n])
      modifies this`links, this`levels
      ensures LevelsOk(items, links, levels) && sp'.height == first.height && SpliceOk(items, levels, sp')
      ensures ok <==> NoSame(items, old(levels)[0], items[n])
      ensures if ok then GrownBy(items, old(levels), levels, n, height) else levels == old(levels)
    {
      assert StepOk(items, levels, first, 0);
      var prev, next, p := Neighbours(items[n], first, 0, r);
      NoSameUnlessAt(items, levels[0], items[n], p);
      ok := !Duplicate(n, prev, next);
      if ok {
        ghost var before := levels;
        sp' := LinkFound(n, 0, first, r, prev, next, p, before, first);
        sp' := LinkRest(n, height, sp', r, before, first);
        BehindOk(items, before, levels, n, height, first, sp');
        sp' := Behind(sp', height, n);
      } else {
        BottomStep(items, links, levels, first, items[n], p);
        sp' := SetLevel(first, 0, prev, next);
      }
    }

    /** Adds a record through a splice of the caller's; any other splice stays usable. */
    method InsertThrough(x: Item, height: nat, sp: Splice, partial: bool, ghost other: Splice) returns (ok: bool, sp': Splice)
      requires Valid() && 1 <= height <= |levels| && SpliceOk(items, levels, sp) && sp.height <= maxHeight
      requires SpliceOk(items, levels, other)
      modifies this`items, this`links, this`levels, this`maxHeight
      ensures Valid() && SpliceOk(items, levels, sp') && sp'.height == maxHeight && |levels| == |old(levels)|
      ensures ok <==> !Holds(old(Contents()), x)
      ensures if ok then PlacedIn(old(Contents()), x, Contents()) else Contents() == old(Contents())
      ensures SpliceOk(items, levels, other)
    {
      ghost var before, held := levels, items;
      ok, sp' := Place(x, height, sp, partial);
      Outcome(held, before, levels, x, height, ok);
      SpliceThrough(held, before, levels, x, height, ok, other);
      SpliceThrough(held, before, levels, x, height, ok, splice);
    }

    /** Finds the place of a record and links it in, unless it is there already. */
    method Place(x: Item, height: nat, sp: Splice, partial: bool) returns (ok: bool, sp': Splice)
      requires Valid() && 1 <= height <= |levels| && SpliceOk(items, levels, sp) && sp.height <= maxHeight
      modifies this`items, this`links, this`levels, this`maxHeight
      ensures items == old(items) + [x] && maxHeight == if height > old(maxHeight) then height else old(maxHeight)
      ensures LevelsOk(items, links, levels) && |levels| == |old(levels)| && sp'.height == maxHeight && SpliceOk(items, levels, sp')
      ensures ok <==> NoSame(items, old(levels)[0], x)
      ensures if ok then GrownBy(items, old(levels), levels, |old(items)|, height) else levels == old(levels)
    {
      var n := |items|;
      MoreItemsSplice(items, levels, sp, x);
      NewOnNoLevel(items, levels);
      Allocate(x, height);
      var first, r := Prepare(x, sp, partial);
      ok, sp' := LinkNew(n, height, first, r);
    }

    /** Makes room for a node: its record, and levels up to its height. */
    method Allocate(x: Item, height: nat)
      requires Valid() && height <= |levels|
      modifies this`items, this`maxHeight
      ensures LevelsOk(items, links, levels) && items == old(items) + [x]
      ensures maxHeight == if height > old(maxHeight) then height else old(maxHeight)
    {
      MoreItems(items, links, levels, x);
      items := items + [x];
      if height > maxHeight {
        maxHeight := height;
      }
    }

    /** Adds a record through the list's own splice. */
    method Insert(x: Item, height: nat) returns (ok: bool)
      requires Valid() && 1 <= height <= |levels|
      modifies this
      ensures Valid() && |levels| == |old(levels)|
      ensures ok <==> !Holds(old(Contents()), x)
      ensures if ok then PlacedIn(old(Contents()), x, Contents()) else Contents() == old(Contents())
    {
      var sp;
      ok, sp := InsertThrough(x, height, splice, false, splice);
      splice := sp;
    }

    /** Finds the first record that is not before the given one. */
    method FindGreaterOrEqual(x: Item) returns (found: Ref, ghost p: nat)
      requires Valid()
      ensures IsPlace(items, levels[0], x, p) && found == At(levels[0], p)
    {
      var at: Ref, level: nat, bigger: Ref := Head, maxHeight - 1, Nil;
      ghost var q: nat := 0;
      while true
        invariant level < |levels| && q <= |levels[level]| && at == Up(levels[level], q)
        invariant Precedes(items, at, x) && Follows(items, bigger, x)
        decreases level, |levels[level]| - q
      {
        assert Linked(links[level], levels[level]) && Ascending(items, levels[level]);
        var next := links[level][at];
        var sign := if next == Nil || next == bigger then 1 else Compare(items[next.n], x);
        SignIs(items, next, bigger, x, sign);
        if sign == 0 {
          p := SameBelow(items, links, levels, level, q, x);
          return next, p;
        } else if sign > 0 && level == 0 {
          PlaceAt(items, levels[0], x, q);
          return next, q;
        } else if sign < 0 {
          at, q := next, q + 1;
        } else {
          bigger, level := next, level - 1;
          q := OnLevelAt(levels[level], at);
        }
      }
    }

    /** The node after a given one, at the bottom. */
    method Step(at: Ref, ghost p: nat) returns (next: Ref)
      requires Valid() && p < |levels[0]| && at == At(levels[0], p)
      ensures next == At(levels[0], p + 1)
    {
      assert Linked(links[0], levels[0]) && Up(levels[0], p + 1) == at;
      next := links[0][at];
    }

    /** The record of a node at the bottom. */
    function ItemAt(at: Ref, ghost p: nat): (x: Item)
      requires Valid() && p < |levels[0]| && at == At(levels[0], p)
      reads this
      ensures x == Contents()[p]
    {
      assert Ascending(items, levels[0]);
      items[at.n]
    }

    /** The record next to its place is the same. */
    predicate Duplicate(n: nat, prev: Ref, next: Ref)
      requires n < |items| && (prev.Node? ==> prev.n < |items|) && (next.Node? ==> next.n < |items|)
      reads this
    {
      || (next.Node? && Compare(items[n], items[next.n]) >= 0)
      || (prev.Node? && Compare(items[prev.n], items[n]) >= 0)
    }

    /** Moves up past a node that is not before the record. */
    method SkipPrev(sp: Splice, r: nat, partial: bool) returns (r': nat)
      requires Sized(levels, sp) && r < sp.height && sp.prev[r] != Head && sp.prev[sp.height] == Head
      ensures r < r' <= sp.height
    {
      if !partial {
        return sp.height;
      }
      var bad := sp.prev[r];
      r' := r + 1;
      while sp.prev[r'] == bad
        invariant r < r' <= sp.height
        decreases sp.height - r'
      {
        r' := r' + 1;
      }
    }

    /** Moves up past a node that is before the record. */
    method SkipNext(sp: Splice, r: nat, partial: bool) returns (r': nat)
      requires Sized(levels, sp) && r < sp.height && sp.next[r] != Nil && sp.next[sp.height] == Nil
      ensures r < r' <= sp.height
    {
      if !partial {
        return sp.height;
      }
      var bad := sp.next[r];
      r' := r + 1;
      while sp.next[r'] == bad
        invariant r < r' <= sp.height
        decreases sp.height - r'
      {
        r' := r' + 1;
      }
    }
  }

  lemma GrownNext(items: seq<Item>, before: seq<seq<nat>>, now: seq<seq<nat>>, after: seq<seq<nat>>, n: nat, i: nat, p: nat,
                  next: seq<Ref>, next': seq<Ref>)
    requires Grown(items, before, now, n, i, next) && i < |before| && i < |next| == |next'|
    requires IsPlace(items, before[i], items[n], p) && after == now[i := InsertAt(before[i], p, n)]
    requires next' == next[i := At(before[i], p)]
    ensures Grown(items, before, after, n, i + 1, next')
  {
    forall j | 0 <= j < i + 1
      ensures Joined(items, before[j], after[j], n, next'[j])
    {
      if j < i {
        assert Joined(items, before[j], now[j], n, next[j]);
      }
    }
  }

  /** A record is in a level exactly if it is at its place. */
  lemma NoSameUnlessAt(items: seq<Item>, l: seq<nat>, x: Item, p: nat)
    requires Ascending(items, l) && IsPlace(items, l, x, p)
    ensures NoSame(items, l, x) <==> !(p < |l| && Same(items[l[p]], x))
    ensures p < |l| ==> (Compare(x, items[l[p]]) >= 0 <==> Same(items[l[p]], x))
    ensures p > 0 ==> Compare(items[l[p - 1]], x) < 0
  {
    forall i | 0 <= i < |l| && Same(items[l[i]], x)
      ensures i == p
    {
      SameIsAtPlace(items, l, x, p, i);
    }
    if p < |l| {
      CompareIsOrder(x, items[l[p]]);
      BeforeTotal(items[l[p]], x);
    }
    if p > 0 {
      CompareIsOrder(items[l[p - 1]], x);
    }
  }

  /** What the sign of a comparison in a search says. */
  lemma SignIs(items: seq<Item>, next: Ref, bigger: Ref, x: Item, sign: int)
    requires next != Head && (next.Node? ==> next.n < |items|) && Follows(items, bigger, x)
    requires sign == if next == Nil || next == bigger then 1 else Compare(items[next.n], x)
    ensures sign == 0 ==> next.Node? && Same(items[next.n], x)
    ensures sign < 0 <==> Precedes(items, next, x)
    ensures sign >= 0 <==> Follows(items, next, x)
  {
    if next.Node? {
      CompareIsOrder(items[next.n], x);
      BeforeTotal(items[next.n], x);
    }
  }

  /** The same record higher up is at the record's place at the bottom. */
  lemma {:induction false} SameBelow(items: seq<Item>, links: seq<map<Ref, Ref>>, levels: seq<seq<nat>>, i: nat, q: nat, x: Item) returns (p: nat)
    requires LevelsOk(items, links, levels) && i < |levels| && q < |levels[i]|
    requires levels[i][q] < |items| && Same(items[levels[i][q]], x)
    ensures Ascending(items, levels[0]) && IsPlace(items, levels[0], x, p) && At(levels[0], p) == Node(levels[i][q])
  {
    assert Ascending(items, levels[0]);
    InBottom(levels, i, levels[i][q]);
    p :| 0 <= p < |levels[0]| && levels[0][p] == levels[i][q];
    BeforeTotal(items[levels[0][p]], x);
    PlaceAt(items, levels[0], x, p);
  }

  // ------------------------------------------------------------ contents

  /** A record with the same key and tag is in the sequence. */
  ghost predicate Holds(s: seq<Item>, x: Item) {
    exists i :: 0 <= i < |s| && Same(s[i], x)
  }

  ghost predicate SortedItems(s: seq<Item>) {
    forall i, j | 0 <= i < j < |s| :: Before(s[i], s[j])
  }

  /** The sequence with the record put in where it stays sorted. */
  ghost predicate PlacedIn(s: seq<Item>, x: Item, s': seq<Item>) {
    SortedItems(s') && exists p :: 0 <= p <= |s| && s' == s[..p] + [x] + s[p..]
  }

  lemma HoldsIffSame(items: seq<Item>, l: seq<nat>, x: Item)
    requires Ascending(items, l)
    ensures Holds(ItemsOf(items, l), x) <==> !NoSame(items + [x], l, x)
  {
    var s := ItemsOf(items, l);
    if !NoSame(items + [x], l, x) {
      var i :| 0 <= i < |l| && Same(items[l[i]], x);
      assert Same(s[i], x);
    }
  }

  lemma NewOnNoLevel(items: seq<Item>, levels: seq<seq<nat>>)
    requires forall i | 0 <= i < |levels| :: Ascending(items, levels[i])
    ensures forall i | 0 <= i < |levels| :: |items| !in levels[i]
  {
    forall i | 0 <= i < |levels|
      ensures |items| !in levels[i]
    {
      assert Ascending(items, levels[i]);
    }
  }

  /** What a node's joining the bottom level does to the contents. */
  lemma GrownContents(items: seq<Item>, l: seq<nat>, l': seq<nat>, x: Item, next: Ref)
    requires Ascending(items, l) && Ascending(items + [x], l) && Joined(items + [x], l, l', |items|, next)
    requires Ascending(items + [x], l')
    ensures PlacedIn(ItemsOf(items, l), x, ItemsOf(items + [x], l'))
  {
    var all, n := items + [x], |items|;
    var p: nat :| IsPlace(all, l, all[n], p) && l' == InsertAt(l, p, n) && next == At(l, p);
    var s, s' := ItemsOf(items, l), ItemsOf(all, l');
    assert s' == s[..p] + [x] + s[p..];
  }

  /** What an insertion does to the contents, to empty levels and to splices. */
  lemma Outcome(items: seq<Item>, levels: seq<seq<nat>>, levels': seq<seq<nat>>, x: Item, height: nat, ok: bool)
    requires |levels| > 0 && height > 0 && Ascending(items, levels[0])
    requires |levels'| == |levels| && Ascending(items + [x], levels'[0])
    requires ok <==> NoSame(items + [x], levels[0], x)
    requires if ok then GrownBy(items + [x], levels, levels', |items|, height) else levels' == levels
    ensures ok <==> !Holds(ItemsOf(items, levels[0]), x)
    ensures var s, s' := ItemsOf(items, levels[0]), ItemsOf(items + [x], levels'[0]);
            if ok then PlacedIn(s, x, s') else s' == s
    ensures forall i | height <= i < |levels| && levels[i] == [] :: levels'[i] == []
  {
    HoldsIffSame(items, levels[0], x);
    if ok {
      var next :| Grown(items + [x], levels, levels', |items|, height, next);
      GrownContents(items, levels[0], levels'[0], x, next[0]);
    }
  }

  /** A splice stays usable through an insertion that it has nothing to do with. */
  lemma SpliceThrough(items: seq<Item>, levels: seq<seq<nat>>, levels': seq<seq<nat>>, x: Item, height: nat, ok: bool, sp: Splice)
    requires if ok then GrownBy(items + [x], levels, levels', |items|, height) else levels' == levels
    requires SpliceOk(items, levels, sp)
    ensures SpliceOk(items + [x], levels', sp)
  {
    MoreItemsSplice(items, levels, sp, x);
    if ok {
      var next :| Grown(items + [x], levels, levels', |items|, height, next);
      SpliceStays(items + [x], levels, levels', |items|, height, next, sp);
    }
  }

  /** From any level up a splice is as it is from the bottom. */
  lemma AboveOk(items: seq<Item>, levels: seq<seq<nat>>, sp: Splice, r: nat)
    requires Sized(levels, sp) && UpperOk(items, levels, sp, 0) && r <= sp.height
    ensures UpperOk(items, levels, sp, r)
  {
  }

  /** Narrowing the bottom level to the record's place keeps the splice usable. */
  lemma BottomStep(items: seq<Item>, links: seq<map<Ref, Ref>>, levels: seq<seq<nat>>, sp: Splice, x: Item, p: nat)
    requires LevelsOk(items, links, levels) && Sized(levels, sp) && 0 < sp.height && UpperOk(items, levels, sp, 0)
    requires Brackets(items, sp, 0, x) && IsPlace(items, levels[0], x, p)
    ensures SpliceOk(items, levels, SetLevel(sp, 0, Up(levels[0], p), At(levels[0], p)))
  {
    BracketsUp(items, levels, sp, 0, 1, x);
    AboveOk(items, levels, sp, 1);
    AboveIsOn(items, links, levels, sp, 0);
    LowerStep(items, levels, sp, 0, x, p);
  }

  lemma BehindOk(items: seq<Item>, levels: seq<seq<nat>>, levels': seq<seq<nat>>, n: nat, height: nat, first: Splice, sp: Splice)
    requires Grown(items, levels, levels', n, height, sp.next)
    requires forall j | 0 <= j < |levels| - 1 :: Contained(levels[j], levels[j + 1])
    requires Sized(levels, first) && Sized(levels, sp) && sp.height == first.height && 0 < height <= sp.height
    requires UpperOk(items, levels, first, 0) && Brackets(items, first, 0, items[n])
    requires forall j | height <= j < |sp.prev| :: sp.prev[j] == first.prev[j] && sp.next[j] == first.next[j]
    ensures SpliceOk(items, levels', Behind(sp, height, n)) && Behind(sp, height, n).height == sp.height
  {
    forall i | 0 <= i < sp.height
      ensures StepOk(items, levels', Behind(sp, height, n), i)
    {
      BehindStep(items, levels, levels', n, height, first, sp, i);
    }
  }

  lemma NotSameAt(items: seq<Item>, levels: seq<seq<nat>>, i: nat, p: nat, x: Item)
    requires i < |levels| && NoSame(items, levels[0], x) && (forall j | 0 <= j < |levels| :: Ascending(items, levels[j]))
    requires forall j | 0 <= j < |levels| - 1 :: Contained(levels[j], levels[j + 1])
    ensures p < |levels[i]| ==> levels[i][p] < |items| && !Same(items[levels[i][p]], x)
  {
    if p < |levels[i]| {
      assert Ascending(items, levels[i]);
      InBottom(levels, i, levels[i][p]);
      var k :| 0 <= k < |levels[0]| && levels[0][k] == levels[i][p];
    }
  }

  ghost function ItemsOf(items: seq<Item>, l: seq<nat>): (r: seq<Item>)
    requires forall i | 0 <= i < |l| :: l[i] < |items|
    ensures |r| == |l|
  {
    seq(|l|, i requires 0 <= i < |l| => items[l[i]])
  }

  lemma OnLevelAt(l: seq<nat>, r: Ref) returns (p: nat)
    requires OnLevel(l, r)
    ensures p <= |l| && r == Up(l, p)
  {
    if r == Head {
      p := 0;
    } else {
      var i :| 0 <= i < |l| && l[i] == r.n;
      p := i + 1;
    }
  }
}
