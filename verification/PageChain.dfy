// A page with at most one overflow page: a batch of records written to the two, and lookups.
module PageChain {
  import opened Bytes
  import opened Coding
  import opened PackedMap

  datatype Rec = Rec(key: Bytestring, value: Bytestring)

  /** A page of a segment, and its overflow page if it has one. */
  datatype Pages = Pages(main: Sheet, over: Option<Sheet>)

  /** A lookup tries the page first. */
  function Get(c: Pages, k: Bytestring): Option<Bytestring> {
    if k in c.main.contents then Some(c.main.contents[k])
    else if c.over.Some? && k in c.over.value.contents then Some(c.over.value.contents[k])
    else None
  }

  // ------------------------------------------------------------ batches

  /** The last value of each key of a batch. */
  function Last(rs: seq<Rec>): map<Bytestring, Bytestring> {
    if |rs| == 0 then map[] else Last(rs[..|rs| - 1])[rs[|rs| - 1].key := rs[|rs| - 1].value]
  }

  function PutAll(s: Sheet, rs: seq<Rec>): Sheet {
    if |rs| == 0 then s else PutAll(s, rs[..|rs| - 1]).Put(rs[|rs| - 1].key, rs[|rs| - 1].value)
  }

  /** How many records of a batch fit on a page before the first one that does not. */
  function Fitting(s: Sheet, rs: seq<Rec>): (n: nat)
    ensures n <= |rs|
    decreases |rs|
  {
    if |rs| == 0 || !s.Fits(rs[0].key, rs[0].value) then 0
    else 1 + Fitting(s.Put(rs[0].key, rs[0].value), rs[1..])
  }

  lemma PutNext(s: Sheet, rs: seq<Rec>, i: nat)
    requires i < |rs|
    ensures PutAll(s, rs[..i + 1]) == PutAll(s, rs[..i]).Put(rs[i].key, rs[i].value)
    ensures Last(rs[..i + 1]) == Last(rs[..i])[rs[i].key := rs[i].value]
  {
    assert rs[..i + 1][..i] == rs[..i];
  }

  lemma {:induction false} PutFirst(s: Sheet, rs: seq<Rec>)
    requires |rs| > 0
    ensures PutAll(s, rs) == PutAll(s.Put(rs[0].key, rs[0].value), rs[1..])
    decreases |rs|
  {
    if |rs| > 1 {
      PutFirst(s, rs[..|rs| - 1]);
      assert rs[..|rs| - 1][1..] == rs[1..][..|rs| - 2];
    }
  }

  /** The records before the first that does not fit all fit, and that one does not. */
  lemma {:induction false} FittingIs(s: Sheet, rs: seq<Rec>, i: nat)
    requires i <= Fitting(s, rs)
    ensures i < |rs| ==> (PutAll(s, rs[..i]).Fits(rs[i].key, rs[i].value) <==> i < Fitting(s, rs))
    decreases i
  {
    if i > 0 {
      FittingIs(s.Put(rs[0].key, rs[0].value), rs[1..], i - 1);
      PutFirst(s, rs[..i]);
      assert rs[..i][1..] == rs[1..][..i - 1];
    }
  }

  /** As long as all records fit, the page holds the last value of each. */
  lemma {:induction false} PutAllContents(s: Sheet, rs: seq<Rec>, i: nat)
    requires i <= Fitting(s, rs)
    ensures PutAll(s, rs[..i]).contents == s.contents + Last(rs[..i])
    decreases i
  {
    if i > 0 {
      PutAllContents(s, rs, i - 1);
      FittingIs(s, rs, i - 1);
      PutNext(s, rs, i - 1);
    }
  }

  // ------------------------------------------------------------ writing a batch

  /** The overflow page that a batch goes on to. */
  function OverflowOf(c: Pages, blank: Sheet): Sheet {
    if c.over.Some? then c.over.value else blank
  }

  /** How many records of a batch get written. */
  function Written(c: Pages, blank: Sheet, rs: seq<Rec>, noOverflow: bool): nat {
    var j := Fitting(c.main, rs);
    if j == |rs| || noOverflow then j else j + Fitting(OverflowOf(c, blank), rs[j..])
  }

  /** What a batch leaves: the records that fit on the page, and from then on those that fit on the overflow page. */
  function After(c: Pages, blank: Sheet, rs: seq<Rec>, noOverflow: bool): Pages {
    var j, over := Fitting(c.main, rs), OverflowOf(c, blank);
    Pages(PutAll(c.main, rs[..j]),
          if j == |rs| || noOverflow then c.over else Some(Filled(over, rs[j..])))
  }

  /** The page with as many records of a batch as fit. */
  function Filled(s: Sheet, rs: seq<Rec>): Sheet {
    PutAll(s, rs[..Fitting(s, rs)])
  }

  lemma FilledContents(s: Sheet, rs: seq<Rec>)
    ensures Filled(s, rs).contents == s.contents + Last(rs[..Fitting(s, rs)])
  {
    PutAllContents(s, rs, Fitting(s, rs));
  }

  /** How far a batch has come: on the page, or on the overflow page from the first record that did not fit. */
  ghost predicate Underway(c: Pages, blank: Sheet, rs: seq<Rec>, c': Pages, spilled: bool, done: nat) {
    var j, over := Fitting(c.main, rs), OverflowOf(c, blank);
    if spilled then
      && j < |rs| && j <= done <= |rs| && c'.main == PutAll(c.main, rs[..j])
      && done - j <= Fitting(over, rs[j..]) && c'.over == Some(PutAll(over, rs[j..][..done - j]))
    else
      done <= j && c'.main == PutAll(c.main, rs[..done]) && c'.over == c.over
  }

  lemma {:induction false} UnderwayMain(c: Pages, blank: Sheet, rs: seq<Rec>, c': Pages, done: nat)
    requires Underway(c, blank, rs, c', false, done) && done < |rs|
    ensures c'.main.Fits(rs[done].key, rs[done].value) <==> done < Fitting(c.main, rs)
    ensures done < Fitting(c.main, rs) ==>
              Underway(c, blank, rs, c'.(main := c'.main.Put(rs[done].key, rs[done].value)), false, done + 1)
    ensures done == Fitting(c.main, rs) ==> Underway(c, blank, rs, c'.(over := Some(OverflowOf(c, blank))), true, done)
  {
    FittingIs(c.main, rs, done);
    PutNext(c.main, rs, done);
    assert rs[done..][..0] == [];
  }

  lemma {:induction false} UnderwayOver(c: Pages, blank: Sheet, rs: seq<Rec>, c': Pages, done: nat)
    requires Underway(c, blank, rs, c', true, done) && done < |rs|
    ensures var j := Fitting(c.main, rs);
            c'.over.value.Fits(rs[done].key, rs[done].value) <==> done - j < Fitting(OverflowOf(c, blank), rs[j..])
    ensures c'.over.value.Fits(rs[done].key, rs[done].value) ==>
              Underway(c, blank, rs, c'.(over := Some(c'.over.value.Put(rs[done].key, rs[done].value))), true, done + 1)
  {
    var j, over := Fitting(c.main, rs), OverflowOf(c, blank);
    var rest := rs[j..];
    FittingIs(over, rest, done - j);
    PutNext(over, rest, done - j);
    assert rest[done - j] == rs[done];
  }

  /**
   * Writes the records of a batch that belong to one page. From the first that does not fit on the page, all go
   * to the overflow page, which is made if there is none; the first that does not fit there ends the batch.
   */
  method WriteBatch(c: Pages, blank: Sheet, rs: seq<Rec>, noOverflow: bool) returns (c': Pages, done: nat)
    ensures done == Written(c, blank, rs, noOverflow) && c' == After(c, blank, rs, noOverflow)
    ensures blank.contents == map[] ==> Outcome(c, rs, noOverflow, Fitting(c.main, rs), done, c')
  {
    c', done := c, 0;
    var spilled := false;
    assert rs[..0] == [];
    while done < |rs|
      invariant done <= |rs| && Underway(c, blank, rs, c', spilled, done) && (spilled ==> !noOverflow)
      decreases |rs| - done
    {
      var key, value := rs[done].key, rs[done].value;
      if !spilled {
        UnderwayMain(c, blank, rs, c', done);
        if c'.main.Fits(key, value) {
          c', done := c'.(main := c'.main.Put(key, value)), done + 1;
          continue;
        }
        if noOverflow {
          break;
        }
        c', spilled := c'.(over := Some(OverflowOf(c, blank))), true;
      }
      UnderwayOver(c, blank, rs, c', done);
      if !c'.over.value.Fits(key, value) {
        break;
      }
      c', done := c'.(over := Some(c'.over.value.Put(key, value))), done + 1;
    }
    if blank.contents == map[] {
      BatchOutcome(c, blank, rs, noOverflow, c', done);
    }
  }

  /**
   * The first `j` records of a batch are on the page and the next ones, up to `done`, on the overflow page. Record `j`
   * does not fit on the page, and record `done` not on the overflow page. No overflow page is made or
   * changed if that is not wanted or if all records are on the page.
   */
  ghost predicate Outcome(c: Pages, rs: seq<Rec>, noOverflow: bool, j: nat, done: nat, c': Pages) {
    && j <= done <= |rs| && c'.main.contents == c.main.contents + Last(rs[..j])
    && (j < |rs| ==> !c'.main.Fits(rs[j].key, rs[j].value))
    && OverContents(c') == OverContents(c) + Last(rs[j..done])
    && (noOverflow || j == |rs| ==> done == j && c'.over == c.over)
    && (!noOverflow && j < |rs| ==> c'.over.Some? && (done < |rs| ==> !c'.over.value.Fits(rs[done].key, rs[done].value)))
  }

  /** Every batch ends like that. */
  lemma {:induction false} BatchOutcome(c: Pages, blank: Sheet, rs: seq<Rec>, noOverflow: bool, c': Pages, done: nat)
    requires blank.contents == map[] && c' == After(c, blank, rs, noOverflow) && done == Written(c, blank, rs, noOverflow)
    ensures Outcome(c, rs, noOverflow, Fitting(c.main, rs), done, c')
  {
    var j := Fitting(c.main, rs);
    AfterContents(c, blank, rs, noOverflow, c', j, done);
    FittingIs(c.main, rs, j);
    if j < |rs| && !noOverflow {
      var rest := rs[j..];
      FittingIs(OverflowOf(c, blank), rest, done - j);
      assert done < |rs| ==> rest[done - j] == rs[done];
    }
  }

  // ------------------------------------------------------------ what lookups find

  /** What a lookup should find after records were written: their last value, or else what it found before. */
  function Expected(c: Pages, rs: seq<Rec>, k: Bytestring): Option<Bytestring> {
    if k in Last(rs) then Some(Last(rs)[k]) else Get(c, k)
  }

  /** Every lookup finds the last value that was written. */
  ghost predicate ReadsLast(c: Pages, c': Pages, rs: seq<Rec>) {
    forall k :: Get(c', k) == Expected(c, rs, k)
  }

  /** No record that went to the overflow page has its key on the page, unless the page has that very value. */
  ghost predicate SpillsApart(c: Pages, rs: seq<Rec>, n: nat)
    requires Fitting(c.main, rs) <= n <= |rs|
  {
    var j := Fitting(c.main, rs);
    forall k | k in Last(rs[j..n]) && (k in c.main.contents || k in Last(rs[..j])) ::
      Last(rs[j..n])[k] == if k in Last(rs[..j]) then Last(rs[..j])[k] else c.main.contents[k]
  }

  lemma {:induction false} LastJoin(a: seq<Rec>, b: seq<Rec>)
    ensures Last(a + b) == Last(a) + Last(b)
    decreases |b|
  {
    if |b| == 0 {
      assert a + b == a;
    } else {
      assert (a + b)[..|a + b| - 1] == a + b[..|b| - 1];
      LastJoin(a, b[..|b| - 1]);
    }
  }

  /** The contents of an overflow page; none has none. */
  ghost function OverContents(c: Pages): map<Bytestring, Bytestring> {
    if c.over.Some? then c.over.value.contents else map[]
  }

  /** What the two pages hold after a batch. */
  lemma {:induction false} AfterContents(c: Pages, blank: Sheet, rs: seq<Rec>, noOverflow: bool, c': Pages, j: nat, n: nat)
    requires blank.contents == map[] && c' == After(c, blank, rs, noOverflow)
    requires j == Fitting(c.main, rs) && n == Written(c, blank, rs, noOverflow)
    ensures j <= n <= |rs| && c'.main.contents == c.main.contents + Last(rs[..j])
    ensures OverContents(c') == OverContents(c) + Last(rs[j..n])
    ensures Last(rs[..n]) == Last(rs[..j]) + Last(rs[j..n])
  {
    PutAllContents(c.main, rs, j);
    LastParts(rs, j, n);
    OverAfter(c, blank, rs, noOverflow, j, n);
  }

  lemma LastParts(rs: seq<Rec>, j: nat, n: nat)
    requires j <= n <= |rs|
    ensures Last(rs[..n]) == Last(rs[..j]) + Last(rs[j..n])
  {
    assert rs[..n] == rs[..j] + rs[j..n];
    LastJoin(rs[..j], rs[j..n]);
  }

  lemma {:induction false} OverAfter(c: Pages, blank: Sheet, rs: seq<Rec>, noOverflow: bool, j: nat, n: nat)
    requires blank.contents == map[] && j == Fitting(c.main, rs) && n == Written(c, blank, rs, noOverflow)
    ensures j <= n <= |rs| && OverContents(After(c, blank, rs, noOverflow)) == OverContents(c) + Last(rs[j..n])
  {
    if j == |rs| || noOverflow {
      assert rs[j..n] == [];
    } else {
      SpilledAfter(c, blank, rs, j, n);
    }
  }

  lemma SpilledAfter(c: Pages, blank: Sheet, rs: seq<Rec>, j: nat, n: nat)
    requires blank.contents == map[] && j <= |rs| && n == j + Fitting(OverflowOf(c, blank), rs[j..])
    ensures j <= n <= |rs| && Filled(OverflowOf(c, blank), rs[j..]).contents == OverContents(c) + Last(rs[j..n])
  {
    var rest := rs[j..];
    assert rs[j..n] == rest[..n - j];
    FilledContents(OverflowOf(c, blank), rest);
  }

  lemma GetIs(c: Pages, k: Bytestring)
    ensures Get(c, k) == if k in c.main.contents then Some(c.main.contents[k])
                         else if k in OverContents(c) then Some(OverContents(c)[k]) else None
  {
  }

  /** Lookups find the last values exactly if nothing was spilled whose key is on the page with another value. */
  lemma {:induction false} ReadsLastIff(c: Pages, blank: Sheet, rs: seq<Rec>, noOverflow: bool)
    requires blank.contents == map[]
    ensures var n := Written(c, blank, rs, noOverflow);
            Fitting(c.main, rs) <= n <= |rs| && (ReadsLast(c, After(c, blank, rs, noOverflow), rs[..n]) <==> SpillsApart(c, rs, n))
  {
    var c', j, n := After(c, blank, rs, noOverflow), Fitting(c.main, rs), Written(c, blank, rs, noOverflow);
    AfterContents(c, blank, rs, noOverflow, c', j, n);
    if SpillsApart(c, rs, n) {
      forall k
        ensures Get(c', k) == Expected(c, rs[..n], k)
      {
        FoundIff(c, c', Last(rs[..j]), Last(rs[j..n]), k);
      }
    }
    if ReadsLast(c, c', rs[..n]) {
      forall k | k in Last(rs[j..n]) && (k in c.main.contents || k in Last(rs[..j]))
        ensures Last(rs[j..n])[k] == if k in Last(rs[..j]) then Last(rs[..j])[k] else c.main.contents[k]
      {
        assert Get(c', k) == Expected(c, rs[..n], k);
        FoundIff(c, c', Last(rs[..j]), Last(rs[j..n]), k);
      }
    }
  }

  /** What a lookup finds when some values went to the page and others to the overflow page. */
  lemma FoundIff(c: Pages, c': Pages, kept: map<Bytestring, Bytestring>, spilled: map<Bytestring, Bytestring>, k: Bytestring)
    requires c'.main.contents == c.main.contents + kept && OverContents(c') == OverContents(c) + spilled
    ensures var all := kept + spilled; var expected := if k in all then Some(all[k]) else Get(c, k);
            Get(c', k) == expected <==>
            (k in spilled && (k in c.main.contents || k in kept) ==>
               spilled[k] == if k in kept then kept[k] else c.main.contents[k])
  {
    GetIs(c, k);
    GetIs(c', k);
  }

  /** A single record is found unless it was spilled and the page has its key: then the old value is found. */
  lemma OneRecordIff(c: Pages, blank: Sheet, r: Rec)
    requires blank.contents == map[] && OverflowOf(c, blank).Fits(r.key, r.value) && c.main.room >= 0
    ensures var c' := After(c, blank, [r], false);
            Get(c', r.key) == Some(r.value) <==> c.main.Fits(r.key, r.value) || r.key !in c.main.contents
  {
    AfterContents(c, blank, [r], false, After(c, blank, [r], false), Fitting(c.main, [r]), Written(c, blank, [r], false));
    assert [r][..0] == [] && [r][0..1] == [r] && [r][..1] == [r] && [r][0..] == [r];
    assert Last([r]) == map[r.key := r.value];
    if !c.main.Fits(r.key, r.value) && r.key in c.main.contents {
      assert |r.value| > |c.main.contents[r.key]|;
    }
  }

  /** An update that has outgrown the page: a lookup goes on finding the old value. */
  lemma LongerUpdateIsHidden()
    ensures var c := Pages(Sheet(map[[1] := [2]], 0, 0), None);
            var c' := After(c, Sheet(map[], 100, 0), [Rec([1], [3, 4])], false);
            Get(c', [1]) == Some([2]) && Expected(c, [Rec([1], [3, 4])], [1]) == Some([3, 4])
  {
    var c := Pages(Sheet(map[[1] := [2]], 0, 0), None);
    var r := Rec([1], [3, 4]);
    OneRecordIff(c, Sheet(map[], 100, 0), r);
    assert [r][..0] == [] && Last([r]) == map[r.key := r.value];
  }

  /** After a new key has been spilled, an update that would fit on the page goes to the overflow page and is not found. */
  lemma LaterUpdateIsHidden()
    ensures var c := Pages(Sheet(map[[2] := [5]], 0, 0), None);
            var rs := [Rec([1], [3]), Rec([2], [6])];
            var c' := After(c, Sheet(map[], 100, 0), rs, false);
            c.main.Fits([2], [6]) && Get(c', [2]) == Some([5]) && Expected(c, rs, [2]) == Some([6])
  {
    var c := Pages(Sheet(map[[2] := [5]], 0, 0), None);
    var rs := [Rec([1], [3]), Rec([2], [6])];
    var c' := After(c, Sheet(map[], 100, 0), rs, false);
    assert Fitting(c.main, rs) == 0 && rs[..0] == [];
    AfterContents(c, Sheet(map[], 100, 0), rs, false, c', 0, Written(c, Sheet(map[], 100, 0), rs, false));
    assert rs[..1] == [Rec([1], [3])] && rs[..1][..0] == [];
    assert Last(rs)[[2]] == [6];
  }

  // ------------------------------------------------------------ keys on both pages

  /** No key is on both pages. */
  ghost predicate Apart(c: Pages) {
    forall k | k in c.main.contents :: k !in OverContents(c)
  }

  /** The pages stay apart exactly if no kept key was on the overflow page and no spilled key is on the page. */
  lemma {:induction false} ApartIff(c: Pages, blank: Sheet, rs: seq<Rec>, noOverflow: bool)
    requires blank.contents == map[] && Apart(c)
    ensures var j, n := Fitting(c.main, rs), Written(c, blank, rs, noOverflow);
            j <= n <= |rs| &&
            (Apart(After(c, blank, rs, noOverflow)) <==>
             && (forall k | k in Last(rs[..j]) :: k !in OverContents(c))
             && (forall k | k in Last(rs[j..n]) :: k !in c.main.contents && k !in Last(rs[..j])))
  {
    AfterContents(c, blank, rs, noOverflow, After(c, blank, rs, noOverflow), Fitting(c.main, rs), Written(c, blank, rs, noOverflow));
  }
}
