// Where segments live: files that grow by fixed steps, and ids that name a file and a page offset.
module SegmentFile {

  /** The offset takes the low 60 bits of an id. */
  const OFFSET_LIMIT: nat := 0x1000_0000_0000_0000

  /** The segments of file `f` have this many pages. */
  function PagesPerSegment(f: nat): nat
    requires f < 5
  {
    if f == 0 then 1 else if f == 1 then 2 else if f == 2 then 4 else if f == 3 then 8 else 16
  }

  /** The file holds whole growth steps of 256 pages. */
  ghost predicate WholeSteps(pages: nat) {
    pages % 256 == 0
  }

  ghost predicate WholeSegments(f: nat, pages: nat)
    requires f < 5
  {
    match f
    case 0 => true
    case 1 => pages % 2 == 0
    case 2 => pages % 4 == 0
    case 3 => pages % 8 == 0
    case _ => pages % 16 == 0
  }

  /** Room for one page of a segment is room for all of it, because growth steps are whole segments. */
  lemma RoomForAll(f: nat, offset: nat, pages: nat)
    requires f < 5 && WholeSegments(f, offset) && WholeSteps(pages) && offset + 1 <= pages
    ensures offset + PagesPerSegment(f) <= pages
  {
  }

  lemma NextWhole(f: nat, offset: nat)
    requires f < 5 && WholeSegments(f, offset)
    ensures WholeSegments(f, offset + PagesPerSegment(f))
  {
  }

  class SegmentFile {
    const f: nat
    var filePages: nat
    var nextOffset: nat

    ghost predicate Valid()
      reads this
    {
      f < 5 && WholeSteps(filePages) && WholeSegments(f, nextOffset) && nextOffset <= filePages
    }

    constructor (f: nat)
      requires f < 5
      ensures Valid() && this.f == f && nextOffset == 0
    {
      this.f := f;
      filePages, nextOffset := 0, 0;
    }

    /** Grows the file until it has the page at `offset`. */
    method ExpandToIfNeeded(offset: nat)
      requires Valid()
      modifies this`filePages
      ensures Valid() && offset + 1 <= filePages && old(filePages) <= filePages
      ensures old(filePages) >= offset + 1 ==> filePages == old(filePages)
      ensures old(filePages) < offset + 1 ==> filePages < offset + 1 + 256
    {
      if filePages >= offset + 1 {
        return;
      }
      var added := 0;
      while filePages + added < offset + 1
        invariant added % 256 == 0 && (added == 0 || filePages + added < offset + 1 + 256)
        decreases offset + 1 - added
      {
        added := added + 256;
      }
      filePages := filePages + added;
    }

    /** A new segment, wholly inside the file and behind all earlier ones. */
    method AllocateSegment() returns (offset: nat)
      requires Valid()
      modifies this`filePages, this`nextOffset
      ensures Valid() && offset == old(nextOffset) && nextOffset == offset + PagesPerSegment(f)
      ensures WholeSegments(f, offset) && offset + PagesPerSegment(f) <= filePages
    {
      offset := nextOffset;
      ExpandToIfNeeded(offset);
      RoomForAll(f, offset, filePages);
      NextWhole(f, offset);
      nextOffset := nextOffset + PagesPerSegment(f);
    }
  }

  /** The id of a segment: the file above the page offset. */
  function SegmentIdOf(f: nat, offset: nat): nat {
    0x1000_0000_0000_0000 * f + offset
  }

  function FileOf(id: nat): nat {
    id / OFFSET_LIMIT
  }

  function OffsetOf(id: nat): nat {
    id % OFFSET_LIMIT
  }

  /** An id has the file in its top four bits and the offset in the other sixty. */
  lemma SegmentIdParts(f: nat, offset: nat)
    requires f < 16 && offset < OFFSET_LIMIT
    ensures FileOf(SegmentIdOf(f, offset)) == f && OffsetOf(SegmentIdOf(f, offset)) == offset
    ensures SegmentIdOf(f, offset) < 0x1_0000_0000_0000_0000
  {
  }

  function PageLockId(f: nat, offset: nat, page: nat): nat {
    SegmentIdOf(f, offset) + page
  }

  /** A segment of the file that fits in the offset bits. */
  ghost predicate IsSegment(f: nat, offset: nat) {
    f < 5 && WholeSegments(f, offset) && offset + PagesPerSegment(f) <= OFFSET_LIMIT
  }

  lemma SameFile(f: nat, a: nat, g: nat, b: nat)
    requires a < OFFSET_LIMIT && b < OFFSET_LIMIT && SegmentIdOf(f, a) == SegmentIdOf(g, b)
    ensures f == g && a == b
  {
  }

  lemma SamePage(f: nat, a: nat, p: nat, b: nat, q: nat)
    requires f < 5 && WholeSegments(f, a) && WholeSegments(f, b)
    requires p < PagesPerSegment(f) && q < PagesPerSegment(f) && a + p == b + q
    ensures a == b && p == q
  {
  }

  /** No two pages of any segments share a lock id. */
  lemma PageLockIdInjective(f: nat, a: nat, p: nat, g: nat, b: nat, q: nat)
    requires IsSegment(f, a) && IsSegment(g, b) && p < PagesPerSegment(f) && q < PagesPerSegment(g)
    requires PageLockId(f, a, p) == PageLockId(g, b, q)
    ensures f == g && a == b && p == q
  {
    SameFile(f, a + p, g, b + q);
    SamePage(f, a, p, b, q);
  }
}
