/** The column split of a1.py:28-30: for each half of the page, the blocks
    that overlap it horizontally, stably sorted by their top edge. */
module Columns {

  /** One entry of page.get_text("blocks"): the block's rectangle and text.
      Only x0, y0, x1 and the text are read by the parser. */
  datatype Block = Block(x0: real, y0: real, x1: real, y1: real, text: string)

  /** The value of the loop variable `side`: 0 for the left half, 1 for the right. */
  datatype Side = Left | Right {
    function Index(): (i: nat)
      ensures i <= 1 && (i == 0 <==> this == Left)
    {
      if Left? then 0 else 1
    }
  }

  /** side_x0: where the half of a page of the given width starts. */
  function HalfStart(width: real, side: Side): real {
    if side == Left then 0.0 else width / 2.0
  }

  /** side_x1: where that half ends. */
  function HalfEnd(width: real, side: Side): real {
    if side == Left then width / 2.0 else width
  }

  /** `b[0] < side_x1 and b[2] > side_x0`. */
  predicate Overlaps(b: Block, width: real, side: Side) {
    b.x0 < HalfEnd(width, side) && b.x1 > HalfStart(width, side)
  }

  /** The list comprehension of a1.py:30: the blocks of the half, in page order. */
  function InColumn(blocks: seq<Block>, width: real, side: Side): seq<Block> {
    if blocks == [] then []
    else (if Overlaps(blocks[0], width, side) then [blocks[0]] else []) + InColumn(blocks[1..], width, side)
  }

  /** The comprehension keeps each overlapping block as often as the page has
      it, and no other block. */
  lemma {:induction false} InColumnCount(blocks: seq<Block>, width: real, side: Side)
    ensures forall b :: multiset(InColumn(blocks, width, side))[b]
                        == if Overlaps(b, width, side) then multiset(blocks)[b] else 0
  {
    if blocks != [] {
      assert blocks == [blocks[0]] + blocks[1..];
      InColumnCount(blocks[1..], width, side);
    }
  }

  /** The comprehension is a filter: overlapping blocks are kept, the others
      dropped, and the order of the page is kept, block by block. */
  lemma {:induction false} InColumnFilter(a: seq<Block>, c: seq<Block>, b: Block, width: real, side: Side)
    ensures InColumn(a + c, width, side) == InColumn(a, width, side) + InColumn(c, width, side)
    ensures InColumn([b], width, side) == if Overlaps(b, width, side) then [b] else []
  {
    assert [b][1..] == [];
    if a != [] {
      var h := if Overlaps(a[0], width, side) then [a[0]] else [];
      var r, t := InColumn(a[1..], width, side), InColumn(c, width, side);
      assert (a + c)[0] == a[0] && (a + c)[1..] == a[1..] + c;
      InColumnFilter(a[1..], c, b, width, side);
      calc {
        InColumn(a + c, width, side);
        h + InColumn(a[1..] + c, width, side);
        h + (r + t);
        (h + r) + t;
      }
    } else {
      assert a + c == c;
    }
  }

  predicate SortedByTop(s: seq<Block>) {
    forall i, j :: 0 <= i < j < |s| ==> s[i].y0 <= s[j].y0
  }

  /** The blocks of s whose top edge is exactly y, in the order of s. */
  function WithTop(s: seq<Block>, y: real): seq<Block> {
    if s == [] then []
    else (if s[0].y0 == y then [s[0]] else []) + WithTop(s[1..], y)
  }

  /** Places b before the first block that is not strictly above it. */
  function Insert(b: Block, s: seq<Block>): (r: seq<Block>)
    ensures multiset(r) == multiset(s) + multiset{b}
    ensures |r| == |s| + 1 && (r[0] == b || (s != [] && r[0] == s[0]))
  {
    if s == [] || b.y0 <= s[0].y0 then [b] + s
    else
      assert s == [s[0]] + s[1..];
      [s[0]] + Insert(b, s[1..])
  }

  lemma {:induction false} InsertSorted(b: Block, s: seq<Block>)
    requires SortedByTop(s)
    ensures SortedByTop(Insert(b, s))
  {
    if s != [] && s[0].y0 < b.y0 {
      InsertSorted(b, s[1..]);
      var t := Insert(b, s[1..]);
      assert forall j :: 0 <= j < |t| ==> s[0].y0 <= t[j].y0 by {
        forall j | 0 <= j < |t| ensures s[0].y0 <= t[j].y0 {
          if j > 0 {
            assert t[0].y0 <= t[j].y0;
          }
        }
      }
    }
  }

  /** `sorted(blocks, key=lambda x: x[1])`: Python's sort is stable, and so is
      this insertion sort. */
  function SortByTop(s: seq<Block>): (r: seq<Block>)
    ensures multiset(r) == multiset(s)
    ensures SortedByTop(r)
  {
    if s == [] then []
    else
      assert s == [s[0]] + s[1..];
      InsertSorted(s[0], SortByTop(s[1..]));
      Insert(s[0], SortByTop(s[1..]))
  }

  lemma {:induction false} InsertStable(b: Block, s: seq<Block>, y: real)
    ensures WithTop(Insert(b, s), y) == (if b.y0 == y then [b] else []) + WithTop(s, y)
  {
    if s == [] || b.y0 <= s[0].y0 {
      assert ([b] + s)[1..] == s;
    } else {
      InsertStable(b, s[1..], y);
      assert ([s[0]] + Insert(b, s[1..]))[1..] == Insert(b, s[1..]);
    }
  }

  /** Stability: blocks sharing a top edge keep their relative order. */
  lemma {:induction false} SortStable(s: seq<Block>, y: real)
    ensures WithTop(SortByTop(s), y) == WithTop(s, y)
  {
    if s != [] {
      SortStable(s[1..], y);
      InsertStable(s[0], SortByTop(s[1..]), y);
    }
  }

  /** side_blocks: the stream the segmenter reads for one half of a page. */
  function ColumnStream(blocks: seq<Block>, width: real, side: Side): (r: seq<Block>)
    ensures SortedByTop(r)
    ensures forall b :: multiset(r)[b] == if Overlaps(b, width, side) then multiset(blocks)[b] else 0
  {
    InColumnCount(blocks, width, side);
    SortByTop(InColumn(blocks, width, side))
  }

  /** A block belongs to a half's stream exactly when it overlaps that half,
      and blocks with equal top edges appear in the page's own order. */
  lemma ColumnMembership(blocks: seq<Block>, width: real, side: Side, b: Block, y: real)
    ensures b in ColumnStream(blocks, width, side) <==> b in blocks && Overlaps(b, width, side)
    ensures WithTop(ColumnStream(blocks, width, side), y) == WithTop(InColumn(blocks, width, side), y)
  {
    var r := ColumnStream(blocks, width, side);
    assert b in r <==> multiset(r)[b] > 0;
    assert b in blocks <==> multiset(blocks)[b] > 0;
    SortStable(InColumn(blocks, width, side), y);
  }

  /** A block across the midline is read in both halves, not assigned to one. */
  lemma StraddlingBlockInBothColumns(blocks: seq<Block>, width: real, b: Block)
    requires b in blocks && 0.0 <= width && b.x0 < width / 2.0 < b.x1
    ensures b in ColumnStream(blocks, width, Left) && b in ColumnStream(blocks, width, Right)
  {
    assert Overlaps(b, width, Left) && Overlaps(b, width, Right);
    ColumnMembership(blocks, width, Left, b, 0.0);
    ColumnMembership(blocks, width, Right, b, 0.0);
  }
}
