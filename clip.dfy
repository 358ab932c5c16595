/** The clip rectangle of a1.py:74-77: the page region rendered as a
    question's body, from its heading line down to its first option line,
    within its own half of the page. */
module Clip {
  import opened Wrappers
  import opened Columns
  import opened Segmenter

  /** Space kept above the question heading. */
  const TopMargin: real := 10.0
  /** Gap left above the first option line. */
  const OptionGap: real := 5.0
  /** Height used when no option line is known. */
  const FallbackHeight: real := 250.0
  /** Horizontal inset from the edges of the half. */
  const Inset: real := 5.0

  /** fitz.Rect(x0, y0, x1, y1). */
  datatype Rect = Rect(x0: real, y0: real, x1: real, y1: real)

  /** Python truthiness of q['opt_y']: None and 0.0 are both false. */
  predicate Truthy(o: Option<real>) {
    o.Some? && o.value != 0.0
  }

  /** y_start = max(0, y0 - 10). */
  function ClipTop(y0: real): (top: real)
    ensures 0.0 <= top && y0 - TopMargin <= top
    ensures top == 0.0 || top == y0 - TopMargin
  {
    if 0.0 >= y0 - TopMargin then 0.0 else y0 - TopMargin
  }

  /** y_end: just above the option line when it is known, else a fixed height
      below the top. The clip never reaches the option line, so no option is
      drawn in the question body; without a usable option line it still ends
      below its own top, and at least 250 below the page top. */
  function ClipBottom(y0: real, optY: Option<real>): (bottom: real)
    ensures Truthy(optY) ==> bottom < optY.value
    ensures !Truthy(optY) ==> ClipTop(y0) < bottom && FallbackHeight <= bottom
  {
    if Truthy(optY) then optY.value - OptionGap else ClipTop(y0) + FallbackHeight
  }

  /** clip_rect for record q on a page of the given width. */
  function ClipRect(q: Record, width: real): Rect {
    var half := width / 2.0;
    Rect(half * q.side.Index() as real + Inset, ClipTop(q.y0),
         half * (q.side.Index() + 1) as real - Inset, ClipBottom(q.y0, q.optY))
  }

  /** The clip spans exactly the half the question was read from, as the
      column split bounds it, inset by 5 on each side. */
  lemma ClipWithinHalf(q: Record, width: real)
    ensures ClipRect(q, width).x0 == HalfStart(width, q.side) + Inset
    ensures ClipRect(q, width).x1 == HalfEnd(width, q.side) - Inset
  {
  }

  /** For every record parse_pdf returns, the clip starts at or above the
      heading line (when that line is on the page) and ends 5 above the first
      option line, unless that line sits at 0, where the fixed height is used;
      a heading at least 10 below the page top gives a clip of positive height. */
  lemma ClipOfParsedRecord(pages: seq<Page>, q: Record, width: real)
    requires q in Parse(pages)
    ensures var r := ClipRect(q, width);
            && (0.0 <= q.y0 ==> r.y0 <= q.y0)
            && q.optY.Some?
            && (q.optY.value != 0.0 ==> r.y1 == q.optY.value - OptionGap && r.y1 < q.optY.value)
            && (q.optY.value == 0.0 ==> r.y0 == 0.0 && r.y1 == FallbackHeight)
            && (TopMargin <= q.y0 ==> r.y0 < r.y1)
  {
    ParsedRecords(pages);
  }
}
