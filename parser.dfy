/** parse_pdf as the source runs it: nested loops over pages, halves, blocks
    and glyphs, with one open record `curr` and one growing list `q_list`,
    each proved to compute the Segmenter functions. */
module Parser {
  import opened Wrappers
  import opened Text
  import opened Markers
  import opened Columns
  import opened Segmenter

  /** The glyph loop of a1.py:45-48: one option per glyph, stopping once the
      record holds four. */
  method AddMarkedOptions(q0: Record, found: string, contents: seq<string>) returns (q: Record)
    ensures q == AddOptions(q0, found, contents, 0)
  {
    q := q0;
    var i := 0;
    while i < |found|
      invariant 0 <= i <= |found|
      invariant AddOptions(q, found, contents, i) == AddOptions(q0, found, contents, 0)
    {
      if |q.options| >= 4 {
        break;
      }
      if IsFilled(found[i]) {
        q := q.(ansIdx := |q.options|);
      }
      q := q.(options := q.options + [if i < |contents| then contents[i] else Placeholder]);
      i := i + 1;
    }
  }

  /** The body of the block loop, a1.py:33-50: block b of half `side` of page
      `page`, read with the list so far and the open record. */
  method ReadBlock(qList: seq<Record>, curr: Option<Record>, b: Block, page: nat, side: Side)
    returns (list: seq<Record>, cur: Option<Record>)
    ensures Scan(cur, list) == Step(Scan(curr, qList), b, page, side)
  {
    list, cur := qList, curr;
    var txt := Strip(b.text);
    if txt == [] || MentionsComcbt(txt) {
      SkipStep(Scan(curr, qList), b, page, side);
      return;
    }
    var num := QuestionNumber(txt);
    if num.Some? {
      QuestionStep(Scan(curr, qList), b, page, side);
      if curr.Some? {
        list := qList + [curr.value];
      }
      cur := Some(Record(num.value, page, b.y0, [], -1, side, None));
      return;
    }
    QuestionNumberMatches(txt);
    StepDispatch(Scan(curr, qList), b, page, side);
    if curr.Some? {
      var q := curr.value;
      var found := MarkersOf(txt);
      if found != [] {
        if q.optY.None? {
          q := q.(optY := Some(b.y0));
        }
        var contents := OptionTexts(SplitAtMarkers(txt));
        q := AddMarkedOptions(q, found, contents);
        cur := Some(q);
      } else if q.options != [] {
        var last := |q.options| - 1;
        cur := Some(q.(options := q.options[last := Strip(q.options[last] + " " + txt)]));
      }
    }
  }

  /** One half of one page, a1.py:29-51: select and sort its blocks, scan
      them with a fresh open record, and flush that record at the end. */
  method ReadHalf(qList: seq<Record>, pg: Page, p: nat, side: Side) returns (list: seq<Record>)
    ensures list == qList + SideRecords(ColumnStream(pg.blocks, pg.width, side), p, side)
  {
    var blocks := ColumnStream(pg.blocks, pg.width, side);
    list := qList;
    var curr: Option<Record> := None;
    for i := 0 to |blocks|
      invariant Scan(curr, list) == Run(Scan(None, qList), blocks[..i], p, side)
    {
      ghost var before := Scan(curr, list);
      list, curr := ReadBlock(list, curr, blocks[i], p, side);
      RunExtend(qList, blocks, i, before, Scan(curr, list), p, side);
    }
    assert blocks[..|blocks|] == blocks;
    RunFlush(qList, blocks, Scan(curr, list), p, side);
    if curr.Some? {
      list := list + [curr.value];
    }
  }

  /** parse_pdf(doc), with the document given as its pages. Every record it
      returns has exactly four options and an answer index in {-1, 0, 1, 2, 3}. */
  method ParsePdf(pages: seq<Page>) returns (qs: seq<Record>)
    ensures qs == Parse(pages)
    ensures forall q :: q in qs ==> |q.options| == 4 && -1 <= q.ansIdx <= 3
  {
    var qList: seq<Record> := [];
    for p := 0 to |pages|
      invariant qList == Collected(pages[..p])
    {
      for k := 0 to 2
        invariant qList == Collected(pages[..p]) + PageRecords(pages[p], p, k)
      {
        qList := ReadHalf(qList, pages[p], p, SideAt(k));
        PageRecordsNext(pages[p], p, k, Collected(pages[..p]));
      }
      CollectedNext(pages, p);
    }
    assert pages[..|pages|] == pages;
    qs := Complete(qList);
    ParsedRecords(pages);
  }
}
