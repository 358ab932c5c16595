/** The question segmenter of parse_pdf (a1.py:19-52) as functions: one step
    per block, a scan over one half's stream, the records of every half of
    every page, and the final filter on the option count. */
module Segmenter {
  import opened Wrappers
  import opened Text
  import opened Markers
  import opened Columns

  /** The dict built at a1.py:38. `ansIdx` is -1 until a filled glyph is seen;
      `optY` is the top of the first block that carried a marker. */
  datatype Record = Record(num: string, page: nat, y0: real, options: seq<string>,
                           ansIdx: int, side: Side, optY: Option<real>)

  /** One page: the blocks get_text("blocks") returns and page.rect.width. */
  datatype Page = Page(blocks: seq<Block>, width: real)

  /** The variables of the loop over one half's blocks: `curr` and `q_list`. */
  datatype Scan = Scan(curr: Option<Record>, done: seq<Record>)

  /** "내용 없음" ("no content"), the option text of a marker with no segment. */
  const Placeholder: string := "\U{B0B4}\U{C6A9} \U{C5C6}\U{C74C}"

  /** `contents[i] if i < len(contents) else "내용 없음"`. */
  function OptionText(contents: seq<string>, i: nat): string {
    if i < |contents| then contents[i] else Placeholder
  }

  /** How many options a block with `markers` glyphs adds to a record that
      has `have`: min(markers, 4 - have), and none once four are there. */
  function Taken(have: nat, markers: nat): nat {
    if have >= 4 then 0 else if markers < 4 - have then markers else 4 - have
  }

  /** The marker loop of a1.py:45-48, from the i-th glyph of `ms` on. */
  function AddOptions(q: Record, ms: string, contents: seq<string>, i: nat): Record
    requires i <= |ms|
    decreases |ms| - i
  {
    if i == |ms| || |q.options| >= 4 then q
    else AddOptions(AddOne(q, ms[i], OptionText(contents, i)), ms, contents, i + 1)
  }

  /** One pass of the glyph loop: glyph g with option text t. */
  function AddOne(q: Record, g: char, t: string): Record {
    var q1 := if IsFilled(g) then q.(ansIdx := |q.options|) else q;
    q1.(options := q1.options + [t])
  }

  /** ms[p] is the last filled glyph among ms[lo..hi]. */
  predicate LastFilledAt(ms: string, lo: nat, hi: nat, p: int)
    requires hi <= |ms|
  {
    lo <= p < hi && IsFilled(ms[p]) && forall p' :: p < p' < hi ==> !IsFilled(ms[p'])
  }

  predicate NoneFilled(ms: string, lo: nat, hi: nat)
    requires hi <= |ms|
  {
    forall p :: lo <= p < hi ==> !IsFilled(ms[p])
  }

  /** Everything but the options and the answer index agree. */
  predicate SameHeading(r: Record, q: Record) {
    r.num == q.num && r.page == q.page && r.y0 == q.y0 && r.side == q.side && r.optY == q.optY
  }

  /** The option texts of the k glyphs from glyph i on. */
  function Texts(contents: seq<string>, i: nat, k: nat): seq<string> {
    seq(k, (j: int) requires 0 <= j => OptionText(contents, i + j))
  }

  lemma TextsCons(xs: seq<string>, contents: seq<string>, i: nat, k: nat)
    requires 1 <= k
    ensures (xs + [OptionText(contents, i)]) + Texts(contents, i + 1, k - 1) == xs + Texts(contents, i, k)
  {
    assert Texts(contents, i, k) == [OptionText(contents, i)] + Texts(contents, i + 1, k - 1);
  }

  /** What a marker block adds, from its i-th glyph on: exactly
      Taken(n, #glyphs left) options after the n already there, the texts of
      those glyphs; the heading fields stay as they are. */
  lemma {:induction false} AddOptionsAppends(q: Record, ms: string, contents: seq<string>, i: nat)
    requires i <= |ms|
    decreases |ms| - i
    ensures var r := AddOptions(q, ms, contents, i);
            && r.options == q.options + Texts(contents, i, Taken(|q.options|, |ms| - i))
            && SameHeading(r, q)
  {
    var n := |q.options|;
    if i < |ms| && n < 4 {
      var q2 := AddOne(q, ms[i], OptionText(contents, i));
      assert q2.options == q.options + [OptionText(contents, i)] && SameHeading(q2, q);
      AddOptionsAppends(q2, ms, contents, i + 1);
      var k := Taken(n, |ms| - i);
      assert Taken(n + 1, |ms| - (i + 1)) == k - 1;
      TextsCons(q.options, contents, i, k);
    } else {
      assert q.options + Texts(contents, i, 0) == q.options;
    }
  }

  /** After glyphs lo..lo+k of ms are read into a record with n options and
      answer index a0, the answer index is ra: unchanged when none of those
      glyphs is filled, else the option of the last filled one. */
  predicate AnswerAfter(ms: string, lo: nat, k: nat, n: int, a0: int, ra: int)
    requires lo + k <= |ms|
  {
    && (NoneFilled(ms, lo, lo + k) ==> ra == a0)
    && (!NoneFilled(ms, lo, lo + k) ==> LastFilledAt(ms, lo, lo + k, lo + ra - n))
  }

  /** Which glyph decides the answer: the answer index moves to the option of
      the last filled glyph among the k taken, and stays put when none of
      them is filled. */
  lemma {:induction false} AddOptionsAnswer(q: Record, ms: string, contents: seq<string>, i: nat)
    requires i <= |ms|
    decreases |ms| - i
    ensures AnswerAfter(ms, i, Taken(|q.options|, |ms| - i), |q.options|, q.ansIdx, AddOptions(q, ms, contents, i).ansIdx)
  {
    var n := |q.options|;
    var k := Taken(n, |ms| - i);
    if i < |ms| && n < 4 {
      var q2 := AddOne(q, ms[i], OptionText(contents, i));
      assert |q2.options| == n + 1 && q2.ansIdx == if IsFilled(ms[i]) then n else q.ansIdx;
      AddOptionsAnswer(q2, ms, contents, i + 1);
      assert Taken(n + 1, |ms| - (i + 1)) == k - 1;
      AnswerStep(ms, i, k, n, q.ansIdx, q2.ansIdx, AddOptions(q2, ms, contents, i + 1).ansIdx);
    }
  }

  /** The glyph step of AddOptionsAnswer, on the answer indices alone: a0
      before glyph i, a2 after it, ra after the glyphs that follow. */
  lemma AnswerStep(ms: string, i: nat, k: nat, n: int, a0: int, a2: int, ra: int)
    requires i < |ms| && 1 <= k && i + k <= |ms|
    requires a2 == if IsFilled(ms[i]) then n else a0
    requires AnswerAfter(ms, i + 1, k - 1, n + 1, a2, ra)
    ensures AnswerAfter(ms, i, k, n, a0, ra)
  {
    if !NoneFilled(ms, i + 1, i + k) {
    } else if IsFilled(ms[i]) {
      assert LastFilledAt(ms, i, i + k, i);
    } else {
      assert NoneFilled(ms, i, i + k);
    }
  }

  function Flush(curr: Option<Record>): seq<Record> {
    if curr.Some? then [curr.value] else []
  }

  /** The records a scan has produced so far: the closed ones, then the open one. */
  function Listed(s: Scan): seq<Record> {
    s.done + Flush(s.curr)
  }

  /** a1.py:41-48: a block with glyphs ms and option texts `contents`,
      read into the open record q; y is the block's top edge. */
  function MarkerBlock(q: Record, ms: string, contents: seq<string>, y: real): Record {
    var q1 := if q.optY.None? then q.(optY := Some(y)) else q;
    AddOptions(q1, ms, contents, 0)
  }

  /** a1.py:50: an unmarked block continues the last option. */
  function Continued(q: Record, txt: string): Record
    requires q.options != []
  {
    var last := |q.options| - 1;
    q.(options := q.options[last := Strip(q.options[last] + " " + txt)])
  }

  /** One pass of the loop body a1.py:33-50 on block b of half `side` of page `page`. */
  function Step(s: Scan, b: Block, page: nat, side: Side): Scan {
    var txt := Strip(b.text);
    if txt == [] || MentionsComcbt(txt) then s
    else if QuestionNumber(txt).Some? then
      Scan(Some(Record(QuestionNumber(txt).value, page, b.y0, [], -1, side, None)),
           s.done + Flush(s.curr))
    else if s.curr.None? then s
    else if MarkersOf(txt) != [] then
      Scan(Some(MarkerBlock(s.curr.value, MarkersOf(txt), OptionTexts(SplitAtMarkers(txt)), b.y0)), s.done)
    else if s.curr.value.options != [] then Scan(Some(Continued(s.curr.value, txt)), s.done)
    else s
  }

  /** The loop over a half's blocks, started in state `start`. */
  function Run(start: Scan, bs: seq<Block>, page: nat, side: Side): Scan {
    if bs == [] then start
    else Step(Run(start, bs[..|bs| - 1], page, side), bs[|bs| - 1], page, side)
  }

  /** The records one half contributes to q_list: those closed by a later
      question start, then the one still open at the end (a1.py:51). */
  function SideRecords(bs: seq<Block>, page: nat, side: Side): seq<Record> {
    Listed(Run(Scan(None, []), bs, page, side))
  }

  function SideAt(k: nat): Side {
    if k == 0 then Left else Right
  }

  /** The records of the first `sides` halves of page number `page`. */
  function PageRecords(pg: Page, page: nat, sides: nat): seq<Record>
    requires sides <= 2
  {
    if sides == 0 then []
    else
      PageRecords(pg, page, sides - 1)
        + SideRecords(ColumnStream(pg.blocks, pg.width, SideAt(sides - 1)), page, SideAt(sides - 1))
  }

  /** q_list after every page has been read. */
  function Collected(pages: seq<Page>): seq<Record> {
    if pages == [] then []
    else Collected(pages[..|pages| - 1]) + PageRecords(pages[|pages| - 1], |pages| - 1, 2)
  }

  /** `[q for q in q_list if len(q['options']) >= 4]`. */
  function Complete(qs: seq<Record>): (r: seq<Record>)
    ensures forall q :: q in r ==> q in qs && |q.options| >= 4
    ensures forall q :: q in qs && |q.options| >= 4 ==> q in r
  {
    if qs == [] then []
    else (if |qs[0].options| >= 4 then [qs[0]] else []) + Complete(qs[1..])
  }

  /** The filter keeps the order of q_list and each record as often as it
      is there: it works record by record. */
  lemma {:induction false} CompleteFilter(a: seq<Record>, b: seq<Record>, q: Record)
    ensures Complete(a + b) == Complete(a) + Complete(b)
    ensures Complete([q]) == if |q.options| >= 4 then [q] else []
  {
    assert [q][1..] == [];
    if a != [] {
      assert (a + b)[1..] == a[1..] + b;
      CompleteFilter(a[1..], b, q);
    } else {
      assert a + b == b;
    }
  }

  /** parse_pdf(doc). */
  function Parse(pages: seq<Page>): seq<Record> {
    Complete(Collected(pages))
  }

  // ---------------------------------------------------------------------
  // What one block does

  lemma SkipStep(s: Scan, b: Block, page: nat, side: Side)
    requires Strip(b.text) == [] || MentionsComcbt(Strip(b.text))
    ensures Step(s, b, page, side) == s
  {
  }

  lemma RunSnoc(start: Scan, xs: seq<Block>, y: Block, page: nat, side: Side)
    ensures Run(start, xs + [y], page, side) == Step(Run(start, xs, page, side), y, page, side)
  {
    assert (xs + [y])[..|xs|] == xs;
  }

  /** One step never touches a closed record, and adds at most one record. */
  lemma StepGrows(s: Scan, b: Block, page: nat, side: Side)
    ensures s.done <= Step(s, b, page, side).done
    ensures |Listed(Step(s, b, page, side))| <= |Listed(s)| + 1
  {
  }

  /** A record, once closed, is never changed by the blocks read after it,
      and a stream adds at most one record per block: one half yields at
      most as many records as it has blocks. */
  lemma {:induction false} RunGrows(start: Scan, bs: seq<Block>, page: nat, side: Side)
    ensures start.done <= Run(start, bs, page, side).done
    ensures |Listed(Run(start, bs, page, side))| <= |Listed(start)| + |bs|
  {
    if bs != [] {
      var s := Run(start, bs[..|bs| - 1], page, side);
      RunGrows(start, bs[..|bs| - 1], page, side);
      StepGrows(s, bs[|bs| - 1], page, side);
      var d := Step(s, bs[|bs| - 1], page, side).done;
      assert start.done == s.done[..|start.done|] == d[..|start.done|];
    }
  }

  /** Two streams that leave the scan in the same state still do after one
      more block. */
  lemma RunSnocAgree(start: Scan, xs: seq<Block>, zs: seq<Block>, y: Block, page: nat, side: Side)
    requires Run(start, xs, page, side) == Run(start, zs, page, side)
    ensures Run(start, xs + [y], page, side) == Run(start, zs + [y], page, side)
  {
    RunSnoc(start, xs, y, page, side);
    RunSnoc(start, zs, y, page, side);
  }

  lemma SnocAssoc(xs: seq<Block>, b: Block, ys: seq<Block>)
    requires ys != []
    ensures xs + [b] + ys == (xs + [b] + ys[..|ys| - 1]) + [ys[|ys| - 1]]
    ensures xs + ys == (xs + ys[..|ys| - 1]) + [ys[|ys| - 1]]
  {
    assert ys == ys[..|ys| - 1] + [ys[|ys| - 1]];
  }

  /** A block the scan passes over at the point it is read changes nothing
      after it either. */
  lemma {:induction false} IdleBlockIgnored(start: Scan, xs: seq<Block>, b: Block, ys: seq<Block>, page: nat, side: Side)
    requires Step(Run(start, xs, page, side), b, page, side) == Run(start, xs, page, side)
    ensures Run(start, xs + [b] + ys, page, side) == Run(start, xs + ys, page, side)
  {
    if ys == [] {
      assert xs + [b] + ys == xs + [b] && xs + ys == xs;
      RunSnoc(start, xs, b, page, side);
    } else {
      var init := ys[..|ys| - 1];
      var y := ys[|ys| - 1];
      IdleBlockIgnored(start, xs, b, init, page, side);
      var l1, l2 := xs + [b] + init, xs + init;
      RunSnocAgree(start, l1, l2, y, page, side);
      SnocAssoc(xs, b, ys);
    }
  }

  /** A block whose stripped text is empty or carries the watermark, wherever
      it sits in a half's stream, changes nothing that the scan produces. */
  lemma SkippedBlockIgnored(start: Scan, xs: seq<Block>, b: Block, ys: seq<Block>, page: nat, side: Side)
    requires Strip(b.text) == [] || MentionsComcbt(Strip(b.text))
    ensures Run(start, xs + [b] + ys, page, side) == Run(start, xs + ys, page, side)
  {
    SkipStep(Run(start, xs, page, side), b, page, side);
    IdleBlockIgnored(start, xs, b, ys, page, side);
  }

  /** A block whose stripped text opens with the digits `num` and a period
      always closes the open record, unchanged, and opens a fresh one numbered
      `num`, with no options, answer index -1 and no option line; markers in
      the same block are not read. */
  lemma QuestionStartEffect(s: Scan, b: Block, page: nat, side: Side, num: string)
    requires !MentionsComcbt(Strip(b.text))
    requires num != [] && |num| < |Strip(b.text)| && Strip(b.text)[..|num| + 1] == num + "."
    requires forall k :: 0 <= k < |num| ==> IsDigit(num[k])
    ensures Step(s, b, page, side) == Scan(Some(Record(num, page, b.y0, [], -1, side, None)), s.done + Flush(s.curr))
  {
    QuestionNumberOf(Strip(b.text), num);
    QuestionStep(s, b, page, side);
  }

  lemma QuestionStep(s: Scan, b: Block, page: nat, side: Side)
    requires Strip(b.text) != [] && !MentionsComcbt(Strip(b.text)) && QuestionNumber(Strip(b.text)).Some?
    ensures Step(s, b, page, side)
            == Scan(Some(Record(QuestionNumber(Strip(b.text)).value, page, b.y0, [], -1, side, None)),
                    s.done + Flush(s.curr))
  {
  }

  /** A marker block read into an open record q: the option line is set
      only if it was unset; exactly min(#glyphs, 4 - n) options are appended
      after the n already there, the j-th appended being the j-th non-empty
      stripped piece of the split text or the placeholder; the answer index
      moves to the last filled glyph among those taken, and stays put when
      none is filled; nothing else changes. */
  lemma MarkerBlockEffect(q: Record, ms: string, contents: seq<string>, y: real)
    ensures var r := MarkerBlock(q, ms, contents, y);
            var n := |q.options|;
            var k := Taken(n, |ms|);
            && r.optY == (if q.optY.None? then Some(y) else q.optY)
            && r == q.(options := r.options, ansIdx := r.ansIdx, optY := r.optY)
            && r.options == q.options + Texts(contents, 0, k)
            && (NoneFilled(ms, 0, k) ==> r.ansIdx == q.ansIdx)
            && (!NoneFilled(ms, 0, k) ==> LastFilledAt(ms, 0, k, r.ansIdx - n))
  {
    var q1 := if q.optY.None? then q.(optY := Some(y)) else q;
    AddOptionsAppends(q1, ms, contents, 0);
    AddOptionsAnswer(q1, ms, contents, 0);
  }

  /** A continuation of a well-formed record replaces only its last option,
      by that option, a space and the block's text. */
  lemma ContinuedEffect(q: Record, txt: string)
    requires WellFormed(q) && q.options != [] && txt != [] && Trimmed(txt)
    ensures var n := |q.options|;
            Continued(q, txt) == q.(options := q.options[..n - 1] + [q.options[n - 1] + " " + txt])
  {
    var n := |q.options|;
    StripJoin(q.options[n - 1], txt);
    assert q.options[n - 1 := q.options[n - 1] + " " + txt] == q.options[..n - 1] + [q.options[n - 1] + " " + txt];
  }

  /** Which of the kinds a block with usable text and no question number is:
      with no open record it is ignored; glyphs make it a marker block; else
      it continues the last option, and is ignored when there is none yet. */
  lemma StepDispatch(s: Scan, b: Block, page: nat, side: Side)
    requires Strip(b.text) != [] && !MentionsComcbt(Strip(b.text)) && !OpensWithNumber(Strip(b.text))
    ensures var txt := Strip(b.text);
            var t := Step(s, b, page, side);
            && (s.curr.None? ==> t == s)
            && (s.curr.Some? && MarkersOf(txt) != [] ==>
                  t == Scan(Some(MarkerBlock(s.curr.value, MarkersOf(txt), OptionTexts(SplitAtMarkers(txt)), b.y0)), s.done))
            && (s.curr.Some? && MarkersOf(txt) == [] && s.curr.value.options != [] ==>
                  t == Scan(Some(Continued(s.curr.value, txt)), s.done))
            && (s.curr.Some? && MarkersOf(txt) == [] && s.curr.value.options == [] ==> t == s)
  {
    QuestionNumberMatches(Strip(b.text));
  }

  function Shift(base: seq<Record>, s: Scan): Scan {
    Scan(s.curr, base + s.done)
  }

  /** Records closed before a scan starts are carried along untouched. */
  lemma {:induction false} RunShift(base: seq<Record>, start: Scan, bs: seq<Block>, page: nat, side: Side)
    ensures Run(Shift(base, start), bs, page, side) == Shift(base, Run(start, bs, page, side))
  {
    if bs != [] {
      var init := bs[..|bs| - 1];
      RunShift(base, start, init, page, side);
      StepShift(base, Run(start, init, page, side), bs[|bs| - 1], page, side);
    }
  }

  lemma StepShift(base: seq<Record>, s: Scan, b: Block, page: nat, side: Side)
    ensures Step(Shift(base, s), b, page, side) == Shift(base, Step(s, b, page, side))
  {
    assert (base + s.done) + Flush(s.curr) == base + (s.done + Flush(s.curr));
  }

  lemma PrefixSnoc(bs: seq<Block>, i: nat)
    requires i < |bs|
    ensures bs[..i + 1] == bs[..i] + [bs[i]]
  {
  }

  /** One more block read: the loop invariant of the block loop carries over. */
  lemma RunExtend(base: seq<Record>, bs: seq<Block>, i: nat, before: Scan, after: Scan, page: nat, side: Side)
    requires i < |bs|
    requires before == Run(Scan(None, base), bs[..i], page, side)
    requires after == Step(before, bs[i], page, side)
    ensures after == Run(Scan(None, base), bs[..i + 1], page, side)
  {
    PrefixSnoc(bs, i);
    RunSnoc(Scan(None, base), bs[..i], bs[i], page, side);
  }

  /** The end of the block loop: flushing the open record appends exactly
      what the half contributes. */
  lemma RunFlush(base: seq<Record>, bs: seq<Block>, final: Scan, page: nat, side: Side)
    requires final == Run(Scan(None, base), bs, page, side)
    ensures final.done + Flush(final.curr) == base + SideRecords(bs, page, side)
  {
    assert Shift(base, Scan(None, [])) == Scan(None, base);
    RunShift(base, Scan(None, []), bs, page, side);
    var r := Run(Scan(None, []), bs, page, side);
    RecordsAssoc(base, r.done, Flush(r.curr));
  }

  lemma RecordsAssoc(a: seq<Record>, b: seq<Record>, c: seq<Record>)
    ensures a + b + c == a + (b + c)
  {
  }

  /** One more half read: the loop invariant of the side loop carries over. */
  lemma PageRecordsNext(pg: Page, page: nat, k: nat, before: seq<Record>)
    requires k < 2
    ensures before + PageRecords(pg, page, k) + SideRecords(ColumnStream(pg.blocks, pg.width, SideAt(k)), page, SideAt(k))
            == before + PageRecords(pg, page, k + 1)
  {
    RecordsAssoc(before, PageRecords(pg, page, k),
                 SideRecords(ColumnStream(pg.blocks, pg.width, SideAt(k)), page, SideAt(k)));
  }

  /** One more page read: the loop invariant of the page loop carries over. */
  lemma CollectedNext(pages: seq<Page>, p: nat)
    requires p < |pages|
    ensures Collected(pages[..p]) + PageRecords(pages[p], p, 2) == Collected(pages[..p + 1])
  {
    assert pages[..p + 1][..p] == pages[..p];
  }

  // ---------------------------------------------------------------------
  // What every record satisfies

  predicate CleanOptions(opts: seq<string>) {
    forall k :: 0 <= k < |opts| ==> opts[k] != [] && Trimmed(opts[k])
  }

  /** The invariant every record keeps while it is open and after it is closed. */
  predicate WellFormed(q: Record) {
    && |q.options| <= 4
    && -1 <= q.ansIdx < |q.options|
    && CleanOptions(q.options)
    && (q.options != [] ==> q.optY.Some?)
    && (q.optY.Some? ==> q.y0 <= q.optY.value)
    && q.num != [] && (forall k :: 0 <= k < |q.num| ==> IsDigit(q.num[k]))
  }

  predicate Belongs(q: Record, page: nat, side: Side) {
    q.page == page && q.side == side
  }

  predicate AllBelong(qs: seq<Record>, page: nat, side: Side) {
    forall q :: q in qs ==> WellFormed(q) && Belongs(q, page, side)
  }

  lemma OptionTextClean(contents: seq<string>, i: nat)
    requires forall c :: c in contents ==> c != [] && Trimmed(c)
    ensures OptionText(contents, i) != [] && Trimmed(OptionText(contents, i))
  {
    if i < |contents| {
      assert contents[i] in contents;
    } else {
      assert Placeholder[0] == '\U{B0B4}' && Placeholder[|Placeholder| - 1] == '\U{C74C}';
    }
  }

  /** Adding options from clean texts keeps a record well formed once its
      option line is known. */
  lemma AddOptionsWellFormed(q: Record, ms: string, contents: seq<string>)
    requires WellFormed(q) && q.optY.Some?
    requires forall c :: c in contents ==> c != [] && Trimmed(c)
    ensures WellFormed(AddOptions(q, ms, contents, 0))
    ensures SameHeading(AddOptions(q, ms, contents, 0), q)
  {
    AddOptionsAppends(q, ms, contents, 0);
    AddOptionsAnswer(q, ms, contents, 0);
    var n := |q.options|;
    var k := Taken(n, |ms|);
    AnswerInRange(ms, 0, k, n, q.ansIdx, AddOptions(q, ms, contents, 0).ansIdx);
    TextsClean(q.options, contents, 0, k);
  }

  lemma AnswerInRange(ms: string, lo: nat, k: nat, n: int, a0: int, ra: int)
    requires lo + k <= |ms| && AnswerAfter(ms, lo, k, n, a0, ra) && -1 <= a0 < n
    ensures -1 <= ra < n + k
  {
    if !NoneFilled(ms, lo, lo + k) {
      assert LastFilledAt(ms, lo, lo + k, lo + ra - n);
    }
  }

  lemma TextsClean(xs: seq<string>, contents: seq<string>, i: nat, k: nat)
    requires CleanOptions(xs) && forall c :: c in contents ==> c != [] && Trimmed(c)
    ensures CleanOptions(xs + Texts(contents, i, k))
  {
    var ys := xs + Texts(contents, i, k);
    forall j | 0 <= j < |ys|
      ensures ys[j] != [] && Trimmed(ys[j])
    {
      if j >= |xs| {
        OptionTextClean(contents, i + j - |xs|);
      }
    }
  }

  /** A marker block keeps an open record well formed and its heading as it was. */
  lemma MarkerBlockWellFormed(q: Record, ms: string, contents: seq<string>, y: real)
    requires WellFormed(q) && (q.optY.None? ==> q.y0 <= y)
    requires forall c :: c in contents ==> c != [] && Trimmed(c)
    ensures WellFormed(MarkerBlock(q, ms, contents, y))
    ensures var r := MarkerBlock(q, ms, contents, y); r.num == q.num && r.page == q.page && r.y0 == q.y0 && r.side == q.side
  {
    var q1 := if q.optY.None? then q.(optY := Some(y)) else q;
    AddOptionsWellFormed(q1, ms, contents);
  }

  /** A continuation keeps an open record well formed. */
  lemma ContinuedWellFormed(q: Record, txt: string)
    requires WellFormed(q) && q.options != [] && txt != [] && Trimmed(txt)
    ensures WellFormed(Continued(q, txt))
  {
    StripJoin(q.options[|q.options| - 1], txt);
  }

  /** One step over a stream sorted by top edge keeps every record well
      formed, in its own half, and the open one no lower than the block read. */
  lemma StepInvariant(s: Scan, b: Block, page: nat, side: Side)
    requires AllBelong(s.done, page, side)
    requires s.curr.Some? ==> WellFormed(s.curr.value) && Belongs(s.curr.value, page, side) && s.curr.value.y0 <= b.y0
    ensures var t := Step(s, b, page, side);
            && AllBelong(t.done, page, side)
            && (t.curr.Some? ==> WellFormed(t.curr.value) && Belongs(t.curr.value, page, side) && t.curr.value.y0 <= b.y0)
  {
    var txt := Strip(b.text);
    if txt == [] || MentionsComcbt(txt) {
    } else if QuestionNumber(txt).Some? {
      QuestionNumberSpec(txt);
    } else if s.curr.Some? {
      var q := s.curr.value;
      if MarkersOf(txt) != [] {
        OptionTextsSpec(SplitAtMarkers(txt));
        MarkerBlockWellFormed(q, MarkersOf(txt), OptionTexts(SplitAtMarkers(txt)), b.y0);
      } else if q.options != [] {
        StripSpec(b.text);
        ContinuedWellFormed(q, txt);
      }
    }
  }

  /** Over a stream sorted by top edge, the scan keeps every record well
      formed and in the half being read. */
  lemma {:induction false} RunInvariant(bs: seq<Block>, page: nat, side: Side)
    requires SortedByTop(bs)
    ensures var s := Run(Scan(None, []), bs, page, side);
            && AllBelong(s.done, page, side)
            && (s.curr.Some? ==> WellFormed(s.curr.value) && Belongs(s.curr.value, page, side)
                                 && bs != [] && s.curr.value.y0 <= bs[|bs| - 1].y0)
  {
    if bs != [] {
      var init := bs[..|bs| - 1];
      assert SortedByTop(init);
      RunInvariant(init, page, side);
      StepInvariant(Run(Scan(None, []), init, page, side), bs[|bs| - 1], page, side);
    }
  }

  /** Records never span a half or a page: everything one half yields belongs
      to it, and is well formed. */
  lemma SideRecordsBelong(bs: seq<Block>, page: nat, side: Side)
    requires SortedByTop(bs)
    ensures AllBelong(SideRecords(bs, page, side), page, side)
  {
    RunInvariant(bs, page, side);
  }

  /** Records listed by the top edge of their question heading. */
  predicate ByTop(qs: seq<Record>) {
    forall i, j :: 0 <= i < j < |qs| ==> qs[i].y0 <= qs[j].y0
  }

  predicate NotBelow(qs: seq<Record>, y: real) {
    forall q :: q in qs ==> q.y0 <= y
  }

  /** Replacing the last record by one with the same heading top keeps the order. */
  lemma SameLastTop(done: seq<Record>, q: Record, r: Record, y: real)
    requires r.y0 == q.y0 && ByTop(done + [q]) && NotBelow(done + [q], y)
    ensures ByTop(done + [r]) && NotBelow(done + [r], y)
  {
    var a, b := done + [q], done + [r];
    assert forall k :: 0 <= k < |b| ==> b[k].y0 == a[k].y0;
    assert forall x :: x in b ==> x in done || x == r;
  }

  /** Reading a block no higher than every record so far keeps the records
      in heading order, and none of them lower than that block. */
  lemma StepByTop(s: Scan, b: Block, page: nat, side: Side)
    requires ByTop(Listed(s)) && NotBelow(Listed(s), b.y0)
    ensures ByTop(Listed(Step(s, b, page, side))) && NotBelow(Listed(Step(s, b, page, side)), b.y0)
  {
    var txt := Strip(b.text);
    var t := Step(s, b, page, side);
    if txt == [] || MentionsComcbt(txt) {
    } else if QuestionNumber(txt).Some? {
      var l := Listed(s);
      assert Listed(t) == l + [t.curr.value] && t.curr.value.y0 == b.y0;
      assert forall x :: x in l + [t.curr.value] ==> x in l || x == t.curr.value;
    } else if s.curr.Some? {
      var q := s.curr.value;
      if MarkersOf(txt) != [] {
        var q1 := if q.optY.None? then q.(optY := Some(b.y0)) else q;
        AddOptionsAppends(q1, MarkersOf(txt), OptionTexts(SplitAtMarkers(txt)), 0);
        SameLastTop(s.done, q, t.curr.value, b.y0);
      } else if q.options != [] {
        SameLastTop(s.done, q, t.curr.value, b.y0);
      }
    }
  }

  /** Over a stream sorted by top edge, the records of a half come in the
      order of their question headings, none lower than the last block read. */
  lemma {:induction false} RunByTop(bs: seq<Block>, page: nat, side: Side)
    requires SortedByTop(bs)
    ensures ByTop(Listed(Run(Scan(None, []), bs, page, side)))
    ensures bs == [] ==> Listed(Run(Scan(None, []), bs, page, side)) == []
    ensures bs != [] ==> NotBelow(Listed(Run(Scan(None, []), bs, page, side)), bs[|bs| - 1].y0)
  {
    if bs != [] {
      var init := bs[..|bs| - 1];
      var last := bs[|bs| - 1];
      assert SortedByTop(init);
      RunByTop(init, page, side);
      if init != [] {
        assert init[|init| - 1].y0 <= last.y0;
      }
      StepByTop(Run(Scan(None, []), init, page, side), last, page, side);
    }
  }

  /** Reading order: page by page, the left half before the right. */
  function Key(q: Record): nat {
    2 * q.page + q.side.Index()
  }

  /** x is read before y: an earlier half, or the same half with a heading
      no lower. */
  predicate Before(x: Record, y: Record) {
    Key(x) < Key(y) || (Key(x) == Key(y) && x.y0 <= y.y0)
  }

  predicate InReadingOrder(qs: seq<Record>) {
    forall i, j :: 0 <= i < j < |qs| ==> Before(qs[i], qs[j])
  }

  lemma ConcatInOrder(a: seq<Record>, b: seq<Record>)
    requires InReadingOrder(a) && InReadingOrder(b)
    requires forall x, y :: x in a && y in b ==> Before(x, y)
    ensures InReadingOrder(a + b)
  {
    forall i, j | 0 <= i < j < |a + b|
      ensures Before((a + b)[i], (a + b)[j])
    {
      if j < |a| {
      } else if i >= |a| {
        assert (a + b)[i] == b[i - |a|] && (a + b)[j] == b[j - |a|];
      } else {
        assert (a + b)[i] in a && (a + b)[j] in b;
      }
    }
  }

  /** The records of page `page`, read half after half. */
  lemma {:induction false} PageRecordsFacts(pg: Page, page: nat, sides: nat)
    requires sides <= 2
    ensures InReadingOrder(PageRecords(pg, page, sides))
    ensures forall q :: q in PageRecords(pg, page, sides) ==>
              WellFormed(q) && q.page == page && 2 * page <= Key(q) < 2 * page + sides
  {
    if sides > 0 {
      var side := SideAt(sides - 1);
      var a := PageRecords(pg, page, sides - 1);
      var stream := ColumnStream(pg.blocks, pg.width, side);
      var b := SideRecords(stream, page, side);
      assert PageRecords(pg, page, sides) == a + b;
      PageRecordsFacts(pg, page, sides - 1);
      SideRecordsBelong(stream, page, side);
      assert side.Index() == sides - 1;
      assert forall q :: q in b ==> Key(q) == 2 * page + sides - 1;
      RunByTop(stream, page, side);
      assert InReadingOrder(b) by {
        forall i, j | 0 <= i < j < |b| ensures Before(b[i], b[j]) {
          assert b[i] in b && b[j] in b;
        }
      }
      ConcatInOrder(a, b);
    }
  }

  /** q_list is in reading order and holds well-formed records of the document's pages. */
  lemma {:induction false} CollectedFacts(pages: seq<Page>)
    ensures InReadingOrder(Collected(pages))
    ensures forall q :: q in Collected(pages) ==> WellFormed(q) && Key(q) < 2 * |pages| && q.page < |pages|
  {
    if pages != [] {
      var n := |pages| - 1;
      var a := Collected(pages[..n]);
      var b := PageRecords(pages[n], n, 2);
      CollectedFacts(pages[..n]);
      PageRecordsFacts(pages[n], n, 2);
      ConcatInOrder(a, b);
    }
  }

  lemma {:induction false} CompleteInOrder(qs: seq<Record>)
    requires InReadingOrder(qs)
    ensures InReadingOrder(Complete(qs))
  {
    if qs != [] {
      var head := if |qs[0].options| >= 4 then [qs[0]] else [];
      var rest := Complete(qs[1..]);
      assert Complete(qs) == head + rest;
      assert InReadingOrder(qs[1..]) by {
        forall i, j | 0 <= i < j < |qs| - 1 ensures Before(qs[1..][i], qs[1..][j]) {
          assert qs[1..][i] == qs[i + 1] && qs[1..][j] == qs[j + 1];
        }
      }
      CompleteInOrder(qs[1..]);
      assert forall q :: q in qs[1..] ==> Before(qs[0], q);
      ConcatInOrder(head, rest);
    }
  }

  /** What parse_pdf returns: every record has exactly four trimmed,
      non-empty options, an answer index in {-1, 0, 1, 2, 3}, an option line
      at or below its question line, a digit-string number, a page of the
      document; and the records come in reading order. */
  lemma ParsedRecords(pages: seq<Page>)
    ensures InReadingOrder(Parse(pages))
    ensures forall q :: q in Parse(pages) ==>
              && |q.options| == 4 && -1 <= q.ansIdx <= 3
              && CleanOptions(q.options)
              && q.optY.Some? && q.y0 <= q.optY.value
              && q.num != [] && (forall k :: 0 <= k < |q.num| ==> IsDigit(q.num[k]))
              && q.page < |pages|
  {
    CollectedFacts(pages);
    CompleteInOrder(Collected(pages));
  }
}
