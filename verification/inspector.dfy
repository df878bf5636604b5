/**
 * `Inspector::inspect` without its file reads and writes: the instrumented engine. It cuts
 * segments like the production engine but accepts a more tolerant points paragraph, keeps
 * the raw zones, flattens the answers without the repair pass, cuts the answers zone into
 * one block per alphabetic list opening, and gives the reasons of its type decision.
 */
module Inspector {
  import opened Chars
  import opened Dom
  import opened Patterns
  import opened TextNorm
  import opened Segmenter
  import opened Zones
  import opened Flatten
  import opened Classify

  /** The openings `answerBlocks` cuts at: an `<ol>` tag with `type=a` or a lower-alpha style. */
  const AlphaBlockOpen: Matcher := Scan(OlOpen(TypeAOrLowerAlphaStyle))

  datatype Block = Block(letter: char, html: string, text: string)

  /** `chr(ord('A') + i)`: the byte value wraps around modulo 256. */
  function BlockLabel(i: nat): (c: char)
    ensures i < 26 ==> 'A' <= c <= 'Z'
  {
    ((65 + i) % 256) as char
  }

  /** The hits lie inside `a`, in order, without overlapping. */
  predicate Ascending(a: string, tags: seq<Hit>) {
    (forall k :: 0 <= k < |tags| ==> tags[k].pos < tags[k].end <= |a|)
    && (forall k :: 0 < k < |tags| ==> tags[k - 1].end <= tags[k].pos)
  }

  /** Block `i` ends where the next opening starts, the last one at the end of the zone. */
  function ChunkEnd(a: string, tags: seq<Hit>, i: nat): (e: nat)
    requires Ascending(a, tags) && i < |tags|
    ensures tags[i].pos < e <= |a|
  {
    if i + 1 < |tags| then tags[i + 1].pos else |a|
  }

  function BlockAt(a: string, tags: seq<Hit>, i: nat): Block
    requires Ascending(a, tags) && i < |tags|
  {
    var chunk := a[tags[i].pos..ChunkEnd(a, tags, i)];
    Block(BlockLabel(i), chunk, CollapseTrim(StripTags(chunk)))
  }

  /** The blocks cut at the given openings. */
  function BlocksAt(a: string, tags: seq<Hit>): (r: seq<Block>)
    requires Ascending(a, tags)
    ensures |r| == |tags|
  {
    seq(|tags|, i requires 0 <= i < |tags| => BlockAt(a, tags, i))
  }

  /**
   * `answerBlocks` (with `m` the alphabetic opening `AlphaBlockOpen`): nothing for an
   * empty zone, otherwise one block per opening, lettered by position.
   */
  function Blocks(a: string, m: Matcher): (r: seq<Block>)
    ensures r == [] <==> a == "" || Find(m, a, 0).None?
    ensures forall i :: 0 <= i < |r| ==> r[i].letter == BlockLabel(i)
  {
    if a == "" then []
    else BlocksAt(a, FindAll(m, a, 0))
  }

  /** The markup of a sequence of blocks, one after the other. */
  function BlocksHtml(bs: seq<Block>): string
    decreases |bs|
  {
    if bs == [] then [] else bs[0].html + BlocksHtml(bs[1..])
  }

  /** From block `i` on, the blocks put back together give the zone from opening `i` on. */
  lemma {:induction false} BlocksAtCover(a: string, tags: seq<Hit>, i: nat)
    requires Ascending(a, tags) && i < |tags|
    ensures BlocksHtml(BlocksAt(a, tags)[i..]) == a[tags[i].pos..]
    decreases |tags| - i
  {
    var bs := BlocksAt(a, tags);
    var h := bs[i].html;
    assert BlocksHtml(bs[i..]) == h + BlocksHtml(bs[i + 1..]) by {
      assert bs[i..][0] == bs[i] && bs[i..][1..] == bs[i + 1..];
    }
    BlockHtmlAt(a, tags, i);
    if i + 1 < |tags| {
      BlocksAtCover(a, tags, i + 1);
      SliceSplit(a, tags[i].pos, tags[i + 1].pos);
    } else {
      assert bs[i + 1..] == [];
      assert a[tags[i].pos..|a|] == a[tags[i].pos..];
    }
  }

  /** The markup of block `i` is the zone from opening `i` to the next opening. */
  lemma BlockHtmlAt(a: string, tags: seq<Hit>, i: nat)
    requires Ascending(a, tags) && i < |tags|
    ensures BlocksAt(a, tags)[i].html == a[tags[i].pos..ChunkEnd(a, tags, i)]
  {
  }

  /**
   * The blocks cover the answers zone from its first alphabetic opening on, with nothing
   * lost or repeated between them.
   */
  lemma BlocksCover(a: string, m: Matcher)
    requires Blocks(a, m) != []
    ensures Find(m, a, 0).Some?
    ensures BlocksHtml(Blocks(a, m)) == a[Find(m, a, 0).value.pos..]
  {
    var tags := FindAll(m, a, 0);
    BlocksAtCover(a, tags, 0);
    assert BlocksAt(a, tags)[0..] == BlocksAt(a, tags);
  }

  /** `answerBlocks`: the openings are searched, then cut at. */
  method AnswerBlocks(a: string, m: Matcher) returns (blocks: seq<Block>)
    ensures blocks == Blocks(a, m)
  {
    if a == "" {
      return [];
    }
    var tags := FindAll(m, a, 0);
    blocks := CutBlocks(a, tags);
  }

  /** The indexed `for` loop of `answerBlocks`: block `i` runs from opening `i` to the next one. */
  method CutBlocks(a: string, tags: seq<Hit>) returns (blocks: seq<Block>)
    requires Ascending(a, tags)
    ensures blocks == BlocksAt(a, tags)
  {
    ghost var spec := BlocksAt(a, tags);
    blocks := [];
    var n := |tags|;
    for i := 0 to n
      invariant blocks == spec[..i]
    {
      var start := tags[i].pos;
      var end := if i + 1 < n then tags[i + 1].pos else |a|;
      var chunk := a[start..end];
      var block := Block(BlockLabel(i), chunk, CollapseTrim(StripTags(chunk)));
      PrefixExtends(spec, i, block);
      blocks := blocks + [block];
    }
    assert spec[..n] == spec;
  }

  /** One row of the inspection report. */
  datatype Row = Row(
    index: nat, full: string, question: string, answers: string, pointsHtml: string,
    items: seq<Item>, answersCount: nat, blocks: seq<Block>, decision: Decision,
    start: nat, end: nat, pointsRel: nat, firstARel: Option<nat>)

  /**
   * The row `inspect` builds for segment number `index` (with `bo` the block opening
   * `AlphaBlockOpen`): raw zones, no repair pass.
   */
  function RowOf(seg: Segment, index: nat, parse: Parser, sc: Scanners, bo: Matcher): Row {
    var z := SplitRaw(seg.full, sc.close, sc.alpha);
    var items := AnswerItems(z.answers, parse, Instrumented);
    Row(index, seg.full, z.question, z.answers, seg.pointsHtml, items, |items|,
        Blocks(z.answers, bo), DecideWithReasons(z.question, items), seg.start, seg.end,
        z.pStart, z.firstA)
  }

  function Rows(segs: seq<Segment>, parse: Parser, sc: Scanners, bo: Matcher): seq<Row> {
    seq(|segs|, k requires 0 <= k < |segs| => RowOf(segs[k], k + 1, parse, sc, bo))
  }

  /** The segments of the body of a document, as the instrumented engine finds them. */
  function InspectedSegments(html: string): seq<Segment> {
    Segments(BodyHtml(html), 0, InstrumentedScanners.open, InstrumentedScanners.close)
  }

  /** The body of the loop of `inspect` for one segment. */
  method BuildRow(seg: Segment, idx: nat, parse: Parser, sc: Scanners, bo: Matcher) returns (row: Row)
    ensures row == RowOf(seg, idx, parse, sc, bo)
  {
    var z := SplitRaw(seg.full, sc.close, sc.alpha);
    var items := AnswerItemsFlatten(z.answers, parse, Instrumented);
    var blocks := AnswerBlocks(z.answers, bo);
    var decision := DecideWithReasons(z.question, items);
    row := Row(idx, seg.full, z.question, z.answers, seg.pointsHtml, items, |items|,
               blocks, decision, seg.start, seg.end, z.pStart, z.firstA);
  }

  /** `inspect` on a document: the body is taken out and scanned with the tolerant points paragraph. */
  method Inspect(html: string, parse: Parser) returns (rows: seq<Row>)
    ensures rows == Rows(InspectedSegments(html), parse, InstrumentedScanners, AlphaBlockOpen)
  {
    var body := BodyHtml(html);
    rows := InspectLoop(body, parse, InstrumentedScanners, AlphaBlockOpen);
  }

  /** The `while (true)` loop of `inspect`: one row per segment, each search starting at the previous end. */
  method InspectLoop(body: string, parse: Parser, sc: Scanners, bo: Matcher) returns (rows: seq<Row>)
    ensures rows == Rows(Segments(body, 0, sc.open, sc.close), parse, sc, bo)
  {
    var open := sc.open;
    var close := sc.close;
    ghost var segs := Segments(body, 0, open, close);
    ghost var spec := Rows(segs, parse, sc, bo);
    rows := [];
    var offset := 0;
    var idx := 0;
    while true
      invariant idx <= |segs|
      invariant offset == SearchFrom(segs, 0, idx) && offset <= |body|
      invariant rows == spec[..idx]
      decreases |segs| - idx
    {
      var seg := NextStrictSegment(body, offset, open, close);
      if seg.None? {
        break;
      }
      if idx == |segs| {
        SegmentsExhaustive(body, 0, open, close);
        assert false;
      }
      SegmentsNext(body, 0, open, close, idx);
      var row := BuildRow(seg.value, idx + 1, parse, sc, bo);
      PrefixExtends(spec, idx, row);
      rows := rows + [row];
      idx := idx + 1;
      offset := seg.value.end;
    }
    if idx < |segs| {
      SegmentsNext(body, 0, open, close, idx);
      assert false;
    }
    assert spec[..idx] == spec;
  }

  /**
   * The rows of a sequence of segments: row `k` is numbered `k + 1`, has the bounds and the
   * text of segment `k`, and counts as many answers as items collected.
   */
  lemma RowsNumbered(segs: seq<Segment>, parse: Parser, sc: Scanners, bo: Matcher)
    ensures |Rows(segs, parse, sc, bo)| == |segs|
    ensures forall k :: 0 <= k < |segs| ==> RowMatches(Rows(segs, parse, sc, bo)[k], segs[k], k + 1)
  {
    forall k | 0 <= k < |segs|
      ensures RowMatches(Rows(segs, parse, sc, bo)[k], segs[k], k + 1)
    {
      RowOfFields(segs[k], k + 1, parse, sc, bo);
      RowsAt(segs, parse, sc, bo, k);
    }
  }

  predicate RowMatches(r: Row, seg: Segment, index: nat) {
    r.index == index && r.start == seg.start && r.end == seg.end && r.full == seg.full
    && r.answersCount == |r.items|
  }

  /** Rows follow document order: each segment ends before the next one starts. */
  lemma RowsInOrder(body: string, parse: Parser, sc: Scanners, bo: Matcher, i: nat, k: nat)
    requires i < k < |Segments(body, 0, sc.open, sc.close)|
    ensures Rows(Segments(body, 0, sc.open, sc.close), parse, sc, bo)[i].end
      <= Rows(Segments(body, 0, sc.open, sc.close), parse, sc, bo)[k].start
  {
    var segs := Segments(body, 0, sc.open, sc.close);
    SegmentsIncreasing(body, 0, sc.open, sc.close, i, k);
    RowOfFields(segs[i], i + 1, parse, sc, bo);
    RowOfFields(segs[k], k + 1, parse, sc, bo);
    RowsAt(segs, parse, sc, bo, i);
    RowsAt(segs, parse, sc, bo, k);
  }

  lemma RowsAt(segs: seq<Segment>, parse: Parser, sc: Scanners, bo: Matcher, k: nat)
    requires k < |segs|
    ensures Rows(segs, parse, sc, bo)[k] == RowOf(segs[k], k + 1, parse, sc, bo)
  {
  }

  /** The segment fields a row copies, and its answer count. */
  lemma RowOfFields(seg: Segment, index: nat, parse: Parser, sc: Scanners, bo: Matcher)
    ensures RowMatches(RowOf(seg, index, parse, sc, bo), seg, index)
  {
  }

  /**
   * The raw zones of a row: statement and answers together are the segment up to the
   * points paragraph, and the first alphabetic opening is reported even when it lies
   * after the points paragraph.
   */
  lemma RowZones(seg: Segment, index: nat, parse: Parser, sc: Scanners, bo: Matcher)
    ensures var r := RowOf(seg, index, parse, sc, bo);
      r.pointsRel <= |seg.full|
      && r.question + r.answers == seg.full[..r.pointsRel]
      && r.firstARel == HitPos(Find(sc.alpha, seg.full, 0))
      && (r.answers != [] <==> r.firstARel.Some? && r.firstARel.value < r.pointsRel)
  {
  }

  /** The instrumented decision agrees with the production rule order on the same statement text. */
  lemma RowDecision(seg: Segment, index: nat, parse: Parser, sc: Scanners, bo: Matcher)
    ensures var r := RowOf(seg, index, parse, sc, bo);
      r.decision.qtype == Classify.Classify(StatementLow(r.question, Instrumented), Texts(r.items))
      && |r.decision.why| == 1
  {
    var r := RowOf(seg, index, parse, sc, bo);
    ReasonsAgree(r.question, r.items);
  }
}
