/**
 * `Extractor::extract` without its file reads and writes: the body of the intermediate
 * HTML is cut into segments, each segment into zones, and each becomes one question
 * record with a contiguous index.
 */
module Extractor {
  import opened Chars
  import opened Dom
  import opened Patterns
  import opened TextNorm
  import opened Segmenter
  import opened Zones
  import opened Flatten
  import opened Classify

  const ImgSrcTag: Matcher := Scan(ImgSrc)
  const AnyImgTag: Matcher := Scan(ImgTag)
  const BlankPara: Matcher := Scan(EmptyPara)

  datatype Statement = Statement(html: string, text: string, images: seq<string>)

  datatype Question = Question(
    index: nat, qtype: QType, template: string, statement: Statement,
    answers: seq<Item>, fullSource: string, answersHtml: string)

  datatype DebugRow = DebugRow(
    qIndex: nat, lenFull: nat, lenQ: nat, lenA: nat, firstA: Option<nat>, answersCount: nat)

  /** The sources captured by the image matches of the statement, in order. */
  function StatementImages(qHtml: string): (r: seq<string>)
    ensures |r| == |FindAll(ImgSrcTag, qHtml, 0)|
  {
    var hits := FindAll(ImgSrcTag, qHtml, 0);
    seq(|hits|, k requires 0 <= k < |hits| => ImgSrcValue(qHtml, hits[k].pos))
  }

  /**
   * The statement of a question: its text is read before anything is removed; when at
   * least one image source is found, every `<img>` tag and then every blank paragraph
   * is removed from the markup.
   */
  function StatementOf(qHtml: string): (st: Statement)
    ensures st.text == CleanText(StripTags(qHtml))
    ensures st.images == [] ==> st.html == qHtml
    ensures |st.html| <= |qHtml|
  {
    var imgs := StatementImages(qHtml);
    if qHtml != "" && imgs != [] then
      var noImg := RemoveAll(AnyImgTag, qHtml, 0);
      Statement(RemoveAll(BlankPara, noImg, 0), CleanText(StripTags(qHtml)), imgs)
    else Statement(qHtml, CleanText(StripTags(qHtml)), imgs)
  }

  /**
   * When images are found, the statement markup is what lies outside the `<img>` tags,
   * and then outside the blank paragraphs of that text.
   */
  lemma StatementHtmlOutside(qHtml: string)
    requires qHtml != "" && StatementImages(qHtml) != []
    ensures StatementOf(qHtml).html == Outside(Outside(qHtml, 0, FindAll(AnyImgTag, qHtml, 0)), 0,
      FindAll(BlankPara, Outside(qHtml, 0, FindAll(AnyImgTag, qHtml, 0)), 0))
  {
    var noImg := RemoveAll(AnyImgTag, qHtml, 0);
    RemoveAllOutside(AnyImgTag, qHtml, 0);
    RemoveAllOutside(BlankPara, noImg, 0);
  }

  /** Each statement image source is non-empty and holds no quote. */
  lemma StatementImagesClean(qHtml: string)
    ensures forall k :: 0 <= k < |StatementImages(qHtml)| ==>
      StatementImages(qHtml)[k] != [] && forall j :: 0 <= j < |StatementImages(qHtml)[k]| ==> !IsQuote(StatementImages(qHtml)[k][j])
  {
    var hits := FindAll(ImgSrcTag, qHtml, 0);
    forall k | 0 <= k < |hits|
      ensures ImgSrcAt(qHtml, hits[k].pos).Some?
    {
      assert ImgSrcTag(qHtml, hits[k].pos) == Some(hits[k].end);
    }
  }

  /** The record `extract` builds for segment number `index`. */
  function QuestionOf(seg: Segment, index: nat, parse: Parser, sc: Scanners): Question {
    var z := SplitZones(seg.full, sc.close, sc.alpha);
    var answers := AnswerItems(z.answers, parse, Production);
    var st := StatementOf(z.question);
    Question(index, DecideType(st.html, answers), "Q1", st, answers, seg.full, z.answers)
  }

  function DebugOf(seg: Segment, index: nat, parse: Parser, sc: Scanners): DebugRow {
    var z := SplitZones(seg.full, sc.close, sc.alpha);
    var q := QuestionOf(seg, index, parse, sc);
    DebugRow(index, |seg.full|, |q.statement.html|, |z.answers|, z.firstA, |q.answers|)
  }

  /** The segments of the body of a document, as the production engine finds them. */
  function DocumentSegments(html: string): seq<Segment> {
    var body := BodyHtml(html);
    Segments(body, 0, ProductionScanners.open, ProductionScanners.close)
  }

  /** The body of the loop of `extract` for one segment. */
  method BuildQuestion(seg: Segment, idx: nat, parse: Parser, sc: Scanners) returns (q: Question, d: DebugRow)
    ensures q == QuestionOf(seg, idx, parse, sc) && d == DebugOf(seg, idx, parse, sc)
  {
    var full := seg.full;
    var z := SplitZones(full, sc.close, sc.alpha);
    var answers := AnswerItemsFlatten(z.answers, parse, Production);
    var st := StatementOf(z.question);
    var qtype := DecideType(st.html, answers);
    q := Question(idx, qtype, "Q1", st, answers, full, z.answers);
    d := DebugRow(idx, |full|, |st.html|, |z.answers|, z.firstA, |answers|);
  }

  /** One value per segment, segment `k` numbered `k + 1`. */
  function Numbered<T>(segs: seq<Segment>, f: (Segment, nat) -> T): (r: seq<T>)
    ensures |r| == |segs|
  {
    seq(|segs|, k requires 0 <= k < |segs| => f(segs[k], k + 1))
  }

  lemma NumberedAt<T>(segs: seq<Segment>, f: (Segment, nat) -> T, k: nat)
    requires k < |segs|
    ensures Numbered(segs, f)[k] == f(segs[k], k + 1)
  {
  }

  /** The records of a sequence of segments, numbered from 1. */
  function Questions(segs: seq<Segment>, parse: Parser, sc: Scanners): seq<Question> {
    Numbered(segs, (seg, i) => QuestionOf(seg, i, parse, sc))
  }

  function DebugRows(segs: seq<Segment>, parse: Parser, sc: Scanners): seq<DebugRow> {
    Numbered(segs, (seg, i) => DebugOf(seg, i, parse, sc))
  }

  /**
   * `extract` on a document: the body is taken out, then the segments are scanned with the
   * decimal-list opening and the strict points paragraph.
   */
  method Extract(html: string, parse: Parser) returns (questions: seq<Question>, debug: seq<DebugRow>)
    ensures questions == Questions(DocumentSegments(html), parse, ProductionScanners)
    ensures debug == DebugRows(DocumentSegments(html), parse, ProductionScanners)
  {
    var body := BodyHtml(html);
    questions, debug := ExtractLoop(body, parse, ProductionScanners);
  }

  /**
   * The `while (true)` loop of `extract`: one question per segment, in document order,
   * numbered 1..N, each search restarting at the end of the previous segment.
   */
  method ExtractLoop(body: string, parse: Parser, sc: Scanners)
    returns (questions: seq<Question>, debug: seq<DebugRow>)
    ensures questions == Questions(Segments(body, 0, sc.open, sc.close), parse, sc)
    ensures debug == DebugRows(Segments(body, 0, sc.open, sc.close), parse, sc)
  {
    var open := sc.open;
    var close := sc.close;
    ghost var segs := Segments(body, 0, open, close);
    ghost var qs := Questions(segs, parse, sc);
    ghost var ds := DebugRows(segs, parse, sc);
    questions := [];
    debug := [];
    var offset := 0;
    var idx := 0;
    while true
      invariant idx <= |segs|
      invariant offset == SearchFrom(segs, 0, idx) && offset <= |body|
      invariant questions == qs[..idx] && debug == ds[..idx]
      decreases |segs| - idx
    {
      var seg := NextStrictSegment(body, offset, open, close);
      if seg.None? {
        break;
      }
      if idx == |segs| {
        SegmentsExhaustive(body, 0, open, close);
        assert false;
      }
      SegmentsNext(body, 0, open, close, idx);
      var q, d := BuildQuestion(seg.value, idx + 1, parse, sc);
      PrefixExtends(qs, idx, q);
      PrefixExtends(ds, idx, d);
      questions := questions + [q];
      debug := debug + [d];
      idx := idx + 1;
      offset := seg.value.end;
    }
    if idx < |segs| {
      SegmentsNext(body, 0, open, close, idx);
      assert false;
    }
    assert qs[..idx] == qs && ds[..idx] == ds;
  }

  /**
   * The records of a sequence of segments: question `k` is numbered `k + 1` and keeps the
   * text of segment `k`; its debug row has the same number and counts its answers.
   */
  lemma QuestionsNumbered(segs: seq<Segment>, parse: Parser, sc: Scanners)
    ensures |Questions(segs, parse, sc)| == |DebugRows(segs, parse, sc)| == |segs|
    ensures forall k :: 0 <= k < |segs| ==>
      RecordMatches(Questions(segs, parse, sc)[k], DebugRows(segs, parse, sc)[k], segs[k], k + 1)
  {
    forall k | 0 <= k < |segs|
      ensures RecordMatches(Questions(segs, parse, sc)[k], DebugRows(segs, parse, sc)[k], segs[k], k + 1)
    {
      QuestionsAt(segs, parse, sc, k);
      DebugRowsAt(segs, parse, sc, k);
      RecordOfFields(segs[k], k + 1, parse, sc);
    }
  }

  predicate RecordMatches(q: Question, d: DebugRow, seg: Segment, index: nat) {
    q.index == index && q.fullSource == seg.full
    && d.qIndex == index && d.lenFull == |seg.full| && d.answersCount == |q.answers|
    && d.lenQ == |q.statement.html| && d.lenA == |q.answersHtml|
  }

  lemma RecordOfFields(seg: Segment, index: nat, parse: Parser, sc: Scanners)
    ensures RecordMatches(QuestionOf(seg, index, parse, sc), DebugOf(seg, index, parse, sc), seg, index)
  {
  }

  lemma QuestionsAt(segs: seq<Segment>, parse: Parser, sc: Scanners, k: nat)
    requires k < |segs|
    ensures Questions(segs, parse, sc)[k] == QuestionOf(segs[k], k + 1, parse, sc)
  {
    NumberedAt(segs, (seg, i) => QuestionOf(seg, i, parse, sc), k);
  }

  lemma DebugRowsAt(segs: seq<Segment>, parse: Parser, sc: Scanners, k: nat)
    requires k < |segs|
    ensures DebugRows(segs, parse, sc)[k] == DebugOf(segs[k], k + 1, parse, sc)
  {
    NumberedAt(segs, (seg, i) => DebugOf(seg, i, parse, sc), k);
  }

  /** Questions follow document order: each segment ends before the next one starts. */
  lemma QuestionsInOrder(html: string, i: nat, k: nat)
    requires i < k < |DocumentSegments(html)|
    ensures DocumentSegments(html)[i].end <= DocumentSegments(html)[k].start
  {
    SegmentsIncreasing(BodyHtml(html), 0, Ol1, Points(false), i, k);
  }
}
