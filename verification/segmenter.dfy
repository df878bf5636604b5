/**
 * Cutting the document body into question segments: each segment runs from a decimal
 * `<ol type="1">` opening tag to the end of the first points paragraph after it.
 * The production and the instrumented engines differ only in the points pattern
 * (`tolerant` accepts spaces inside `( s )`). The functions below take the opening
 * and closing matchers as parameters and are used with `Ol1` and `Points(tolerant)`.
 */
module Segmenter {
  import opened Chars
  import opened Patterns

  /** Question opening: an `<ol>` tag with `type=1`. */
  const Ol1: Matcher := Scan(OlOpen(TypeIs('1')))

  /** The points paragraph closing a question. */
  function Points(tolerant: bool): Matcher { Scan(PointsPara(tolerant)) }

  datatype Segment = Segment(start: nat, end: nat, full: string, pointsHtml: string)

  /**
   * The inner markup of the first `<body …>` element up to the first `</body>` after it
   * (any case); the whole document when there is no such pair.
   */
  function BodyHtml(html: string): (r: string)
    ensures |r| <= |html|
  {
    match BodyOpen(html, 0)
    case None => html
    case Some(g) =>
      match IndexOfCI(html, "</body>", g)
      case None => html
      case Some(c) => html[g..c]
  }

  /** End of the leftmost `<body …>` opening tag at or after `i`. */
  function BodyOpen(html: string, i: nat): (r: Option<nat>)
    requires i <= |html|
    ensures r.Some? ==> i < r.value <= |html|
    decreases |html| - i
  {
    match TagOpenAt(html, i, "body")
    case Some(e) => Some(e)
    case None => if i == |html| then None else BodyOpen(html, i + 1)
  }

  /** The leftmost `<body …>` tag at or after `i` decides where the body starts. */
  lemma {:induction false} BodyOpenFirst(html: string, i: nat, j: nat, g: nat)
    requires i <= j <= |html| && TagOpenAt(html, j, "body") == Some(g)
    requires forall k :: i <= k < j ==> TagOpenAt(html, k, "body").None?
    ensures BodyOpen(html, i) == Some(g)
    decreases j - i
  {
    if i < j {
      BodyOpenFirst(html, i + 1, j, g);
    }
  }

  lemma {:induction false} BodyOpenNone(html: string, i: nat)
    requires i <= |html|
    requires forall k :: i <= k <= |html| ==> TagOpenAt(html, k, "body").None?
    ensures BodyOpen(html, i).None?
    decreases |html| - i
  {
    if i < |html| {
      BodyOpenNone(html, i + 1);
    }
  }

  /**
   * With a first `<body …>` tag starting at `j` and ending at `g`, and a first `</body>`
   * (any case) at `c` after it, the body is the text between the two: the document is
   * `html[..g] + BodyHtml(html) + html[c..]`, the last part opens with `</body>`, and no
   * `</body>` starts inside the body.
   */
  lemma BodyHtmlInner(html: string, j: nat, g: nat, c: nat)
    requires j <= |html| && TagOpenAt(html, j, "body") == Some(g)
    requires forall k :: 0 <= k < j ==> TagOpenAt(html, k, "body").None?
    requires g <= c <= |html| && OccursAtCI(html, "</body>", c)
    requires forall k :: g <= k < c ==> !OccursAtCI(html, "</body>", k)
    ensures BodyHtml(html) == html[g..c]
    ensures html == html[..g] + BodyHtml(html) + html[c..]
  {
    assert BodyOpen(html, 0) == Some(g) by {
      BodyOpenFirst(html, 0, j, g);
    }
    assert IndexOfCI(html, "</body>", g) == Some(c) by {
      IndexOfCIFirst(html, "</body>", g, c);
    }
    BodyHtmlPick(html, g, c);
    CutThree(html, g, c);
  }

  lemma CutThree(s: string, g: nat, c: nat)
    requires g <= c <= |s|
    ensures s == s[..g] + s[g..c] + s[c..]
  {
    assert s[..c] == s[..g] + s[g..c];
  }

  lemma BodyHtmlPick(html: string, g: nat, c: nat)
    requires BodyOpen(html, 0) == Some(g) && g <= |html| && IndexOfCI(html, "</body>", g) == Some(c)
    ensures BodyHtml(html) == html[g..c]
  {
  }

  /** Without a `<body …>` tag, the whole document is taken. */
  lemma BodyHtmlNoBody(html: string)
    requires forall k :: 0 <= k <= |html| ==> TagOpenAt(html, k, "body").None?
    ensures BodyHtml(html) == html
  {
    BodyOpenNone(html, 0);
  }

  /** With a first `<body …>` tag but no `</body>` after it, the whole document is taken. */
  lemma BodyHtmlUnclosed(html: string, j: nat, g: nat)
    requires j <= |html| && TagOpenAt(html, j, "body") == Some(g)
    requires forall k :: 0 <= k < j ==> TagOpenAt(html, k, "body").None?
    requires forall k :: g <= k <= |html| ==> !OccursAtCI(html, "</body>", k)
    ensures BodyHtml(html) == html
  {
    BodyOpenFirst(html, 0, j, g);
  }

  /**
   * `g` is the segment found by a search starting at `from`: it lies inside the body at or
   * after `from`, holds the body text between its bounds, and starts at the first question
   * opening at or after `from`.
   */
  predicate FoundFrom(body: string, from: nat, g: Segment, open: Matcher) {
    from <= g.start < g.end <= |body|
    && g.full == body[g.start..g.end]
    && open(body, g.start).Some?
    && forall j :: from <= j < g.start ==> open(body, j).None?
  }

  /**
   * `g` ends exactly at the end of the first closing paragraph at or after its start, and
   * `pointsHtml` is that paragraph.
   */
  predicate EndsAtFirstClose(body: string, g: Segment, close: Matcher) {
    g.start + |g.pointsHtml| <= g.end <= |body|
    && close(body, g.end - |g.pointsHtml|) == Some(g.end)
    && g.pointsHtml == body[g.end - |g.pointsHtml|..g.end]
    && forall j :: g.start <= j < g.end - |g.pointsHtml| ==> close(body, j).None?
  }

  /** No question opening at or after `offset`, or no closing paragraph after the first one. */
  predicate NoSegmentFrom(body: string, offset: nat, open: Matcher, close: Matcher) {
    (forall j :: offset <= j <= |body| ==> open(body, j).None?)
    || (exists q :: offset <= q <= |body| && open(body, q).Some?
          && (forall j :: offset <= j < q ==> open(body, j).None?)
          && (forall j :: q <= j <= |body| ==> close(body, j).None?))
  }

  /**
   * `nextStrictSegment`: the first question opening at or after `offset`, and the first
   * points paragraph at or after that opening.
   */
  function NextStrictSegment(body: string, offset: nat, open: Matcher, close: Matcher): (r: Option<Segment>)
    requires offset <= |body|
    ensures r.None? <==> NoSegmentFrom(body, offset, open, close)
    ensures r.Some? ==> FoundFrom(body, offset, r.value, open) && EndsAtFirstClose(body, r.value, close)
  {
    match Find(open, body, offset)
    case None => None
    case Some(o) =>
      match Find(close, body, o.pos)
      case None => None
      case Some(m) => Some(Segment(o.pos, m.end, body[o.pos..m.end], body[m.pos..m.end]))
  }

  /** All segments from `offset` on, each search starting where the previous segment ended. */
  function Segments(body: string, offset: nat, open: Matcher, close: Matcher): (r: seq<Segment>)
    requires offset <= |body|
    ensures forall k :: 0 <= k < |r| ==> offset <= r[k].start < r[k].end <= |body|
    ensures forall k :: 0 < k < |r| ==> r[k - 1].end <= r[k].start
    decreases |body| - offset
  {
    match NextStrictSegment(body, offset, open, close)
    case None => []
    case Some(g) =>
      assert offset <= g.start < g.end <= |body| by {
        assert FoundFrom(body, offset, g, open);
      }
      var rest := Segments(body, g.end, open, close);
      var r := [g] + rest;
      assert forall k :: 0 < k < |r| ==> r[k] == rest[k - 1];
      r
  }

  /** Where the search for segment `k` starts: `offset` for the first, the previous end after. */
  function SearchFrom(segs: seq<Segment>, offset: nat, k: nat): nat
    requires k <= |segs|
  {
    if k == 0 then offset else segs[k - 1].end
  }

  /**
   * Segments are found in document order, never overlap, each is the body text between
   * its bounds, no question opening is skipped between one segment and the next, and
   * the search after the last segment finds nothing.
   */
  lemma {:induction false} SegmentsOrdered(body: string, offset: nat, open: Matcher, close: Matcher)
    requires offset <= |body|
    ensures forall k :: 0 <= k < |Segments(body, offset, open, close)| ==>
      FoundFrom(body, SearchFrom(Segments(body, offset, open, close), offset, k), Segments(body, offset, open, close)[k], open)
    decreases |body| - offset
  {
    var segs := Segments(body, offset, open, close);
    match NextStrictSegment(body, offset, open, close)
    case None =>
    case Some(g) =>
      SegmentsOrdered(body, g.end, open, close);
      var rest := Segments(body, g.end, open, close);
      assert segs == [g] + rest;
      assert FoundFrom(body, offset, g, open);
      forall k | 0 < k < |segs|
        ensures FoundFrom(body, SearchFrom(segs, offset, k), segs[k], open)
      {
        assert segs[k] == rest[k - 1];
        assert SearchFrom(segs, offset, k) == SearchFrom(rest, g.end, k - 1);
      }
  }

  /** After the last segment the search finds nothing: the scan stops only when no segment is left. */
  lemma {:induction false} SegmentsExhaustive(body: string, offset: nat, open: Matcher, close: Matcher)
    requires offset <= |body|
    ensures NextStrictSegment(body, SearchFrom(Segments(body, offset, open, close), offset, |Segments(body, offset, open, close)|), open, close).None?
    decreases |body| - offset
  {
    var r := NextStrictSegment(body, offset, open, close);
    if r.Some? {
      var g := r.value;
      var segs := Segments(body, offset, open, close);
      var rest := Segments(body, g.end, open, close);
      assert segs == [g] + rest;
      SegmentsExhaustive(body, g.end, open, close);
      assert SearchFrom(segs, offset, |segs|) == SearchFrom(rest, g.end, |rest|);
    }
  }

  /** Searching from where segment `k` is looked for finds exactly segment `k`. */
  lemma {:induction false} SegmentsNext(body: string, offset: nat, open: Matcher, close: Matcher, k: nat)
    requires offset <= |body|
    requires k < |Segments(body, offset, open, close)|
    ensures SearchFrom(Segments(body, offset, open, close), offset, k) <= |body|
    ensures NextStrictSegment(body, SearchFrom(Segments(body, offset, open, close), offset, k), open, close)
      == Some(Segments(body, offset, open, close)[k])
    decreases |body| - offset
  {
    var segs := Segments(body, offset, open, close);
    var g := NextStrictSegment(body, offset, open, close).value;
    var rest := Segments(body, g.end, open, close);
    assert segs == [g] + rest;
    if k > 0 {
      SegmentsNext(body, g.end, open, close, k - 1);
      assert segs[k] == rest[k - 1];
      assert SearchFrom(segs, offset, k) == SearchFrom(rest, g.end, k - 1);
    }
  }

  /** Segment starts strictly increase, so question indices follow document order. */
  lemma {:induction false} SegmentsIncreasing(body: string, offset: nat, open: Matcher, close: Matcher, i: nat, k: nat)
    requires offset <= |body|
    requires i < k < |Segments(body, offset, open, close)|
    ensures Segments(body, offset, open, close)[i].end <= Segments(body, offset, open, close)[k].start
    decreases k - i
  {
    if i < k - 1 {
      SegmentsIncreasing(body, offset, open, close, i, k - 1);
    }
  }
}
