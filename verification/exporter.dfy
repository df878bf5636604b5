/**
 * `Exporter`: the printable HTML of an extraction. The questions are grouped, each block
 * becomes an `<article>` or a `<section>` of articles, and the blocks are joined inside
 * `<div class="qwrap">`; the header carries the escaped title and letter.
 */
module Exporter {
  import opened Chars
  import opened Grouper
  import opened Templates

  /** The index a question is grouped and numbered by. */
  function QKey(): QRec -> int { (q: QRec) => q.index }

  /** One question as an article numbered by its index. */
  function Article(q: QRec, store: Store): string {
    "<article data-q=\"" + IntToString(q.index) + "\">" + Rendered(q, store) + "</article>"
  }

  function Articles(qs: seq<QRec>, store: Store): seq<string> {
    seq(|qs|, i requires 0 <= i < |qs| => Article(qs[i], store))
  }

  function LayoutName(l: Layout): string {
    if l == Vertical then "vertical" else "horizontal"
  }

  /** The questions a block holds, in order. */
  function Held(b: Block<QRec>): (r: seq<QRec>)
    ensures b.Single? ==> r == [b.question]
    ensures b.Group? ==> r == b.questions
  {
    if b.Single? then [b.question] else b.questions
  }

  /** The markup around the articles of a block: none for a single question. */
  function BlockOpen(b: Block<QRec>): string {
    if b.Single? then [] else "<section class=\"group layout-" + LayoutName(b.layout) + "\"><div class=\"gqs\">"
  }

  function BlockClose(b: Block<QRec>): string {
    if b.Single? then [] else "</div></section>"
  }

  /**
   * A block's markup: a single block is exactly one article; a group is a section of the
   * given layout holding one article per question, in group order.
   */
  function BlockHtml(b: Block<QRec>, store: Store): (r: string)
    ensures r == BlockOpen(b) + Concat(Articles(Held(b), store)) + BlockClose(b)
  {
    match b
    case Single(q) =>
      assert Concat(Articles([q], store)) == Article(q, store) + Concat([]);
      Article(q, store)
    case Group(qs, layout, _, _, _) =>
      "<section class=\"group layout-" + LayoutName(layout) + "\"><div class=\"gqs\">"
        + Concat(Articles(qs, store)) + "</div></section>"
  }

  function BlockHtmls(blocks: seq<Block<QRec>>, store: Store): seq<string> {
    seq(|blocks|, i requires 0 <= i < |blocks| => BlockHtml(blocks[i], store))
  }

  /** `renderQuestions`: the Grouper's blocks, in its order, joined by newlines in `qwrap`. */
  function ExportHtml(qs: seq<QRec>, defs: seq<Def>, store: Store): string {
    "<div class=\"qwrap\">" + Join(BlockHtmls(Build(qs, QKey(), defs), store), "\n") + "</div>"
  }

  /** The loops of `renderQuestions`. */
  method RenderQuestions(qs: seq<QRec>, defs: seq<Def>, store: Store) returns (html: string)
    ensures html == ExportHtml(qs, defs, store)
  {
    var blocks := BuildBlocks(qs, QKey(), defs);
    ghost var spec := BlockHtmls(blocks, store);
    var htmlBlocks: seq<string> := [];
    for i := 0 to |blocks|
      invariant htmlBlocks == spec[..i]
    {
      var part := RenderBlock(blocks[i], store);
      PrefixExtends(spec, i, part);
      htmlBlocks := htmlBlocks + [part];
    }
    assert spec[..|blocks|] == spec;
    html := "<div class=\"qwrap\">" + Join(htmlBlocks, "\n") + "</div>";
  }

  /** One block of the outer `foreach`: an article, or a section of the group's articles. */
  method RenderBlock(b: Block<QRec>, store: Store) returns (part: string)
    ensures part == BlockHtml(b, store)
  {
    if b.Single? {
      var r := RenderQuestion(b.question, store);
      part := "<article data-q=\"" + IntToString(b.question.index) + "\">" + r + "</article>";
    } else {
      var inner := RenderArticles(b.questions, store);
      part := "<section class=\"group layout-" + LayoutName(b.layout) + "\"><div class=\"gqs\">"
        + Concat(inner) + "</div></section>";
    }
  }

  /** The inner `foreach` over a group's questions. */
  method RenderArticles(qs: seq<QRec>, store: Store) returns (inner: seq<string>)
    ensures inner == Articles(qs, store)
  {
    ghost var spec := Articles(qs, store);
    inner := [];
    for i := 0 to |qs|
      invariant inner == spec[..i]
    {
      var r := RenderQuestion(qs[i], store);
      var a := "<article data-q=\"" + IntToString(qs[i].index) + "\">" + r + "</article>";
      PrefixExtends(spec, i, a);
      inner := inner + [a];
    }
    assert spec[..|qs|] == spec;
  }

  /**
   * Without group definitions the export is one article per question: every block is an
   * article of some question and every question has its article.
   */
  lemma NoGroupsOneArticleEach(qs: seq<QRec>, store: Store)
    ensures |BlockHtmls(Build(qs, QKey(), []), store)| == |qs|
    ensures forall i :: 0 <= i < |Build(qs, QKey(), [])| ==>
      Build(qs, QKey(), [])[i].Single? && Build(qs, QKey(), [])[i].question in qs
    ensures forall q :: q in qs ==> Single(q) in Build(qs, QKey(), [])
  {
    var r := Build(qs, QKey(), []);
    NoDefsAllSingles(qs, QKey());
    assert |r| == |multiset(r)| == |multiset(Singletons(qs))| == |qs|;
    forall i | 0 <= i < |r|
      ensures r[i].Single? && r[i].question in qs
    {
      assert r[i] in multiset(Singletons(qs));
      var j :| 0 <= j < |qs| && Singletons(qs)[j] == r[i];
    }
    forall q | q in qs
      ensures Single(q) in r
    {
      var j :| 0 <= j < |qs| && qs[j] == q;
      assert Singletons(qs)[j] == Single(q);
      assert Single(q) in multiset(r);
    }
  }

  /* --------------------------------- header --------------------------------- */

  const HeaderStart := "<div class=\"qcm-header\">"
    + "<img src=\"https://esh-herve.be/images/ESH_logo.png\" alt=\"Logo Institut de la Providence\" class=\"logo-small\">"
    + "<div class=\"school-name\">Institut de la Providence</div>"
    + "<h1>"
  const HeaderMiddle := "</h1><div class=\"qcm-letter\">Questionnaire  <span>"
  const HeaderEnd := "</span></div>"
    + "<p class=\"note\">Une seule réponse possible par question.<br>Veuillez ne rien écrire sur ce questionnaire et vérifier de remplir la grille à part sans vous tromper dans le numéro de la question. </p>"
    + "</div>"

  /** The title: 'QCM' when the metadata has none. */
  function TitleOf(title: Option<string>): (t: string)
    ensures title.None? ==> t == "QCM"
  {
    title.GetOr("QCM")
  }

  /** `buildHeader`: the escaped title and letter (the letter defaults to `''`). */
  function BuildHeader(title: Option<string>, letter: Option<string>): string {
    HeaderStart + HtmlEscape(TitleOf(title)) + HeaderMiddle + HtmlEscape(letter.GetOr([])) + HeaderEnd
  }

  /**
   * The title and the letter cannot open or close markup in the header, and decoding the
   * header fields gives them back.
   */
  lemma HeaderFields(title: Option<string>, letter: Option<string>)
    ensures var t := HtmlEscape(TitleOf(title));
      var l := HtmlEscape(letter.GetOr([]));
      var r := BuildHeader(title, letter);
      && r[|HeaderStart|..|HeaderStart| + |t|] == t
      && r[|HeaderStart| + |t| + |HeaderMiddle|..|HeaderStart| + |t| + |HeaderMiddle| + |l|] == l
      && HtmlUnescape(t) == TitleOf(title) && HtmlUnescape(l) == letter.GetOr([])
      && (forall k :: 0 <= k < |t| ==> !IsMarkupChar(t[k]))
      && (forall k :: 0 <= k < |l| ==> !IsMarkupChar(l[k]))
  {
    var t := HtmlEscape(TitleOf(title));
    var l := HtmlEscape(letter.GetOr([]));
    FieldSlices(HeaderStart, t, HeaderMiddle, l, HeaderEnd);
    UnescapeEscape(TitleOf(title));
    UnescapeEscape(letter.GetOr([]));
    EscapeHasNoMarkup(TitleOf(title));
    EscapeHasNoMarkup(letter.GetOr([]));
  }

  /** The two fields of a text made of five pieces sit at the offsets the pieces before them give. */
  lemma FieldSlices(a: string, t: string, b: string, l: string, c: string)
    ensures (a + t + b + l + c)[|a|..|a| + |t|] == t
    ensures (a + t + b + l + c)[|a| + |t| + |b|..|a| + |t| + |b| + |l|] == l
  {
  }
}
