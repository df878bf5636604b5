/**
 * The list-nesting machine of `DocxToHtml::convertOne`. Word paragraphs carry a numbering
 * level; the walk keeps a stack of open `<ol>` lists and emits open, close and next-item
 * tokens so that the lists of the intermediate HTML nest like the Word numbering. Also
 * `renderParagraphInline`: run formatting, tabs and the image-source rule.
 */
module DocxLists {
  import opened Chars

  /* --------------------------------- tokens --------------------------------- */

  /** What the walk appends to `$out`: list brackets, or a rendered paragraph or table. */
  datatype Token = OpenList(listType: string) | CloseList | NextItem | Html(text: string)

  function TokenText(t: Token): string {
    match t
    case OpenList(ty) => "<ol" + (if Truthy(ty) then " type=\"" + ty + "\"" else "") + "><li>"
    case CloseList => "</li></ol>"
    case NextItem => "</li><li>"
    case Html(h) => h
  }

  function Delta(t: Token): int {
    if t.OpenList? then 1 else if t.CloseList? then -1 else 0
  }

  /** Open-list tokens minus close-list tokens. */
  function Depth(out: seq<Token>): int
    decreases |out|
  {
    if out == [] then 0 else Depth(out[..|out| - 1]) + Delta(out[|out| - 1])
  }

  /** No prefix of the output closes more lists than it opened. */
  predicate Nested(out: seq<Token>) {
    forall i :: 0 <= i <= |out| ==> Depth(out[..i]) >= 0
  }

  /** The output is a well-bracketed sequence: nested and with every list closed. */
  predicate Balanced(out: seq<Token>) {
    Nested(out) && Depth(out) == 0
  }

  lemma DepthAppend(out: seq<Token>, t: Token)
    ensures Depth(out + [t]) == Depth(out) + Delta(t)
  {
    assert (out + [t])[..|out|] == out;
  }

  lemma NestedAppend(out: seq<Token>, t: Token)
    ensures Depth(out + [t]) == Depth(out) + Delta(t)
    ensures Nested(out) && Depth(out) + Delta(t) >= 0 ==> Nested(out + [t])
  {
    DepthAppend(out, t);
    if Nested(out) && Depth(out) + Delta(t) >= 0 {
      forall i | 0 <= i <= |out + [t]|
        ensures Depth((out + [t])[..i]) >= 0
      {
        if i <= |out| {
          assert (out + [t])[..i] == out[..i];
        } else {
          assert (out + [t])[..i] == out + [t];
        }
      }
    }
  }

  function Closes(n: nat): (r: seq<Token>)
    ensures |r| == n && forall i :: 0 <= i < n ==> r[i] == CloseList
  {
    seq(n, _ => CloseList)
  }

  /* ---------------------------- the list machine ---------------------------- */

  /** `$listStack` (the types of the open lists, outermost first) and `$out`. */
  datatype State = State(stack: seq<string>, out: seq<Token>)

  /** The machine invariant: one open list on the stack per unclosed open token. */
  predicate Good(s: State) {
    Depth(s.out) == |s.stack| && Nested(s.out)
  }

  function Min(a: nat, b: nat): nat { if a <= b then a else b }

  /** `$flush($target)`: close and pop lists until at most `target` remain. */
  function FlushS(s: State, target: nat): (r: State)
    ensures r.stack == s.stack[..Min(|s.stack|, target)]
    ensures r.out == s.out + Closes(|s.stack| - Min(|s.stack|, target))
    ensures Good(s) ==> Good(r)
    decreases |s.stack|
  {
    if |s.stack| > target then
      var next := State(s.stack[..|s.stack| - 1], s.out + [CloseList]);
      NestedAppend(s.out, CloseList);
      var r := FlushS(next, target);
      assert s.out + [CloseList] + Closes(|s.stack| - 1 - Min(|s.stack| - 1, target))
        == s.out + Closes(|s.stack| - Min(|s.stack|, target));
      r
    else s
  }

  /** `$openAt`: open one list of the given type and push it. */
  function OpenAtS(s: State, ty: string): (r: State)
    ensures Good(s) ==> Good(r)
  {
    NestedAppend(s.out, OpenList(ty));
    State(s.stack + [ty], s.out + [OpenList(ty)])
  }

  /** `$li`: close the current item and open the next one. */
  function LiS(s: State): (r: State)
    ensures Good(s) ==> Good(r)
  {
    NestedAppend(s.out, NextItem);
    State(s.stack, s.out + [NextItem])
  }

  /** The type of the list opened for a numbered paragraph. */
  function ListType(fmt: string, level: nat): string {
    if fmt == "decimal" || level == 0 then "1"
    else if fmt == "lowerLetter" || level == 1 then "a"
    else ""
  }

  /** The type of an intermediate list, by depth. */
  function DepthType(depth: nat): string {
    if depth == 0 then "1" else if depth == 1 then "a" else ""
  }

  function DepthTypes(lo: nat, hi: nat): (r: seq<string>)
    requires lo <= hi
    ensures |r| == hi - lo && forall j :: 0 <= j < hi - lo ==> r[j] == DepthType(lo + j)
  {
    seq(hi - lo, j requires 0 <= j < hi - lo => DepthType(lo + j))
  }

  function OpenTokens(types: seq<string>): (r: seq<Token>)
    ensures |r| == |types| && forall j :: 0 <= j < |types| ==> r[j] == OpenList(types[j])
  {
    seq(|types|, j requires 0 <= j < |types| => OpenList(types[j]))
  }

  /** The `while ($cur < $level)` loop: one list per depth until the stack reaches the level. */
  function Descend(s: State, level: nat): (r: State)
    requires |s.stack| <= level + 1
    ensures r.stack == s.stack + DepthTypes(|s.stack|, level + 1)
    ensures r.out == s.out + OpenTokens(DepthTypes(|s.stack|, level + 1))
    ensures Good(s) ==> Good(r)
    decreases level + 1 - |s.stack|
  {
    if |s.stack| < level + 1 then
      var next := OpenAtS(s, DepthType(|s.stack|));
      var r := Descend(next, level);
      DepthTypesCons(s, level + 1);
      r
    else
      assert DepthTypes(|s.stack|, level + 1) == [];
      s
  }

  /** Opening the list at the current depth, then the rest, is opening all of them. */
  lemma DepthTypesCons(s: State, hi: nat)
    requires |s.stack| < hi
    ensures var n := |s.stack|;
      && s.stack + [DepthType(n)] + DepthTypes(n + 1, hi) == s.stack + DepthTypes(n, hi)
      && s.out + [OpenList(DepthType(n))] + OpenTokens(DepthTypes(n + 1, hi)) == s.out + OpenTokens(DepthTypes(n, hi))
  {
    var n := |s.stack|;
    var d := DepthTypes(n + 1, hi);
    assert [DepthType(n)] + d == DepthTypes(n, hi);
    assert OpenTokens([DepthType(n)] + d) == [OpenList(DepthType(n))] + OpenTokens(d);
  }

  /** The list brackets for a numbered paragraph of the given level and format. */
  function NumberedS(s: State, level: nat, fmt: string): (r: State)
    ensures Good(s) ==> Good(r)
  {
    var cur := |s.stack| - 1;
    if cur < 0 then OpenAtS(s, ListType(fmt, level))
    else if level > cur then Descend(s, level)
    else if level < cur then LiS(FlushS(s, level + 1))
    else LiS(s)
  }

  /* ------------------------------ body nodes ------------------------------ */

  datatype Fmt = Fmt(bold: bool, italic: bool, underline: bool)

  /** The children of a run that produce output; `embed`/`imageId` are absent without a blip. */
  datatype Child = TextRun(text: string) | Drawing(embed: Option<string>) | Pict(imageId: Option<string>) | TabChar | OtherChild

  /** A run, with its properties when it has a `w:rPr`. */
  datatype Run = Run(props: Option<Fmt>, children: seq<Child>)

  /** A paragraph is numbered when it has both an `ilvl` and a `numId`; a table is given rendered. */
  datatype Node = Para(numbering: Option<(nat, string)>, runs: seq<Run>) | Table(html: string)

  type Rels = map<string, string>

  /** Run text: escaped, then wrapped in bold, then italic, then underline. */
  function FormatText(t: string, props: Option<Fmt>): string {
    var e := HtmlEscape(t);
    if props.None? then e
    else
      var b := if props.value.bold then "<b>" + e + "</b>" else e;
      var i := if props.value.italic then "<i>" + b + "</i>" else b;
      if props.value.underline then "<u>" + i + "</u>" else i
  }

  function Opening(f: Fmt): string {
    (if f.underline then "<u>" else "") + (if f.italic then "<i>" else "") + (if f.bold then "<b>" else "")
  }

  function Closing(f: Fmt): string {
    (if f.bold then "</b>" else "") + (if f.italic then "</i>" else "") + (if f.underline then "</u>" else "")
  }

  /**
   * Underline is the outermost tag and bold the innermost, the closing tags mirror the
   * opening ones, and the text between them decodes back to the run text.
   */
  lemma FormatOrder(t: string, f: Fmt)
    ensures FormatText(t, Some(f)) == Opening(f) + HtmlEscape(t) + Closing(f)
    ensures HtmlUnescape(HtmlEscape(t)) == t
  {
    UnescapeEscape(t);
    var e := HtmlEscape(t);
    var ob, cb := if f.bold then "<b>" else "", if f.bold then "</b>" else "";
    var oi, ci := if f.italic then "<i>" else "", if f.italic then "</i>" else "";
    var ou, cu := if f.underline then "<u>" else "", if f.underline then "</u>" else "";
    var b := if f.bold then "<b>" + e + "</b>" else e;
    var i := if f.italic then "<i>" + b + "</i>" else b;
    assert b == ob + e + cb by { EmptyAround(e); }
    assert i == oi + b + ci by { EmptyAround(b); }
    assert FormatText(t, Some(f)) == ou + i + cu by { EmptyAround(i); }
    Nest3(e, ob, cb, oi, ci, ou, cu);
  }

  lemma EmptyAround(s: string)
    ensures "" + s + "" == s
  {
  }

  lemma Nest3(e: string, ob: string, cb: string, oi: string, ci: string, ou: string, cu: string)
    ensures ou + (oi + (ob + e + cb) + ci) + cu == (ou + oi + ob) + e + (cb + ci + cu)
  {
  }

  predicate IsSlash(c: char) { c == '/' }

  /** The source path of a relationship target: `word/` and the target without leading slashes. */
  function MediaPath(target: string): string {
    "word/" + TrimLeftBy(target, IsSlash)
  }

  /** `renderDrawingImage` and `renderVMLImage`: an image only for a known relationship. */
  function ImageHtml(rid: Option<string>, rels: Rels): string {
    if rid.Some? && Truthy(rid.value) && rid.value in rels then
      "<img src=\"" + HtmlEscape(MediaPath(rels[rid.value])) + "\" alt=\"image\"/>"
    else ""
  }

  /**
   * An image is produced iff the relationship id is set and known; its source then decodes to
   * `word/` followed by the target with its leading slashes removed, and cannot end the
   * attribute early.
   */
  lemma ImageRule(rid: Option<string>, rels: Rels)
    ensures ImageHtml(rid, rels) != "" <==> rid.Some? && Truthy(rid.value) && rid.value in rels
    ensures rid.Some? && Truthy(rid.value) && rid.value in rels ==>
      var src := HtmlEscape(MediaPath(rels[rid.value]));
      && ImageHtml(rid, rels) == "<img src=\"" + src + "\" alt=\"image\"/>"
      && HtmlUnescape(src) == MediaPath(rels[rid.value])
      && (forall k :: 0 <= k < |src| ==> !IsMarkupChar(src[k]))
  {
    if rid.Some? && Truthy(rid.value) && rid.value in rels {
      UnescapeEscape(MediaPath(rels[rid.value]));
      EscapeHasNoMarkup(MediaPath(rels[rid.value]));
    }
  }

  /** The media path keeps the target after its leading slashes and adds one `word/`. */
  lemma MediaPathShape(target: string)
    ensures var rest := TrimLeftBy(target, IsSlash);
      && MediaPath(target) == "word/" + rest
      && (rest == [] || rest[0] != '/')
      && target == target[..|target| - |rest|] + rest
      && forall k :: 0 <= k < |target| - |rest| ==> target[k] == '/'
  {
    var n := LeadingCount(target, IsSlash);
    assert TrimLeftBy(target, IsSlash) == target[n..];
  }

  function ChildHtml(c: Child, props: Option<Fmt>, rels: Rels): string {
    match c
    case TextRun(t) => FormatText(t, props)
    case Drawing(rid) => ImageHtml(rid, rels)
    case Pict(rid) => ImageHtml(rid, rels)
    case TabChar => "&emsp;"
    case OtherChild => ""
  }

  function ChildrenHtml(cs: seq<Child>, props: Option<Fmt>, rels: Rels): string
    decreases |cs|
  {
    if cs == [] then "" else ChildrenHtml(cs[..|cs| - 1], props, rels) + ChildHtml(cs[|cs| - 1], props, rels)
  }

  function InlineHtml(runs: seq<Run>, rels: Rels): string
    decreases |runs|
  {
    if runs == [] then ""
    else InlineHtml(runs[..|runs| - 1], rels) + ChildrenHtml(runs[|runs| - 1].children, runs[|runs| - 1].props, rels)
  }

  /** `renderParagraphInline`: the nested `foreach` over runs and their children. */
  method RenderInline(runs: seq<Run>, rels: Rels) returns (buf: string)
    ensures buf == InlineHtml(runs, rels)
  {
    buf := "";
    for i := 0 to |runs|
      invariant buf == InlineHtml(runs[..i], rels)
    {
      var h := RenderRun(runs[i], rels);
      assert runs[..i + 1][..i] == runs[..i];
      buf := buf + h;
    }
    assert runs[..|runs|] == runs;
  }

  /** The inner `foreach` over the children of one run. */
  method RenderRun(r: Run, rels: Rels) returns (h: string)
    ensures h == ChildrenHtml(r.children, r.props, rels)
  {
    h := "";
    for j := 0 to |r.children|
      invariant h == ChildrenHtml(r.children[..j], r.props, rels)
    {
      var c := RenderChild(r.children[j], r.props, rels);
      ChildrenHtmlSnoc(r.children, j, r.props, rels);
      h := h + c;
    }
    assert r.children[..|r.children|] == r.children;
  }

  lemma ChildrenHtmlSnoc(cs: seq<Child>, j: nat, props: Option<Fmt>, rels: Rels)
    requires j < |cs|
    ensures ChildrenHtml(cs[..j + 1], props, rels) == ChildrenHtml(cs[..j], props, rels) + ChildHtml(cs[j], props, rels)
  {
    assert cs[..j + 1][..j] == cs[..j];
  }

  /** One child of a run: formatted text, an image, a tab, or nothing. */
  method RenderChild(c: Child, props: Option<Fmt>, rels: Rels) returns (h: string)
    ensures h == ChildHtml(c, props, rels)
  {
    match c {
      case TextRun(t) =>
        h := HtmlEscape(t);
        if props.Some? {
          if props.value.bold { h := "<b>" + h + "</b>"; }
          if props.value.italic { h := "<i>" + h + "</i>"; }
          if props.value.underline { h := "<u>" + h + "</u>"; }
        }
      case Drawing(rid) => h := ImageHtml(rid, rels);
      case Pict(rid) => h := ImageHtml(rid, rels);
      case TabChar => h := "&emsp;";
      case OtherChild => h := "";
    }
  }

  /** One body node of the `foreach ($bodyNodes …)` loop. */
  function NodeStep(s: State, n: Node, rels: Rels): (r: State)
    ensures Good(s) ==> Good(r)
  {
    match n
    case Para(Some((level, fmt)), runs) =>
      var t := NumberedS(s, level, fmt);
      NestedAppend(t.out, Html(InlineHtml(runs, rels)));
      State(t.stack, t.out + [Html(InlineHtml(runs, rels))])
    case Para(None, runs) =>
      var t := FlushS(s, 0);
      var buf := InlineHtml(runs, rels);
      if buf != "" then
        NestedAppend(t.out, Html("<p>" + buf + "</p>"));
        State([], t.out + [Html("<p>" + buf + "</p>")])
      else State([], t.out)
    case Table(h) =>
      var t := FlushS(s, 0);
      NestedAppend(t.out, Html(h));
      State([], t.out + [Html(h)])
  }

  function Walk(nodes: seq<Node>, rels: Rels): (r: State)
    ensures Good(r)
    decreases |nodes|
  {
    if nodes == [] then State([], [])
    else NodeStep(Walk(nodes[..|nodes| - 1], rels), nodes[|nodes| - 1], rels)
  }

  /** The tokens of a whole body: the walk, then every list still open is closed. */
  function BodyTokens(nodes: seq<Node>, rels: Rels): seq<Token> {
    FlushS(Walk(nodes, rels), 0).out
  }

  /** After the walk every list is closed: the list tokens are balanced. */
  lemma BodyBalanced(nodes: seq<Node>, rels: Rels)
    ensures Balanced(BodyTokens(nodes, rels))
  {
    var r := FlushS(Walk(nodes, rels), 0);
    assert Good(r) && r.stack == [];
  }

  /** With an empty stack a numbered paragraph opens exactly one list, whatever its level. */
  lemma FirstNumbered(s: State, level: nat, fmt: string, runs: seq<Run>, rels: Rels)
    requires s.stack == []
    ensures NodeStep(s, Para(Some((level, fmt)), runs), rels)
      == State([ListType(fmt, level)], s.out + [OpenList(ListType(fmt, level)), Html(InlineHtml(runs, rels))])
  {
  }

  /** A deeper level opens one list per intermediate depth, typed by depth, up to the level. */
  lemma DeeperOpens(s: State, level: nat, fmt: string, runs: seq<Run>, rels: Rels)
    requires s.stack != [] && level > |s.stack| - 1
    ensures var r := NodeStep(s, Para(Some((level, fmt)), runs), rels);
      && |r.stack| == level + 1 && r.stack[..|s.stack|] == s.stack
      && (forall d :: |s.stack| <= d <= level ==> r.stack[d] == DepthType(d))
      && r.out == s.out + OpenTokens(DepthTypes(|s.stack|, level + 1)) + [Html(InlineHtml(runs, rels))]
  {
  }

  /**
   * A shallower level closes the lists below `level + 1` and starts a new item; the same
   * level only starts a new item.
   */
  lemma ShallowerCloses(s: State, level: nat, fmt: string, runs: seq<Run>, rels: Rels)
    requires s.stack != [] && level <= |s.stack| - 1
    ensures var r := NodeStep(s, Para(Some((level, fmt)), runs), rels);
      && r.stack == s.stack[..level + 1]
      && r.out == s.out + Closes(|s.stack| - (level + 1)) + [NextItem, Html(InlineHtml(runs, rels))]
  {
    if level == |s.stack| - 1 {
      assert s.stack[..level + 1] == s.stack;
    }
  }

  /**
   * A paragraph without numbering or a table closes every open list; an empty plain
   * paragraph emits nothing else.
   */
  lemma PlainCloses(s: State, n: Node, rels: Rels)
    requires n.Table? || n.numbering.None?
    ensures var r := NodeStep(s, n, rels);
      && r.stack == []
      && r.out[..|s.out| + |s.stack|] == s.out + Closes(|s.stack|)
      && (n.Para? && InlineHtml(n.runs, rels) == "" <==> |r.out| == |s.out| + |s.stack|)
  {
    var t := FlushS(s, 0);
    assert t.out == s.out + Closes(|s.stack|);
  }

  /** An intermediate list gets the type a paragraph of that depth with no known format gets. */
  lemma DepthTypeAgrees(depth: nat)
    ensures DepthType(depth) == ListType("", depth)
    ensures ListType("decimal", depth) == "1"
    ensures depth != 0 ==> ListType("lowerLetter", depth) == "a"
  {
  }

  /* ------------------------- the imperative walk ------------------------- */

  /** The variables the closures `$flush`, `$openAt` and `$li` share by reference. */
  class ListWriter {
    var stack: seq<string>
    var out: seq<Token>

    function Current(): State reads this { State(stack, out) }

    constructor ()
      ensures Current() == State([], [])
    {
      stack := [];
      out := [];
    }

    /** `$flush`. */
    method Flush(target: nat)
      modifies this
      ensures Current() == FlushS(old(Current()), target)
    {
      ghost var start := Current();
      while |stack| > target
        invariant |stack| <= |start.stack|
        invariant FlushS(Current(), target) == FlushS(start, target)
        decreases |stack|
      {
        out := out + [CloseList];
        stack := stack[..|stack| - 1];
      }
    }

    /** `$openAt`; the level is not used by the source. */
    method OpenAt(level: nat, ty: string)
      modifies this
      ensures Current() == OpenAtS(old(Current()), ty)
    {
      out := out + [OpenList(ty)];
      stack := stack + [ty];
    }

    /** `$li`. */
    method Li()
      modifies this
      ensures Current() == LiS(old(Current()))
    {
      out := out + [NextItem];
    }

    /** The level logic for a numbered paragraph. */
    method Numbered(level: nat, fmt: string)
      modifies this
      ensures Current() == NumberedS(old(Current()), level, fmt)
    {
      var ty := ListType(fmt, level);
      var cur := |stack| - 1;
      if cur < 0 {
        OpenAt(0, ty);
      } else if level > cur {
        ghost var start := Current();
        while cur < level
          invariant cur == |stack| - 1 && cur <= level
          invariant Descend(Current(), level) == Descend(start, level)
          decreases level - cur
        {
          cur := cur + 1;
          var t := DepthType(cur);
          OpenAt(cur, t);
        }
      } else if level < cur {
        Flush(level + 1);
        Li();
      } else {
        Li();
      }
    }

    /** One body node. */
    method Step(n: Node, rels: Rels)
      modifies this
      ensures Current() == NodeStep(old(Current()), n, rels)
    {
      match n {
        case Para(Some((level, fmt)), runs) =>
          Numbered(level, fmt);
          var h := RenderInline(runs, rels);
          out := out + [Html(h)];
        case Para(None, runs) =>
          Flush(0);
          stack := [];
          var buf := RenderInline(runs, rels);
          if buf != "" {
            out := out + [Html("<p>" + buf + "</p>")];
          }
        case Table(h) =>
          Flush(0);
          stack := [];
          out := out + [Html(h)];
      }
    }
  }

  lemma WalkSnoc(nodes: seq<Node>, i: nat, rels: Rels)
    requires i < |nodes|
    ensures Walk(nodes[..i + 1], rels) == NodeStep(Walk(nodes[..i], rels), nodes[i], rels)
  {
    assert nodes[..i + 1][..i] == nodes[..i];
  }

  /** The body walk of `convertOne` and the final drain of the stack. */
  method ConvertBody(nodes: seq<Node>, rels: Rels) returns (out: seq<Token>)
    ensures out == BodyTokens(nodes, rels)
    ensures Balanced(out)
  {
    var w := new ListWriter();
    for i := 0 to |nodes|
      invariant w.Current() == Walk(nodes[..i], rels)
    {
      w.Step(nodes[i], rels);
      WalkSnoc(nodes, i, rels);
    }
    assert nodes[..|nodes|] == nodes;
    ghost var walked := w.Current();
    while |w.stack| > 0
      invariant |w.stack| <= |walked.stack|
      invariant FlushS(w.Current(), 0) == FlushS(walked, 0)
      decreases |w.stack|
    {
      w.out := w.out + [CloseList];
      w.stack := w.stack[..|w.stack| - 1];
    }
    out := w.out;
    BodyBalanced(nodes, rels);
  }

  /* ------------------------------ the section ------------------------------ */

  /** `array_filter` on the token texts: falsy strings are dropped. */
  function KeptTexts(out: seq<Token>): (r: seq<string>)
    ensures |r| <= |out|
    ensures forall k :: 0 <= k < |r| ==> Truthy(r[k])
    ensures forall k :: 0 <= k < |out| && Truthy(TokenText(out[k])) ==> TokenText(out[k]) in r
    decreases |out|
  {
    if out == [] then []
    else
      var prev := KeptTexts(out[..|out| - 1]);
      var t := TokenText(out[|out| - 1]);
      assert forall k :: 0 <= k < |out| - 1 ==> out[..|out| - 1][k] == out[k];
      if Truthy(t) then prev + [t] else prev
  }

  /** A single token's text is kept iff it is truthy. */
  lemma KeptTextsOne(t: Token)
    ensures KeptTexts([t]) == if Truthy(TokenText(t)) then [TokenText(t)] else []
  {
    assert [t][..0] == [];
  }

  /** The filter keeps order: the texts of `a` come out before those of `b`. */
  lemma {:induction false} KeptTextsAppend(a: seq<Token>, b: seq<Token>)
    ensures KeptTexts(a + b) == KeptTexts(a) + KeptTexts(b)
    decreases |b|
  {
    if b == [] {
      assert a + b == a;
    } else {
      var b' := b[..|b| - 1];
      assert (a + b)[..|a + b| - 1] == a + b' && (a + b)[|a + b| - 1] == b[|b| - 1];
      KeptTextsAppend(a, b');
    }
  }

  /** List tokens are never falsy, so the filter keeps every bracket. */
  lemma ListTokensKept(t: Token)
    requires !t.Html?
    ensures Truthy(TokenText(t)) && KeptTexts([t]) == [TokenText(t)]
  {
    assert [t][..0] == [];
  }

  /** The section wrapping the converted body; the name is the escaped file name. */
  function Section(name: string, out: seq<Token>): string {
    "<section data-docx=\"" + HtmlEscape(name) + "\">\n" + Join(KeptTexts(out), "\n") + "\n</section>"
  }

  /**
   * The section's layout: the `data-docx` attribute value runs to the first quote and decodes
   * back to the file name, and the body between the opening and closing lines is the kept
   * outputs joined by newlines.
   */
  lemma SectionLayout(name: string, out: seq<Token>)
    ensures var s := Section(name, out);
      var n := 20 + |HtmlEscape(name)|;
      && |s| >= n + 14
      && s[..20] == "<section data-docx=\""
      && (forall k :: 20 <= k < n ==> s[k] != '"')
      && HtmlUnescape(s[20..n]) == name
      && s[n..n + 3] == "\">\n"
      && s[n + 3..|s| - 11] == Join(KeptTexts(out), "\n")
      && s[|s| - 11..] == "\n</section>"
  {
    var a := HtmlEscape(name);
    var s := Section(name, out);
    var n := 20 + |a|;
    SliceFive("<section data-docx=\"", a, "\">\n", Join(KeptTexts(out), "\n"), "\n</section>");
    assert HtmlUnescape(s[20..n]) == name by {
      UnescapeEscape(name);
    }
    assert forall k :: 20 <= k < n ==> s[k] != '"' by {
      EscapeHasNoMarkup(name);
      assert forall k :: 20 <= k < n ==> s[k] == a[k - 20];
    }
  }

  /** The five pieces of a concatenation, cut back out of it. */
  lemma SliceFive(p1: string, p2: string, p3: string, p4: string, p5: string)
    ensures var s := p1 + p2 + p3 + p4 + p5;
      var i, j := |p1|, |p1| + |p2|;
      var k, l := j + |p3|, j + |p3| + |p4|;
      && s[..i] == p1 && s[i..j] == p2 && s[j..k] == p3 && s[k..l] == p4 && s[l..] == p5
  {
  }
}
