/**
 * `answerItemsFlatten`: the answers zone, parsed into a tree, loses its alphabetic lists
 * one at a time (their `<li>` children are promoted), then, in the production engine
 * only, empty items absorb the image paragraph that follows them; finally each top-level
 * `<li>` becomes one answer item.
 *
 * The tree is a value: the in-place `removeChild`/`insertBefore` steps of the PHP code
 * are modelled by the forest each pass produces.
 */
module Flatten {
  import opened Chars
  import opened Dom
  import opened TextNorm

  /** The number of alphabetic lists in a tree (the node itself included). */
  function AlphaCount(n: Node): nat
    decreases n, 1
  {
    match n
    case Text(_) => 0
    case Element(_, _, ch) => (if IsAlphaOl(n) then 1 else 0) + ForestAlphaCount(ch)
  }

  function ForestAlphaCount(f: seq<Node>): nat
    decreases f, 0
  {
    if f == [] then 0 else AlphaCount(f[0]) + ForestAlphaCount(f[1..])
  }

  lemma {:induction false} ForestAlphaCountAppend(a: seq<Node>, b: seq<Node>)
    ensures ForestAlphaCount(a + b) == ForestAlphaCount(a) + ForestAlphaCount(b)
    decreases |a|
  {
    if a == [] {
      assert a + b == b;
    } else {
      assert (a + b)[1..] == a[1..] + b;
      ForestAlphaCountAppend(a[1..], b);
    }
  }

  lemma ForestAlphaCountAt(f: seq<Node>, i: nat)
    requires i < |f|
    ensures ForestAlphaCount(f) == ForestAlphaCount(f[..i]) + AlphaCount(f[i]) + ForestAlphaCount(f[i + 1..])
  {
    var a, x, b := f[..i], f[i], f[i + 1..];
    assert f == a + ([x] + b);
    ForestAlphaCountAppend(a, [x] + b);
    ForestAlphaCountAppend([x], b);
    assert ForestAlphaCount([x]) == AlphaCount(x) by {
      assert [x][1..] == [];
    }
  }

  /** The `<li>` element children of a list, in order. */
  function LiChildren(f: seq<Node>): (r: seq<Node>)
    ensures |r| <= |f|
    ensures forall k :: 0 <= k < |r| ==> IsLi(r[k])
    decreases |f|
  {
    if f == [] then [] else (if IsLi(f[0]) then [f[0]] else []) + LiChildren(f[1..])
  }

  /** The other children: text and non-`li` elements, which are discarded with the list. */
  function OtherChildren(f: seq<Node>): (r: seq<Node>)
    ensures forall k :: 0 <= k < |r| ==> !IsLi(r[k])
    decreases |f|
  {
    if f == [] then [] else (if IsLi(f[0]) then [] else [f[0]]) + OtherChildren(f[1..])
  }

  lemma {:induction false} LiChildrenAppend(a: seq<Node>, b: seq<Node>)
    ensures LiChildren(a + b) == LiChildren(a) + LiChildren(b)
    decreases |a|
  {
    if a == [] {
      assert a + b == b;
    } else {
      assert (a + b)[1..] == a[1..] + b;
      LiChildrenAppend(a[1..], b);
    }
  }

  /** The promoted items keep exactly the `li` children of the list. */
  lemma {:induction false} LiChildrenMembers(f: seq<Node>)
    ensures forall n :: n in LiChildren(f) <==> n in f && IsLi(n)
    decreases |f|
  {
    if f != [] {
      LiChildrenMembers(f[1..]);
      assert f == [f[0]] + f[1..];
    }
  }

  /** Dissolving a list splits its alphabetic lists between the promoted and the discarded children. */
  lemma {:induction false} SplitChildrenCount(f: seq<Node>)
    ensures ForestAlphaCount(LiChildren(f)) + ForestAlphaCount(OtherChildren(f)) == ForestAlphaCount(f)
    decreases |f|
  {
    if f != [] {
      SplitChildrenCount(f[1..]);
      var h := if IsLi(f[0]) then [f[0]] else [];
      var o := if IsLi(f[0]) then [] else [f[0]];
      ForestAlphaCountAppend(h, LiChildren(f[1..]));
      ForestAlphaCountAppend(o, OtherChildren(f[1..]));
      assert [f[0]][1..] == [];
    }
  }

  /** The first alphabetic list in document order (`getElementsByTagName('ol')` then the first that qualifies). */
  function FirstAlphaOl(n: Node): Option<Node>
    decreases n, 1
  {
    match n
    case Text(_) => None
    case Element(_, _, ch) => if IsAlphaOl(n) then Some(n) else ForestFirstAlphaOl(ch)
  }

  function ForestFirstAlphaOl(f: seq<Node>): Option<Node>
    decreases f, 0
  {
    if f == [] then None
    else
      match FirstAlphaOl(f[0])
      case Some(o) => Some(o)
      case None => ForestFirstAlphaOl(f[1..])
  }

  /** A tree has an alphabetic list exactly when the document-order search finds one. */
  lemma {:induction false} FirstAlphaOlFound(n: Node)
    ensures FirstAlphaOl(n).None? <==> AlphaCount(n) == 0
    ensures FirstAlphaOl(n).Some? ==> IsAlphaOl(FirstAlphaOl(n).value)
    decreases n, 1
  {
    if n.Element? && !IsAlphaOl(n) {
      ForestFirstAlphaOlFound(n.children);
    }
  }

  lemma {:induction false} ForestFirstAlphaOlFound(f: seq<Node>)
    ensures ForestFirstAlphaOl(f).None? <==> ForestAlphaCount(f) == 0
    ensures ForestFirstAlphaOl(f).Some? ==> IsAlphaOl(ForestFirstAlphaOl(f).value)
    decreases f, 0
  {
    if f != [] {
      FirstAlphaOlFound(f[0]);
      ForestFirstAlphaOlFound(f[1..]);
    }
  }

  /** The first child holding an alphabetic list (itself or below). */
  function FirstAlphaIndex(f: seq<Node>): (i: nat)
    requires ForestAlphaCount(f) > 0
    ensures i < |f| && AlphaCount(f[i]) > 0
    ensures forall j :: 0 <= j < i ==> AlphaCount(f[j]) == 0
    decreases |f|
  {
    if AlphaCount(f[0]) > 0 then 0 else 1 + FirstAlphaIndex(f[1..])
  }

  /** The document-order search ends in the first child that holds a list. */
  lemma {:induction false} FirstAlphaInFirstChild(f: seq<Node>)
    requires ForestAlphaCount(f) > 0
    ensures ForestFirstAlphaOl(f) == FirstAlphaOl(f[FirstAlphaIndex(f)])
    decreases |f|
  {
    FirstAlphaOlFound(f[0]);
    if AlphaCount(f[0]) == 0 {
      FirstAlphaInFirstChild(f[1..]);
    }
  }

  /**
   * One pass of the `while (true)` loop on the children of an element; `underLi` says
   * that element is an `li`. The first list in document order is removed; its `li`
   * children replace it when its parent is not an `li`, and otherwise they are `lifted`
   * to be inserted right after the outermost `li` of the chain of `li` ancestors.
   */
  datatype Pass = Pass(forest: seq<Node>, lifted: seq<Node>, removed: Node)

  function Step(f: seq<Node>, underLi: bool): (p: Pass)
    requires ForestAlphaCount(f) > 0
    ensures ForestFirstAlphaOl(f) == Some(p.removed) && IsAlphaOl(p.removed)
    ensures ForestAlphaCount(p.forest) + ForestAlphaCount(p.lifted) + 1
      + ForestAlphaCount(OtherChildren(p.removed.children)) == ForestAlphaCount(f)
    ensures !underLi ==> p.lifted == []
    ensures p.lifted == [] || p.lifted == LiChildren(p.removed.children)
    decreases f
  {
    var i := FirstAlphaIndex(f);
    var c := f[i];
    ForestAlphaCountAt(f, i);
    FirstAlphaInFirstChild(f);
    if IsAlphaOl(c) then
      var items := LiChildren(c.children);
      SplitChildrenCount(c.children);
      if underLi then
        ForestAlphaCountAppend(f[..i], f[i + 1..]);
        Pass(f[..i] + f[i + 1..], items, c)
      else
        ForestAlphaCountAppend(f[..i], items);
        ForestAlphaCountAppend(f[..i] + items, f[i + 1..]);
        Pass(f[..i] + items + f[i + 1..], [], c)
    else
      assert c in f;
      var inner := Step(c.children, IsLi(c));
      var c' := Element(c.name, c.attrs, inner.forest);
      assert AlphaCount(c') == ForestAlphaCount(inner.forest);
      ForestAlphaCountAppend(f[..i], [c']);
      assert [c'][1..] == [];
      if underLi && IsLi(c) then
        ForestAlphaCountAppend(f[..i] + [c'], f[i + 1..]);
        Pass(f[..i] + [c'] + f[i + 1..], inner.lifted, inner.removed)
      else
        ForestAlphaCountAppend(f[..i] + [c'], inner.lifted);
        ForestAlphaCountAppend(f[..i] + [c'] + inner.lifted, f[i + 1..]);
        Pass(f[..i] + [c'] + inner.lifted + f[i + 1..], [], inner.removed)
  }

  /** Passes until no alphabetic list is left. */
  function Flatten(f: seq<Node>): (r: seq<Node>)
    ensures ForestAlphaCount(r) == 0
    decreases ForestAlphaCount(f)
  {
    if ForestAlphaCount(f) == 0 then f else Flatten(Step(f, false).forest)
  }

  /** The `while (true)` loop of `answerItemsFlatten` over the children of the wrapper. */
  method FlattenLists(wrap: seq<Node>) returns (r: seq<Node>)
    ensures r == Flatten(wrap)
    ensures ForestFirstAlphaOl(r).None?
  {
    r := wrap;
    while true
      invariant Flatten(r) == Flatten(wrap)
      decreases ForestAlphaCount(r)
    {
      ForestFirstAlphaOlFound(r);
      if ForestFirstAlphaOl(r).None? {
        break;
      }
      r := Step(r, false).forest;
    }
    ForestFirstAlphaOlFound(r);
  }

  /** A list at the top level is replaced, in place, by its `li` children. */
  lemma DissolveInPlace(pre: seq<Node>, ol: Node, post: seq<Node>)
    requires ForestAlphaCount(pre) == 0 && IsAlphaOl(ol)
    ensures ForestAlphaCount(pre + [ol] + post) > 0
      && Step(pre + [ol] + post, false).forest == pre + LiChildren(ol.children) + post
  {
    var f := pre + [ol] + post;
    ForestAlphaCountAt(f, |pre|);
    assert f[|pre|] == ol && f[..|pre|] == pre && f[|pre| + 1..] == post;
    FirstIndexAfterFree(pre, ol, post);
  }

  /**
   * A list directly inside a top-level `li` is removed from it, and its `li` children
   * land right after that `li`, in their original order.
   */
  lemma PromoteAfterItem(pre: seq<Node>, li: Node, inPre: seq<Node>, ol: Node, inPost: seq<Node>, post: seq<Node>)
    requires ForestAlphaCount(pre) == 0 && ForestAlphaCount(inPre) == 0
    requires IsLi(li) && li.children == inPre + [ol] + inPost && IsAlphaOl(ol)
    ensures ForestAlphaCount(pre + [li] + post) > 0
      && Step(pre + [li] + post, false).forest == pre + [Element(li.name, li.attrs, inPre + inPost)] + LiChildren(ol.children) + post
  {
    var ch := li.children;
    ForestAlphaCountAt(ch, |inPre|);
    assert ch[|inPre|] == ol && ch[..|inPre|] == inPre && ch[|inPre| + 1..] == inPost;
    FirstIndexAfterFree(inPre, ol, inPost);
    var f := pre + [li] + post;
    ForestAlphaCountAt(f, |pre|);
    assert f[|pre|] == li && f[..|pre|] == pre && f[|pre| + 1..] == post;
    assert !IsAlphaOl(li);
    FirstIndexAfterFree(pre, li, post);
  }

  lemma FirstIndexAfterFree(pre: seq<Node>, n: Node, post: seq<Node>)
    requires ForestAlphaCount(pre) == 0 && AlphaCount(n) > 0
    ensures ForestAlphaCount(pre + [n] + post) > 0
    ensures FirstAlphaIndex(pre + [n] + post) == |pre|
  {
    var f := pre + [n] + post;
    ForestAlphaCountAt(f, |pre|);
    assert f[..|pre|] == pre && f[|pre|] == n;
    var i := FirstAlphaIndex(f);
    if i < |pre| {
      ForestAlphaCountAt(pre, i);
      assert false;
    }
  }

  /* ------------------------- where one pass puts the items ------------------------- */

  /**
   * One level of the path from the top of the answers down to a node: the siblings before
   * the ancestor, its name and attributes, and the siblings after it.
   */
  datatype Frame = Frame(before: seq<Node>, name: string, attrs: seq<Attr>, after: seq<Node>)

  /** The forest made by putting `hole` at the bottom of the path `ctx`. */
  function Plug(ctx: seq<Frame>, hole: seq<Node>): seq<Node>
    decreases |ctx|
  {
    if ctx == [] then hole
    else ctx[0].before + [Element(ctx[0].name, ctx[0].attrs, Plug(ctx[1..], hole))] + ctx[0].after
  }

  predicate FrameIsLi(fr: Frame) { Lower(fr.name) == "li" }

  /** Whether the node holding the bottom of the path is an `li` (`u` for the top level). */
  function BottomIsLi(ctx: seq<Frame>, u: bool): bool {
    if ctx == [] then u else FrameIsLi(ctx[|ctx| - 1])
  }

  /** No ancestor on the path is an alphabetic list, and no sibling before it holds one. */
  predicate PathFree(ctx: seq<Frame>) {
    forall k :: 0 <= k < |ctx| ==>
      ForestAlphaCount(ctx[k].before) == 0 && !IsAlphaOl(Element(ctx[k].name, ctx[k].attrs, []))
  }

  /**
   * The forest after the pass that removes `ol`, found between `pre` and `post` below the
   * path `outer + chain`, where `chain` is the run of `li` ancestors right above `ol`.
   * Without such ancestors the `li` children of `ol` replace it in place; otherwise `ol`
   * leaves the innermost `li` and its `li` children follow the outermost `li` of the run.
   */
  function Placed(outer: seq<Frame>, chain: seq<Frame>, pre: seq<Node>, ol: Node, post: seq<Node>): seq<Node>
    requires ol.Element?
  {
    if chain == [] then Plug(outer, pre + LiChildren(ol.children) + post)
    else
      Plug(outer, chain[0].before + [Element(chain[0].name, chain[0].attrs, Plug(chain[1..], pre + post))]
                  + LiChildren(ol.children) + chain[0].after)
  }

  lemma {:induction false} PlugAppend(a: seq<Frame>, b: seq<Frame>, hole: seq<Node>)
    ensures Plug(a + b, hole) == Plug(a, Plug(b, hole))
    decreases |a|
  {
    if a != [] {
      assert (a + b)[0] == a[0] && (a + b)[1..] == a[1..] + b;
      PlugAppend(a[1..], b, hole);
    } else {
      assert a + b == b;
    }
  }

  /** The pass where the list is a child of the forest it works on. */
  lemma StepAtList(pre: seq<Node>, ol: Node, post: seq<Node>, u: bool)
    requires ForestAlphaCount(pre) == 0 && IsAlphaOl(ol)
    ensures ForestAlphaCount(pre + [ol] + post) > 0
    ensures Step(pre + [ol] + post, u)
      == if u then Pass(pre + post, LiChildren(ol.children), ol)
         else Pass(pre + LiChildren(ol.children) + post, [], ol)
  {
    var f := pre + [ol] + post;
    FirstIndexAfterFree(pre, ol, post);
    assert f[|pre|] == ol && f[..|pre|] == pre && f[|pre| + 1..] == post;
  }

  /** The pass where the list lies below the element `fr` puts around `g`. */
  lemma StepThrough(fr: Frame, g: seq<Node>, u: bool)
    requires ForestAlphaCount(fr.before) == 0 && !IsAlphaOl(Element(fr.name, fr.attrs, []))
    requires ForestAlphaCount(g) > 0
    ensures ForestAlphaCount(fr.before + [Element(fr.name, fr.attrs, g)] + fr.after) > 0
    ensures Step(fr.before + [Element(fr.name, fr.attrs, g)] + fr.after, u)
      == if u && FrameIsLi(fr) then
           Pass(fr.before + [Element(fr.name, fr.attrs, Step(g, FrameIsLi(fr)).forest)] + fr.after,
                Step(g, FrameIsLi(fr)).lifted, Step(g, FrameIsLi(fr)).removed)
         else
           Pass(fr.before + [Element(fr.name, fr.attrs, Step(g, FrameIsLi(fr)).forest)]
                + Step(g, FrameIsLi(fr)).lifted + fr.after, [], Step(g, FrameIsLi(fr)).removed)
  {
    var c := Element(fr.name, fr.attrs, g);
    var f := fr.before + [c] + fr.after;
    assert AlphaCount(c) >= ForestAlphaCount(g);
    FirstIndexAfterFree(fr.before, c, fr.after);
    assert f[|fr.before|] == c && f[..|fr.before|] == fr.before && f[|fr.before| + 1..] == fr.after;
    assert !IsAlphaOl(c) && (IsLi(c) <==> FrameIsLi(fr));
  }

  lemma {:induction false} PlugCount(ctx: seq<Frame>, hole: seq<Node>)
    requires ForestAlphaCount(hole) > 0
    ensures ForestAlphaCount(Plug(ctx, hole)) > 0
    decreases |ctx|
  {
    if ctx != [] {
      PlugCount(ctx[1..], hole);
      var c := Element(ctx[0].name, ctx[0].attrs, Plug(ctx[1..], hole));
      assert AlphaCount(c) >= ForestAlphaCount(Plug(ctx[1..], hole));
      ForestAlphaCountAt(Plug(ctx, hole), |ctx[0].before|);
      assert Plug(ctx, hole)[|ctx[0].before|] == c;
    }
  }

  /** Below a run of `li` ancestors, the list leaves its `li` and its items are lifted. */
  lemma {:induction false} StepInChain(chain: seq<Frame>, pre: seq<Node>, ol: Node, post: seq<Node>)
    requires PathFree(chain) && ForestAlphaCount(pre) == 0 && IsAlphaOl(ol)
    requires forall k :: 0 <= k < |chain| ==> FrameIsLi(chain[k])
    ensures ForestAlphaCount(Plug(chain, pre + [ol] + post)) > 0
    ensures Step(Plug(chain, pre + [ol] + post), true)
      == Pass(Plug(chain, pre + post), LiChildren(ol.children), ol)
    decreases |chain|
  {
    if chain == [] {
      StepAtList(pre, ol, post, true);
    } else {
      var rest := chain[1..];
      assert forall k :: 0 <= k < |rest| ==> rest[k] == chain[k + 1];
      StepInChain(rest, pre, ol, post);
      StepThrough(chain[0], Plug(rest, pre + [ol] + post), true);
    }
  }

  /** A pass that lifts nothing out of an element on the path leaves that element in place. */
  lemma StepThroughQuiet(fr: Frame, h: seq<Node>, u: bool)
    requires ForestAlphaCount(fr.before) == 0 && !IsAlphaOl(Element(fr.name, fr.attrs, []))
    requires ForestAlphaCount(h) > 0 && Step(h, FrameIsLi(fr)).lifted == []
    ensures ForestAlphaCount(fr.before + [Element(fr.name, fr.attrs, h)] + fr.after) > 0
    ensures Step(fr.before + [Element(fr.name, fr.attrs, h)] + fr.after, u)
      == Pass(fr.before + [Element(fr.name, fr.attrs, Step(h, FrameIsLi(fr)).forest)] + fr.after,
              [], Step(h, FrameIsLi(fr)).removed)
  {
    StepThrough(fr, h, u);
    var c' := Element(fr.name, fr.attrs, Step(h, FrameIsLi(fr)).forest);
    assert fr.before + [c'] + [] + fr.after == fr.before + [c'] + fr.after;
  }

  /** A pass whose items are placed below the path leaves the path itself as it was. */
  lemma {:induction false} StepBelow(ctx: seq<Frame>, g: seq<Node>, u: bool)
    requires PathFree(ctx) && ForestAlphaCount(g) > 0
    requires Step(g, BottomIsLi(ctx, u)).lifted == []
    ensures ForestAlphaCount(Plug(ctx, g)) > 0
    ensures Step(Plug(ctx, g), u)
      == Pass(Plug(ctx, Step(g, BottomIsLi(ctx, u)).forest), [], Step(g, BottomIsLi(ctx, u)).removed)
    decreases |ctx|
  {
    if ctx != [] {
      var rest := ctx[1..];
      assert forall k :: 0 <= k < |rest| ==> rest[k] == ctx[k + 1];
      var fr := ctx[0];
      assert BottomIsLi(rest, FrameIsLi(fr)) == BottomIsLi(ctx, u);
      var s := Step(g, BottomIsLi(ctx, u));
      StepBelow(rest, g, FrameIsLi(fr));
      var h := Plug(rest, g);
      assert Step(h, FrameIsLi(fr)) == Pass(Plug(rest, s.forest), [], s.removed);
      StepThroughQuiet(fr, h, u);
      assert Plug(ctx, g) == fr.before + [Element(fr.name, fr.attrs, h)] + fr.after;
      assert Plug(ctx, s.forest) == fr.before + [Element(fr.name, fr.attrs, Plug(rest, s.forest))] + fr.after;
    }
  }

  /**
   * One pass, wherever the first alphabetic list lies: `ol` is removed together with its
   * non-`li` children; its `li` children take its place when its parent is not an `li`,
   * and otherwise follow the outermost `li` of the run of `li` ancestors above it. Every
   * other node keeps its place and content.
   */
  lemma StepPlacement(outer: seq<Frame>, chain: seq<Frame>, pre: seq<Node>, ol: Node, post: seq<Node>)
    requires PathFree(outer + chain) && ForestAlphaCount(pre) == 0 && IsAlphaOl(ol)
    requires outer == [] || !FrameIsLi(outer[|outer| - 1])
    requires forall k :: 0 <= k < |chain| ==> FrameIsLi(chain[k])
    ensures ForestAlphaCount(Plug(outer + chain, pre + [ol] + post)) > 0
    ensures Step(Plug(outer + chain, pre + [ol] + post), false) == Pass(Placed(outer, chain, pre, ol, post), [], ol)
  {
    var hole := pre + [ol] + post;
    assert forall k :: 0 <= k < |outer| ==> (outer + chain)[k] == outer[k];
    assert forall k :: 0 <= k < |chain| ==> (outer + chain)[|outer| + k] == chain[k];
    PlugAppend(outer, chain, hole);
    assert !BottomIsLi(outer, false);
    if chain == [] {
      assert outer + chain == outer;
      StepAtList(pre, ol, post, false);
      StepBelow(outer, hole, false);
    } else {
      var rest := chain[1..];
      assert forall k :: 0 <= k < |rest| ==> rest[k] == chain[k + 1];
      StepInChain(rest, pre, ol, post);
      StepThrough(chain[0], Plug(rest, hole), false);
      assert Plug(chain, hole) == chain[0].before + [Element(chain[0].name, chain[0].attrs, Plug(rest, hole))] + chain[0].after;
      StepBelow(outer, Plug(chain, hole), false);
    }
  }

  /** The common case: one answers list whose items hold no further list flattens to its items. */
  lemma FlattenSingleList(pre: seq<Node>, ol: Node, post: seq<Node>)
    requires ForestAlphaCount(pre) == 0 && ForestAlphaCount(post) == 0
    requires IsAlphaOl(ol) && ForestAlphaCount(ol.children) == 0
    ensures Flatten(pre + [ol] + post) == pre + LiChildren(ol.children) + post
  {
    var f := pre + [ol] + post;
    ForestAlphaCountAt(f, |pre|);
    assert f[..|pre|] == pre && f[|pre|] == ol && f[|pre| + 1..] == post;
    DissolveInPlace(pre, ol, post);
    SplitChildrenCount(ol.children);
    var items := LiChildren(ol.children);
    ForestAlphaCountAppend(pre, items);
    ForestAlphaCountAppend(pre + items, post);
  }

  /** An item that is empty for `cleanText` and holds no image: the repair pass targets it. */
  predicate IsEmptyItem(n: Node) {
    IsLi(n) && !HasImgBelow(n) && CleanText(TextContent(n)) == ""
  }

  datatype Absorbed = Absorbed(item: Node, rest: seq<Node>)

  /**
   * The walk over the siblings after an empty item: text nodes are skipped, blank
   * paragraphs deleted, and the first paragraph with an image has its content moved
   * into the item and is deleted; any other element stops the walk.
   */
  function Absorb(item: Node, rest: seq<Node>): (a: Absorbed)
    requires item.Element?
    ensures |a.rest| <= |rest|
    ensures a.item.Element? && a.item.name == item.name && a.item.attrs == item.attrs
    decreases |rest|
  {
    if rest == [] then Absorbed(item, [])
    else if rest[0].Text? then
      var a := Absorb(item, rest[1..]);
      Absorbed(a.item, [rest[0]] + a.rest)
    else if IsNamed(rest[0], "p") && HasImgBelow(rest[0]) then
      Absorbed(Element(item.name, item.attrs, item.children + rest[0].children), rest[1..])
    else if IsNamed(rest[0], "p") && CleanText(TextContent(rest[0])) == "" then
      Absorb(item, rest[1..])
    else Absorbed(item, rest)
  }

  /** The walk only appends to the item's content and deletes no `li` sibling. */
  lemma {:induction false} AbsorbKeeps(item: Node, rest: seq<Node>)
    requires item.Element?
    ensures item.children <= Absorb(item, rest).item.children
    ensures LiChildren(Absorb(item, rest).rest) == LiChildren(rest)
    decreases |rest|
  {
    if rest != [] {
      AbsorbKeeps(item, rest[1..]);
      var a := Absorb(item, rest[1..]);
      if rest[0].Text? {
        assert Absorb(item, rest).rest == [rest[0]] + a.rest;
        assert ([rest[0]] + a.rest)[1..] == a.rest;
      }
    }
  }

  /** The repair pass over the top-level children, left to right. */
  function Repair(f: seq<Node>): (r: seq<Node>)
    decreases |f|
  {
    if f == [] then []
    else if IsEmptyItem(f[0]) then
      var a := Absorb(f[0], f[1..]);
      [a.item] + Repair(a.rest)
    else [f[0]] + Repair(f[1..])
  }

  /** How a top-level item may change in the repair pass: only empty items grow, by appended content. */
  predicate Repaired(before: Node, after: Node) {
    if IsEmptyItem(before) then
      after.Element? && after.name == before.name && after.attrs == before.attrs
      && before.children <= after.children
    else after == before
  }

  /**
   * The repair pass neither adds nor removes answers: the top-level items are the same
   * in number and order, and only empty ones change, by content appended at their end.
   */
  lemma {:induction false} RepairKeepsItems(f: seq<Node>)
    ensures |LiChildren(Repair(f))| == |LiChildren(f)|
    ensures forall k :: 0 <= k < |LiChildren(f)| ==> Repaired(LiChildren(f)[k], LiChildren(Repair(f))[k])
    decreases |f|
  {
    if f != [] {
      var r := Repair(f);
      var head := f[0];
      var tail := if IsEmptyItem(head) then Absorb(head, f[1..]).rest else f[1..];
      var newHead := if IsEmptyItem(head) then Absorb(head, f[1..]).item else head;
      RepairKeepsItems(tail);
      if IsEmptyItem(head) {
        AbsorbKeeps(head, f[1..]);
      }
      assert r == [newHead] + Repair(tail);
      assert LiChildren(tail) == LiChildren(f[1..]);
      assert LiChildren(r) == (if IsLi(newHead) then [newHead] else []) + LiChildren(Repair(tail)) by {
        assert r[0] == newHead && r[1..] == Repair(tail);
      }
      assert LiChildren(f) == (if IsLi(head) then [head] else []) + LiChildren(f[1..]);
      assert IsLi(newHead) == IsLi(head);
    }
  }

  /** Skipped text nodes stay where they are: the walk past them is the walk after them. */
  lemma {:induction false} AbsorbAfterText(item: Node, t: seq<Node>, s: seq<Node>)
    requires item.Element?
    requires forall k :: 0 <= k < |t| ==> t[k].Text?
    ensures Absorb(item, t + s) == Absorbed(Absorb(item, s).item, t + Absorb(item, s).rest)
    decreases |t|
  {
    if t == [] {
      assert t + s == s;
    } else {
      var u := t + s;
      var a := Absorb(item, s);
      assert u[0] == t[0] && u[1..] == t[1..] + s;
      assert Absorb(item, t[1..] + s) == Absorbed(a.item, t[1..] + a.rest) by {
        AbsorbAfterText(item, t[1..], s);
      }
      assert Absorb(item, u) == Absorbed(Absorb(item, u[1..]).item, [u[0]] + Absorb(item, u[1..]).rest) by {
        AbsorbText(item, u);
      }
      assert [t[0]] + (t[1..] + a.rest) == t + a.rest by {
        assert t == [t[0]] + t[1..];
      }
    }
  }

  /** A text node in front is kept and the walk goes on after it. */
  lemma AbsorbText(item: Node, u: seq<Node>)
    requires item.Element? && u != [] && u[0].Text?
    ensures Absorb(item, u) == Absorbed(Absorb(item, u[1..]).item, [u[0]] + Absorb(item, u[1..]).rest)
  {
  }

  /** The `$next` walk of the repair pass. */
  method AbsorbImagePara(item: Node, rest: seq<Node>) returns (a: Absorbed)
    requires item.Element?
    ensures a == Absorb(item, rest)
  {
    var r := rest;
    var j := 0;
    while j < |r|
      invariant j <= |r|
      invariant forall k :: 0 <= k < j ==> r[k].Text?
      invariant Absorb(item, r) == Absorb(item, rest)
      decreases |r| - j
    {
      var t, x, s := r[..j], r[j], r[j + 1..];
      assert r == t + ([x] + s);
      if x.Text? {
        j := j + 1;
      } else if IsNamed(x, "p") && HasImgBelow(x) {
        AbsorbImageAt(item, t, x, s);
        return Absorbed(Element(item.name, item.attrs, item.children + x.children), t + s);
      } else if IsNamed(x, "p") && CleanText(TextContent(x)) == "" {
        AbsorbBlankAt(item, t, x, s);
        r := t + s;
      } else {
        AbsorbAfterText(item, t, [x] + s);
        return Absorbed(item, r);
      }
    }
    AbsorbAfterText(item, r, []);
    assert r + [] == r;
    a := Absorbed(item, r);
  }

  /** A paragraph with an image after text nodes only: its content joins the item and it leaves the siblings. */
  lemma AbsorbImageAt(item: Node, t: seq<Node>, x: Node, s: seq<Node>)
    requires item.Element? && forall k :: 0 <= k < |t| ==> t[k].Text?
    requires IsNamed(x, "p") && HasImgBelow(x)
    ensures Absorb(item, t + ([x] + s)) == Absorbed(Element(item.name, item.attrs, item.children + x.children), t + s)
  {
    AbsorbAfterText(item, t, [x] + s);
    assert ([x] + s)[0] == x && ([x] + s)[1..] == s;
  }

  /** A blank paragraph after text nodes only is deleted and the walk goes on. */
  lemma AbsorbBlankAt(item: Node, t: seq<Node>, x: Node, s: seq<Node>)
    requires item.Element? && forall k :: 0 <= k < |t| ==> t[k].Text?
    requires !x.Text? && IsNamed(x, "p") && !HasImgBelow(x) && CleanText(TextContent(x)) == ""
    ensures Absorb(item, t + ([x] + s)) == Absorb(item, t + s)
  {
    assert Absorb(item, [x] + s) == Absorb(item, s) by {
      assert ([x] + s)[0] == x && ([x] + s)[1..] == s;
    }
    AbsorbAfterText(item, t, [x] + s);
    AbsorbAfterText(item, t, s);
  }

  /**
   * Any other element after the skipped text (a paragraph with text but no image, or a
   * non-paragraph) ends the walk: the item and the siblings are left as they are.
   */
  lemma AbsorbStops(item: Node, t: seq<Node>, x: Node, s: seq<Node>)
    requires item.Element? && forall k :: 0 <= k < |t| ==> t[k].Text?
    requires !x.Text? && !(IsNamed(x, "p") && (HasImgBelow(x) || CleanText(TextContent(x)) == ""))
    ensures Absorb(item, t + ([x] + s)) == Absorbed(item, t + ([x] + s))
  {
    assert Absorb(item, [x] + s) == Absorbed(item, [x] + s) by {
      assert ([x] + s)[0] == x;
    }
    AbsorbAfterText(item, t, [x] + s);
  }

  /** The repair `foreach` over the top-level children. */
  method RepairEmptyItems(f: seq<Node>) returns (r: seq<Node>)
    ensures r == Repair(f)
  {
    r := f;
    var i := 0;
    while i < |r|
      invariant i <= |r|
      invariant r[..i] + Repair(r[i..]) == Repair(f)
      decreases |r| - i
    {
      var h, v := r[i], r[i + 1..];
      if IsEmptyItem(h) {
        var a := AbsorbImagePara(h, v);
        RepairAbsorbAdvance(r, i, a);
        r := r[..i] + [a.item] + a.rest;
      } else {
        RepairKeepAdvance(r, i);
      }
      i := i + 1;
    }
    assert r[..i] == r;
  }

  /** One step of the repair pass on a non-empty forest. */
  lemma RepairStep(u: seq<Node>)
    requires u != []
    ensures IsEmptyItem(u[0]) ==> Repair(u) == [Absorb(u[0], u[1..]).item] + Repair(Absorb(u[0], u[1..]).rest)
    ensures !IsEmptyItem(u[0]) ==> Repair(u) == [u[0]] + Repair(u[1..])
  {
  }

  /** The loop's step at an empty item: the absorbed item is final, the repair goes on after it. */
  lemma RepairAbsorbAdvance(r: seq<Node>, i: nat, a: Absorbed)
    requires i < |r| && IsEmptyItem(r[i]) && a == Absorb(r[i], r[i + 1..])
    ensures (r[..i] + [a.item] + a.rest)[..i + 1] + Repair((r[..i] + [a.item] + a.rest)[i + 1..])
      == r[..i] + Repair(r[i..])
  {
    RepairStep(r[i..]);
    assert r[i..][0] == r[i] && r[i..][1..] == r[i + 1..];
    NextCut(r[..i], a.item, a.rest);
  }

  /** The loop's step at any other node: it is kept as it is. */
  lemma RepairKeepAdvance(r: seq<Node>, i: nat)
    requires i < |r| && !IsEmptyItem(r[i])
    ensures r[..i + 1] + Repair(r[i + 1..]) == r[..i] + Repair(r[i..])
  {
    RepairStep(r[i..]);
    assert r[i..][0] == r[i] && r[i..][1..] == r[i + 1..];
    NextCut(r[..i], r[i], r[i + 1..]);
    SplitAt(r, i);
  }

  lemma NextCut(p: seq<Node>, h: Node, v: seq<Node>)
    ensures (p + [h] + v)[..|p| + 1] == p + [h] && (p + [h] + v)[|p| + 1..] == v
    ensures (p + [h]) + Repair(v) == p + ([h] + Repair(v))
  {
  }

  /** One answer item: the markup, the normalised text and the image sources of an `li`. */
  datatype Item = Item(html: string, text: string, images: seq<string>)

  function ItemOf(n: Node, norm: string -> string): Item {
    Item(Serialize(n), norm(TextContent(n)), ImgSrcsBelow(n))
  }

  /** The items of a forest: one per top-level `li`, in order. */
  function Items(f: seq<Node>, norm: string -> string): seq<Item> {
    seq(|LiChildren(f)|, k requires 0 <= k < |LiChildren(f)| => ItemOf(LiChildren(f)[k], norm))
  }

  /** The final `foreach` over the top-level children, keeping the `li` elements. */
  method CollectItems(f: seq<Node>, norm: string -> string) returns (items: seq<Item>)
    ensures items == Items(f, norm)
  {
    items := [];
    var i := 0;
    while i < |f|
      invariant i <= |f|
      invariant |items| == |LiChildren(f[..i])|
      invariant forall k :: 0 <= k < |items| ==> items[k] == ItemOf(LiChildren(f[..i])[k], norm)
    {
      assert f[..i + 1] == f[..i] + [f[i]];
      LiChildrenAppend(f[..i], [f[i]]);
      assert [f[i]][1..] == [];
      if IsLi(f[i]) {
        items := items + [ItemOf(f[i], norm)];
      }
      i := i + 1;
    }
    assert f[..i] == f;
  }

  /** Which engine runs: the production extractor or the instrumented inspector. */
  datatype Engine = Production | Instrumented

  /** Item text: `cleanText` in production, collapse-then-trim in the inspector. */
  function Normalise(e: Engine): string -> string {
    if e.Production? then CleanText else CollapseTrim
  }

  /** The top-level children the items are collected from: flattened, then repaired in production. */
  function ItemForest(wrap: seq<Node>, e: Engine): seq<Node> {
    if e.Production? then Repair(Flatten(wrap)) else Flatten(wrap)
  }

  /** `answerItemsFlatten`: no items for an empty zone or when the wrapper cannot be loaded. */
  function AnswerItems(answersHtml: string, parse: Parser, e: Engine): (items: seq<Item>)
    ensures answersHtml == "" ==> items == []
  {
    if answersHtml == "" then []
    else
      match parse(answersHtml)
      case None => []
      case Some(wrap) => Items(ItemForest(wrap, e), Normalise(e))
  }

  method AnswerItemsFlatten(answersHtml: string, parse: Parser, e: Engine) returns (items: seq<Item>)
    ensures items == AnswerItems(answersHtml, parse, e)
  {
    if answersHtml == "" {
      return [];
    }
    var wrap := parse(answersHtml);
    if wrap.None? {
      return [];
    }
    var f := FlattenLists(wrap.value);
    if e.Production? {
      f := RepairEmptyItems(f);
    }
    items := CollectItems(f, Normalise(e));
  }

  /**
   * The two engines find the same number of answers in a zone: the repair pass of the
   * production engine only fills empty items.
   */
  lemma EnginesAgreeOnCount(answersHtml: string, parse: Parser)
    ensures |AnswerItems(answersHtml, parse, Production)| == |AnswerItems(answersHtml, parse, Instrumented)|
  {
    if answersHtml != "" && parse(answersHtml).Some? {
      RepairKeepsItems(Flatten(parse(answersHtml).value));
    }
  }

  /**
   * Every item has normalised text (no run of two white-space characters) and only
   * non-empty image sources.
   */
  lemma ItemsWellFormed(answersHtml: string, parse: Parser, e: Engine)
    ensures forall k :: 0 <= k < |AnswerItems(answersHtml, parse, e)| ==>
      SpacesCollapsed(AnswerItems(answersHtml, parse, e)[k].text, IsUnicodeSpace)
      && (forall j :: 0 <= j < |AnswerItems(answersHtml, parse, e)[k].images| ==> AnswerItems(answersHtml, parse, e)[k].images[j] != "")
  {
    var items := AnswerItems(answersHtml, parse, e);
    if answersHtml != "" && parse(answersHtml).Some? {
      var lis := LiChildren(ItemForest(parse(answersHtml).value, e));
      forall k | 0 <= k < |items|
        ensures SpacesCollapsed(items[k].text, IsUnicodeSpace)
        ensures forall j :: 0 <= j < |items[k].images| ==> items[k].images[j] != ""
      {
        ImgSrcsBelowNonEmpty(lis[k]);
        if e.Instrumented? {
          CollapseTrimShape(TextContent(lis[k]));
        }
      }
    }
  }
}
