/**
 * The parsed answer markup as a value tree.
 *
 * The PHP code loads a fragment into libxml's HTML parser and walks the resulting DOM.
 * Here a fragment is the sequence of children of the wrapping `div`; elements keep their
 * attributes in document order, and text nodes their decoded text.
 */
module Dom {
  import opened Chars

  datatype Attr = Attr(name: string, value: string)

  datatype Node =
    | Element(name: string, attrs: seq<Attr>, children: seq<Node>)
    | Text(text: string)

  /** The HTML parser that turns a fragment into the children of the wrapper; None when loading fails. */
  type Parser = string -> Option<seq<Node>>

  /** `getAttribute`: the value of the first attribute with that (ASCII case-insensitive) name, or "". */
  function GetAttribute(attrs: seq<Attr>, name: string): (v: string)
    ensures attrs == [] ==> v == ""
    decreases |attrs|
  {
    if attrs == [] then ""
    else if Lower(attrs[0].name) == Lower(name) then attrs[0].value
    else GetAttribute(attrs[1..], name)
  }

  predicate IsNamed(n: Node, tag: string) {
    n.Element? && Lower(n.name) == tag
  }

  predicate IsLi(n: Node) { IsNamed(n, "li") }

  /** An `ol` whose type is "a" (any case) or whose style mentions `lower-alpha`. */
  predicate IsAlphaOl(n: Node) {
    IsNamed(n, "ol")
    && (Lower(GetAttribute(n.attrs, "type")) == "a"
        || IndexOf(Lower(GetAttribute(n.attrs, "style")), "lower-alpha", 0).Some?)
  }

  /** DOM `textContent`: the text nodes below `n`, in document order. */
  function TextContent(n: Node): string
    decreases n, 1
  {
    match n
    case Text(t) => t
    case Element(_, _, ch) => ForestText(ch)
  }

  function ForestText(f: seq<Node>): string
    decreases f, 0
  {
    if f == [] then [] else TextContent(f[0]) + ForestText(f[1..])
  }

  /** Some descendant of `n` (not `n` itself) is an `img` element. */
  predicate HasImgBelow(n: Node)
    decreases n, 1
  {
    n.Element? && ForestHasImg(n.children)
  }

  predicate ForestHasImg(f: seq<Node>)
    decreases f, 0
  {
    f != [] && (IsNamed(f[0], "img") || HasImgBelow(f[0]) || ForestHasImg(f[1..]))
  }

  /** The non-empty `src` values of the `img` elements below `n`, in document order. */
  function ImgSrcsBelow(n: Node): seq<string>
    decreases n, 1
  {
    if n.Element? then ForestImgSrcs(n.children) else []
  }

  function ForestImgSrcs(f: seq<Node>): (r: seq<string>)
    decreases f, 0
  {
    if f == [] then []
    else
      var own := if IsNamed(f[0], "img") && GetAttribute(f[0].attrs, "src") != "" then [GetAttribute(f[0].attrs, "src")] else [];
      own + ImgSrcsBelow(f[0]) + ForestImgSrcs(f[1..])
  }

  /** Every collected image source is non-empty. */
  lemma {:induction false} ForestImgSrcsNonEmpty(f: seq<Node>)
    ensures forall i :: 0 <= i < |ForestImgSrcs(f)| ==> ForestImgSrcs(f)[i] != ""
    decreases f, 0
  {
    if f != [] {
      ImgSrcsBelowNonEmpty(f[0]);
      ForestImgSrcsNonEmpty(f[1..]);
    }
  }

  lemma {:induction false} ImgSrcsBelowNonEmpty(n: Node)
    ensures forall i :: 0 <= i < |ImgSrcsBelow(n)| ==> ImgSrcsBelow(n)[i] != ""
    decreases n, 1
  {
    if n.Element? {
      ForestImgSrcsNonEmpty(n.children);
    }
  }

  /** Markup for a node: a stand-in for libxml's `saveHTML`, which is not part of this model. */
  function Serialize(n: Node): string
    decreases n, 1
  {
    match n
    case Text(t) => HtmlEscape(t)
    case Element(name, attrs, ch) => "<" + name + SerializeAttrs(attrs) + ">" + SerializeForest(ch) + "</" + name + ">"
  }

  function SerializeForest(f: seq<Node>): string
    decreases f, 0
  {
    if f == [] then [] else Serialize(f[0]) + SerializeForest(f[1..])
  }

  function SerializeAttrs(attrs: seq<Attr>): string
    decreases |attrs|
  {
    if attrs == [] then []
    else " " + attrs[0].name + "=\"" + HtmlEscape(attrs[0].value) + "\"" + SerializeAttrs(attrs[1..])
  }

  lemma ForestTextAppend(a: seq<Node>, b: seq<Node>)
    ensures ForestText(a + b) == ForestText(a) + ForestText(b)
    decreases |a|
  {
    if a == [] {
      assert a + b == b;
    } else {
      assert (a + b)[1..] == a[1..] + b;
      ForestTextAppend(a[1..], b);
    }
  }
}
