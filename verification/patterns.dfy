/**
 * The regular expressions of the extraction engine, written as deterministic scanners.
 *
 * Every pattern used here is case-insensitive and either has a single way to match at a
 * given position or is greedy with no alternative that backtracking could reach, so a
 * scanner that skips maximal runs computes the same match as PCRE. `MatchAt(p, s, i)`
 * is the end of the match of `p` starting at `i`, if any; `Find` and `FindAll` give the
 * leftmost and the successive non-overlapping matches, as `preg_match` with an offset and
 * `preg_match_all` do.
 */
module Patterns {
  import opened Chars

  predicate NotGt(c: char) { c != '>' }

  /** Position of the first '>' at or after `i`. */
  function FirstGt(s: seq<char>, i: nat): (r: Option<nat>)
    requires i <= |s|
    ensures r.Some? ==> i <= r.value < |s| && s[r.value] == '>'
    ensures forall k :: i <= k < |s| && (r.None? || k < r.value) ==> s[k] != '>'
  {
    var j := SkipWhile(s, i, NotGt);
    if j < |s| then Some(j) else None
  }

  /** A `\b` between a word character just before `j` and whatever follows. */
  predicate EndsWord(s: seq<char>, j: nat) {
    j >= |s| || !IsWord(s[j])
  }

  /** A `\b` between whatever precedes `j` and a word character at `j`. */
  predicate StartsWord(s: seq<char>, j: nat)
    requires j <= |s|
  {
    j == 0 || !IsWord(s[j - 1])
  }

  /**
   * An opening tag `<tag ...>` at `i` (tag name any case, then a word boundary, then
   * everything up to the first '>'); the result is the position after that '>'.
   */
  function TagOpenAt(s: seq<char>, i: nat, tag: string): (r: Option<nat>)
    requires i <= |s|
    requires tag != [] && IsWord(tag[|tag| - 1])
    ensures r.Some? ==> i + |tag| + 1 < r.value <= |s| && OccursAtCI(s, "<" + tag, i)
    ensures r.Some? ==> s[r.value - 1] == '>' && forall k :: i + |tag| + 1 <= k < r.value - 1 ==> s[k] != '>'
  {
    var n := i + 1 + |tag|;
    if OccursAtCI(s, "<" + tag, i) && EndsWord(s, n) then
      OccursAtCIBound(s, "<" + tag, i);
      match FirstGt(s, n)
      case Some(g) => Some(g + 1)
      case None => None
    else None
  }

  /** White space of the points paragraph: `\s`, `&nbsp;` (any case), U+00A0 or U+202F. */
  function SkipPointsSpace(s: seq<char>, i: nat): (j: nat)
    requires i <= |s|
    ensures i <= j <= |s|
    decreases |s| - i
  {
    if i < |s| && (IsSpace(s[i]) || s[i] == NBSP || s[i] == NNBSP) then SkipPointsSpace(s, i + 1)
    else if OccursAtCI(s, "&nbsp;", i) then
      OccursAtCIBound(s, "&nbsp;", i);
      SkipPointsSpace(s, i + 6)
    else i
  }

  function SkipSpace(s: seq<char>, i: nat): (j: nat)
    requires i <= |s|
    ensures i <= j <= |s|
    ensures forall k :: i <= k < j ==> IsSpace(s[k])
    ensures j < |s| ==> !IsSpace(s[j])
  {
    SkipWhile(s, i, IsSpace)
  }

  predicate CharAt(s: seq<char>, i: nat, c: char) {
    i < |s| && s[i] == c
  }

  predicate CharAtCI(s: seq<char>, i: nat, c: char) {
    i < |s| && LowerChar(s[i]) == c
  }

  /**
   * The attribute test of an `<ol>` opening tag, tried at `j` inside the tag:
   * `type = x` (spaces around '=', the value optionally quoted, any case), or for the
   * alternative form a `style="…lower-alpha…"` declaration.
   */
  datatype AttrTest = TypeIs(v: char) | TypeAOrLowerAlphaStyle

  predicate TypeAt(s: seq<char>, j: nat, v: char)
    requires j <= |s|
  {
    StartsWord(s, j) && OccursAtCI(s, "type", j)
    && var k := SkipSpace(s, j + 4);
    CharAt(s, k, '=')
    && var k2 := SkipSpace(s, k + 1);
    var k3 := if k2 < |s| && IsQuote(s[k2]) then k2 + 1 else k2;
    CharAtCI(s, k3, v)
  }

  predicate IsNotQuote(c: char) { !IsQuote(c) }

  predicate LowerAlphaStyleAt(s: seq<char>, j: nat)
    requires j <= |s|
  {
    OccursAtCI(s, "style", j)
    && var k := SkipSpace(s, j + 5);
    CharAt(s, k, '=')
    && var k2 := SkipSpace(s, k + 1);
    k2 < |s| && IsQuote(s[k2])
    && var e := SkipWhile(s, k2 + 1, IsNotQuote);
    e < |s| && IndexOfCI(s[..e], "lower-alpha", k2 + 1).Some?
  }

  predicate AttrTestAt(t: AttrTest, s: seq<char>, j: nat)
    requires j <= |s|
  {
    match t
    case TypeIs(v) => TypeAt(s, j, v)
    case TypeAOrLowerAlphaStyle => TypeAt(s, j, 'a') || LowerAlphaStyleAt(s, j)
  }

  /** The lookahead `(?=[^>]*X)`: X is found at some `j` in `[from, to]`. */
  predicate AttrTestSomewhere(t: AttrTest, s: seq<char>, from: nat, to: nat)
    requires from <= to <= |s|
    decreases (to as int) - (from as int)
  {
    AttrTestAt(t, s, from) || (from < to && AttrTestSomewhere(t, s, from + 1, to))
  }

  datatype Pattern =
    /** An `<ol>` opening tag whose attributes pass the test. */
    | OlOpen(test: AttrTest)
    /**
     * A paragraph holding only `(N point)`, `(N points)`, `(N point(s))` with N an integer
     * or a decimal with '.' or ','; the tolerant form also accepts spaces inside `( s )`.
     */
    | PointsPara(tolerant: bool)
    /** Any `<img …>` tag. */
    | ImgTag
    /** A paragraph holding only white space. */
    | EmptyPara
    /** An `<img …>` tag with a quoted, non-empty `src` value, up to the closing quote. */
    | ImgSrc

  function OlOpenAt(t: AttrTest, s: seq<char>, i: nat): (r: Option<nat>)
    requires i <= |s|
  {
    match TagOpenAt(s, i, "ol")
    case Some(e) => if AttrTestSomewhere(t, s, i + 3, e - 1) then Some(e) else None
    case None => None
  }

  /** The optional plural marker after `point`. */
  function SkipPlural(s: seq<char>, k: nat, tolerant: bool): (j: nat)
    requires k <= |s|
    ensures k <= j <= |s|
  {
    var k1 :=
      if !tolerant then (if OccursAt(s, "(s)", k) || OccursAt(s, "(S)", k) then k + 3 else k)
      else if CharAt(s, k, '(') then
        var a := SkipSpace(s, k + 1);
        if CharAtCI(s, a, 's') then
          var b := SkipSpace(s, a + 1);
          if CharAt(s, b, ')') then b + 1 else k
        else k
      else k;
    if CharAtCI(s, k1, 's') then k1 + 1 else k1
  }

  /** What follows the opening `<p …>` of a points paragraph, from `g` on. */
  function PointsTailAt(s: seq<char>, g: nat, tolerant: bool): (r: Option<nat>)
    requires g <= |s|
    ensures r.Some? ==> g + 4 <= r.value <= |s|
  {
    var a := SkipPointsSpace(s, g);
    if !CharAt(s, a, '(') then None
    else
      var b := SkipPointsSpace(s, a + 1);
      var d := SkipWhile(s, b, IsDigit);
      if d == b then None
      else
        var d2 := if d + 1 < |s| && (s[d] == '.' || s[d] == ',') && IsDigit(s[d + 1])
                  then SkipWhile(s, d + 1, IsDigit) else d;
        var c := SkipPointsSpace(s, d2);
        if !OccursAtCI(s, "point", c) then None
        else
          OccursAtCIBound(s, "point", c);
          var f := SkipPointsSpace(s, SkipPlural(s, c + 5, tolerant));
          if !CharAt(s, f, ')') then None
          else
            var h := SkipPointsSpace(s, f + 1);
            if OccursAtCI(s, "</p>", h) then
              OccursAtCIBound(s, "</p>", h);
              Some(h + 4)
            else None
  }

  function PointsParaAt(s: seq<char>, i: nat, tolerant: bool): (r: Option<nat>)
    requires i <= |s|
    ensures r.Some? ==> i + 4 <= r.value <= |s| && OccursAtCI(s, "<p", i)
  {
    match TagOpenAt(s, i, "p")
    case None => None
    case Some(g) => PointsTailAt(s, g, tolerant)
  }

  function EmptyParaAt(s: seq<char>, i: nat): (r: Option<nat>)
    requires i <= |s|
    ensures r.Some? ==> i + 4 <= r.value <= |s| && OccursAtCI(s, "</p>", r.value - 4)
  {
    match TagOpenAt(s, i, "p")
    case None => None
    case Some(g) =>
      var k := SkipSpace(s, g);
      if OccursAtCI(s, "</p>", k) then
        OccursAtCIBound(s, "</p>", k);
        Some(k + 4)
      else None
  }

  /** `\bsrc\s*=\s*["']([^"']+)["']` at `j`: the bounds of the captured value, before the closing quote. */
  function SrcValueAt(s: seq<char>, j: nat): (r: Option<(nat, nat)>)
    requires j <= |s|
    ensures r.Some? ==> j < r.value.0 < r.value.1 < |s| && IsQuote(s[r.value.1])
    ensures r.Some? ==> forall k :: r.value.0 <= k < r.value.1 ==> !IsQuote(s[k])
  {
    if StartsWord(s, j) && OccursAtCI(s, "src", j) then
      OccursAtCIBound(s, "src", j);
      var k := SkipSpace(s, j + 3);
      if CharAt(s, k, '=') then
        var k2 := SkipSpace(s, k + 1);
        if k2 < |s| && IsQuote(s[k2]) then
          var e := SkipWhile(s, k2 + 1, IsNotQuote);
          if k2 + 1 < e < |s| then Some((k2 + 1, e)) else None
        else None
      else None
    else None
  }

  /** The rightmost position in `[lo, j]` where a `src` value starts (the backtracking of a greedy `[^>]*`). */
  function LastSrcValue(s: seq<char>, lo: nat, j: nat): (r: Option<(nat, nat)>)
    requires lo <= j <= |s|
    ensures r.Some? ==> lo < r.value.0 < r.value.1 < |s| && IsQuote(s[r.value.1])
    ensures r.Some? ==> forall k :: r.value.0 <= k < r.value.1 ==> !IsQuote(s[k])
    decreases j - lo
  {
    match SrcValueAt(s, j)
    case Some(v) => Some(v)
    case None => if j == lo then None else LastSrcValue(s, lo, j - 1)
  }

  /** `<img\b[^>]*\bsrc\s*=\s*["']([^"']+)["']` at `i` (any case): the bounds of the captured source. */
  function ImgSrcAt(s: seq<char>, i: nat): (r: Option<(nat, nat)>)
    requires i <= |s|
    ensures r.Some? ==> i < r.value.0 < r.value.1 < |s|
    ensures r.Some? ==> forall k :: r.value.0 <= k < r.value.1 ==> !IsQuote(s[k])
  {
    var n := i + 4;
    if OccursAtCI(s, "<img", i) && EndsWord(s, n) then
      OccursAtCIBound(s, "<img", i);
      var e := match FirstGt(s, n) case Some(g) => g case None => |s|;
      LastSrcValue(s, n, e)
    else None
  }

  /** The source captured by an image match at `i`. */
  function ImgSrcValue(s: seq<char>, i: nat): (v: seq<char>)
    requires i <= |s|
    ensures ImgSrcAt(s, i).Some? ==> v != [] && forall k :: 0 <= k < |v| ==> !IsQuote(v[k])
  {
    match ImgSrcAt(s, i)
    case Some(b) => s[b.0..b.1]
    case None => []
  }

  function MatchAt(p: Pattern, s: seq<char>, i: nat): (r: Option<nat>)
    requires i <= |s|
    ensures r.Some? ==> i < r.value <= |s|
  {
    match p
    case OlOpen(t) => OlOpenAt(t, s, i)
    case PointsPara(tolerant) => PointsParaAt(s, i, tolerant)
    case ImgTag => TagOpenAt(s, i, "img")
    case EmptyPara => EmptyParaAt(s, i)
    case ImgSrc => match ImgSrcAt(s, i) case Some(b) => Some(b.1 + 1) case None => None
  }

  /**
   * A matcher: the end of a match starting at a position, if any. Matches are non-empty
   * and stay inside the text. The searches below are generic over matchers.
   */
  predicate MatchInside(m: (seq<char>, nat) -> Option<nat>, s: seq<char>, i: nat) {
    m(s, i).Some? ==> i < m(s, i).value <= |s|
  }

  function NoMatch(s: seq<char>, i: nat): Option<nat> { None }

  type Matcher = m: (seq<char>, nat) -> Option<nat> | forall s, i :: MatchInside(m, s, i)
    witness NoMatch

  /** The matcher of a pattern. */
  function Scan(p: Pattern): Matcher {
    (s: seq<char>, i: nat) => if i <= |s| then MatchAt(p, s, i) else None
  }

  datatype Hit = Hit(pos: nat, end: nat)

  /** The leftmost match at or after `from` (`preg_match` with an offset). */
  function Find(m: Matcher, s: seq<char>, from: nat): (r: Option<Hit>)
    requires from <= |s|
    ensures r.Some? ==> from <= r.value.pos < r.value.end <= |s|
    ensures r.Some? ==> m(s, r.value.pos) == Some(r.value.end)
    ensures r.Some? ==> forall j :: from <= j < r.value.pos ==> m(s, j).None?
    ensures r.None? ==> forall j :: from <= j <= |s| ==> m(s, j).None?
    decreases |s| - from
  {
    assert MatchInside(m, s, from);
    match m(s, from)
    case Some(e) => Some(Hit(from, e))
    case None => if from == |s| then None else Find(m, s, from + 1)
  }

  /** Successive non-overlapping leftmost matches (`preg_match_all`). */
  function FindAll(m: Matcher, s: seq<char>, from: nat): (r: seq<Hit>)
    requires from <= |s|
    ensures forall k :: 0 <= k < |r| ==> from <= r[k].pos < r[k].end <= |s|
    ensures forall k :: 0 <= k < |r| ==> m(s, r[k].pos) == Some(r[k].end)
    ensures forall k :: 0 < k < |r| ==> r[k - 1].end <= r[k].pos
    ensures r == [] <==> Find(m, s, from).None?
    ensures r != [] ==> Find(m, s, from) == Some(r[0])
    decreases |s| - from
  {
    match Find(m, s, from)
    case None => []
    case Some(h) => [h] + FindAll(m, s, h.end)
  }

  /** `s[from..]` with every non-overlapping match removed (`preg_replace` by ''). */
  function RemoveAll(m: Matcher, s: seq<char>, from: nat): (r: seq<char>)
    requires from <= |s|
    ensures |r| <= |s| - from
    ensures Find(m, s, from).None? ==> r == s[from..]
    decreases |s| - from
  {
    match Find(m, s, from)
    case None => s[from..]
    case Some(h) => s[from..h.pos] + RemoveAll(m, s, h.end)
  }

  /** The text of `s` from `from` on that lies outside the given hits, in order. */
  function Outside(s: seq<char>, from: nat, hits: seq<Hit>): seq<char>
    decreases |hits|
  {
    if hits == [] then (if from <= |s| then s[from..] else [])
    else (if from <= hits[0].pos <= |s| then s[from..hits[0].pos] else []) + Outside(s, hits[0].end, hits[1..])
  }

  /** The number of characters the hits cover. */
  function Covered(hits: seq<Hit>): int
    decreases |hits|
  {
    if hits == [] then 0 else hits[0].end - hits[0].pos + Covered(hits[1..])
  }

  /**
   * `preg_replace` by '' keeps exactly the text between the matches `preg_match_all`
   * finds, in order: the result is the text outside those matches, and it is shorter
   * than the input by the number of matched characters.
   */
  lemma {:induction false} RemoveAllOutside(m: Matcher, s: seq<char>, from: nat)
    requires from <= |s|
    ensures RemoveAll(m, s, from) == Outside(s, from, FindAll(m, s, from))
    ensures |RemoveAll(m, s, from)| == |s| - from - Covered(FindAll(m, s, from))
    decreases |s| - from
  {
    match Find(m, s, from)
    case None =>
    case Some(h) =>
      RemoveAllOutside(m, s, h.end);
      var hs := FindAll(m, s, from);
      assert hs[0] == h && hs[1..] == FindAll(m, s, h.end);
  }
}
