/**
 * Text normalisation used by the extraction engine: tag stripping and the two
 * white-space normalisations (the production `cleanText` and the instrumented
 * collapse-then-trim).
 */
module TextNorm {
  import opened Chars

  predicate IsNbspLike(c: char) { c == NBSP || c == NNBSP }

  /**
   * `cleanText` of the production extractor: U+00A0 and U+202F become spaces, the result
   * is trimmed (PHP `trim`), then every run of Unicode white space becomes one space.
   */
  function CleanText(s: string): (r: string)
    ensures SpacesCollapsed(r, IsUnicodeSpace)
  {
    CollapseNoAdjacent(Trim(MapChars(s, IsNbspLike, ' ')), IsUnicodeSpace);
    CollapseBy(Trim(MapChars(s, IsNbspLike, ' ')), IsUnicodeSpace)
  }

  /** Characters `CleanText` makes disappear when nothing else is around them. */
  predicate IsBlankChar(c: char) { IsTrimChar(c) || IsNbspLike(c) }

  /** A text is blank for `cleanText` exactly when it holds only trim characters, U+00A0 and U+202F. */
  lemma CleanTextEmptyIff(s: string)
    ensures CleanText(s) == "" <==> forall k :: 0 <= k < |s| ==> IsBlankChar(s[k])
  {
    var m := MapChars(s, IsNbspLike, ' ');
    TrimByEmptyIff(m, IsTrimChar);
    if forall k :: 0 <= k < |s| ==> IsBlankChar(s[k]) {
      assert forall k :: 0 <= k < |m| ==> IsTrimChar(m[k]);
    } else {
      var k :| 0 <= k < |s| && !IsBlankChar(s[k]);
      assert !IsTrimChar(m[k]);
    }
  }

  /** The instrumented normalisation: every run of Unicode white space becomes one space, then `trim`. */
  function CollapseTrim(s: string): (r: string)
  {
    Trim(CollapseBy(s, IsUnicodeSpace))
  }

  /** Collapse-then-trim leaves single inner spaces and no white space at either end. */
  lemma CollapseTrimShape(s: string)
    ensures var r := CollapseTrim(s);
      SpacesCollapsed(r, IsUnicodeSpace) && (r == [] || (!IsUnicodeSpace(r[0]) && !IsUnicodeSpace(r[|r| - 1])))
  {
    var c := CollapseBy(s, IsUnicodeSpace);
    CollapseNoAdjacent(s, IsUnicodeSpace);
    var n := LeadingCount(c, IsTrimChar);
    var a := c[n..];
    var m := TrailingCount(a, IsTrimChar);
    SliceCollapsed(c, IsUnicodeSpace, n, |c|);
    SliceCollapsed(a, IsUnicodeSpace, 0, |a| - m);
    TrimByEnds(c, IsTrimChar);
  }

  /** Whether a '<' at `k` opens a tag (or, inside one, nests): it is not followed by white space. */
  predicate OpensAt(s: string, k: nat) {
    k < |s| && s[k] == '<' && !(k + 1 < |s| && IsSpace(s[k + 1]))
  }

  /**
   * The '>' that closes a tag whose scan is at `k` with `d` nested '<' still open: each
   * nested '<' raises the depth and each '>' lowers it, and the '>' met at depth 0 closes.
   */
  function TagEnd(s: string, k: nat, d: nat): (r: Option<nat>)
    requires k <= |s|
    ensures r.Some? ==> k <= r.value < |s| && s[r.value] == '>'
    decreases |s| - k
  {
    if k == |s| then None
    else if s[k] == '>' then (if d == 0 then Some(k) else TagEnd(s, k + 1, d - 1))
    else if OpensAt(s, k) then TagEnd(s, k + 1, d + 1)
    else TagEnd(s, k + 1, d)
  }

  /**
   * `strip_tags`: a '<' that is not followed by white space opens a tag, which runs to the
   * '>' that closes it (nested '<' counted) or to the end of the text, and is dropped;
   * everything else is kept.
   */
  function StripTags(s: string): (r: string)
    ensures |r| <= |s|
    decreases |s|
  {
    if s == [] then []
    else if OpensAt(s, 0) then
      match TagEnd(s, 1, 0)
      case None => []
      case Some(e) => StripTags(s[e + 1..])
    else [s[0]] + StripTags(s[1..])
  }

  /** Text without any '<' is left as it is by `strip_tags`. */
  lemma {:induction false} StripTagsPlain(s: string)
    requires forall k :: 0 <= k < |s| ==> s[k] != '<'
    ensures StripTags(s) == s
    decreases |s|
  {
    if s != [] {
      StripTagsPlain(s[1..]);
    }
  }

  /** Text before the first '<' is kept as it is, ahead of what the rest becomes. */
  lemma {:induction false} StripTagsPrefix(a: string, x: string)
    requires forall k :: 0 <= k < |a| ==> a[k] != '<'
    ensures StripTags(a + x) == a + StripTags(x)
    decreases |a|
  {
    if a == [] {
      assert a + x == x;
    } else {
      assert (a + x)[0] == a[0] && (a + x)[1..] == a[1..] + x;
      StripTagsPrefix(a[1..], x);
    }
  }

  /** A scan that closes inside `t` closes at the same place whatever follows `t`. */
  lemma {:induction false} TagEndPrefix(t: string, b: string, k: nat, d: nat)
    requires k <= |t| && TagEnd(t, k, d).Some?
    ensures TagEnd(t + b, k, d) == TagEnd(t, k, d)
    decreases |t| - k
  {
    var s := t + b;
    assert s[k] == t[k];
    if t[k] != '>' {
      assert k + 1 < |t|;
      assert s[k + 1] == t[k + 1];
      assert OpensAt(s, k) == OpensAt(t, k);
      TagEndPrefix(t, b, k + 1, if OpensAt(t, k) then d + 1 else d);
    } else if d > 0 {
      TagEndPrefix(t, b, k + 1, d - 1);
    }
  }

  /** Without any '>' after `k`, the tag is never closed. */
  lemma {:induction false} TagEndNoGt(s: string, k: nat, d: nat)
    requires k <= |s| && forall j :: k <= j < |s| ==> s[j] != '>'
    ensures TagEnd(s, k, d).None?
    decreases |s| - k
  {
    if k < |s| {
      TagEndNoGt(s, k + 1, if OpensAt(s, k) then d + 1 else d);
    }
  }

  /** Without a nested '<' before it, the first '>' closes the tag. */
  lemma {:induction false} TagEndFirstGt(s: string, k: nat, e: nat)
    requires k <= e < |s| && s[e] == '>'
    requires forall j :: k <= j < e ==> s[j] != '>' && s[j] != '<'
    ensures TagEnd(s, k, 0) == Some(e)
    decreases e - k
  {
    if k < e {
      TagEndFirstGt(s, k + 1, e);
    }
  }

  /**
   * A tag (a '<' not followed by white space, up to the '>' that closes it, nested '<'
   * counted) is dropped whole, and the rest is stripped on its own.
   */
  lemma StripTagsDropsTag(t: string, b: string)
    requires |t| >= 2 && OpensAt(t, 0) && TagEnd(t, 1, 0) == Some(|t| - 1)
    ensures StripTags(t + b) == StripTags(b)
  {
    var s := t + b;
    assert s[0] == '<' && s[1] == t[1];
    assert OpensAt(s, 0);
    TagEndPrefix(t, b, 1, 0);
    assert s[|t|..] == b;
  }

  /** A simple tag, with neither '<' nor '>' inside, is dropped whole. */
  lemma StripTagsDropsSimpleTag(t: string, b: string)
    requires |t| >= 2 && t[0] == '<' && !IsSpace(t[1]) && t[|t| - 1] == '>'
    requires forall k :: 0 < k < |t| - 1 ==> t[k] != '>' && t[k] != '<'
    ensures StripTags(t + b) == StripTags(b)
  {
    TagEndFirstGt(t, 1, |t| - 1);
    StripTagsDropsTag(t, b);
  }

  /** A nested '<' inside a tag needs its own '>': `<a<b>c>x` strips to `x`. */
  lemma StripTagsNestedExample()
    ensures StripTags("<a<b>c>x") == "x"
  {
    var s := "<a<b>c>x";
    assert OpensAt(s, 0) && OpensAt(s, 2);
    assert TagEnd(s, 1, 0) == Some(6);
    assert s[7..] == "x";
    StripTagsPlain("x");
  }

  /** A tag that is never closed takes the rest of the text with it. */
  lemma StripTagsUnclosed(t: string)
    requires |t| >= 1 && t[0] == '<' && (|t| == 1 || !IsSpace(t[1]))
    requires forall k :: 0 < k < |t| ==> t[k] != '>'
    ensures StripTags(t) == []
  {
    TagEndNoGt(t, 1, 0);
  }

  /** A '<' followed by white space opens no tag and is kept. */
  lemma StripTagsLoneLt(c: char, b: string)
    requires IsSpace(c)
    ensures StripTags(['<', c] + b) == ['<', c] + StripTags(b)
  {
    var s := ['<', c] + b;
    assert s[0] == '<' && s[1] == c && s[2..] == b && s[..2] == ['<', c];
    StripTagsKeepsTwo(s);
  }

  lemma StripTagsKeepsTwo(s: string)
    requires |s| >= 2 && s[0] == '<' && IsSpace(s[1])
    ensures StripTags(s) == s[..2] + StripTags(s[2..])
  {
    StripTagsKeepsFirst(s);
    StripTagsKeepsFirst(s[1..]);
    assert s[1..][1..] == s[2..];
  }

  /** A first character that opens no tag is kept ahead of what the rest becomes. */
  lemma StripTagsKeepsFirst(s: string)
    requires s != [] && !OpensAt(s, 0)
    ensures StripTags(s) == [s[0]] + StripTags(s[1..])
  {
  }

  /** Every '<' the result keeps is followed by white space, so the result opens no tag. */
  predicate OpensNoTag(r: string) {
    forall k :: 0 <= k < |r| && r[k] == '<' ==> k + 1 < |r| && IsSpace(r[k + 1])
  }

  lemma {:induction false} StripTagsOpensNoTag(s: string)
    ensures OpensNoTag(StripTags(s))
    decreases |s|
  {
    if s == [] {
    } else if OpensAt(s, 0) {
      if TagEnd(s, 1, 0).Some? {
        StripTagsOpensNoTag(s[TagEnd(s, 1, 0).value + 1..]);
      }
    } else {
      StripTagsOpensNoTag(s[1..]);
      var rest := StripTags(s[1..]);
      if s[0] == '<' {
        assert IsSpace(s[1]) && s[1] != '<';
        assert rest == [s[1]] + StripTags(s[2..]) by {
          assert s[1..][0] == s[1] && s[1..][1..] == s[2..];
        }
      }
      assert StripTags(s) == [s[0]] + rest;
    }
  }

  lemma {:induction false} OpensNoTagKept(r: string)
    requires OpensNoTag(r)
    ensures StripTags(r) == r
    decreases |r|
  {
    if r != [] {
      assert forall k :: 0 <= k < |r| - 1 ==> r[1..][k] == r[k + 1];
      OpensNoTagKept(r[1..]);
    }
  }

  /** `strip_tags` applied twice is `strip_tags` applied once. */
  lemma StripTagsIdempotent(s: string)
    ensures StripTags(StripTags(s)) == StripTags(s)
  {
    StripTagsOpensNoTag(s);
    OpensNoTagKept(StripTags(s));
  }
}
