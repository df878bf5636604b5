/**
 * Character classes and string helpers shared by every component.
 *
 * Strings are sequences of decoded characters (code points). The PHP code works on
 * UTF-8 bytes; every byte offset of the original becomes a character offset here.
 * Each helper below stands for a PHP or JavaScript built-in and says which one.
 */
module Chars {

  datatype Option<T> = None | Some(value: T) {
    function GetOr(default: T): T {
      match this
      case Some(v) => v
      case None => default
    }
  }

  const NBSP: char := '\U{A0}'
  const NNBSP: char := '\U{202F}'

  /** PCRE `\s` without the u modifier: the ASCII white-space characters. */
  predicate IsSpace(c: char) {
    c == ' ' || c == '\t' || c == '\n' || c == '\U{0B}' || c == '\U{0C}' || c == '\r'
  }

  /** PCRE `\s` under the u modifier, where PHP also turns on Unicode properties. */
  predicate IsUnicodeSpace(c: char) {
    IsSpace(c) || c == '\U{85}' || c == NBSP || c == '\U{1680}' || c == '\U{180E}'
    || ('\U{2000}' <= c <= '\U{200A}') || c == '\U{2028}' || c == '\U{2029}'
    || c == NNBSP || c == '\U{205F}' || c == '\U{3000}'
  }

  /** JavaScript white space and line terminators (`\s`, `String.prototype.trim`). */
  predicate IsJsSpace(c: char) {
    c == ' ' || c == '\t' || c == '\n' || c == '\U{0B}' || c == '\U{0C}' || c == '\r'
    || c == NBSP || c == '\U{1680}' || ('\U{2000}' <= c <= '\U{200A}')
    || c == '\U{2028}' || c == '\U{2029}' || c == NNBSP || c == '\U{205F}'
    || c == '\U{3000}' || c == '\U{FEFF}'
  }

  /** The characters PHP's `trim`/`ltrim` remove by default. */
  predicate IsTrimChar(c: char) {
    c == ' ' || c == '\t' || c == '\n' || c == '\r' || c == '\0' || c == '\U{0B}'
  }

  predicate IsDigit(c: char) { '0' <= c <= '9' }
  predicate IsAsciiLetter(c: char) { 'a' <= c <= 'z' || 'A' <= c <= 'Z' }
  predicate IsAlnum(c: char) { IsDigit(c) || IsAsciiLetter(c) }
  /** A `\w` character of an ASCII regex (also JavaScript's `\w`). */
  predicate IsWord(c: char) { IsAlnum(c) || c == '_' }
  predicate IsQuote(c: char) { c == '"' || c == '\'' }

  function LowerChar(c: char): char {
    if 'A' <= c <= 'Z' then (c as int + 32) as char else c
  }

  function UpperChar(c: char): char {
    if 'a' <= c <= 'z' then (c as int - 32) as char else c
  }

  /** ASCII lower-casing (PHP 8 `strtolower`, and the case folding of the i modifier). */
  function Lower(s: seq<char>): (r: seq<char>)
    ensures |r| == |s|
    ensures forall k :: 0 <= k < |s| ==> r[k] == LowerChar(s[k])
  {
    seq(|s|, k requires 0 <= k < |s| => LowerChar(s[k]))
  }

  /** ASCII upper-casing (PHP 8 `strtoupper`). */
  function Upper(s: seq<char>): (r: seq<char>)
    ensures |r| == |s|
    ensures forall k :: 0 <= k < |s| ==> r[k] == UpperChar(s[k])
  {
    seq(|s|, k requires 0 <= k < |s| => UpperChar(s[k]))
  }

  /** Lower-casing of ASCII and Latin-1 capitals, standing for `mb_strtolower`. */
  function LowerLatinChar(c: char): char {
    if 'A' <= c <= 'Z' || ('\U{C0}' <= c <= '\U{DE}' && c != '\U{D7}') then (c as int + 32) as char else c
  }

  function LowerLatin(s: seq<char>): (r: seq<char>)
    ensures |r| == |s|
    ensures forall k :: 0 <= k < |s| ==> r[k] == LowerLatinChar(s[k])
  {
    seq(|s|, k requires 0 <= k < |s| => LowerLatinChar(s[k]))
  }

  /** `t` occurs in `s` at position `j`. */
  predicate OccursAt(s: seq<char>, t: seq<char>, j: nat) {
    j + |t| <= |s| && s[j..j + |t|] == t
  }

  /** `t` occurs in `s` at `j`, ignoring ASCII case. */
  predicate OccursAtCI(s: seq<char>, t: seq<char>, j: nat)
    decreases |t|
  {
    j <= |s| && (t == [] || (j < |s| && LowerChar(s[j]) == LowerChar(t[0]) && OccursAtCI(s, t[1..], j + 1)))
  }

  lemma {:induction false} OccursAtCIBound(s: seq<char>, t: seq<char>, j: nat)
    requires OccursAtCI(s, t, j)
    ensures j + |t| <= |s|
    decreases |t|
  {
    if t != [] {
      OccursAtCIBound(s, t[1..], j + 1);
    }
  }

  /** Leftmost occurrence of `t` in `s` at or after `from` (PHP `strpos`). */
  function IndexOf(s: seq<char>, t: seq<char>, from: nat): (r: Option<nat>)
    requires from <= |s|
    decreases |s| - from
    ensures r.Some? ==> from <= r.value <= |s| && OccursAt(s, t, r.value)
    ensures r.Some? ==> forall j :: from <= j < r.value ==> !OccursAt(s, t, j)
    ensures r.None? ==> forall j :: from <= j <= |s| ==> !OccursAt(s, t, j)
  {
    if OccursAt(s, t, from) then Some(from)
    else if from == |s| then None
    else IndexOf(s, t, from + 1)
  }

  predicate Contains(s: seq<char>, t: seq<char>) {
    IndexOf(s, t, 0).Some?
  }

  /** The case-insensitive search returns the first occurrence at or after `from`. */
  lemma IndexOfCIFirst(s: seq<char>, t: seq<char>, from: nat, c: nat)
    requires from <= c <= |s| && OccursAtCI(s, t, c)
    requires forall k :: from <= k < c ==> !OccursAtCI(s, t, k)
    ensures IndexOfCI(s, t, from) == Some(c)
  {
  }

  /** Leftmost case-insensitive occurrence of `t` in `s` at or after `from`. */
  function IndexOfCI(s: seq<char>, t: seq<char>, from: nat): (r: Option<nat>)
    requires from <= |s|
    decreases |s| - from
    ensures r.Some? ==> from <= r.value <= |s| && OccursAtCI(s, t, r.value)
    ensures r.Some? ==> forall j :: from <= j < r.value ==> !OccursAtCI(s, t, j)
    ensures r.None? ==> forall j :: from <= j <= |s| ==> !OccursAtCI(s, t, j)
  {
    if OccursAtCI(s, t, from) then Some(from)
    else if from == |s| then None
    else IndexOfCI(s, t, from + 1)
  }

  /** PHP truthiness of a string: `''` and `'0'` are false. */
  predicate Truthy(s: seq<char>) { s != [] && s != ['0'] }

  predicate StartsWith(s: seq<char>, t: seq<char>) {
    |t| <= |s| && s[..|t|] == t
  }

  /** Number of leading characters of `s` that satisfy `p`. */
  function LeadingCount(s: seq<char>, p: char -> bool): (n: nat)
    ensures n <= |s|
    ensures forall j :: 0 <= j < n ==> p(s[j])
    ensures n < |s| ==> !p(s[n])
  {
    if s == [] || !p(s[0]) then 0 else 1 + LeadingCount(s[1..], p)
  }

  /** Position of the first character at or after `i` that `p` rejects (or `|s|`). */
  function SkipWhile(s: seq<char>, i: nat, p: char -> bool): (j: nat)
    requires i <= |s|
    ensures i <= j <= |s|
    ensures forall k :: i <= k < j ==> p(s[k])
    ensures j < |s| ==> !p(s[j])
    decreases |s| - i
  {
    if i == |s| || !p(s[i]) then i else SkipWhile(s, i + 1, p)
  }

  /** The leading run ends at the first character `p` rejects. */
  lemma {:induction false} LeadingCountIs(s: seq<char>, p: char -> bool, n: nat)
    requires n <= |s| && (forall j :: 0 <= j < n ==> p(s[j])) && (n < |s| ==> !p(s[n]))
    ensures LeadingCount(s, p) == n
    decreases n
  {
    if n > 0 {
      LeadingCountIs(s[1..], p, n - 1);
    }
  }

  lemma {:induction false} LeadingCountAtLeast(s: seq<char>, p: char -> bool, n: nat)
    requires n <= |s| && forall j :: 0 <= j < n ==> p(s[j])
    ensures LeadingCount(s, p) >= n
    decreases n
  {
    if n > 0 {
      LeadingCountAtLeast(s[1..], p, n - 1);
    }
  }

  /** Number of trailing characters of `s` that satisfy `p`. */
  function TrailingCount(s: seq<char>, p: char -> bool): (n: nat)
    ensures n <= |s|
    ensures forall j :: |s| - n <= j < |s| ==> p(s[j])
    ensures n < |s| ==> !p(s[|s| - n - 1])
  {
    if s == [] || !p(s[|s| - 1]) then 0 else 1 + TrailingCount(s[..|s| - 1], p)
  }

  function TrimLeftBy(s: seq<char>, p: char -> bool): (r: seq<char>)
    ensures r == s[LeadingCount(s, p)..]
  {
    s[LeadingCount(s, p)..]
  }

  function TrimRightBy(s: seq<char>, p: char -> bool): (r: seq<char>)
    ensures r == s[..|s| - TrailingCount(s, p)]
  {
    s[..|s| - TrailingCount(s, p)]
  }

  function TrimBy(s: seq<char>, p: char -> bool): seq<char> {
    TrimRightBy(TrimLeftBy(s, p), p)
  }

  /** PHP `trim` and `ltrim` with their default character list. */
  function Trim(s: seq<char>): seq<char> { TrimBy(s, IsTrimChar) }
  function LTrim(s: seq<char>): seq<char> { TrimLeftBy(s, IsTrimChar) }

  /** JavaScript `String.prototype.trim`. */
  function JsTrim(s: seq<char>): seq<char> { TrimBy(s, IsJsSpace) }

  /** Trimming leaves nothing exactly when every character is trimmable. */
  lemma TrimByEmptyIff(s: seq<char>, p: char -> bool)
    ensures TrimBy(s, p) == [] <==> forall k :: 0 <= k < |s| ==> p(s[k])
  {
    var n := LeadingCount(s, p);
    var a := s[n..];
    var m := TrailingCount(a, p);
    if TrimBy(s, p) == [] && n < |s| {
      assert false;
    }
  }

  /** Trimming keeps a contiguous piece: no trimmable character at either end. */
  lemma TrimByEnds(s: seq<char>, p: char -> bool)
    ensures var r := TrimBy(s, p); r == [] || (!p(r[0]) && !p(r[|r| - 1]))
  {
    var n := LeadingCount(s, p);
    var a := s[n..];
    var m := TrailingCount(a, p);
    var r := a[..|a| - m];
    if r != [] {
      assert r[0] == a[0] == s[n];
      assert r[|r| - 1] == a[|a| - m - 1];
    }
  }

  /** Trimming keeps a text that has no trimmable character at either end. */
  lemma TrimByKeeps(s: seq<char>, p: char -> bool)
    requires s == [] || (!p(s[0]) && !p(s[|s| - 1]))
    ensures TrimBy(s, p) == s
  {
    assert LeadingCount(s, p) == 0;
    assert TrailingCount(s, p) == 0;
  }

  /** Replaces every maximal run of `p` characters by one space (`preg_replace` of `\s+`). */
  function CollapseBy(s: seq<char>, p: char -> bool): (r: seq<char>)
    ensures |r| <= |s|
    ensures r == [] <==> s == []
    decreases |s|
  {
    if s == [] then []
    else if p(s[0]) then [' '] + CollapseBy(TrimLeftBy(s[1..], p), p)
    else [s[0]] + CollapseBy(s[1..], p)
  }

  lemma {:induction false} CollapseNone(s: seq<char>, p: char -> bool)
    requires forall k :: 0 <= k < |s| ==> !p(s[k])
    ensures CollapseBy(s, p) == s
    decreases |s|
  {
    if s != [] {
      CollapseNone(s[1..], p);
    }
  }

  lemma {:induction false} CollapseAfter(a: seq<char>, b: seq<char>, p: char -> bool)
    requires forall k :: 0 <= k < |a| ==> !p(a[k])
    ensures CollapseBy(a + b, p) == a + CollapseBy(b, p)
    decreases |a|
  {
    if a != [] {
      var c, a' := a[0], a[1..];
      assert (a + b)[0] == c && (a + b)[1..] == a' + b;
      CollapseAfter(a', b, p);
      assert CollapseBy(a + b, p) == [c] + (a' + CollapseBy(b, p));
      assert a == [c] + a';
    } else {
      assert a + b == b;
    }
  }

  lemma SplitAt<T>(s: seq<T>, n: nat)
    requires n <= |s|
    ensures s[..n] + s[n..] == s
  {
  }

  lemma SliceSplit<T>(s: seq<T>, i: nat, j: nat)
    requires i <= j <= |s|
    ensures s[i..] == s[i..j] + s[j..]
  {
  }

  lemma Assoc<T>(a: seq<T>, b: seq<T>, c: seq<T>)
    ensures a + b + c == a + (b + c)
  {
  }

  lemma JoinCons(x: seq<char>, rest: seq<seq<char>>, sep: seq<char>)
    requires rest != []
    ensures Join([x] + rest, sep) == x + sep + Join(rest, sep)
  {
    assert ([x] + rest)[1..] == rest;
  }

  /** Collapsing at a run of `p` gives one space, then the collapse after the run. */
  lemma CollapseAtRun(u: seq<char>, p: char -> bool)
    requires u != [] && p(u[0])
    ensures CollapseBy(u, p) == " " + CollapseBy(TrimLeftBy(u, p), p)
  {
    assert LeadingCount(u, p) == 1 + LeadingCount(u[1..], p);
    assert TrimLeftBy(u, p) == TrimLeftBy(u[1..], p);
  }

  /** Splitting on runs of `p` and joining with one space collapses the runs. */
  lemma {:induction false} JoinSplitRuns(s: seq<char>, p: char -> bool)
    ensures Join(SplitRuns(s, p), " ") == CollapseBy(s, p)
    decreases |s|
  {
    var n := TokenLen(s, p);
    if n == |s| {
      assert SplitRuns(s, p) == [s];
      CollapseNone(s, p);
    } else {
      JoinSplitRuns(TrimLeftBy(s[n..], p), p);
      JoinSplitRunsStep(s, p, n);
    }
  }

  /** One step of `JoinSplitRuns`: a token, then the run of `p` after it. */
  lemma JoinSplitRunsStep(s: seq<char>, p: char -> bool, n: nat)
    requires n == TokenLen(s, p) && n < |s|
    requires Join(SplitRuns(TrimLeftBy(s[n..], p), p), " ") == CollapseBy(TrimLeftBy(s[n..], p), p)
    ensures Join(SplitRuns(s, p), " ") == CollapseBy(s, p)
  {
    var u := s[n..];
    var t := TrimLeftBy(u, p);
    var rest := SplitRuns(t, p);
    assert Join(SplitRuns(s, p), " ") == s[..n] + " " + Join(rest, " ") by {
      assert SplitRuns(s, p) == [s[..n]] + rest;
      JoinCons(s[..n], rest, " ");
    }
    assert CollapseBy(s, p) == s[..n] + (" " + CollapseBy(t, p)) by {
      SplitAt(s, n);
      CollapseAfter(s[..n], u, p);
      CollapseAtRun(u, p);
    }
    Assoc(s[..n], " ", Join(rest, " "));
  }

  /** Every space of the class in `r` is a plain space, and no two of them are adjacent. */
  predicate SpacesCollapsed(r: seq<char>, p: char -> bool) {
    forall k :: 0 <= k < |r| && p(r[k]) ==> r[k] == ' ' && (k + 1 < |r| ==> !p(r[k + 1]))
  }

  lemma SliceCollapsed(c: seq<char>, p: char -> bool, a: nat, b: nat)
    requires SpacesCollapsed(c, p) && a <= b <= |c|
    ensures SpacesCollapsed(c[a..b], p)
  {
    var r := c[a..b];
    forall k | 0 <= k < |r| && p(r[k]) ensures r[k] == ' ' && (k + 1 < |r| ==> !p(r[k + 1])) {
      assert r[k] == c[a + k];
      if k + 1 < |r| { assert r[k + 1] == c[a + k + 1]; }
    }
  }

  /** After collapsing, every run of spaces of the class is a single plain space. */
  lemma {:induction false} CollapseNoAdjacent(s: seq<char>, p: char -> bool)
    requires p(' ')
    ensures SpacesCollapsed(CollapseBy(s, p), p)
    decreases |s|
  {
    if s != [] {
      var r := CollapseBy(s, p);
      var t := if p(s[0]) then TrimLeftBy(s[1..], p) else s[1..];
      CollapseNoAdjacent(t, p);
      var rest := CollapseBy(t, p);
      var head := if p(s[0]) then ' ' else s[0];
      assert r == [head] + rest;
      if p(s[0]) && rest != [] {
        assert !p(t[0]);
        assert rest[0] == t[0];
      }
      SpacesCollapsedCons(head, rest, p);
    }
  }

  /** A collapsed text stays collapsed behind a non-space, or behind one space it does not start with. */
  lemma SpacesCollapsedCons(head: char, rest: seq<char>, p: char -> bool)
    requires SpacesCollapsed(rest, p) && (!p(head) || head == ' ')
    requires p(head) && rest != [] ==> !p(rest[0])
    ensures SpacesCollapsed([head] + rest, p)
  {
    var r := [head] + rest;
    forall k | 0 <= k < |r| && p(r[k])
      ensures r[k] == ' ' && (k + 1 < |r| ==> !p(r[k + 1]))
    {
      if k == 0 {
        if k + 1 < |r| { assert r[1] == rest[0]; }
      } else {
        assert r[k] == rest[k - 1];
        if k + 1 < |r| { assert r[k + 1] == rest[k]; }
      }
    }
  }

  function Join(parts: seq<seq<char>>, sep: seq<char>): (r: seq<char>)
    decreases |parts|
  {
    if parts == [] then []
    else if |parts| == 1 then parts[0]
    else parts[0] + sep + Join(parts[1..], sep)
  }

  function Concat(parts: seq<seq<char>>): (r: seq<char>)
    decreases |parts|
  {
    if parts == [] then [] else parts[0] + Concat(parts[1..])
  }

  lemma {:induction false} ConcatAppend(parts: seq<seq<char>>, last: seq<char>)
    ensures Concat(parts + [last]) == Concat(parts) + last
    decreases |parts|
  {
    if parts == [] {
      assert parts + [last] == [last];
    } else {
      assert (parts + [last])[1..] == parts[1..] + [last];
      ConcatAppend(parts[1..], last);
    }
  }

  lemma {:induction false} JoinAppend(parts: seq<seq<char>>, last: seq<char>, sep: seq<char>)
    requires parts != []
    ensures Join(parts + [last], sep) == Join(parts, sep) + sep + last
    decreases |parts|
  {
    if |parts| == 1 {
      assert (parts + [last])[1..] == [last];
    } else {
      assert (parts + [last])[1..] == parts[1..] + [last];
      JoinAppend(parts[1..], last, sep);
    }
  }

  /** Joining one-character parts with a two-character separator: part `k` sits at `3k`. */
  lemma JoinSingles(parts: seq<seq<char>>, sep: seq<char>)
    requires parts != [] && |sep| == 2
    requires forall i :: 0 <= i < |parts| ==> |parts[i]| == 1
    ensures |Join(parts, sep)| == 3 * |parts| - 2
    ensures forall k :: 0 <= k < |parts| ==> Join(parts, sep)[3 * k] == parts[k][0]
    ensures forall k :: 0 <= k < |parts| - 1 ==> Join(parts, sep)[3 * k + 1 .. 3 * k + 3] == sep
  {
    JoinSinglesAt(parts, sep);
    JoinSinglesSep(parts, sep);
  }

  lemma {:induction false} JoinSinglesLen(parts: seq<seq<char>>, sep: seq<char>)
    requires parts != [] && |sep| == 2
    requires forall i :: 0 <= i < |parts| ==> |parts[i]| == 1
    ensures |Join(parts, sep)| == 3 * |parts| - 2
    decreases |parts|
  {
    if |parts| > 1 {
      JoinSinglesLen(parts[1..], sep);
    }
  }

  lemma {:induction false} JoinSinglesAt(parts: seq<seq<char>>, sep: seq<char>)
    requires parts != [] && |sep| == 2
    requires forall i :: 0 <= i < |parts| ==> |parts[i]| == 1
    ensures |Join(parts, sep)| == 3 * |parts| - 2
    ensures forall k :: 0 <= k < |parts| ==> Join(parts, sep)[3 * k] == parts[k][0]
    decreases |parts|
  {
    JoinSinglesLen(parts, sep);
    if |parts| > 1 {
      var rest := Join(parts[1..], sep);
      JoinSinglesAt(parts[1..], sep);
      var r := Join(parts, sep);
      assert r == parts[0] + sep + rest;
      forall k | 0 < k < |parts| ensures r[3 * k] == parts[k][0] {
        ShiftThree(parts[0], sep, rest, k - 1);
        assert parts[1..][k - 1] == parts[k];
      }
    }
  }

  lemma {:induction false} JoinSinglesSep(parts: seq<seq<char>>, sep: seq<char>)
    requires parts != [] && |sep| == 2
    requires forall i :: 0 <= i < |parts| ==> |parts[i]| == 1
    ensures |Join(parts, sep)| == 3 * |parts| - 2
    ensures forall k :: 0 <= k < |parts| - 1 ==> Join(parts, sep)[3 * k + 1 .. 3 * k + 3] == sep
    decreases |parts|
  {
    JoinSinglesLen(parts, sep);
    if |parts| > 1 {
      var rest := Join(parts[1..], sep);
      JoinSinglesSep(parts[1..], sep);
      var r := Join(parts, sep);
      assert r == parts[0] + sep + rest;
      forall k | 0 < k < |parts| - 1 ensures r[3 * k + 1 .. 3 * k + 3] == sep {
        ShiftThree(parts[0], sep, rest, k - 1);
      }
    }
  }

  /** Positions in `rest` move by three when a one-character part and a two-character separator precede it. */
  lemma ShiftThree(p: seq<char>, sep: seq<char>, rest: seq<char>, j: nat)
    requires |p| == 1 && |sep| == 2 && 3 * j < |rest|
    ensures (p + sep + rest)[3 * j + 3] == rest[3 * j]
    ensures 3 * j + 3 <= |rest| ==> (p + sep + rest)[3 * j + 4 .. 3 * j + 6] == rest[3 * j + 1 .. 3 * j + 3]
  {
  }

  /** A join of non-empty parts starts with the first part's first character and ends with the last part's last. */
  lemma {:induction false} JoinEnds(parts: seq<seq<char>>, sep: seq<char>)
    requires parts != [] && forall i :: 0 <= i < |parts| ==> parts[i] != []
    ensures var r := Join(parts, sep);
      r != [] && r[0] == parts[0][0] && r[|r| - 1] == parts[|parts| - 1][|parts[|parts| - 1]| - 1]
    decreases |parts|
  {
    if |parts| > 1 {
      JoinEnds(parts[1..], sep);
      assert parts[1..][|parts| - 2] == parts[|parts| - 1];
    }
  }

  /** Every character of a join satisfies `p` when those of the parts and the separator do. */
  lemma {:induction false} JoinChars(parts: seq<seq<char>>, sep: seq<char>, p: char -> bool)
    requires forall i, k :: 0 <= i < |parts| && 0 <= k < |parts[i]| ==> p(parts[i][k])
    requires forall k :: 0 <= k < |sep| ==> p(sep[k])
    ensures forall k :: 0 <= k < |Join(parts, sep)| ==> p(Join(parts, sep)[k])
    decreases |parts|
  {
    if |parts| > 1 {
      JoinChars(parts[1..], sep, p);
      var rest := Join(parts[1..], sep);
      var r := Join(parts, sep);
      assert r == parts[0] + sep + rest;
      forall k | 0 <= k < |r| ensures p(r[k]) {
        if k < |parts[0]| {
        } else if k < |parts[0]| + |sep| {
          assert r[k] == sep[k - |parts[0]|];
        } else {
          assert r[k] == rest[k - |parts[0]| - |sep|];
        }
      }
    }
  }

  /** `htmlspecialchars` with ENT_QUOTES: the five markup characters become entities. */
  function EscapeChar(c: char): seq<char> {
    if c == '&' then "&amp;"
    else if c == '<' then "&lt;"
    else if c == '>' then "&gt;"
    else if c == '"' then "&quot;"
    else if c == '\'' then "&#039;"
    else [c]
  }

  function HtmlEscape(s: seq<char>): (r: seq<char>)
    ensures |r| >= |s|
    decreases |s|
  {
    if s == [] then [] else EscapeChar(s[0]) + HtmlEscape(s[1..])
  }

  /** Decodes the five entities `HtmlEscape` produces and copies everything else. */
  function HtmlUnescape(s: seq<char>): seq<char>
    decreases |s|
  {
    if s == [] then []
    else if StartsWith(s, "&amp;") then ['&'] + HtmlUnescape(s[5..])
    else if StartsWith(s, "&lt;") then ['<'] + HtmlUnescape(s[4..])
    else if StartsWith(s, "&gt;") then ['>'] + HtmlUnescape(s[4..])
    else if StartsWith(s, "&quot;") then ['"'] + HtmlUnescape(s[6..])
    else if StartsWith(s, "&#039;") then ['\''] + HtmlUnescape(s[6..])
    else [s[0]] + HtmlUnescape(s[1..])
  }

  lemma UnescapeStep(c: char, t: seq<char>)
    ensures HtmlUnescape(EscapeChar(c) + t) == [c] + HtmlUnescape(t)
  {
    if c == '&' {
      UnescapeAmp(t);
    } else if c == '<' {
      UnescapeLt(t);
    } else if c == '>' {
      UnescapeGt(t);
    } else if c == '"' {
      UnescapeQuot(t);
    } else if c == '\'' {
      UnescapeApos(t);
    } else {
      UnescapeOther(c, t);
    }
  }

  lemma UnescapeOther(c: char, t: seq<char>)
    requires c != '&'
    ensures HtmlUnescape([c] + t) == [c] + HtmlUnescape(t)
  {
    var e := [c] + t;
    assert e[1..] == t;
    DiffersAt(e, "&amp;", 0);
    DiffersAt(e, "&lt;", 0);
    DiffersAt(e, "&gt;", 0);
    DiffersAt(e, "&quot;", 0);
    DiffersAt(e, "&#039;", 0);
  }

  lemma UnescapeAmp(t: seq<char>)
    ensures HtmlUnescape("&amp;" + t) == ['&'] + HtmlUnescape(t)
  {
    var e := "&amp;" + t;
    assert e[..5] == "&amp;" && e[5..] == t;
  }

  lemma UnescapeLt(t: seq<char>)
    ensures HtmlUnescape("&lt;" + t) == ['<'] + HtmlUnescape(t)
  {
    var e := "&lt;" + t;
    assert e[..4] == "&lt;" && e[4..] == t;
    DiffersAt(e, "&amp;", 1);
  }

  lemma UnescapeGt(t: seq<char>)
    ensures HtmlUnescape("&gt;" + t) == ['>'] + HtmlUnescape(t)
  {
    var e := "&gt;" + t;
    assert e[..4] == "&gt;" && e[4..] == t;
    DiffersAt(e, "&amp;", 1);
    DiffersAt(e, "&lt;", 1);
  }

  lemma UnescapeQuot(t: seq<char>)
    ensures HtmlUnescape("&quot;" + t) == ['"'] + HtmlUnescape(t)
  {
    var e := "&quot;" + t;
    assert e[..6] == "&quot;" && e[6..] == t;
    DiffersAt(e, "&amp;", 1);
    DiffersAt(e, "&lt;", 1);
    DiffersAt(e, "&gt;", 1);
  }

  lemma UnescapeApos(t: seq<char>)
    ensures HtmlUnescape("&#039;" + t) == ['\''] + HtmlUnescape(t)
  {
    var e := "&#039;" + t;
    assert e[..6] == "&#039;" && e[6..] == t;
    DiffersAt(e, "&amp;", 1);
    DiffersAt(e, "&lt;", 1);
    DiffersAt(e, "&gt;", 1);
    DiffersAt(e, "&quot;", 1);
  }

  /** A text that differs from `t` at position `k` does not start with `t`. */
  lemma DiffersAt(s: seq<char>, t: seq<char>, k: nat)
    requires k < |t| && (k < |s| ==> s[k] != t[k])
    ensures !StartsWith(s, t)
  {
    if |t| <= |s| {
      assert s[..|t|][k] != t[k];
    }
  }

  /** Escaping loses nothing: decoding the entities gives the original text back. */
  lemma {:induction false} UnescapeEscape(s: seq<char>)
    ensures HtmlUnescape(HtmlEscape(s)) == s
    decreases |s|
  {
    if s != [] {
      UnescapeStep(s[0], HtmlEscape(s[1..]));
      UnescapeEscape(s[1..]);
    }
  }

  predicate IsMarkupChar(c: char) { c == '<' || c == '>' || c == '"' || c == '\'' }

  /** Escaped text holds no character that could open or close a tag or an attribute. */
  lemma {:induction false} EscapeHasNoMarkup(s: seq<char>)
    ensures forall k :: 0 <= k < |HtmlEscape(s)| ==> !IsMarkupChar(HtmlEscape(s)[k])
    decreases |s|
  {
    if s != [] {
      EscapeHasNoMarkup(s[1..]);
      var e := EscapeChar(s[0]);
      assert forall k :: 0 <= k < |e| ==> !IsMarkupChar(e[k]);
      var r := HtmlEscape(s);
      assert r == e + HtmlEscape(s[1..]);
      forall k | 0 <= k < |r| ensures !IsMarkupChar(r[k]) {
        if k >= |e| { assert r[k] == HtmlEscape(s[1..])[k - |e|]; }
      }
    }
  }

  function DigitChar(d: nat): char
    requires d < 10
  {
    ('0' as int + d) as char
  }

  /** Decimal representation of a natural number (PHP `(string)` of an int). */
  function NatToString(n: nat): (r: seq<char>)
    ensures |r| >= 1
    ensures forall k :: 0 <= k < |r| ==> IsDigit(r[k])
    decreases n
  {
    if n < 10 then [DigitChar(n)] else NatToString(n / 10) + [DigitChar(n % 10)]
  }

  function IntToString(i: int): (r: seq<char>)
    ensures |r| >= 1
  {
    if i < 0 then "-" + NatToString(-i) else NatToString(i)
  }

  /** Reads a string of decimal digits back as a number. */
  function ParseDigits(s: seq<char>): nat
    requires forall k :: 0 <= k < |s| ==> IsDigit(s[k])
    decreases |s|
  {
    if s == [] then 0
    else
      assert IsDigit(s[|s| - 1]);
      ParseDigits(s[..|s| - 1]) * 10 + (s[|s| - 1] as int - '0' as int)
  }

  /** The decimal representation round-trips. */
  lemma {:induction false} ParseNatToString(n: nat)
    ensures ParseDigits(NatToString(n)) == n
    decreases n
  {
    if n >= 10 {
      var r := NatToString(n);
      assert r[..|r| - 1] == NatToString(n / 10);
      ParseNatToString(n / 10);
    }
  }

  /** `str_pad`/`padStart` with '0' on the left up to `width` characters. */
  function PadLeftZeros(s: seq<char>, width: nat): (r: seq<char>)
    ensures |r| == if |s| >= width then |s| else width
    ensures r[|r| - |s|..] == s
    decreases width - |s|
  {
    if |s| >= width then s
    else
      var r := PadLeftZeros(['0'] + s, width);
      assert r[|r| - |s|..] == r[|r| - |s| - 1..][1..];
      r
  }

  /** Copy of `s` with every character `p` accepts replaced by `repl`. */
  function MapChars(s: seq<char>, p: char -> bool, repl: char): (r: seq<char>)
    ensures |r| == |s|
    ensures forall k :: 0 <= k < |s| ==> r[k] == if p(s[k]) then repl else s[k]
  {
    seq(|s|, k requires 0 <= k < |s| => if p(s[k]) then repl else s[k])
  }

  /** Removes every character `p` accepts. */
  function Filter(s: seq<char>, p: char -> bool): (r: seq<char>)
    ensures |r| <= |s|
    ensures forall k :: 0 <= k < |r| ==> p(r[k])
    decreases |s|
  {
    if s == [] then [] else (if p(s[0]) then [s[0]] else []) + Filter(s[1..], p)
  }

  /** Replaces every maximal run of characters `keep` rejects by one `repl`. */
  function ReplaceRuns(s: seq<char>, keep: char -> bool, repl: char): (r: seq<char>)
    requires keep(repl)
    ensures forall k :: 0 <= k < |r| ==> keep(r[k])
    ensures |r| <= |s|
    decreases |s|
  {
    if s == [] then []
    else if keep(s[0]) then [s[0]] + ReplaceRuns(s[1..], keep, repl)
    else [repl] + ReplaceRuns(s[LeadingCount(s, c => !keep(c))..], keep, repl)
  }

  /** Length of the leading run of characters `p` rejects. */
  function TokenLen(s: seq<char>, p: char -> bool): (n: nat)
    ensures n <= |s|
    ensures forall j :: 0 <= j < n ==> !p(s[j])
    ensures n < |s| ==> p(s[n])
  {
    LeadingCount(s, c => !p(c))
  }

  /** Splits on maximal runs of `p` characters (`split(/\s+/)` in JavaScript). */
  function SplitRuns(s: seq<char>, p: char -> bool): (r: seq<seq<char>>)
    ensures |r| >= 1
    decreases |s|
  {
    var n := TokenLen(s, p);
    if n == |s| then [s]
    else [s[..n]] + SplitRuns(TrimLeftBy(s[n..], p), p)
  }

  /** A token of `SplitRuns`: not empty, and no character of the class. */
  predicate Token(w: seq<char>, p: char -> bool) {
    w != [] && forall k :: 0 <= k < |w| ==> !p(w[k])
  }

  /** Splitting a trimmed text leaves no empty and no space-holding token. */
  lemma {:induction false} SplitRunsTokens(s: seq<char>, p: char -> bool)
    requires s != [] && !p(s[0]) && !p(s[|s| - 1])
    ensures forall i :: 0 <= i < |SplitRuns(s, p)| ==> Token(SplitRuns(s, p)[i], p)
    decreases |s|
  {
    var n := TokenLen(s, p);
    if n < |s| {
      var t := TrimLeftBy(s[n..], p);
      TrimmedRest(s, p, n);
      SplitRunsTokens(t, p);
      var rest := SplitRuns(t, p);
      var r := SplitRuns(s, p);
      assert r == [s[..n]] + rest;
      forall i | 0 <= i < |r| ensures Token(r[i], p) {
        if i > 0 {
          assert r[i] == rest[i - 1];
        }
      }
    }
  }

  /** What follows the first token, spaces skipped, is again a trimmed text. */
  lemma TrimmedRest(s: seq<char>, p: char -> bool, n: nat)
    requires s != [] && !p(s[|s| - 1]) && n < |s|
    ensures var t := TrimLeftBy(s[n..], p); t != [] && !p(t[0]) && !p(t[|t| - 1])
  {
    var t := TrimLeftBy(s[n..], p);
    assert s[n..][|s| - n - 1] == s[|s| - 1];
    assert t[|t| - 1] == s[|s| - 1];
  }

  /** Appending element `i` to the first `i` elements gives the first `i + 1`. */
  lemma PrefixExtends<T>(xs: seq<T>, i: nat, x: T)
    requires i < |xs| && x == xs[i]
    ensures xs[..i] + [x] == xs[..i + 1]
  {
  }
}
