/**
 * The string helpers of `app/helpers.php`: file-name sanitising, the `str_*` polyfills,
 * the line-based HTML indenter and the rewriting of media image sources.
 */
module Helpers {
  import opened Chars

  /* ------------------------------ safe_filename ------------------------------ */

  predicate IsFileChar(c: char) { IsAlnum(c) || c == '.' || c == '_' || c == '-' }
  predicate IsSep(c: char) { c == '\\' || c == '/' }
  predicate IsUnderscore(c: char) { c == '_' }

  /**
   * `safe_filename`: separators become `_`, every run of other characters outside
   * `[a-zA-Z0-9._-]` becomes one `_`, and underscores are trimmed from both ends.
   */
  function SafeFilename(name: string): (r: string)
    ensures forall k :: 0 <= k < |r| ==> IsFileChar(r[k])
    ensures r == [] || (r[0] != '_' && r[|r| - 1] != '_')
    ensures |r| <= |name|
  {
    var a := MapChars(name, IsSep, '_');
    var b := ReplaceRuns(a, IsFileChar, '_');
    TrimByEnds(b, IsUnderscore);
    TrimBy(b, IsUnderscore)
  }

  lemma {:induction false} ReplaceRunsKept(s: string, keep: char -> bool, repl: char)
    requires keep(repl)
    requires forall k :: 0 <= k < |s| ==> keep(s[k])
    ensures ReplaceRuns(s, keep, repl) == s
    decreases |s|
  {
    if s != [] {
      ReplaceRunsKept(s[1..], keep, repl);
    }
  }

  /** A name that is already safe is left as it is, so `safe_filename` is idempotent. */
  lemma SafeFilenameIdempotent(name: string)
    ensures SafeFilename(SafeFilename(name)) == SafeFilename(name)
  {
    SafeNameKept(SafeFilename(name));
  }

  /** Allowed characters only, and no underscore at either end: nothing to change. */
  lemma SafeNameKept(r: string)
    requires forall k :: 0 <= k < |r| ==> IsFileChar(r[k])
    requires r == [] || (r[0] != '_' && r[|r| - 1] != '_')
    ensures SafeFilename(r) == r
  {
    assert MapChars(r, IsSep, '_') == r;
    ReplaceRunsKept(r, IsFileChar, '_');
    assert LeadingCount(r, IsUnderscore) == 0;
    assert TrailingCount(r, IsUnderscore) == 0;
  }

  /**
   * In a name made only of allowed characters and separators, each separator becomes one
   * underscore in place: nothing is merged, and only the ends are trimmed.
   */
  lemma SeparatorsInPlace(name: string)
    requires forall k :: 0 <= k < |name| ==> IsFileChar(name[k]) || IsSep(name[k])
    ensures SafeFilename(name) == TrimBy(MapChars(name, IsSep, '_'), IsUnderscore)
  {
    ReplaceRunsKept(MapChars(name, IsSep, '_'), IsFileChar, '_');
  }

  /* -------------------------------- polyfills -------------------------------- */

  function Min(a: nat, b: nat): nat { if a <= b then a else b }

  /** `strncmp($a, $b, $len) === 0`. */
  predicate StrncmpEqual(a: string, b: string, len: nat) {
    a[..Min(len, |a|)] == b[..Min(len, |b|)]
  }

  /** The `str_starts_with` polyfill. */
  function StrStartsWith(haystack: string, needle: string): (r: bool)
    ensures r <==> StartsWith(haystack, needle)
  {
    if needle == [] then true else StrncmpEqual(haystack, needle, |needle|)
  }

  /** `substr($h, -$len)` for a positive `len`: the last `len` characters, or all of `h`. */
  function LastChars(h: string, len: nat): string {
    if len >= |h| then h else h[|h| - len..]
  }

  /** The `str_ends_with` polyfill. */
  function StrEndsWith(haystack: string, needle: string): (r: bool)
    ensures r <==> |needle| <= |haystack| && haystack[|haystack| - |needle|..] == needle
  {
    if needle == [] then true else LastChars(haystack, |needle|) == needle
  }

  /** The `str_contains` polyfill. */
  function StrContains(haystack: string, needle: string): (r: bool)
    ensures r <==> exists j :: 0 <= j <= |haystack| && OccursAt(haystack, needle, j)
  {
    if needle == [] then
      assert OccursAt(haystack, needle, 0);
      true
    else IndexOf(haystack, needle, 0).Some?
  }

  /** `str_starts_with_any`: the loop with its early return. */
  method StrStartsWithAny(s: string, prefixes: seq<string>) returns (b: bool)
    ensures b <==> exists k :: 0 <= k < |prefixes| && StartsWith(s, prefixes[k])
  {
    for i := 0 to |prefixes|
      invariant forall k :: 0 <= k < i ==> !StartsWith(s, prefixes[k])
    {
      if StrStartsWith(s, prefixes[i]) {
        return true;
      }
    }
    return false;
  }

  /* ------------------------------- pretty_html ------------------------------- */

  /**
   * The length of the white-space run of a match of `>\s+<` at the start of `s`, or 0 when
   * none starts there.
   */
  function GapLen(s: string): (n: nat)
    ensures n > 0 ==> 2 + n <= |s| && s[0] == '>' && s[1 + n] == '<'
    ensures n > 0 ==> forall j :: 1 <= j <= n ==> IsSpace(s[j])
  {
    if s == [] || s[0] != '>' then 0
    else
      var k := LeadingCount(s[1..], IsSpace);
      if k >= 1 && 1 + k < |s| && s[1 + k] == '<' then k else 0
  }

  /** `preg_replace('/>\s+</', ">\n<")`: white space between two tags becomes one newline. */
  function Gaps(s: string): (r: string)
    decreases |s|
  {
    if s == [] then []
    else if GapLen(s) > 0 then ">\n<" + Gaps(s[2 + GapLen(s)..])
    else [s[0]] + Gaps(s[1..])
  }

  predicate NotSpace(c: char) { !IsSpace(c) }

  lemma {:induction false} FilterAppend(a: string, b: string, p: char -> bool)
    ensures Filter(a + b, p) == Filter(a, p) + Filter(b, p)
    decreases |a|
  {
    if a == [] {
      assert a + b == b;
    } else {
      assert (a + b)[0] == a[0];
      assert (a + b)[1..] == a[1..] + b;
      FilterAppend(a[1..], b, p);
    }
  }

  lemma {:induction false} FilterNone(s: string, p: char -> bool)
    requires forall k :: 0 <= k < |s| ==> !p(s[k])
    ensures Filter(s, p) == []
    decreases |s|
  {
    if s != [] {
      FilterNone(s[1..], p);
    }
  }

  /** The matched gap keeps only its two brackets once white space is filtered out. */
  lemma FilterGap(s: string, n: nat)
    requires 1 <= n && 2 + n <= |s| && s[0] == '>' && s[1 + n] == '<'
    requires forall j :: 1 <= j <= n ==> IsSpace(s[j])
    ensures Filter(s[..2 + n], NotSpace) == "><"
  {
    assert s[..2 + n] == [s[0]] + (s[1..1 + n] + [s[1 + n]]);
    FilterAppend([s[0]], s[1..1 + n] + [s[1 + n]], NotSpace);
    FilterAppend(s[1..1 + n], [s[1 + n]], NotSpace);
    FilterNone(s[1..1 + n], NotSpace);
    assert [s[0]][1..] == [];
    assert [s[1 + n]][1..] == [];
  }

  lemma FilterBrackets()
    ensures Filter(">\n<", NotSpace) == "><"
  {
    assert ">\n<"[1..] == "\n<";
    assert "\n<"[1..] == "<";
    assert "<"[1..] == [];
  }

  /** The gap normalisation only touches white space: the other characters stay, in order. */
  lemma {:induction false} GapsKeepText(s: string)
    ensures Filter(Gaps(s), NotSpace) == Filter(s, NotSpace)
    decreases |s|
  {
    if s != [] {
      var n := GapLen(s);
      if n > 0 {
        GapsKeepText(s[2 + n..]);
        GapStep(s, n);
      } else {
        GapsKeepText(s[1..]);
        CharStep(s);
      }
    }
  }

  lemma GapStep(s: string, n: nat)
    requires n == GapLen(s) > 0
    requires Filter(Gaps(s[2 + n..]), NotSpace) == Filter(s[2 + n..], NotSpace)
    ensures Filter(Gaps(s), NotSpace) == Filter(s, NotSpace)
  {
    assert Gaps(s) == ">\n<" + Gaps(s[2 + n..]);
    FilterAppend(">\n<", Gaps(s[2 + n..]), NotSpace);
    FilterBrackets();
    FilterGap(s, n);
    assert s == s[..2 + n] + s[2 + n..];
    FilterAppend(s[..2 + n], s[2 + n..], NotSpace);
  }

  lemma CharStep(s: string)
    requires s != [] && GapLen(s) == 0
    requires Filter(Gaps(s[1..]), NotSpace) == Filter(s[1..], NotSpace)
    ensures Filter(Gaps(s), NotSpace) == Filter(s, NotSpace)
  {
    assert Gaps(s) == [s[0]] + Gaps(s[1..]);
    assert s == [s[0]] + s[1..];
    FilterAppend([s[0]], s[1..], NotSpace);
    FilterAppend([s[0]], Gaps(s[1..]), NotSpace);
  }

  predicate IsBreak(c: char) { c == '\r' || c == '\n' }
  predicate NotBreak(c: char) { !IsBreak(c) }

  /** The length of the line break at `i`: `\r\n` is one break. */
  function BreakLen(s: string, i: nat): nat
    requires i < |s| && IsBreak(s[i])
  {
    if s[i] == '\r' && i + 1 < |s| && s[i + 1] == '\n' then 2 else 1
  }

  /** `preg_split("/\r\n|\r|\n/", $s)`: the lines, empty ones included. */
  function SplitLines(s: string): (r: seq<string>)
    ensures |r| >= 1
    ensures forall k :: 0 <= k < |r| ==> forall j :: 0 <= j < |r[k]| ==> !IsBreak(r[k][j])
    decreases |s|
  {
    var i := LeadingCount(s, NotBreak);
    if i == |s| then [s] else [s[..i]] + SplitLines(s[i + BreakLen(s, i)..])
  }

  /** Without carriage returns, joining the lines with newlines gives the text back. */
  lemma {:induction false} SplitLinesJoin(s: string)
    requires forall j :: 0 <= j < |s| ==> s[j] != '\r'
    ensures Join(SplitLines(s), "\n") == s
    decreases |s|
  {
    var i := LeadingCount(s, NotBreak);
    if i < |s| {
      var rest := s[i + 1..];
      SplitLinesJoin(rest);
      SplitLinesStep(s, i);
      JoinCons(s[..i], SplitLines(rest), "\n");
      assert s == s[..i] + "\n" + rest;
    }
  }

  lemma SplitLinesStep(s: string, i: nat)
    requires i == LeadingCount(s, NotBreak) < |s| && s[i] == '\n'
    ensures SplitLines(s) == [s[..i]] + SplitLines(s[i + 1..])
  {
    assert IsBreak(s[i]) && BreakLen(s, i) == 1;
  }

  /** A line starting with a closing tag (`^</[a-zA-Z0-9]+>`). */
  predicate StartsWithCloseTag(t: string) {
    |t| >= 2 && t[0] == '<' && t[1] == '/'
    && LeadingCount(t[2..], IsAlnum) >= 1
    && 2 + LeadingCount(t[2..], IsAlnum) < |t| && t[2 + LeadingCount(t[2..], IsAlnum)] == '>'
  }

  /** A line that is exactly one closing tag (`^</[a-zA-Z0-9]+>$`). */
  predicate IsCloseTagLine(t: string) {
    StartsWithCloseTag(t) && 3 + LeadingCount(t[2..], IsAlnum) == |t|
  }

  /** The tag name of a line that is exactly one opening tag (`^<([a-zA-Z0-9]+)\b[^>]*>$`). */
  function OpenTagName(t: string): (r: Option<string>)
    ensures r.Some? ==> r.value != [] && |t| >= 3 && t[0] == '<' && t[|t| - 1] == '>'
  {
    if |t| >= 3 && t[0] == '<' then
      var n := LeadingCount(t[1..], IsAlnum);
      if n >= 1 && 1 + n < |t| && t[1 + n] != '_' && t[|t| - 1] == '>' && '>' !in t[1 + n..|t| - 1]
      then Some(t[1..1 + n]) else None
    else None
  }

  predicate SelfCloses(t: string) { |t| >= 2 && t[|t| - 2..] == "/>" }

  const VoidNames: seq<string> := ["area", "base", "br", "col", "embed", "hr", "img", "input",
    "link", "meta", "param", "source", "track", "wbr"]

  predicate IsVoid(name: string) { Lower(name) in VoidNames }

  /** A line after which the indent grows: one opening tag, not closing, self-closing or void. */
  predicate Opens(t: string) {
    OpenTagName(t).Some? && !IsCloseTagLine(t) && !SelfCloses(t) && !IsVoid(OpenTagName(t).value)
  }

  /** The level a line is printed at, given the indent before it. */
  function PrintLevel(indent: int, t: string): int {
    if StartsWithCloseTag(t) then (if indent - 1 > 0 then indent - 1 else 0) else indent
  }

  function AfterLevel(indent: int, t: string): int {
    if Opens(t) then PrintLevel(indent, t) + 1 else PrintLevel(indent, t)
  }

  /** The indent after the given (trimmed) lines; it is never negative. */
  function IndentAfter(ts: seq<string>): (r: int)
    ensures r >= 0
    decreases |ts|
  {
    if ts == [] then 0 else AfterLevel(IndentAfter(ts[..|ts| - 1]), ts[|ts| - 1])
  }

  function Pad(level: int): (r: string)
    ensures |r| == if level > 0 then 2 * level else 0
    ensures forall j :: 0 <= j < |r| ==> r[j] == ' '
  {
    if level > 0 then seq(2 * level, _ => ' ') else []
  }

  function TrimAll(lines: seq<string>): (r: seq<string>)
    ensures |r| == |lines| && forall k :: 0 <= k < |lines| ==> r[k] == Trim(lines[k])
  {
    seq(|lines|, k requires 0 <= k < |lines| => Trim(lines[k]))
  }

  /** The output lines for the trimmed input lines. */
  function PrettyLines(ts: seq<string>): (r: seq<string>)
    ensures |r| == |ts|
  {
    seq(|ts|, k requires 0 <= k < |ts| => Pad(PrintLevel(IndentAfter(ts[..k]), ts[k])) + ts[k])
  }

  /** The trimmed lines of the normalised input. */
  function InputLines(s: string): seq<string> {
    TrimAll(SplitLines(Gaps(Trim(s))))
  }

  /** `pretty_html`: `null` and `''` give `''`. */
  function Pretty(html: Option<string>): (r: string)
    ensures html.GetOr([]) == [] ==> r == []
  {
    var s := html.GetOr([]);
    if s == [] then [] else Join(PrettyLines(InputLines(s)), "\n")
  }

  /** The indenting loop of `pretty_html`. */
  method PrettyHtml(html: Option<string>) returns (r: string)
    ensures r == Pretty(html)
  {
    var s := html.GetOr([]);
    if s == [] {
      return [];
    }
    var lines := SplitLines(Gaps(Trim(s)));
    ghost var ts := TrimAll(lines);
    ghost var spec := PrettyLines(ts);
    var out: seq<string> := [];
    var indent := 0;
    for i := 0 to |lines|
      invariant indent == IndentAfter(ts[..i])
      invariant out == spec[..i]
    {
      var line;
      line, indent := IndentLine(indent, Trim(lines[i]));
      IndentSteps(ts, i);
      PrettyLineAt(ts, i);
      PrefixExtends(spec, i, line);
      out := out + [line];
    }
    assert spec[..|lines|] == spec;
    assert ts == InputLines(s);
    r := Join(out, "\n");
  }

  /** One iteration of the loop: the line as printed and the indent for the next line. */
  method IndentLine(indent: int, t: string) returns (line: string, next: int)
    ensures line == Pad(PrintLevel(indent, t)) + t && next == AfterLevel(indent, t)
  {
    next := indent;
    if StartsWithCloseTag(t) {
      next := if next - 1 > 0 then next - 1 else 0;
    }
    line := Pad(next) + t;
    if Opens(t) {
      next := next + 1;
    }
  }

  lemma PrettyLineAt(ts: seq<string>, k: nat)
    requires k < |ts|
    ensures PrettyLines(ts)[k] == Pad(PrintLevel(IndentAfter(ts[..k]), ts[k])) + ts[k]
  {
  }

  /**
   * Each output line is the trimmed input line behind an even, non-negative number of
   * spaces: left-trimming the output line gives the input line back.
   */
  lemma PrettyLineShape(ts: seq<string>, k: nat)
    requires k < |ts| && forall i :: 0 <= i < |ts| ==> ts[i] == Trim(ts[i])
    ensures var line := PrettyLines(ts)[k];
      var level := PrintLevel(IndentAfter(ts[..k]), ts[k]);
      && level >= 0 && |line| == 2 * level + |ts[k]|
      && line[2 * level..] == ts[k]
      && TrimLeftBy(line, IsTrimChar) == ts[k]
  {
    var line := PrettyLines(ts)[k];
    var level := PrintLevel(IndentAfter(ts[..k]), ts[k]);
    var t := ts[k];
    TrimByEnds(t, IsTrimChar);
    assert line == Pad(level) + t;
  }

  /**
   * A line starting with a closing tag is printed one level shallower (never below 0); only
   * an opening-tag line raises the indent of later lines, and then by exactly one.
   */
  lemma IndentSteps(ts: seq<string>, k: nat)
    requires k < |ts|
    ensures StartsWithCloseTag(ts[k]) ==>
      PrintLevel(IndentAfter(ts[..k]), ts[k]) == (if IndentAfter(ts[..k]) > 0 then IndentAfter(ts[..k]) - 1 else 0)
    ensures !StartsWithCloseTag(ts[k]) ==> PrintLevel(IndentAfter(ts[..k]), ts[k]) == IndentAfter(ts[..k])
    ensures IndentAfter(ts[..k + 1]) == PrintLevel(IndentAfter(ts[..k]), ts[k]) + (if Opens(ts[k]) then 1 else 0)
    ensures IndentAfter(ts[..k + 1]) > IndentAfter(ts[..k]) ==> Opens(ts[k])
  {
    assert ts[..k + 1][..k] == ts[..k];
  }

  /* ---------------------------- rewrite_media_srcs ---------------------------- */

  const MediaPrefix := "?action=media&p="

  predicate NotQuote(c: char) { !IsQuote(c) }

  /**
   * A match of `(src\s*=\s*["'])([^"']+)(["'])` (case-insensitive) at `i`: the start and
   * end of the value; the closing quote is at the end.
   */
  /** The value of a `src` attribute: it starts at `vs` and its closing quote is at `ve`. */
  datatype SrcValue = SrcValue(vs: nat, ve: nat)

  function SrcMatch(s: string, i: nat): (r: Option<SrcValue>)
    ensures r.Some? ==> i + 3 < r.value.vs < r.value.ve < |s| && IsQuote(s[r.value.ve])
  {
    if i + 3 <= |s| && Lower(s[i..i + 3]) == "src" then
      var a := SkipWhile(s, i + 3, IsSpace);
      if a < |s| && s[a] == '=' then
        var b := SkipWhile(s, a + 1, IsSpace);
        if b < |s| && IsQuote(s[b]) then
          var e := SkipWhile(s, b + 1, NotQuote);
          if e > b + 1 && e < |s| then Some(SrcValue(b + 1, e)) else None
        else None
      else None
    else None
  }

  /** `stripos($url, 'word/') === 0`. */
  predicate IsWordMedia(url: string) { 5 <= |url| && Lower(url[..5]) == "word/" }

  /**
   * The text from `i` up to the closing quote at `ve` of a value starting at `vs`, with the
   * media prefix put in front of a `word/` value.
   */
  function Replaced(s: string, i: nat, vs: nat, ve: nat): (r: string)
    requires i <= vs <= ve < |s|
    ensures |r| == ve + 1 - i + (if IsWordMedia(s[vs..ve]) then 16 else 0)
    ensures !IsWordMedia(s[vs..ve]) ==> r == s[i..ve + 1]
    ensures IsWordMedia(s[vs..ve]) ==> r == s[i..vs] + MediaPrefix + s[vs..ve + 1]
  {
    assert s[i..ve + 1] == s[i..vs] + s[vs..ve + 1];
    s[i..vs] + (if IsWordMedia(s[vs..ve]) then MediaPrefix else []) + s[vs..ve + 1]
  }

  /** One step of the scan: the output piece, where the scan resumes, and whether a value was rewritten. */
  datatype Step = Step(piece: string, next: nat, w: nat)

  /**
   * The step at `i`: a match is replaced and the scan resumes after its closing quote;
   * otherwise one character is copied.
   */
  function StepAt(s: string, i: nat): (r: Step)
    requires i < |s|
    ensures i < r.next <= |s| && r.w <= 1
    ensures |r.piece| == r.next - i + 16 * r.w
    ensures r.w == 0 ==> r.piece == s[i..r.next]
  {
    var m := SrcMatch(s, i);
    if m.None? then Step([s[i]], i + 1, 0)
    else Step(Replaced(s, i, m.value.vs, m.value.ve), m.value.ve + 1, if IsWordMedia(s[m.value.vs..m.value.ve]) then 1 else 0)
  }

  /** The callback replacement, applied left to right from `i`. */
  function RewriteFrom(s: string, i: nat): string
    requires i <= |s|
    decreases |s| - i
  {
    if i == |s| then [] else StepAt(s, i).piece + RewriteFrom(s, StepAt(s, i).next)
  }

  /** How many source values from `i` on start with `word/`. */
  function Rewrites(s: string, i: nat): nat
    requires i <= |s|
    decreases |s| - i
  {
    if i == |s| then 0 else StepAt(s, i).w + Rewrites(s, StepAt(s, i).next)
  }

  /** `rewrite_media_srcs`: `null` and `''` give `''`. */
  function RewriteMedia(html: Option<string>): (r: string)
    ensures html.GetOr([]) == [] ==> r == []
  {
    var s := html.GetOr([]);
    if s == [] then [] else RewriteFrom(s, 0)
  }

  /**
   * Every other character is copied: the output is the input lengthened by one media prefix
   * (16 characters) per rewritten value.
   */
  lemma {:induction false} RewriteLength(s: string, i: nat)
    requires i <= |s|
    ensures |RewriteFrom(s, i)| == |s| - i + 16 * Rewrites(s, i)
    decreases |s| - i
  {
    if i < |s| {
      RewriteLength(s, StepAt(s, i).next);
    }
  }

  /** Without a `word/` value the text is copied unchanged. */
  lemma {:induction false} RewriteUnchanged(s: string, i: nat)
    requires i <= |s| && Rewrites(s, i) == 0
    ensures RewriteFrom(s, i) == s[i..]
    decreases |s| - i
  {
    if i < |s| {
      var next := StepAt(s, i).next;
      RewriteUnchanged(s, next);
      SliceSplit(s, i, next);
    }
  }

  /**
   * The scan at a `src` match: the text up to the value is copied, the media prefix is put
   * in front of the value exactly when it starts with `word/`, the value and its closing
   * quote follow, and the scan goes on after that quote.
   */
  lemma RewriteAtMatch(s: string, i: nat, vs: nat, ve: nat)
    requires i < |s| && SrcMatch(s, i) == Some(SrcValue(vs, ve))
    ensures RewriteFrom(s, i) == s[i..vs] + (if IsWordMedia(s[vs..ve]) then MediaPrefix else []) + s[vs..ve + 1]
      + RewriteFrom(s, ve + 1)
  {
    assert RewriteFrom(s, i) == Replaced(s, i, vs, ve) + RewriteFrom(s, ve + 1) by {
      RewriteFromStep(s, i);
      StepAtMatch(s, i, vs, ve);
    }
  }

  lemma StepAtMatch(s: string, i: nat, vs: nat, ve: nat)
    requires i < |s| && SrcMatch(s, i) == Some(SrcValue(vs, ve))
    ensures StepAt(s, i).piece == Replaced(s, i, vs, ve) && StepAt(s, i).next == ve + 1
  {
  }

  lemma RewriteFromStep(s: string, i: nat)
    requires i < |s|
    ensures RewriteFrom(s, i) == StepAt(s, i).piece + RewriteFrom(s, StepAt(s, i).next)
  {
  }

  /** Away from a `src` match, one character is copied and the scan goes on at the next one. */
  lemma RewriteAtOther(s: string, i: nat)
    requires i < |s| && SrcMatch(s, i).None?
    ensures RewriteFrom(s, i) == [s[i]] + RewriteFrom(s, i + 1)
  {
  }

  /** The rewritten text equals the input iff no source value starts with `word/`. */
  lemma RewriteChangesIff(s: string)
    ensures RewriteFrom(s, 0) == s <==> Rewrites(s, 0) == 0
  {
    RewriteLength(s, 0);
    if Rewrites(s, 0) == 0 {
      RewriteUnchanged(s, 0);
    }
  }
}
