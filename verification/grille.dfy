/**
 * The answer-sheet filler of `grille/assets/app.js`: the parsing of a class list exported
 * as PDF text, the name and ID rules applied to each student row, the mapping of row keys
 * onto form fields, the output file names, and the page state (template, student list,
 * selected students) that the event handlers update.
 *
 * A student row is a JavaScript object: a sequence of (key, value) pairs in insertion
 * order. The PDF and ZIP libraries are left out; the template is only "loaded or not" and
 * the form is the list of names of its text fields, in form order.
 */
module Grille {
  import opened Chars

  type Row = seq<(string, string)>

  /* ------------------------- splitting the PDF text ------------------------- */

  /** `t` has the shape of the separator `\d+\.\s+`, with `d` digits before the dot. */
  predicate NumberingShape(t: string, d: nat) {
    1 <= d && d + 1 < |t| && t[d] == '.'
    && (forall k :: 0 <= k < d ==> IsDigit(t[k]))
    && (forall k :: d < k < |t| ==> IsJsSpace(t[k]))
  }

  ghost predicate IsNumbering(t: string) {
    exists d: nat :: NumberingShape(t, d)
  }

  /** The (greedy) match of `\d+\.\s+` starting at `i`: where it ends, or `None`. */
  function NumberingAt(s: string, i: nat): (r: Option<nat>)
    requires i <= |s|
    ensures r.Some? ==> i + 3 <= r.value <= |s| && IsNumbering(s[i..r.value])
  {
    var d := LeadingCount(s[i..], IsDigit);
    if d == 0 || i + d == |s| || s[i + d] != '.' then None
    else
      var w := LeadingCount(s[i + d + 1..], IsJsSpace);
      if w == 0 then None
      else
        assert NumberingShape(s[i..i + d + 1 + w], d);
        Some(i + d + 1 + w)
  }

  /** The scanner misses no separator: wherever one starts, it finds one at least as long. */
  lemma NumberingAtComplete(s: string, i: nat, e: nat)
    requires i < e <= |s| && IsNumbering(s[i..e])
    ensures NumberingAt(s, i).Some? && NumberingAt(s, i).value >= e
  {
    var t := s[i..e];
    var d: nat :| NumberingShape(t, d);
    var u := s[i..];
    assert forall k :: 0 <= k < |t| ==> u[k] == t[k];
    LeadingCountIs(u, IsDigit, d);
    var v := s[i + d + 1..];
    assert forall k :: 0 <= k < e - i - d - 1 ==> v[k] == t[d + 1 + k];
    LeadingCountAtLeast(v, IsJsSpace, e - i - d - 1);
  }

  /** The pieces of a string split on its separators, each with the separator that ends it. */
  function Flatten(r: seq<(string, string)>): string
    decreases |r|
  {
    if r == [] then [] else r[0].0 + r[0].1 + Flatten(r[1..])
  }

  lemma FlattenCons(a: string, b: string, rest: seq<(string, string)>)
    ensures Flatten([(a, b)] + rest) == a + b + Flatten(rest)
  {
    assert ([(a, b)] + rest)[1..] == rest;
  }

  /**
   * `split(/\d+\.\s+/)` from piece start `start`, the search resuming at `i`: each piece with
   * the separator that follows it (none after the last).
   */
  function SplitNumbered(s: string, start: nat, i: nat): (r: seq<(string, string)>)
    requires start <= i <= |s|
    ensures |r| >= 1
    decreases |s| - i
  {
    if i == |s| then [(s[start..], [])]
    else
      match NumberingAt(s, i)
      case Some(e) => [(s[start..i], s[i..e])] + SplitNumbered(s, e, e)
      case None => SplitNumbered(s, start, i + 1)
  }

  /** Nothing is lost by the split: the pieces and separators put back together give the text. */
  lemma {:induction false} SplitNumberedLossless(s: string, start: nat, i: nat)
    requires start <= i <= |s|
    ensures Flatten(SplitNumbered(s, start, i)) == s[start..]
    decreases |s| - i
  {
    if i == |s| {
      FlattenCons(s[start..], [], []);
    } else {
      match NumberingAt(s, i)
      case Some(e) =>
        SplitNumberedLossless(s, e, e);
        FlattenCons(s[start..i], s[i..e], SplitNumbered(s, e, e));
        SliceSplit(s, start, i);
        SliceSplit(s, i, e);
      case None =>
        SplitNumberedLossless(s, start, i + 1);
    }
  }

  /** The last piece has no separator after it. */
  lemma {:induction false} SplitNumberedLast(s: string, start: nat, i: nat)
    requires start <= i <= |s|
    ensures var r := SplitNumbered(s, start, i); r[|r| - 1].1 == []
    decreases |s| - i
  {
    if i < |s| {
      var m := NumberingAt(s, i);
      if m.Some? {
        SplitNumberedLast(s, m.value, m.value);
      } else {
        SplitNumberedLast(s, start, i + 1);
      }
    }
  }

  /** Every separator but the last is a numbering `\d+\.\s+`. */
  lemma {:induction false} SplitNumberedSeparators(s: string, start: nat, i: nat)
    requires start <= i <= |s|
    ensures forall k :: 0 <= k < |SplitNumbered(s, start, i)| - 1 ==> IsNumbering(SplitNumbered(s, start, i)[k].1)
    decreases |s| - i
  {
    if i < |s| {
      var m := NumberingAt(s, i);
      if m.Some? {
        var e := m.value;
        SplitNumberedSeparators(s, e, e);
        var rest := SplitNumbered(s, e, e);
        var r := SplitNumbered(s, start, i);
        assert r == [(s[start..i], s[i..e])] + rest;
        forall k | 0 <= k < |r| - 1
          ensures IsNumbering(r[k].1)
        {
          if k > 0 {
            assert r[k] == rest[k - 1];
            assert IsNumbering(rest[k - 1].1);
          } else {
            assert r[0].1 == s[i..e];
            assert IsNumbering(s[i..e]);
          }
        }
      } else {
        SplitNumberedSeparators(s, start, i + 1);
        assert SplitNumbered(s, start, i) == SplitNumbered(s, start, i + 1);
      }
    }
  }

  /**
   * A piece starting at `p`, followed by separator `sep`, is cut where `split(/\d+\.\s+/)`
   * cuts: no numbering starts inside it; a piece but the last ends where the scanner finds
   * a numbering and its separator is that whole match; the last piece runs to the end.
   */
  predicate LeftmostAt(s: string, p: nat, piece: string, sep: string, last: bool) {
    && p + |piece| + |sep| <= |s|
    && (forall q :: p <= q < p + |piece| ==> NumberingAt(s, q).None?)
    && (!last ==> NumberingAt(s, p + |piece|) == Some(p + |piece| + |sep|))
    && (last ==> p + |piece| == |s|)
  }

  /** Every piece of `r`, the first starting at `p` and each after the previous separator, is cut where `split` cuts. */
  predicate LeftmostSplit(s: string, p: nat, r: seq<(string, string)>)
    decreases |r|
  {
    && r != []
    && LeftmostAt(s, p, r[0].0, r[0].1, |r| == 1)
    && (|r| > 1 ==> LeftmostSplit(s, p + |r[0].0| + |r[0].1|, r[1..]))
  }

  /** A cut at the numbering found at `i` keeps the split leftmost. */
  lemma LeftmostAtCut(s: string, start: nat, i: nat, e: nat)
    requires start <= i < |s| && NumberingAt(s, i) == Some(e)
    requires forall q :: start <= q < i ==> NumberingAt(s, q).None?
    requires LeftmostSplit(s, e, SplitNumbered(s, e, e))
    ensures LeftmostSplit(s, start, SplitNumbered(s, start, i))
  {
    var r := SplitNumbered(s, start, i);
    var rest := SplitNumbered(s, e, e);
    var x := (s[start..i], s[i..e]);
    assert r == [x] + rest;
    assert r[0] == x && r[1..] == rest && |r| > 1;
    assert LeftmostAt(s, start, x.0, x.1, false);
  }

  /**
   * The split is the leftmost one: every piece is cut as `split` cuts it. With
   * `NumberingAtComplete` this is the cut at every leftmost, longest separator.
   */
  lemma {:induction false} SplitNumberedLeftmost(s: string, start: nat, i: nat)
    requires start <= i <= |s|
    requires forall q :: start <= q < i ==> NumberingAt(s, q).None?
    ensures LeftmostSplit(s, start, SplitNumbered(s, start, i))
    decreases |s| - i
  {
    var r := SplitNumbered(s, start, i);
    if i == |s| {
      assert LeftmostSplit(s, start, r) by {
        assert r == [(s[start..], [])];
        assert LeftmostAt(s, start, s[start..], [], true);
      }
    } else if NumberingAt(s, i).Some? {
      var e := NumberingAt(s, i).value;
      SplitNumberedLeftmost(s, e, e);
      LeftmostAtCut(s, start, i, e);
    } else {
      assert r == SplitNumbered(s, start, i + 1);
      SplitNumberedLeftmost(s, start, i + 1);
    }
  }

  /** The segments of the text: the pieces after the first, which is the list's header. */
  function Segments(text: string): (r: seq<string>)
    ensures |r| == |SplitNumbered(text, 0, 0)| - 1
    ensures forall k :: 0 <= k < |r| ==> r[k] == SplitNumbered(text, 0, 0)[k + 1].0
  {
    var pieces := SplitNumbered(text, 0, 0);
    seq(|pieces| - 1, k requires 0 <= k < |pieces| - 1 => pieces[k + 1].0)
  }

  /* ---------------------------- one segment's entry ---------------------------- */

  /** A character `.` does not match in a JavaScript regular expression. */
  predicate IsLineTerminator(c: char) {
    c == '\n' || c == '\r' || c == '\U{2028}' || c == '\U{2029}'
  }

  predicate OneLine(s: string) {
    forall k :: 0 <= k < |s| ==> !IsLineTerminator(s[k])
  }

  /**
   * `^(\d+)\s+(.+)$` on a trimmed segment: the ID and the name part. The digits and the
   * spaces are matched greedily; the rest must be a non-empty single line.
   */
  function EntryMatch(t: string): (r: Option<(string, string)>)
    ensures r.Some? ==> r.value.0 != [] && |r.value.0| < |t| && t[..|r.value.0|] == r.value.0
    ensures r.Some? ==> forall k :: 0 <= k < |r.value.0| ==> IsDigit(r.value.0[k])
    ensures r.Some? ==> r.value.1 != [] && OneLine(r.value.1)
  {
    var d := LeadingCount(t, IsDigit);
    if d == 0 || d == |t| || !IsJsSpace(t[d]) then None
    else
      var w := LeadingCount(t[d..], IsJsSpace);
      var rest := t[d + w..];
      if rest == [] || !OneLine(rest) then None else Some((t[..d], rest))
  }

  /** `t` splits as `d` digits, spaces up to `e`, then a single line. */
  predicate EntryShape(t: string, d: nat, e: nat) {
    0 < d < e < |t|
    && (forall k :: 0 <= k < d ==> IsDigit(t[k]))
    && (forall k :: d <= k < e ==> IsJsSpace(t[k]))
    && (forall k :: e <= k < |t| ==> !IsLineTerminator(t[k]))
  }

  /** On a trimmed segment the scanner matches exactly when some split of the regex exists. */
  lemma EntryMatchIff(t: string)
    requires t == [] || (!IsJsSpace(t[0]) && !IsJsSpace(t[|t| - 1]))
    ensures EntryMatch(t).Some? <==> exists d: nat, e: nat :: EntryShape(t, d, e)
  {
    if EntryMatch(t).Some? {
      EntryMatchSound(t);
    }
    if exists d: nat, e: nat :: EntryShape(t, d, e) {
      var d: nat, e: nat :| EntryShape(t, d, e);
      EntryMatchComplete(t, d, e);
    }
  }

  lemma EntryMatchSound(t: string)
    requires EntryMatch(t).Some?
    ensures EntryShape(t, LeadingCount(t, IsDigit), LeadingCount(t, IsDigit) + LeadingCount(t[LeadingCount(t, IsDigit)..], IsJsSpace))
  {
    var d := LeadingCount(t, IsDigit);
    var u := t[d..];
    var w := LeadingCount(u, IsJsSpace);
    var rest := t[d + w..];
    assert forall k :: d <= k < d + w ==> t[k] == u[k - d];
    assert forall k :: 0 <= k < |rest| ==> rest[k] == t[d + w + k];
  }

  lemma EntryMatchComplete(t: string, d': nat, e': nat)
    requires t == [] || (!IsJsSpace(t[0]) && !IsJsSpace(t[|t| - 1]))
    requires EntryShape(t, d', e')
    ensures EntryMatch(t).Some?
  {
    LeadingCountIs(t, IsDigit, d');
    var u := t[d'..];
    assert forall k :: 0 <= k < e' - d' ==> u[k] == t[d' + k];
    LeadingCountAtLeast(u, IsJsSpace, e' - d');
    var w := LeadingCount(u, IsJsSpace);
    assert w < |u| by {
      assert !IsJsSpace(u[|u| - 1]);
    }
    OneLineFrom(t, e', d' + w);
  }

  /** A tail of a text without line terminators from `e` on is a single line. */
  lemma OneLineFrom(t: string, e: nat, j: nat)
    requires e <= j <= |t|
    requires forall k :: e <= k < |t| ==> !IsLineTerminator(t[k])
    ensures OneLine(t[j..])
  {
    var rest := t[j..];
    assert forall k :: 0 <= k < |rest| ==> rest[k] == t[j + k];
  }

  /** `Powered\s+by` or `Page\s+`, ignoring case, starting at `j`. */
  predicate BoilerplateAt(s: string, j: nat) {
    (j + 7 <= |s| && OccursAtCI(s, "powered", j)
      && LeadingCount(s[j + 7..], IsJsSpace) >= 1
      && OccursAtCI(s, "by", j + 7 + LeadingCount(s[j + 7..], IsJsSpace)))
    || (j + 4 < |s| && OccursAtCI(s, "page", j) && IsJsSpace(s[j + 4]))
  }

  /** Where the first piece of `split(/Powered\s+by|Page\s+/i)` ends, searching from `j`. */
  function CutAt(s: string, j: nat): (r: nat)
    requires j <= |s|
    ensures j <= r <= |s|
    ensures forall k :: j <= k < r ==> !BoilerplateAt(s, k)
    ensures r < |s| ==> BoilerplateAt(s, r)
    decreases |s| - j
  {
    if j == |s| then |s| else if BoilerplateAt(s, j) then j else CutAt(s, j + 1)
  }

  /** The two names of a full name: the first whitespace token, then the others joined by spaces. */
  datatype Names = Names(last: string, first: string)

  /** `parts = full.split(/\s+/)`; `parts.shift() || ''` and `parts.join(' ')`. */
  function SplitName(full: string): Names {
    var parts := SplitRuns(full, IsJsSpace);
    Names(parts[0], Join(parts[1..], " "))
  }

  /**
   * On a trimmed name the last name is one non-empty token, and the first name is trimmed
   * and present whenever the name has more than one token.
   */
  lemma SplitNameParts(full: string)
    requires full == [] || (!IsJsSpace(full[0]) && !IsJsSpace(full[|full| - 1]))
    ensures forall k :: 0 <= k < |SplitName(full).last| ==> !IsJsSpace(SplitName(full).last[k])
    ensures full != [] ==> SplitName(full).last != []
    ensures SplitName(full).first == []
      || (!IsJsSpace(SplitName(full).first[0]) && !IsJsSpace(SplitName(full).first[|SplitName(full).first| - 1]))
    ensures |SplitRuns(full, IsJsSpace)| > 1 ==> SplitName(full).first != []
  {
    var parts := SplitRuns(full, IsJsSpace);
    if full == [] {
      assert parts == [[]];
    } else {
      SplitRunsTokens(full, IsJsSpace);
      assert Token(parts[0], IsJsSpace);
      if |parts| > 1 {
        var tail := parts[1..];
        assert forall i :: 0 <= i < |tail| ==> tail[i] == parts[i + 1];
        JoinEnds(tail, " ");
        assert tail[0] == parts[1] && tail[|tail| - 1] == parts[|parts| - 1];
      }
    }
  }

  /**
   * On a trimmed name the split loses nothing but repeated white space: the last and first
   * names together give the name back with its white-space runs collapsed to single spaces.
   */
  lemma SplitNameRejoins(full: string)
    requires full == [] || (!IsJsSpace(full[0]) && !IsJsSpace(full[|full| - 1]))
    ensures SplitName(full).first == [] ==> SplitName(full).last == CollapseBy(full, IsJsSpace)
    ensures SplitName(full).first != [] ==>
      SplitName(full).last + " " + SplitName(full).first == CollapseBy(full, IsJsSpace)
  {
    var parts := SplitRuns(full, IsJsSpace);
    JoinSplitRuns(full, IsJsSpace);
    SplitNameParts(full);
    if |parts| > 1 {
      assert parts == [parts[0]] + parts[1..];
      JoinCons(parts[0], parts[1..], " ");
    }
  }

  /** The record `{ ID, Nom, Prenom }` pushed for a parsed student. */
  function PdfRow(id: string, n: Names): Row {
    [("ID", id), ("Nom", n.last), ("Prenom", n.first)]
  }

  /** The name part with the page boilerplate cut off, trimmed. */
  function NamePart(rest: string): string {
    JsTrim(rest[..CutAt(rest, 0)])
  }

  /** The body of the segment loop: the student a segment yields, or `None` (skipped). */
  function ParseEntry(seg: string): Option<Row> {
    match EntryMatch(JsTrim(seg))
    case None => None
    case Some((id, rest)) => Some(PdfRow(id, SplitName(JsTrim(NamePart(rest)))))
  }

  /** The students of a sequence of segments, in order. */
  function ParsedRows(segs: seq<string>): (r: seq<Row>)
    ensures |r| <= |segs|
    decreases |segs|
  {
    if segs == [] then []
    else
      var prev := ParsedRows(segs[..|segs| - 1]);
      match ParseEntry(segs[|segs| - 1])
      case Some(row) => prev + [row]
      case None => prev
  }

  /** One segment gives its student when it parses, and nothing otherwise. */
  lemma ParsedRowsOne(seg: string)
    ensures ParsedRows([seg]) == if ParseEntry(seg).Some? then [ParseEntry(seg).value] else []
  {
    assert [seg][..0] == [];
  }

  /** The students of two runs of segments are those of the first run, then those of the second. */
  lemma {:induction false} ParsedRowsAppend(a: seq<string>, b: seq<string>)
    ensures ParsedRows(a + b) == ParsedRows(a) + ParsedRows(b)
    decreases |b|
  {
    if b == [] {
      assert a + b == a;
    } else {
      var init := b[..|b| - 1];
      assert (a + b)[..|a + b| - 1] == a + init;
      assert (a + b)[|a + b| - 1] == b[|b| - 1];
      ParsedRowsAppend(a, init);
    }
  }

  lemma ParsedRowsStep(segs: seq<string>, i: nat)
    requires i < |segs|
    ensures ParseEntry(segs[i]).Some? ==> ParsedRows(segs[..i + 1]) == ParsedRows(segs[..i]) + [ParseEntry(segs[i]).value]
    ensures ParseEntry(segs[i]).None? ==> ParsedRows(segs[..i + 1]) == ParsedRows(segs[..i])
  {
    assert segs[..i + 1][..i] == segs[..i];
  }

  /** The loop of `handlePDFList` pushing into `parsedStudents`. */
  method ParseStudentList(text: string) returns (students: seq<Row>)
    ensures students == ParsedRows(Segments(text))
  {
    var segs := Segments(text);
    students := [];
    for i := 0 to |segs|
      invariant students == ParsedRows(segs[..i])
    {
      ParsedRowsStep(segs, i);
      var entry := ParseEntry(segs[i]);
      if entry.Some? {
        students := students + [entry.value];
      }
    }
    assert segs[..|segs|] == segs;
  }

  /* ----------------------------- derived values ----------------------------- */

  /** The value of `key` in the row, if the row has it. */
  function Lookup(row: Row, key: string): (r: Option<string>)
    ensures r.Some? ==> (key, r.value) in row
    decreases |row|
  {
    if row == [] then None
    else if row[0].0 == key then Some(row[0].1)
    else Lookup(row[1..], key)
  }

  /** `row[k1] || row[k2] || … || ''`: the first non-empty value among the keys. */
  function FirstSet(row: Row, keys: seq<string>): (r: string)
    ensures r == [] || exists k :: 0 <= k < |keys| && Lookup(row, keys[k]) == Some(r)
    ensures r == [] <==> forall k :: 0 <= k < |keys| ==> Lookup(row, keys[k]).GetOr([]) == []
    ensures r != [] ==> exists k :: (0 <= k < |keys| && Lookup(row, keys[k]) == Some(r)
      && forall j :: 0 <= j < k ==> Lookup(row, keys[j]).GetOr([]) == [])
    decreases |keys|
  {
    if keys == [] then []
    else
      var v := Lookup(row, keys[0]).GetOr([]);
      if v != [] then v
      else
        var r := FirstSet(row, keys[1..]);
        assert forall k :: 0 <= k < |keys[1..]| ==> keys[1..][k] == keys[k + 1];
        assert r != [] ==> exists k :: (1 <= k < |keys| && Lookup(row, keys[k]) == Some(r)
          && forall j :: 0 <= j < k ==> Lookup(row, keys[j]).GetOr([]) == []) by {
          if r != [] {
            var k :| 0 <= k < |keys[1..]| && Lookup(row, keys[1..][k]) == Some(r)
              && forall j :: 0 <= j < k ==> Lookup(row, keys[1..][j]).GetOr([]) == [];
            assert Lookup(row, keys[k + 1]) == Some(r);
            assert forall j :: 0 <= j < k + 1 ==> Lookup(row, keys[j]).GetOr([]) == [] by {
              forall j | 0 < j < k + 1 ensures Lookup(row, keys[j]).GetOr([]) == [] {
                assert keys[j] == keys[1..][j - 1];
              }
            }
          }
        }
        r
  }

  const IdKeys: seq<string> := ["ID", "id"]
  const LastNameKeys: seq<string> := ["Nom", "nom", "Name", "name"]
  const FirstNameKeys: seq<string> := ["Prenom", "prenom", "Prénom", "prénom"]

  function ExplicitLast(row: Row): string { JsTrim(FirstSet(row, LastNameKeys)) }
  function ExplicitFirst(row: Row): string { JsTrim(FirstSet(row, FirstNameKeys)) }

  /**
   * The names of a row: both as given when a first name is given, otherwise the given last
   * name split into its first token and the rest. (The source's one-token branch gives the
   * same result as the split.)
   */
  function RowNames(row: Row): Names {
    var el := ExplicitLast(row);
    var ef := ExplicitFirst(row);
    if ef != [] then Names(el, ef) else SplitName(el)
  }

  /** `rawId.split('').join('  ')`, or `''` without an ID. */
  function SpacedId(rawId: string): string {
    if rawId == [] then []
    else Join(seq(|rawId|, k requires 0 <= k < |rawId| => [rawId[k]]), "  ")
  }

  /** Character `k` of the ID sits at position `3k`, two spaces before the next one. */
  lemma SpacedIdLayout(rawId: string)
    ensures rawId == [] ==> SpacedId(rawId) == []
    ensures rawId != [] ==> |SpacedId(rawId)| == 3 * |rawId| - 2
    ensures forall k :: 0 <= k < |rawId| ==> SpacedId(rawId)[3 * k] == rawId[k]
    ensures forall k :: 0 <= k < |rawId| - 1 ==> SpacedId(rawId)[3 * k + 1 .. 3 * k + 3] == "  "
  {
    if rawId != [] {
      JoinSingles(seq(|rawId|, k requires 0 <= k < |rawId| => [rawId[k]]), "  ");
    }
  }

  datatype Derived = Derived(rawId: string, spacedId: string, names: Names)

  /** The values the process handler derives from a row before filling the form. */
  function Derive(row: Row): Derived {
    var rawId := FirstSet(row, IdKeys);
    Derived(rawId, SpacedId(rawId), RowNames(row))
  }

  /**
   * The derived names: as given when there is a first name; otherwise a single-token last
   * name and a trimmed first name that rejoin to the given last name, spaces collapsed.
   */
  lemma DerivedNames(row: Row)
    ensures ExplicitFirst(row) != [] ==> RowNames(row) == Names(ExplicitLast(row), ExplicitFirst(row))
    ensures ExplicitFirst(row) == [] ==> forall k :: 0 <= k < |RowNames(row).last| ==> !IsJsSpace(RowNames(row).last[k])
    ensures ExplicitFirst(row) == [] && RowNames(row).first == [] ==>
      RowNames(row).last == CollapseBy(ExplicitLast(row), IsJsSpace)
    ensures ExplicitFirst(row) == [] && RowNames(row).first != [] ==>
      RowNames(row).last + " " + RowNames(row).first == CollapseBy(ExplicitLast(row), IsJsSpace)
  {
    TrimByEnds(FirstSet(row, LastNameKeys), IsJsSpace);
    SplitNameParts(ExplicitLast(row));
    SplitNameRejoins(ExplicitLast(row));
  }

  /**
   * A student parsed from the PDF list is filled in with exactly the ID and the names the
   * parser found: the process handler's derivation undoes nothing and changes nothing.
   */
  lemma PdfRowRoundTrip(id: string, name: string)
    requires name == [] || (!IsJsSpace(name[0]) && !IsJsSpace(name[|name| - 1]))
    ensures Derive(PdfRow(id, SplitName(name))) == Derived(id, SpacedId(id), SplitName(name))
  {
    var n := SplitName(name);
    SplitNameParts(name);
    SplitNameRejoins(name);
    PdfRowLookups(id, n);
    TrimByKeeps(n.last, IsJsSpace);
    TrimByKeeps(n.first, IsJsSpace);
    if n.first == [] {
      assert TokenLen(n.last, IsJsSpace) == |n.last|;
      assert SplitRuns(n.last, IsJsSpace) == [n.last];
    }
  }

  /** The three values of a parsed record are found under the keys the handler reads. */
  lemma PdfRowLookups(id: string, n: Names)
    ensures FirstSet(PdfRow(id, n), IdKeys) == id
    ensures FirstSet(PdfRow(id, n), LastNameKeys) == n.last
    ensures FirstSet(PdfRow(id, n), FirstNameKeys) == n.first
  {
    var row := PdfRow(id, n);
    assert row[1..] == [("Nom", n.last), ("Prenom", n.first)];
    assert row[2..] == [("Prenom", n.first)];
    assert row[3..] == [];
    assert Lookup(row, "ID") == Some(id);
    assert Lookup(row, "id") == None;
    assert FirstSet(row, IdKeys[1..]) == [];
    assert Lookup(row, "Nom") == Some(n.last);
    assert Lookup(row, "nom") == None && Lookup(row, "Name") == None && Lookup(row, "name") == None;
    assert FirstSet(row, LastNameKeys[3..]) == [];
    assert FirstSet(row, LastNameKeys[2..]) == [];
    assert FirstSet(row, LastNameKeys[1..]) == [];
    assert Lookup(row[2..], "Prenom") == Some(n.first);
    assert Lookup(row, "Prenom") == Some(n.first);
    assert Lookup(row, "prenom") == None && Lookup(row, "Prénom") == None && Lookup(row, "prénom") == None;
    assert FirstSet(row, FirstNameKeys[3..]) == [];
    assert FirstSet(row, FirstNameKeys[2..]) == [];
    assert FirstSet(row, FirstNameKeys[1..]) == [];
  }

  /** Every student of the list comes from a segment shaped like `^\d+\s+.+$`, its ID the digits. */
  lemma ParsedEntryShape(seg: string)
    requires ParseEntry(seg).Some?
    ensures var t := JsTrim(seg);
      var id := ParseEntry(seg).value[0].1;
      && id != [] && (forall k :: 0 <= k < |id| ==> IsDigit(id[k]))
      && t[..|id|] == id && (exists d, e :: EntryShape(t, d, e))
  {
    TrimByEnds(seg, IsJsSpace);
    EntryMatchIff(JsTrim(seg));
  }

  /* ---------------------------- form-field mapping ---------------------------- */

  /** `w` occurs at `j` between JavaScript word boundaries (`\bw\b`). */
  predicate WholeWordAt(s: string, w: string, j: nat) {
    OccursAt(s, w, j)
    && (j == 0 || !IsWord(s[j - 1]))
    && (j + |w| >= |s| || !IsWord(s[j + |w|]))
  }

  predicate HasWholeWord(s: string, w: string) {
    exists j :: 0 <= j <= |s| && WholeWordAt(s, w, j)
  }

  /** `/\bid\b|identifiant|matricule|num|numero/` on the lower-cased key. */
  predicate IsIdKey(lk: string) {
    HasWholeWord(lk, "id") || Contains(lk, "identifiant") || Contains(lk, "matricule")
    || Contains(lk, "num") || Contains(lk, "numero")
  }

  /** `/prenom|prénom/`. */
  predicate IsFirstNameKey(lk: string) {
    Contains(lk, "prenom") || Contains(lk, "prénom")
  }

  /** `/\bnom\b/` on a key that is not a first-name key. */
  predicate IsLastNameKey(lk: string) {
    HasWholeWord(lk, "nom") && !IsFirstNameKey(lk)
  }

  lemma NotOccursAt(s: string, t: string, j: nat)
    requires t != [] && (j >= |s| || s[j] != t[0])
    ensures !OccursAt(s, t, j)
  {
    if j < |s| && j + |t| <= |s| {
      assert s[j..j + |t|][0] == s[j];
    }
  }

  /** The text written into the form field named `key`, whose row value is `raw`. */
  function FieldValue(key: string, raw: string, d: Derived): (v: string)
    ensures v == d.spacedId || v == d.names.first || v == d.names.last || v == raw
  {
    var lk := LowerLatin(key);
    if IsIdKey(lk) then d.spacedId
    else if IsFirstNameKey(lk) then d.names.first
    else if IsLastNameKey(lk) then d.names.last
    else raw
  }

  /**
   * The key rules for every field name, tried on its lower-cased form in this order: a
   * whole-word "id" or any of "identifiant", "matricule", "num" gives the spaced ID (so
   * "numero" needs no rule of its own); then "prenom" or "prénom" gives the first name;
   * then a whole-word "nom" gives the last name; any other key keeps the row's value.
   */
  lemma FieldValueRules(key: string, raw: string, d: Derived)
    ensures HasWholeWord(LowerLatin(key), "id") || Contains(LowerLatin(key), "identifiant")
      || Contains(LowerLatin(key), "matricule") || Contains(LowerLatin(key), "num")
      ==> FieldValue(key, raw, d) == d.spacedId
    ensures Contains(LowerLatin(key), "numero") ==> Contains(LowerLatin(key), "num")
    ensures !IsIdKey(LowerLatin(key)) && (Contains(LowerLatin(key), "prenom") || Contains(LowerLatin(key), "prénom"))
      ==> FieldValue(key, raw, d) == d.names.first
    ensures !IsIdKey(LowerLatin(key)) && !IsFirstNameKey(LowerLatin(key)) && HasWholeWord(LowerLatin(key), "nom")
      ==> FieldValue(key, raw, d) == d.names.last
    ensures !IsIdKey(LowerLatin(key)) && !IsFirstNameKey(LowerLatin(key)) && !HasWholeWord(LowerLatin(key), "nom")
      ==> FieldValue(key, raw, d) == raw
  {
    var lk := LowerLatin(key);
    if Contains(lk, "numero") {
      var j := IndexOf(lk, "numero", 0).value;
      assert lk[j..j + 3] == lk[j..j + 6][..3];
      assert OccursAt(lk, "num", j);
      assert IndexOf(lk, "num", 0).Some?;
    }
  }

  /** ID-like column names take the spaced ID. */
  lemma IdKeyExamples(raw: string, d: Derived)
    ensures FieldValue("ID", raw, d) == d.spacedId
    ensures FieldValue("Matricule", raw, d) == d.spacedId
    ensures FieldValue("Numéro", raw, d) == d.spacedId
  {
    assert LowerLatin("ID") == "id";
    assert WholeWordAt("id", "id", 0);
    assert LowerLatin("Matricule") == "matricule";
    assert Contains("matricule", "matricule");
    assert LowerLatin("Numéro") == "numéro";
    assert OccursAt("numéro", "num", 0);
  }

  /**
   * "Prénom" holds "nom" as a whole word (é is not a word character) but takes the first
   * name: the first-name rule is tried before the last-name rule and also guards it.
   */
  lemma FirstNameKeyExample(raw: string, d: Derived)
    ensures HasWholeWord(LowerLatin("Prénom"), "nom")
    ensures FieldValue("Prénom", raw, d) == d.names.first
  {
    var p := LowerLatin("Prénom");
    assert p == "prénom";
    assert WholeWordAt(p, "nom", 3);
    NoIdKey(p);
    assert OccursAt(p, "prénom", 0);
  }

  /** "Nom" takes the last name. */
  lemma LastNameKeyExample(raw: string, d: Derived)
    ensures FieldValue("Nom", raw, d) == d.names.last
  {
    var n := LowerLatin("Nom");
    assert n == "nom";
    NoIdKey(n);
    NoFirstNameKey(n);
    assert WholeWordAt(n, "nom", 0);
  }

  /** "nom" glued to a word character is not a last-name key: the row's own value is kept. */
  lemma GluedNomExample(raw: string, d: Derived)
    ensures FieldValue("Nom_famille", raw, d) == raw
  {
    GluedKey();
  }

  lemma GluedKey()
    ensures !IsIdKey(LowerLatin("Nom_famille")) && !IsFirstNameKey(LowerLatin("Nom_famille"))
    ensures !HasWholeWord(LowerLatin("Nom_famille"), "nom")
  {
    var f := LowerLatin("Nom_famille");
    GluedLower();
    GluedPairs(f);
    NoIdKey(f);
    NoFirstNameKey(f);
    GluedNotWord(f);
  }

  lemma GluedLower()
    ensures LowerLatin("Nom_famille") == "nom_famille"
  {
  }

  lemma GluedPairs(f: string)
    requires f == "nom_famille"
    ensures NoPair(f, 'i', 'd') && NoPair(f, 'm', 'a') && NoPair(f, 'n', 'u')
    ensures forall k :: 0 <= k < |f| ==> f[k] != 'p'
  {
  }

  lemma GluedNotWord(f: string)
    requires f == "nom_famille"
    ensures !HasWholeWord(f, "nom")
  {
    forall j | 0 <= j <= |f| ensures !WholeWordAt(f, "nom", j) {
      if j == 0 {
        assert IsWord(f[3]);
      } else {
        NotOccursAt(f, "nom", j);
      }
    }
  }

  /** `s` never has `a` immediately followed by `b`. */
  predicate NoPair(s: string, a: char, b: char) {
    forall k :: 0 <= k && k + 1 < |s| ==> !(s[k] == a && s[k + 1] == b)
  }

  lemma NotOccursAtPair(s: string, t: string, j: nat)
    requires |t| >= 2 && NoPair(s, t[0], t[1])
    ensures !OccursAt(s, t, j)
  {
    if j + |t| <= |s| {
      var w := s[j..j + |t|];
      assert w[0] == s[j] && w[1] == s[j + 1];
    }
  }

  /** A key without the pairs `id`, `ma` and `nu` is not ID-like. */
  lemma NoIdKey(lk: string)
    requires NoPair(lk, 'i', 'd') && NoPair(lk, 'm', 'a') && NoPair(lk, 'n', 'u')
    ensures !IsIdKey(lk)
  {
    forall j | 0 <= j <= |lk|
      ensures !WholeWordAt(lk, "id", j) && !OccursAt(lk, "identifiant", j) && !OccursAt(lk, "matricule", j)
      ensures !OccursAt(lk, "num", j) && !OccursAt(lk, "numero", j)
    {
      NotOccursAtPair(lk, "id", j);
      NotOccursAtPair(lk, "identifiant", j);
      NotOccursAtPair(lk, "matricule", j);
      NotOccursAtPair(lk, "num", j);
      NotOccursAtPair(lk, "numero", j);
    }
  }

  /** A key without `p` is not a first-name key. */
  lemma NoFirstNameKey(lk: string)
    requires forall k :: 0 <= k < |lk| ==> lk[k] != 'p'
    ensures !IsFirstNameKey(lk)
  {
    forall j | 0 <= j <= |lk| ensures !OccursAt(lk, "prenom", j) && !OccursAt(lk, "prénom", j) {
      NotOccursAt(lk, "prenom", j);
      NotOccursAt(lk, "prénom", j);
    }
  }

  /** The fields the `keys.forEach` loop fills: each row key naming a text field of the form. */
  function Filled(row: Row, fields: seq<string>, d: Derived): (m: map<string, string>)
    ensures forall key :: key in m ==> key in fields && exists k :: 0 <= k < |row| && row[k].0 == key
    decreases |row|
  {
    if row == [] then map[]
    else
      var prev := Filled(row[..|row| - 1], fields, d);
      var (key, raw) := row[|row| - 1];
      if key in fields then prev[key := FieldValue(key, raw, d)] else prev
  }

  /** No later pair of the row has the key of pair `k` (always so in a JavaScript object). */
  predicate LastWithKey(row: Row, k: nat)
    requires k < |row|
  {
    forall j :: k < j < |row| ==> row[j].0 != row[k].0
  }

  /** Every row key that names a text field is filled, with the value the key rules give. */
  lemma {:induction false} FilledComplete(row: Row, fields: seq<string>, d: Derived)
    ensures forall k :: 0 <= k < |row| && row[k].0 in fields ==> row[k].0 in Filled(row, fields, d)
    ensures forall k :: 0 <= k < |row| && row[k].0 in fields && LastWithKey(row, k) ==>
      Filled(row, fields, d)[row[k].0] == FieldValue(row[k].0, row[k].1, d)
    decreases |row|
  {
    if row != [] {
      var init := row[..|row| - 1];
      var m := Filled(row, fields, d);
      var prev := Filled(init, fields, d);
      var (key, raw) := row[|row| - 1];
      assert m == if key in fields then prev[key := FieldValue(key, raw, d)] else prev;
      FilledComplete(init, fields, d);
      forall k | 0 <= k < |row| && row[k].0 in fields
        ensures row[k].0 in m
        ensures LastWithKey(row, k) ==> m[row[k].0] == FieldValue(row[k].0, row[k].1, d)
      {
        if k < |row| - 1 {
          assert row[k] == init[k];
          if LastWithKey(row, k) {
            assert LastWithKey(init, k);
            assert row[k].0 != key;
          }
        }
      }
    }
  }

  /** The `keys.forEach` loop over the row's keys. */
  method FillFields(row: Row, fields: seq<string>, d: Derived) returns (filled: map<string, string>)
    ensures filled == Filled(row, fields, d)
  {
    filled := map[];
    for i := 0 to |row|
      invariant filled == Filled(row[..i], fields, d)
    {
      assert row[..i + 1][..i] == row[..i];
      var (key, raw) := row[i];
      if key in fields {
        filled := filled[key := FieldValue(key, raw, d)];
      }
    }
    assert row[..|row|] == row;
  }

  /* ------------------------------ alias fallbacks ------------------------------ */

  const NameAliases: seq<string> := ["Nom", "nom", "Name", "name", "Student", "Étudiant"]
  const IdAliases: seq<string> :=
    ["ID", "id", "Identifiant", "identifiant", "Matricule", "Num", "Numéro", "numero", "Num_identification"]

  /** `/nom|name|student|étudiant/i`: a field name the name scan accepts. */
  predicate IsNameField(f: string) {
    var lf := LowerLatin(f);
    Contains(lf, "nom") || Contains(lf, "name") || Contains(lf, "student") || Contains(lf, "étudiant")
  }

  /** `/identifiant|id|matricule|num|numero/i`: a field name the ID scan accepts. */
  predicate IsIdField(f: string) {
    var lf := LowerLatin(f);
    Contains(lf, "identifiant") || Contains(lf, "id") || Contains(lf, "matricule")
    || Contains(lf, "num") || Contains(lf, "numero")
  }

  /** The first alias, in list order, that names a text field of the form. */
  function FirstAlias(aliases: seq<string>, fields: seq<string>): (r: Option<nat>)
    ensures r.Some? ==> (r.value < |aliases| && aliases[r.value] in fields
      && forall j :: 0 <= j < r.value ==> aliases[j] !in fields)
    ensures r.None? ==> forall j :: 0 <= j < |aliases| ==> aliases[j] !in fields
    decreases |aliases|
  {
    if aliases == [] then None
    else if aliases[0] in fields then Some(0)
    else
      match FirstAlias(aliases[1..], fields)
      case None => None
      case Some(k) =>
        assert forall j :: 0 < j <= k ==> aliases[j] == aliases[1..][j - 1];
        Some(k + 1)
  }

  /** The first text field, in form order, whose name `accepts`. */
  function FirstField(fields: seq<string>, accepts: string -> bool): (r: Option<nat>)
    ensures r.Some? ==> (r.value < |fields| && accepts(fields[r.value])
      && forall j :: 0 <= j < r.value ==> !accepts(fields[j]))
    ensures r.None? ==> forall j :: 0 <= j < |fields| ==> !accepts(fields[j])
    decreases |fields|
  {
    if fields == [] then None
    else if accepts(fields[0]) then Some(0)
    else
      match FirstField(fields[1..], accepts)
      case None => None
      case Some(k) =>
        assert forall j :: 0 < j <= k ==> fields[j] == fields[1..][j - 1];
        Some(k + 1)
  }

  /**
   * The field a fallback writes: the first alias that names a field, else the first field the
   * `getFields()` scan accepts, else none.
   */
  function FallbackTarget(aliases: seq<string>, fields: seq<string>, accepts: string -> bool): (r: Option<string>)
    ensures r.Some? ==> r.value in fields && (r.value in aliases || accepts(r.value))
    ensures forall j :: 0 <= j < |aliases| && aliases[j] in fields ==> r.Some? && r.value in aliases
    ensures r.None? <==> ((forall j :: 0 <= j < |aliases| ==> aliases[j] !in fields)
      && (forall j :: 0 <= j < |fields| ==> !accepts(fields[j])))
  {
    match FirstAlias(aliases, fields)
    case Some(k) => Some(aliases[k])
    case None =>
      match FirstField(fields, accepts)
      case Some(j) => Some(fields[j])
      case None => None
  }

  /** The value of `row.Nom`, `''` when absent. */
  function NomValue(row: Row): string { Lookup(row, "Nom").GetOr([]) }

  /** The value of `row.ID`, `''` when absent. */
  function IdValue(row: Row): string { Lookup(row, "ID").GetOr([]) }

  /**
   * The name fallback: only when the `forEach` loop filled nothing and the row has a `Nom`,
   * that name goes into the first name alias or name-like field.
   */
  function NameFallback(row: Row, fields: seq<string>, m: map<string, string>): (r: map<string, string>)
    ensures m != map[] || NomValue(row) == [] ==> r == m
    ensures m == map[] && NomValue(row) != [] && "Nom" in fields ==> r == map["Nom" := NomValue(row)]
    ensures m.Keys <= r.Keys
    ensures forall f :: f in r && (f !in m || r[f] != m[f]) ==>
      f in fields && r[f] == NomValue(row) && (f in NameAliases || IsNameField(f))
  {
    if m != map[] || NomValue(row) == [] then m
    else
      match FallbackTarget(NameAliases, fields, IsNameField)
      case Some(f) => m[f := NomValue(row)]
      case None => m
  }

  /**
   * The ID fallback, whatever the `forEach` loop filled: when the row has an `ID`, that raw
   * ID goes into the first ID alias or ID-like field.
   */
  function IdFallback(row: Row, fields: seq<string>, m: map<string, string>): (r: map<string, string>)
    ensures IdValue(row) == [] ==> r == m
    ensures IdValue(row) != [] && "ID" in fields ==> r == m["ID" := IdValue(row)]
    ensures m.Keys <= r.Keys
    ensures forall f :: f in r && (f !in m || r[f] != m[f]) ==>
      f in fields && r[f] == IdValue(row) && (f in IdAliases || IsIdField(f))
  {
    if IdValue(row) == [] then m
    else
      match FallbackTarget(IdAliases, fields, IsIdField)
      case Some(f) => m[f := IdValue(row)]
      case None => m
  }

  /** The text written into the form's fields: the `forEach` loop, then both fallbacks. */
  function Completed(row: Row, fields: seq<string>, d: Derived): map<string, string> {
    IdFallback(row, fields, NameFallback(row, fields, Filled(row, fields, d)))
  }

  /** The `forEach` loop fills nothing exactly when no row key names a text field. */
  lemma FilledEmpty(row: Row, fields: seq<string>, d: Derived)
    ensures Filled(row, fields, d) == map[] <==> forall k :: 0 <= k < |row| ==> row[k].0 !in fields
  {
    FilledComplete(row, fields, d);
    var m := Filled(row, fields, d);
    if m != map[] {
      var key :| key in m;
    }
  }

  /**
   * What the form ends with: only text fields are written; every field the `forEach` loop
   * filled stays filled and keeps its value unless the ID fallback rewrites it with the raw
   * ID; the name fallback runs only when no row key names a field; and a form with an "ID"
   * field ends with the raw ID there, not the spaced ID the key rules wrote.
   */
  lemma CompletedFields(row: Row, fields: seq<string>, d: Derived)
    ensures forall f :: f in Completed(row, fields, d) ==> f in fields
    ensures Filled(row, fields, d).Keys <= Completed(row, fields, d).Keys
    ensures forall f :: f in Filled(row, fields, d) && Completed(row, fields, d)[f] != Filled(row, fields, d)[f] ==>
      Completed(row, fields, d)[f] == IdValue(row) && (f in IdAliases || IsIdField(f))
    ensures (exists k :: 0 <= k < |row| && row[k].0 in fields) ==>
      Completed(row, fields, d) == IdFallback(row, fields, Filled(row, fields, d))
    ensures IdValue(row) != [] && "ID" in fields ==> Completed(row, fields, d)["ID"] == IdValue(row)
  {
    var m0 := Filled(row, fields, d);
    var m1 := NameFallback(row, fields, m0);
    FilledEmpty(row, fields, d);
    if m0 != map[] {
      assert m1 == m0;
    } else {
      assert forall f :: f !in m0;
    }
  }

  /** The alias loop: tries each alias in turn and stops at the first that names a text field. */
  method FindAlias(aliases: seq<string>, fields: seq<string>) returns (r: Option<nat>)
    ensures r == FirstAlias(aliases, fields)
  {
    for k := 0 to |aliases|
      invariant forall j :: 0 <= j < k ==> aliases[j] !in fields
    {
      if aliases[k] in fields {
        return Some(k);
      }
    }
    return None;
  }

  /** The `getFields()` scan: stops at the first text field whose name `accepts`. */
  method ScanFields(fields: seq<string>, accepts: string -> bool) returns (r: Option<nat>)
    ensures r == FirstField(fields, accepts)
  {
    for k := 0 to |fields|
      invariant forall j :: 0 <= j < k ==> !accepts(fields[j])
    {
      if accepts(fields[k]) {
        return Some(k);
      }
    }
    return None;
  }

  /** One fallback: the alias loop, then the scan when no alias names a field. */
  method WriteFallback(aliases: seq<string>, fields: seq<string>, accepts: string -> bool, v: string,
                       m: map<string, string>) returns (r: map<string, string>)
    ensures FallbackTarget(aliases, fields, accepts).Some? ==> r == m[FallbackTarget(aliases, fields, accepts).value := v]
    ensures FallbackTarget(aliases, fields, accepts).None? ==> r == m
  {
    r := m;
    var a := FindAlias(aliases, fields);
    if a.Some? {
      r := r[aliases[a.value] := v];
    } else {
      var f := ScanFields(fields, accepts);
      if f.Some? {
        r := r[fields[f.value] := v];
      }
    }
  }

  /** Both fallbacks after the `forEach` loop. */
  method ApplyFallbacks(row: Row, fields: seq<string>, filled: map<string, string>) returns (m: map<string, string>)
    ensures m == IdFallback(row, fields, NameFallback(row, fields, filled))
  {
    m := filled;
    var nom := NomValue(row);
    if filled == map[] && nom != [] {
      m := WriteFallback(NameAliases, fields, IsNameField, nom, m);
    }
    assert m == NameFallback(row, fields, filled);
    var id := IdValue(row);
    if id != [] {
      m := WriteFallback(IdAliases, fields, IsIdField, id, m);
    }
  }

  /* -------------------------------- file names -------------------------------- */

  /** `[\w\d\-]`: the characters a file-name part keeps. */
  predicate IsNameChar(c: char) { IsWord(c) || c == '-' }

  /** `x.trim().replace(/[^\w\d\-]+/g, '_')` (an empty `x` gives `''` either way). */
  function SafePart(x: string): (r: string)
    ensures forall k :: 0 <= k < |r| ==> IsNameChar(r[k])
  {
    ReplaceRuns(JsTrim(x), IsNameChar, '_')
  }

  /** The parts that are not empty, in order. */
  function NonEmpty(parts: seq<string>): (r: seq<string>)
    ensures forall k :: 0 <= k < |r| ==> r[k] != [] && r[k] in parts
    decreases |parts|
  {
    if parts == [] then []
    else (if parts[0] != [] then [parts[0]] else []) + NonEmpty(parts[1..])
  }

  lemma NonEmptyThree(a: string, b: string, c: string)
    ensures NonEmpty([a, b, c]) == (if a != [] then [a] else []) + (if b != [] then [b] else []) + (if c != [] then [c] else [])
  {
    assert [a, b, c][1..] == [b, c];
    assert [b, c][1..] == [c];
    assert [c][1..] == [];
    assert NonEmpty([c]) == (if c != [] then [c] else []) + NonEmpty([]);
    assert NonEmpty([b, c]) == (if b != [] then [b] else []) + NonEmpty([c]);
    assert NonEmpty([a, b, c]) == (if a != [] then [a] else []) + NonEmpty([b, c]);
  }

  /** `etudiant_` and the 1-based position, zero-padded to three digits. */
  function DefaultName(i: nat): string {
    "etudiant_" + PadLeftZeros(NatToString(i + 1), 3) + ".pdf"
  }

  /** The file name of the `i`-th generated sheet (0-based, in selection order). */
  function FileName(n: Names, rawId: string, i: nat): string {
    var parts := NonEmpty([SafePart(n.last), SafePart(n.first), SafePart(rawId)]);
    if parts != [] then Join(parts, "_") + ".pdf" else DefaultName(i)
  }

  /** The `if (safeLast) parts.push(…)` steps and the fallback name. */
  method BuildFileName(n: Names, rawId: string, i: nat) returns (filename: string)
    ensures filename == FileName(n, rawId, i)
  {
    var safeLast := SafePart(n.last);
    var safeFirst := SafePart(n.first);
    var safeId := SafePart(rawId);
    NonEmptyThree(safeLast, safeFirst, safeId);
    if safeLast != [] || safeFirst != [] || safeId != [] {
      var parts: seq<string> := [];
      if safeLast != [] { parts := parts + [safeLast]; }
      if safeFirst != [] { parts := parts + [safeFirst]; }
      if safeId != [] { parts := parts + [safeId]; }
      assert parts == NonEmpty([safeLast, safeFirst, safeId]);
      filename := Join(parts, "_") + ".pdf";
    } else {
      filename := DefaultName(i);
    }
  }

  /** Leading zeros do not change the number a digit string denotes. */
  lemma {:induction false} ParseLeadingZero(s: string)
    requires forall k :: 0 <= k < |s| ==> IsDigit(s[k])
    ensures ParseDigits(['0'] + s) == ParseDigits(s)
    decreases |s|
  {
    if s != [] {
      var z := ['0'] + s;
      assert z[..|z| - 1] == ['0'] + s[..|s| - 1];
      ParseLeadingZero(s[..|s| - 1]);
    }
  }

  lemma {:induction false} ParsePadded(s: string, width: nat)
    requires forall k :: 0 <= k < |s| ==> IsDigit(s[k])
    ensures forall k :: 0 <= k < |PadLeftZeros(s, width)| ==> IsDigit(PadLeftZeros(s, width)[k])
    ensures ParseDigits(PadLeftZeros(s, width)) == ParseDigits(s)
    decreases width - |s|
  {
    if |s| < width {
      ParseLeadingZero(s);
      ParsePadded(['0'] + s, width);
    }
  }

  /**
   * A sheet's file name ends in `.pdf`. With some name or ID, its stem is made of word
   * characters, dashes and underscores only; without, it is `etudiant_` followed by at
   * least three digits that read back as the sheet's 1-based position.
   */
  lemma FileNameShape(n: Names, rawId: string, i: nat)
    ensures var f := FileName(n, rawId, i);
      |f| >= 5 && f[|f| - 4..] == ".pdf"
    ensures var parts := NonEmpty([SafePart(n.last), SafePart(n.first), SafePart(rawId)]);
      var f := FileName(n, rawId, i);
      parts != [] ==> |f| > 4 && forall k :: 0 <= k < |f| - 4 ==> IsNameChar(f[k])
    ensures var parts := NonEmpty([SafePart(n.last), SafePart(n.first), SafePart(rawId)]);
      var digits := PadLeftZeros(NatToString(i + 1), 3);
      parts == [] ==> (FileName(n, rawId, i) == "etudiant_" + digits + ".pdf"
        && |digits| >= 3 && (forall k :: 0 <= k < |digits| ==> IsDigit(digits[k]))
        && ParseDigits(digits) == i + 1)
  {
    var parts := NonEmpty([SafePart(n.last), SafePart(n.first), SafePart(rawId)]);
    var f := FileName(n, rawId, i);
    if parts != [] {
      var stem := Join(parts, "_");
      JoinChars(parts, "_", IsNameChar);
      JoinEnds(parts, "_");
      assert f == stem + ".pdf";
      assert forall k :: 0 <= k < |stem| ==> f[k] == stem[k];
    } else {
      DefaultNameNumber(i);
    }
  }

  function DefaultDigits(i: nat): string {
    PadLeftZeros(NatToString(i + 1), 3)
  }

  /** The default name carries the position as at least three digits that read back as it. */
  lemma DefaultNameNumber(i: nat)
    ensures var f := DefaultName(i);
      |f| >= 16 && f[9..|f| - 4] == DefaultDigits(i)
      && (forall k :: 0 <= k < |DefaultDigits(i)| ==> IsDigit(DefaultDigits(i)[k]))
      && ParseDigits(DefaultDigits(i)) == i + 1
  {
    ParsePadded(NatToString(i + 1), 3);
    ParseNatToString(i + 1);
  }

  /** Two sheets that both fall back to the default name never share it. */
  lemma DefaultNamesDiffer(i: nat, j: nat)
    requires i != j
    ensures DefaultName(i) != DefaultName(j)
  {
    DefaultNameNumber(i);
    DefaultNameNumber(j);
  }

  /* ------------------------------- page state ------------------------------- */

  /** One generated sheet: its file name and the text written into each field. */
  datatype Sheet = Sheet(filename: string, fields: map<string, string>)

  function SheetOf(row: Row, i: nat, fields: seq<string>): Sheet {
    var d := Derive(row);
    Sheet(FileName(d.names, d.rawId, i), Completed(row, fields, d))
  }

  /** `Set.prototype.add`: a new element goes to the end of the insertion order. */
  function Add(sel: seq<nat>, x: nat): seq<nat> {
    if x in sel then sel else sel + [x]
  }

  /** `Set.prototype.delete`. */
  function Remove(sel: seq<nat>, x: nat): (r: seq<nat>)
    ensures forall y :: y in r <==> y in sel && y != x
    ensures |r| <= |sel|
    decreases |sel|
  {
    if sel == [] then []
    else if sel[0] == x then Remove(sel[1..], x)
    else [sel[0]] + Remove(sel[1..], x)
  }

  /** The indices `lo .. hi - 1` added one after the other. */
  function AddRange(sel: seq<nat>, lo: nat, hi: nat): seq<nat>
    requires lo <= hi
    decreases hi - lo
  {
    if lo == hi then sel else AddRange(Add(sel, lo), lo + 1, hi)
  }

  predicate Distinct(sel: seq<nat>) {
    forall i, j :: 0 <= i < j < |sel| ==> sel[i] != sel[j]
  }

  /** Adding a range keeps the old selection in front and ends with every index of the range selected. */
  lemma {:induction false} AddRangeSelects(sel: seq<nat>, lo: nat, hi: nat)
    requires lo <= hi && Distinct(sel)
    ensures Distinct(AddRange(sel, lo, hi))
    ensures forall x :: x in AddRange(sel, lo, hi) <==> x in sel || lo <= x < hi
    ensures |AddRange(sel, lo, hi)| >= |sel| && AddRange(sel, lo, hi)[..|sel|] == sel
    decreases hi - lo
  {
    if lo < hi {
      var next := Add(sel, lo);
      AddKeeps(sel, lo);
      AddRangeSelects(next, lo + 1, hi);
      var r := AddRange(next, lo + 1, hi);
      assert r[..|sel|] == r[..|next|][..|sel|];
    }
  }

  /** One `add` keeps the selection distinct and in front, and selects the new index. */
  lemma AddKeeps(sel: seq<nat>, x: nat)
    requires Distinct(sel)
    ensures Distinct(Add(sel, x))
    ensures forall y :: y in Add(sel, x) <==> y in sel || y == x
    ensures |Add(sel, x)| >= |sel| && Add(sel, x)[..|sel|] == sel
  {
    if x !in sel {
      assert (sel + [x])[..|sel|] == sel;
    }
  }

  lemma RemoveDistinct(sel: seq<nat>, x: nat)
    requires Distinct(sel)
    ensures Distinct(Remove(sel, x))
    decreases |sel|
  {
    if sel != [] {
      var tail := sel[1..];
      assert Distinct(tail);
      RemoveDistinct(tail, x);
      if sel[0] != x {
        var r := Remove(sel, x);
        assert r == [sel[0]] + Remove(tail, x);
        assert sel[0] !in tail;
        assert sel[0] !in Remove(tail, x);
      }
    }
  }

  /**
   * The page's module-level state: whether the template PDF is loaded, the student list,
   * the selected indices (a JavaScript `Set`, kept in insertion order) and the number of
   * check boxes currently shown.
   */
  class Page {
    var templateLoaded: bool
    var students: seq<Row>
    var selected: seq<nat>
    var shown: nat

    /**
     * Every selected index has a check box; when a list is loaded, one box per student
     * (after an unsupported file the list is emptied but the old boxes stay on the page).
     */
    predicate Valid()
      reads this
    {
      Distinct(selected)
      && (forall k :: 0 <= k < |selected| ==> selected[k] < shown)
      && (students == [] || |students| == shown)
    }

    constructor()
      ensures Valid() && !templateLoaded && students == [] && selected == [] && shown == 0
    {
      templateLoaded := false;
      students := [];
      selected := [];
      shown := 0;
    }

    /** `readyCheck`: a template, a non-empty list and at least one selected student. */
    predicate Ready()
      reads this
    {
      templateLoaded && |students| > 0 && |selected| > 0
    }

    /** The template was read from the ZIP (`loaded`) or reading it failed. */
    method SetTemplate(loaded: bool)
      requires Valid()
      modifies this
      ensures Valid() && templateLoaded == loaded
      ensures students == old(students) && selected == old(selected) && shown == old(shown)
    {
      templateLoaded := loaded;
    }

    /** A new list file was chosen: the list is emptied before it is read. */
    method ClearStudents()
      requires Valid()
      modifies this
      ensures Valid() && students == [] && !Ready()
      ensures templateLoaded == old(templateLoaded) && selected == old(selected) && shown == old(shown)
    {
      students := [];
    }

    /** `renderStudentSelection`: one check box per student, all of them selected. */
    method RenderSelection()
      modifies this
      ensures Valid()
      ensures selected == AddRange([], 0, |students|) && shown == |students|
      ensures forall x: nat :: x in selected <==> x < |students|
      ensures templateLoaded == old(templateLoaded) && students == old(students)
    {
      selected := [];
      shown := 0;
      if students == [] {
        AddRangeSelects([], 0, 0);
        return;
      }
      for index := 0 to |students|
        invariant selected == AddRange([], 0, index)
        invariant shown == 0 && students == old(students) && templateLoaded == old(templateLoaded)
      {
        AddRangeExtends([], 0, index);
        selected := Add(selected, index);
      }
      shown := |students|;
      AddRangeSelects([], 0, |students|);
      assert forall k :: 0 <= k < |selected| ==> selected[k] in selected;
    }

    /** The list read from a CSV file (`handleCSV`), then rendered. */
    method LoadRows(rows: seq<Row>)
      modifies this
      ensures Valid() && students == rows && shown == |rows|
      ensures forall x: nat :: x in selected <==> x < |rows|
      ensures templateLoaded == old(templateLoaded)
      ensures Ready() <==> templateLoaded && rows != []
    {
      students := rows;
      RenderSelection();
      if rows != [] {
        assert 0 in selected;
      }
    }

    /** `handlePDFList` after the text is extracted: parse, store, render. */
    method LoadPdfText(text: string)
      modifies this
      ensures Valid() && students == ParsedRows(Segments(text))
      ensures forall x: nat :: x in selected <==> x < |students|
      ensures templateLoaded == old(templateLoaded)
      ensures Ready() <==> templateLoaded && ParsedRows(Segments(text)) != []
    {
      var rows := ParseStudentList(text);
      LoadRows(rows);
    }

    /** The "Tout sélectionner" button. */
    method SelectAll()
      requires Valid()
      modifies this
      ensures Valid()
      ensures selected == AddRange(old(selected), 0, |students|)
      ensures forall x: nat :: x in selected <==> x in old(selected) || x < |students|
      ensures templateLoaded == old(templateLoaded) && students == old(students) && shown == old(shown)
    {
      ghost var start := selected;
      for idx := 0 to |students|
        invariant selected == AddRange(start, 0, idx)
        invariant students == old(students) && shown == old(shown) && templateLoaded == old(templateLoaded)
      {
        AddRangeExtends(start, 0, idx);
        selected := Add(selected, idx);
      }
      AddRangeSelects(start, 0, |students|);
      assert forall k :: 0 <= k < |start| ==> start[k] in start;
      assert forall k :: 0 <= k < |selected| ==> selected[k] in selected;
    }

    /** The "Tout désélectionner" button. */
    method DeselectAll()
      requires Valid()
      modifies this
      ensures Valid() && selected == [] && !Ready()
      ensures templateLoaded == old(templateLoaded) && students == old(students) && shown == old(shown)
    {
      selected := [];
    }

    /** The change handler of the check box of student `index`. */
    method Toggle(index: nat, checked: bool)
      requires Valid() && index < shown
      modifies this
      ensures Valid()
      ensures selected == if checked then Add(old(selected), index) else Remove(old(selected), index)
      ensures forall x :: x in selected <==> if x == index then checked else x in old(selected)
      ensures templateLoaded == old(templateLoaded) && students == old(students) && shown == old(shown)
    {
      if checked {
        selected := Add(selected, index);
      } else {
        RemoveDistinct(selected, index);
        ghost var before := selected;
        selected := Remove(selected, index);
        assert forall k :: 0 <= k < |before| ==> before[k] in before;
        assert forall k :: 0 <= k < |selected| ==> selected[k] in before;
      }
    }

    /**
     * What the process button produces: nothing without a template or a list, otherwise one
     * sheet per selected student, in selection order.
     */
    function Sheets(fields: seq<string>): Option<seq<Sheet>>
      reads this
      requires Valid()
    {
      if !templateLoaded || students == [] then None
      else
        var sel := selected;
        var list := students;
        Some(seq(|sel|, i requires 0 <= i < |sel| => SheetOf(list[sel[i]], i, fields)))
    }

    /** The process handler's loop over the selected students. */
    method Process(fields: seq<string>) returns (r: Option<seq<Sheet>>)
      requires Valid()
      ensures r == Sheets(fields)
      ensures Ready() ==> r.Some? && |r.value| == |selected| > 0
    {
      if !templateLoaded || |students| == 0 {
        return None;
      }
      ghost var spec := Sheets(fields).value;
      var sheets: seq<Sheet> := [];
      for i := 0 to |selected|
        invariant sheets == spec[..i]
      {
        var sheet := ProcessOne(students[selected[i]], i, fields);
        PrefixExtends(spec, i, sheet);
        sheets := sheets + [sheet];
      }
      assert spec[..|selected|] == spec;
      r := Some(sheets);
    }
  }

  lemma AddRangeExtends(sel: seq<nat>, lo: nat, hi: nat)
    requires lo <= hi
    ensures AddRange(sel, lo, hi + 1) == Add(AddRange(sel, lo, hi), hi)
    decreases hi - lo
  {
    if lo < hi {
      AddRangeExtends(Add(sel, lo), lo + 1, hi);
    }
  }

  /** One iteration: derive the names and the ID, fill the fields, name the file. */
  method ProcessOne(row: Row, i: nat, fields: seq<string>) returns (sheet: Sheet)
    ensures sheet == SheetOf(row, i, fields)
  {
    var d := Derive(row);
    var filled := FillFields(row, fields, d);
    filled := ApplyFallbacks(row, fields, filled);
    var filename := BuildFileName(d.names, d.rawId, i);
    sheet := Sheet(filename, filled);
  }
}
