/**
 * Splitting a question segment into its statement zone and its answers zone: the
 * answers start at the first `<ol type="a">` opening tag and stop at the points
 * paragraph. The production engine then trims list markup left around the cut.
 */
module Zones {
  import opened Chars
  import opened Patterns
  import opened Segmenter

  /** Answers opening: an `<ol>` tag with `type=a` (any case). */
  const OlAlpha: Matcher := Scan(OlOpen(TypeIs('a')))

  /**
   * The patterns an engine scans with: the question opening, the points paragraph and the
   * answers opening. The engines differ only in the points paragraph they accept.
   */
  datatype Scanners = Scanners(open: Matcher, close: Matcher, alpha: Matcher)

  const ProductionScanners: Scanners := Scanners(Ol1, Points(false), OlAlpha)
  const InstrumentedScanners: Scanners := Scanners(Ol1, Points(true), OlAlpha)

  datatype Zones = Zones(question: string, answers: string, pStart: nat, firstA: Option<nat>)

  function HitPos(h: Option<Hit>): Option<nat> {
    match h
    case Some(x) => Some(x.pos)
    case None => None
  }

  /**
   * The cut without cosmetics (`splitZonesFromFull`, and the first half of `splitZones`):
   * `pStart` is the first closing paragraph or the length of the segment, `firstA` the
   * first answers opening wherever it is.
   */
  function SplitRaw(full: string, close: Matcher, alpha: Matcher): (z: Zones)
    ensures z.pStart <= |full|
    ensures z.question + z.answers == full[..z.pStart]
    ensures Find(close, full, 0).None? ==> z.pStart == |full|
    ensures Find(close, full, 0).Some? ==> z.pStart == Find(close, full, 0).value.pos
    ensures z.firstA == HitPos(Find(alpha, full, 0))
    ensures z.answers != [] <==> z.firstA.Some? && z.firstA.value < z.pStart
    ensures z.answers != [] ==> z.question == full[..z.firstA.value] && z.answers == full[z.firstA.value..z.pStart]
    ensures z.answers == [] ==> z.question == full[..z.pStart]
  {
    var pStart := match Find(close, full, 0) case Some(h) => h.pos case None => |full|;
    var firstA := HitPos(Find(alpha, full, 0));
    if firstA.Some? && firstA.value < pStart then
      assert full[..firstA.value] + full[firstA.value..pStart] == full[..pStart];
      Zones(full[..firstA.value], full[firstA.value..pStart], pStart, firstA)
    else
      Zones(full[..pStart], [], pStart, firstA)
  }

  /** End of a leading `\s* <ol …> \s* <li …>` (any case), if the text starts that way. */
  function ListOpenPrefix(q: string): (r: Option<nat>)
    ensures r.Some? ==> 0 < r.value <= |q|
  {
    var k := SkipSpace(q, 0);
    match TagOpenAt(q, k, "ol")
    case None => None
    case Some(g) =>
      var k2 := SkipSpace(q, g);
      TagOpenAt(q, k2, "li")
  }

  /** After position `k`, the end of the longest run of `</li> \s* </ol> \s*` groups. */
  function ClosePairsFrom(a: string, k: nat): (e: nat)
    requires k <= |a|
    ensures k <= e <= |a|
    decreases |a| - k
  {
    if OccursAtCI(a, "</li>", k) then
      OccursAtCIBound(a, "</li>", k);
      var k1 := SkipSpace(a, k + 5);
      if OccursAtCI(a, "</ol>", k1) then
        OccursAtCIBound(a, "</ol>", k1);
        ClosePairsFrom(a, SkipSpace(a, k1 + 5))
      else k
    else k
  }

  /** End of a leading `\s* (</li> \s* </ol> \s*)+` (any case), if the text starts that way. */
  function ClosePairsPrefix(a: string): (r: Option<nat>)
    ensures r.Some? ==> 0 < r.value <= |a|
  {
    var k := SkipSpace(a, 0);
    var e := ClosePairsFrom(a, k);
    if e == k then None else Some(e)
  }

  /** Statement cosmetics: drop a leading list/item opening, then `ltrim`. */
  function TidyStatement(q: string): (r: string)
    ensures |r| <= |q| && r == q[|q| - |r|..]
  {
    var q1 := match ListOpenPrefix(q) case Some(e) => q[e..] case None => q;
    var n := LeadingCount(q1, IsTrimChar);
    assert q1[n..] == q[|q| - |q1[n..]|..];
    q1[n..]
  }

  /** Answers cosmetics: drop a leading run of list/item closings. */
  function TidyAnswers(a: string): (r: string)
    ensures |r| <= |a| && r == a[|a| - |r|..]
  {
    match ClosePairsPrefix(a)
    case Some(e) => a[e..]
    case None => a
  }

  /** Without a leading list opening, the statement is only left-trimmed. */
  lemma TidyStatementPlain(q: string)
    requires ListOpenPrefix(q).None?
    ensures TidyStatement(q) == LTrim(q)
  {
  }

  /** The answers zone is left alone exactly when it does not start with a list closing. */
  lemma TidyAnswersKeeps(a: string)
    ensures TidyAnswers(a) == a <==> ClosePairsPrefix(a).None?
  {
  }

  /**
   * `splitZones` of the production engine (used with `Points(false)` and `OlAlpha`): the
   * raw cut, `firstA` reported only when it precedes the points paragraph, then the
   * cosmetics, which only ever remove a prefix of each zone.
   */
  function SplitZones(full: string, close: Matcher, alpha: Matcher): (z: Zones)
    ensures z.pStart == SplitRaw(full, close, alpha).pStart
    ensures z.firstA.Some? <==> SplitRaw(full, close, alpha).answers != []
    ensures z.firstA.Some? ==> z.firstA == SplitRaw(full, close, alpha).firstA
    ensures z.question == TidyStatement(SplitRaw(full, close, alpha).question)
    ensures z.answers == TidyAnswers(SplitRaw(full, close, alpha).answers)
  {
    var raw := SplitRaw(full, close, alpha);
    Zones(TidyStatement(raw.question), TidyAnswers(raw.answers), raw.pStart,
          if raw.answers != [] then raw.firstA else None)
  }

  /**
   * Where the zones lie in the segment: the statement ends at the answers opening (or at
   * the points paragraph when there are no answers), and the answers end at the points
   * paragraph.
   */
  lemma SplitZonesInFull(full: string, close: Matcher, alpha: Matcher)
    ensures var z := SplitZones(full, close, alpha);
      z.pStart <= |full|
      && (z.firstA.Some? ==>
            z.firstA.value < z.pStart
            && |z.question| <= z.firstA.value && z.question == full[z.firstA.value - |z.question|..z.firstA.value]
            && |z.answers| <= z.pStart - z.firstA.value && z.answers == full[z.pStart - |z.answers|..z.pStart])
      && (z.firstA.None? ==>
            z.answers == [] && |z.question| <= z.pStart && z.question == full[z.pStart - |z.question|..z.pStart])
  {
    SplitRawIn(full, close, alpha);
    SplitZonesTidied(full, close, alpha);
    TidyInFull(full, SplitRaw(full, close, alpha), SplitZones(full, close, alpha));
  }

  lemma SplitRawIn(full: string, close: Matcher, alpha: Matcher)
    ensures RawIn(full, SplitRaw(full, close, alpha))
  {
    var raw := SplitRaw(full, close, alpha);
    assert raw.answers != [] ==> raw.firstA.Some? && raw.firstA.value < raw.pStart;
  }

  lemma SplitZonesTidied(full: string, close: Matcher, alpha: Matcher)
    ensures TidiedFrom(SplitRaw(full, close, alpha), SplitZones(full, close, alpha))
  {
    var raw := SplitRaw(full, close, alpha);
    var z := SplitZones(full, close, alpha);
    assert z.question == TidyStatement(raw.question);
    assert z.answers == TidyAnswers(raw.answers);
  }

  /** `r` is a suffix of `q`. */
  predicate SuffixOf(r: string, q: string) {
    |r| <= |q| && r == q[|q| - |r|..]
  }

  /** Where the raw zones lie in the segment. */
  predicate RawIn(full: string, raw: Zones) {
    && raw.pStart <= |full|
    && (raw.answers != [] ==>
          raw.firstA.Some? && raw.firstA.value < raw.pStart
          && raw.question == full[..raw.firstA.value] && raw.answers == full[raw.firstA.value..raw.pStart])
    && (raw.answers == [] ==> raw.question == full[..raw.pStart])
  }

  /** `z` keeps the cut of `raw` and a suffix of each of its zones. */
  predicate TidiedFrom(raw: Zones, z: Zones) {
    && z.pStart == raw.pStart
    && (z.firstA.Some? <==> raw.answers != [])
    && (z.firstA.Some? ==> z.firstA == raw.firstA)
    && SuffixOf(z.question, raw.question)
    && SuffixOf(z.answers, raw.answers)
  }

  /** Tidying keeps suffixes, so the tidied zones end where the raw zones end. */
  lemma TidyInFull(full: string, raw: Zones, z: Zones)
    requires RawIn(full, raw) && TidiedFrom(raw, z)
    ensures z.pStart <= |full|
    ensures z.firstA.Some? ==>
      z.firstA.value < z.pStart
      && |z.question| <= z.firstA.value && z.question == full[z.firstA.value - |z.question|..z.firstA.value]
      && |z.answers| <= z.pStart - z.firstA.value && z.answers == full[z.pStart - |z.answers|..z.pStart]
    ensures z.firstA.None? ==>
      z.answers == [] && |z.question| <= z.pStart && z.question == full[z.pStart - |z.question|..z.pStart]
  {
    if raw.answers != [] {
      SuffixOfSlice(full, raw.question, z.question, 0, raw.firstA.value);
      SuffixOfSlice(full, raw.answers, z.answers, raw.firstA.value, raw.pStart);
    } else {
      SuffixOfSlice(full, raw.question, z.question, 0, raw.pStart);
    }
  }

  /** A suffix of a slice is the slice ending at the same place. */
  lemma SuffixOfSlice(full: string, q: string, r: string, m: nat, n: nat)
    requires m <= n <= |full| && q == full[m..n] && SuffixOf(r, q)
    ensures |r| <= n - m && r == full[n - |r|..n]
  {
  }
}
