/**
 * `decideType`: the question type from the statement text and the answer items, by
 * ordered rules (no answers → T3; two answers reading true/false → T4; a
 * multiple-selection cue in the statement → T2; otherwise T1). The instrumented engine
 * also gives the reasons.
 */
module Classify {
  import opened Chars
  import opened Patterns
  import opened TextNorm
  import opened Flatten

  datatype QType = T1 | T2 | T3 | T4

  /** `w` occurs at `j` between word boundaries (`\bw\b`, ASCII word characters). */
  predicate WordAt(s: string, w: string, j: nat) {
    OccursAt(s, w, j) && (j == 0 || !IsWord(s[j - 1])) && (j + |w| == |s| || !IsWord(s[j + |w|]))
  }

  predicate HasWord(s: string, w: string) {
    exists j :: 0 <= j <= |s| && WordAt(s, w, j)
  }

  /** The true/false rule on the lower-cased answer texts joined by a space. */
  predicate TrueFalse(joined: string) {
    (HasWord(joined, "vrai") || HasWord(joined, "true"))
    && (HasWord(joined, "faux") || HasWord(joined, "false"))
  }

  /** The plain cues of multiple selection, matched anywhere (no word boundaries). */
  const MultiCues: seq<string> := [
    "plusieurs", "cocher", "cochez", "s\U{E9}lectionnez plusieurs", "choisir deux",
    "deux r\U{E9}ponses", "au moins deux"]

  /** One or more white-space characters, then a digit, from `k` on. */
  predicate SpacesThenDigit(s: string, k: nat) {
    k < |s| && IsUnicodeSpace(s[k])
    && var e := SkipWhile(s, k, IsUnicodeSpace);
    e < |s| && IsDigit(s[e])
  }

  /** `(choisissez|sélectionnez)\s+\d+` somewhere. */
  predicate CountCue(s: string) {
    exists j :: 0 <= j <= |s|
      && ((OccursAt(s, "choisissez", j) && SpacesThenDigit(s, j + 10))
          || (OccursAt(s, "s\U{E9}lectionnez", j) && SpacesThenDigit(s, j + 12)))
  }

  predicate MultiCue(low: string) {
    (exists c :: c in MultiCues && Contains(low, c)) || CountCue(low)
  }

  function Texts(items: seq<Item>): (r: seq<string>)
    ensures |r| == |items|
  {
    seq(|items|, k requires 0 <= k < |items| => items[k].text)
  }

  /** The rule order of `decideType` on the lower-cased statement text and the answer texts. */
  function Classify(low: string, texts: seq<string>): (t: QType)
    ensures t == T3 <==> |texts| == 0
    ensures t == T4 <==> |texts| == 2 && TrueFalse(Lower(Join(texts, " ")))
    ensures t == T2 <==> |texts| != 0 && !(|texts| == 2 && TrueFalse(Lower(Join(texts, " ")))) && MultiCue(low)
    ensures t == T1 <==> |texts| != 0 && !(|texts| == 2 && TrueFalse(Lower(Join(texts, " ")))) && !MultiCue(low)
  {
    if |texts| == 0 then T3
    else if |texts| == 2 && TrueFalse(Lower(Join(texts, " "))) then T4
    else if MultiCue(low) then T2
    else T1
  }

  /** The statement text the rules read: tags stripped, normalised as the engine does, lower-cased. */
  function StatementLow(qHtml: string, e: Engine): string {
    LowerLatin(Normalise(e)(StripTags(qHtml)))
  }

  /** `decideType` of the production engine. */
  function DecideType(qHtml: string, answers: seq<Item>): QType {
    Classify(StatementLow(qHtml, Production), Texts(answers))
  }

  datatype Decision = Decision(qtype: QType, why: seq<string>)

  const NoAnswerReason: string := "0 r\U{E9}ponse \U{2192} T3"
  const TrueFalseReason: string := "Vrai/Faux \U{2192} T4"
  const CueReason: string := "Indice multi-s\U{E9}lection dans l\U{2019}\U{E9}nonc\U{E9}"
  const DefaultReason: string := "Par d\U{E9}faut \U{2192} T1"

  /**
   * The reasoning of the instrumented `decideType` for `n` answers, given whether the
   * answers read true/false and whether the statement holds a cue: the type starts as T1,
   * the first two rules may change it, the cue rule is tried only while it is still T1,
   * and each rule that fires adds its reason; with no reason the default one is given.
   */
  function Reasons(n: nat, trueFalse: bool, cue: bool): (d: Decision)
    ensures |d.why| == 1
    ensures d.why == [DefaultReason] <==> d.qtype == T1
  {
    assert NoAnswerReason != DefaultReason by { assert NoAnswerReason[0] != DefaultReason[0]; }
    assert TrueFalseReason != DefaultReason by { assert TrueFalseReason[0] != DefaultReason[0]; }
    assert CueReason != DefaultReason by { assert CueReason[0] != DefaultReason[0]; }
    assert [] + [CueReason] == [CueReason];
    var first :=
      if n == 0 then Decision(T3, [NoAnswerReason])
      else if n == 2 && trueFalse then Decision(T4, [TrueFalseReason])
      else Decision(T1, []);
    var second :=
      if first.qtype == T1 && cue then Decision(T2, first.why + [CueReason]) else first;
    if second.why == [] then Decision(second.qtype, [DefaultReason]) else second
  }

  /** `decideType` of the instrumented engine. */
  function DecideWithReasons(qHtml: string, answers: seq<Item>): Decision {
    Reasons(|answers|, TrueFalse(Lower(Join(Texts(answers), " "))), MultiCue(StatementLow(qHtml, Instrumented)))
  }

  /**
   * The instrumented rules give the same type as the production rule order; there is
   * exactly one reason, and it is the default one exactly when the type is T1.
   */
  lemma ReasonsAgree(qHtml: string, answers: seq<Item>)
    ensures DecideWithReasons(qHtml, answers).qtype == Classify(StatementLow(qHtml, Instrumented), Texts(answers))
    ensures |DecideWithReasons(qHtml, answers).why| == 1
    ensures DecideWithReasons(qHtml, answers).why == [DefaultReason] <==> DecideWithReasons(qHtml, answers).qtype == T1
  {
    var low := StatementLow(qHtml, Instrumented);
    var texts := Texts(answers);
    RulesAgree(low, texts);
  }

  lemma RulesAgree(low: string, texts: seq<string>)
    ensures Reasons(|texts|, TrueFalse(Lower(Join(texts, " "))), MultiCue(low)).qtype == Classify(low, texts)
  {
  }

  /** Two answers reading "Vrai" and "Faux" make a true/false question. */
  lemma VraiFauxIsT4(low: string)
    ensures Classify(low, ["Vrai", "Faux"]) == T4
  {
    var joined := Lower(Join(["Vrai", "Faux"], " "));
    assert Join(["Vrai", "Faux"], " ") == "Vrai Faux";
    assert joined == "vrai faux";
    assert WordAt(joined, "vrai", 0);
    assert WordAt(joined, "faux", 5);
  }

  /** The words must stand alone: "vraiment" does not count as "vrai". */
  lemma WordNeedsBoundary()
    ensures !WordAt("vraiment", "vrai", 0)
  {
    assert "vraiment"[4] == 'm';
  }
}
