/**
 * The CSV to Moodle conversion of `QCM/index.php`: the text wrapping of `wrap_html_or_text`
 * and the line, row and answer rules of the conversion loop. The field splitter
 * (`str_getcsv` with `;`) is a parameter; the XML document itself is not built.
 */
module MoodleCsv {
  import opened Chars

  const EmptyPara := "<p dir=\"ltr\"></p>"
  const ParaOpen := "<p dir=\"ltr\">"
  const ParaClose := "</p>"

  /** A match of `<[^>]+>` starts at `i`: `<`, at least one other character, then `>`. */
  predicate TagAt(s: string, i: nat) {
    i + 1 < |s| && s[i] == '<' && s[i + 1] != '>' && '>' in s[i + 2..]
  }

  predicate HasTag(s: string) {
    exists i :: 0 <= i < |s| && TagAt(s, i)
  }

  /**
   * `wrap_html_or_text`: blank text gives an empty paragraph, text holding a tag is kept
   * (trimmed), anything else is escaped into a paragraph.
   */
  function Wrap(text: string): (r: string)
    ensures r != []
  {
    var t := Trim(text);
    if t == [] then EmptyPara
    else if HasTag(t) then t
    else ParaOpen + HtmlEscape(t) + ParaClose
  }

  /** The three cases of `wrap_html_or_text`, by the trimmed text. */
  lemma WrapCases(text: string)
    ensures Trim(text) == [] ==> Wrap(text) == EmptyPara
    ensures Trim(text) != [] && HasTag(Trim(text)) ==> Wrap(text) == Trim(text)
    ensures Trim(text) != [] && !HasTag(Trim(text)) ==>
      Wrap(text) == ParaOpen + HtmlEscape(Trim(text)) + ParaClose
  {
  }

  /** Text without markup comes back out of the paragraph unchanged (up to trimming). */
  lemma WrapTextRoundTrip(text: string)
    requires Trim(text) != [] && !HasTag(Trim(text))
    ensures var r := Wrap(text);
      && r[..|ParaOpen|] == ParaOpen && r[|r| - |ParaClose|..] == ParaClose
      && HtmlUnescape(r[|ParaOpen|..|r| - |ParaClose|]) == Trim(text)
  {
    var e := HtmlEscape(Trim(text));
    var r := Wrap(text);
    assert r[|ParaOpen|..|r| - |ParaClose|] == e;
    UnescapeEscape(Trim(text));
  }

  lemma TrimIdempotent(s: string)
    ensures Trim(Trim(s)) == Trim(s)
  {
    TrimByEnds(s, IsTrimChar);
    if Trim(s) != [] {
      TrimByKeeps(Trim(s), IsTrimChar);
    }
  }

  /** A paragraph opening is a tag. */
  lemma ParaHasTag(body: string)
    ensures HasTag(ParaOpen + body + ParaClose)
  {
    var r := ParaOpen + body + ParaClose;
    assert r[0] == '<' && r[1] == 'p';
    assert r[|ParaOpen| - 1] == '>';
    assert '>' in r[2..];
    assert TagAt(r, 0);
  }

  lemma EmptyParaHasTag()
    ensures HasTag(EmptyPara)
  {
    assert EmptyPara == ParaOpen + [] + ParaClose;
    ParaHasTag([]);
  }

  /** Wrapping is idempotent: a wrapped text is kept as it is by a second wrap. */
  lemma WrapIdempotent(text: string)
    ensures Wrap(Wrap(text)) == Wrap(text)
  {
    var t := Trim(text);
    var r := Wrap(text);
    if t == [] {
      EmptyParaHasTag();
      TrimByKeeps(EmptyPara, IsTrimChar);
    } else if HasTag(t) {
      TrimIdempotent(text);
    } else {
      ParaHasTag(HtmlEscape(t));
      assert r[0] == '<' && r[|r| - 1] == '>';
      TrimByKeeps(r, IsTrimChar);
    }
  }

  /* --------------------------- the conversion loop --------------------------- */

  /** `explode(PHP_EOL, …)` with a `\n` line ending. */
  function SplitNewlines(s: string): (r: seq<string>)
    ensures |r| >= 1
    ensures forall k :: 0 <= k < |r| ==> '\n' !in r[k]
    decreases |s|
  {
    var i := LeadingCount(s, c => c != '\n');
    if i == |s| then [s] else [s[..i]] + SplitNewlines(s[i + 1..])
  }

  /** The `array_filter` of the lines: the blank ones (after `trim`) are dropped. */
  function NonBlank(lines: seq<string>): (r: seq<string>)
    ensures |r| <= |lines|
    ensures forall k :: 0 <= k < |r| ==> Trim(r[k]) != []
    ensures forall k :: 0 <= k < |r| ==> r[k] in lines
    ensures forall k :: 0 <= k < |lines| && Trim(lines[k]) != [] ==> lines[k] in r
    decreases |lines|
  {
    if lines == [] then []
    else
      var prev := NonBlank(lines[..|lines| - 1]);
      assert forall k :: 0 <= k < |lines| - 1 ==> lines[..|lines| - 1][k] == lines[k];
      if Trim(lines[|lines| - 1]) != [] then prev + [lines[|lines| - 1]] else prev
  }

  /** A single line is kept iff it is not blank. */
  lemma NonBlankOne(l: string)
    ensures NonBlank([l]) == if Trim(l) != [] then [l] else []
  {
    assert [l][..0] == [];
  }

  /** The filter keeps order: the lines of `a` come out before those of `b`. */
  lemma {:induction false} NonBlankAppend(a: seq<string>, b: seq<string>)
    ensures NonBlank(a + b) == NonBlank(a) + NonBlank(b)
    decreases |b|
  {
    if b == [] {
      assert a + b == a;
    } else {
      var b' := b[..|b| - 1];
      var x := b[|b| - 1];
      assert (a + b)[..|a + b| - 1] == a + b' && (a + b)[|a + b| - 1] == x;
      NonBlankAppend(a, b');
      if Trim(x) != [] {
        calc {
          NonBlank(a + b);
          NonBlank(a + b') + [x];
          NonBlank(a) + (NonBlank(b') + [x]);
          NonBlank(a) + NonBlank(b);
        }
      } else {
        calc {
          NonBlank(a + b);
          NonBlank(a + b');
          NonBlank(a) + NonBlank(b');
          NonBlank(a) + NonBlank(b);
        }
      }
    }
  }

  datatype Answer = Answer(fraction: string, text: string, feedback: string)

  /** One Moodle multiple-choice question: the columns it uses and its four answers. */
  datatype MoodleQuestion = MoodleQuestion(
    id: string, title: string, questionText: string, penalty: string, answers: seq<Answer>)

  /** Answer `i` of a row: text in column `4 + 2i`, feedback in the next; the first is right. */
  function AnswerOf(fields: seq<string>, i: nat): Answer
    requires |fields| >= 12 && i < 4
  {
    Answer(if i == 0 then "100" else "0", Wrap(fields[4 + 2 * i]), Wrap(fields[5 + 2 * i]))
  }

  function AnswersOf(fields: seq<string>): (r: seq<Answer>)
    requires |fields| >= 12
  {
    seq(4, i requires 0 <= i < 4 => AnswerOf(fields, i))
  }

  /** The question a row of at least 12 fields yields; further fields are ignored. */
  function QuestionOf(fields: seq<string>): MoodleQuestion
    requires |fields| >= 12
  {
    MoodleQuestion(fields[0], fields[1], Wrap(fields[2]), fields[3], AnswersOf(fields))
  }

  /** The questions of the data rows: rows with fewer than 12 fields are skipped. */
  function RowQuestions(rows: seq<string>, split: string -> seq<string>): (r: seq<MoodleQuestion>)
    ensures |r| <= |rows|
    decreases |rows|
  {
    if rows == [] then []
    else
      var prev := RowQuestions(rows[..|rows| - 1], split);
      var fields := split(rows[|rows| - 1]);
      if |fields| >= 12 then prev + [QuestionOf(fields)] else prev
  }

  /** The rows accepted by the loop, in order. */
  function Accepted(rows: seq<string>, split: string -> seq<string>): (r: seq<string>)
    ensures forall k :: 0 <= k < |r| ==> |split(r[k])| >= 12
    ensures forall k :: 0 <= k < |rows| && |split(rows[k])| >= 12 ==> rows[k] in r
    decreases |rows|
  {
    if rows == [] then []
    else
      var prev := Accepted(rows[..|rows| - 1], split);
      assert forall k :: 0 <= k < |rows| - 1 ==> rows[..|rows| - 1][k] == rows[k];
      if |split(rows[|rows| - 1])| >= 12 then prev + [rows[|rows| - 1]] else prev
  }

  /** A single row is accepted iff it splits into at least 12 fields. */
  lemma AcceptedOne(l: string, split: string -> seq<string>)
    ensures Accepted([l], split) == if |split(l)| >= 12 then [l] else []
  {
    assert [l][..0] == [];
  }

  /** The loop keeps order: the rows of `a` come out before those of `b`. */
  lemma {:induction false} AcceptedAppend(a: seq<string>, b: seq<string>, split: string -> seq<string>)
    ensures Accepted(a + b, split) == Accepted(a, split) + Accepted(b, split)
    decreases |b|
  {
    if b == [] {
      assert a + b == a;
    } else {
      var b' := b[..|b| - 1];
      var x := b[|b| - 1];
      assert (a + b)[..|a + b| - 1] == a + b' && (a + b)[|a + b| - 1] == x;
      AcceptedAppend(a, b', split);
      if |split(x)| >= 12 {
        calc {
          Accepted(a + b, split);
          Accepted(a + b', split) + [x];
          Accepted(a, split) + (Accepted(b', split) + [x]);
          Accepted(a, split) + Accepted(b, split);
        }
      } else {
        calc {
          Accepted(a + b, split);
          Accepted(a + b', split);
          Accepted(a, split) + Accepted(b', split);
          Accepted(a, split) + Accepted(b, split);
        }
      }
    }
  }

  /**
   * The conversion of a pasted CSV text: `None` when fewer than two non-blank lines remain
   * (the request dies), otherwise the header line is dropped and each data row is converted.
   */
  function Convert(csv: string, split: string -> seq<string>): (r: Option<seq<MoodleQuestion>>)
    ensures r.None? <==> |NonBlank(SplitNewlines(csv))| < 2
  {
    var lines := NonBlank(SplitNewlines(csv));
    if |lines| < 2 then None else Some(RowQuestions(lines[1..], split))
  }

  /**
   * One question per accepted row, in order: it takes the row's columns, has four answers,
   * the first with fraction 100 and the others 0, each answer and feedback wrapped.
   */
  lemma {:induction false} OneQuestionPerRow(rows: seq<string>, split: string -> seq<string>)
    ensures |RowQuestions(rows, split)| == |Accepted(rows, split)|
    ensures forall k :: 0 <= k < |Accepted(rows, split)| ==>
      RowQuestions(rows, split)[k] == QuestionOf(split(Accepted(rows, split)[k]))
    decreases |rows|
  {
    if rows != [] {
      OneQuestionPerRow(rows[..|rows| - 1], split);
    }
  }

  /** The answers of every question: four, fractions 100, 0, 0, 0, from columns 4 to 11. */
  lemma AnswerRules(fields: seq<string>)
    requires |fields| >= 12
    ensures |QuestionOf(fields).answers| == 4
    ensures QuestionOf(fields).answers[0].fraction == "100"
    ensures forall i :: 1 <= i < 4 ==> QuestionOf(fields).answers[i].fraction == "0"
    ensures forall i :: 0 <= i < 4 ==>
      QuestionOf(fields).answers[i].text == Wrap(fields[4 + 2 * i])
      && QuestionOf(fields).answers[i].feedback == Wrap(fields[5 + 2 * i])
  {
    forall i | 0 <= i < 4
      ensures QuestionOf(fields).answers[i] == Answer(if i == 0 then "100" else "0", Wrap(fields[4 + 2 * i]), Wrap(fields[5 + 2 * i]))
    {
      AnswersOfAt(fields, i);
    }
  }

  lemma AnswersOfAt(fields: seq<string>, i: nat)
    requires |fields| >= 12 && i < 4
    ensures |AnswersOf(fields)| == 4
    ensures AnswersOf(fields)[i] == Answer(if i == 0 then "100" else "0", Wrap(fields[4 + 2 * i]), Wrap(fields[5 + 2 * i]))
  {
  }

  /** The `for ($i = 0; $i < 4; $i++)` loop building the answers of a row. */
  method BuildAnswers(fields: seq<string>) returns (answers: seq<Answer>)
    requires |fields| >= 12
    ensures answers == AnswersOf(fields)
  {
    ghost var spec := AnswersOf(fields);
    answers := [];
    for i := 0 to 4
      invariant answers == spec[..i]
    {
      var text := Wrap(fields[4 + 2 * i]);
      var feedback := Wrap(fields[5 + 2 * i]);
      var a := Answer(if i == 0 then "100" else "0", text, feedback);
      AnswersOfAt(fields, i);
      PrefixExtends(spec, i, a);
      answers := answers + [a];
    }
    assert spec[..4] == spec;
  }

  /** The `array_filter` step over the exploded lines. */
  method FilterLines(lines: seq<string>) returns (kept: seq<string>)
    ensures kept == NonBlank(lines)
  {
    kept := [];
    for i := 0 to |lines|
      invariant kept == NonBlank(lines[..i])
    {
      assert lines[..i + 1][..i] == lines[..i];
      if Trim(lines[i]) != [] {
        kept := kept + [lines[i]];
      }
    }
    assert lines[..|lines|] == lines;
  }

  lemma RowQuestionsStep(rows: seq<string>, i: nat, split: string -> seq<string>)
    requires i < |rows|
    ensures |split(rows[i])| >= 12 ==>
      RowQuestions(rows[..i + 1], split) == RowQuestions(rows[..i], split) + [QuestionOf(split(rows[i]))]
    ensures |split(rows[i])| < 12 ==> RowQuestions(rows[..i + 1], split) == RowQuestions(rows[..i], split)
  {
    assert rows[..i + 1][..i] == rows[..i];
  }

  /** The POST handler without the XML: the questions and the `$count` of accepted rows. */
  method ConvertCsv(csv: string, split: string -> seq<string>) returns (r: Option<seq<MoodleQuestion>>, count: nat)
    ensures r == Convert(csv, split)
    ensures r.Some? ==> count == |r.value|
  {
    var lines := FilterLines(SplitNewlines(csv));
    if |lines| < 2 {
      return None, 0;
    }
    var rows := lines[1..];
    var questions: seq<MoodleQuestion> := [];
    count := 0;
    for i := 0 to |rows|
      invariant questions == RowQuestions(rows[..i], split)
      invariant count == |questions|
    {
      var fields := split(rows[i]);
      RowQuestionsStep(rows, i, split);
      if |fields| < 12 {
        continue;
      }
      count := count + 1;
      var answers := BuildAnswers(fields);
      questions := questions + [MoodleQuestion(fields[0], fields[1], Wrap(fields[2]), fields[3], answers)];
    }
    assert rows[..|rows|] == rows;
    r := Some(questions);
  }
}
