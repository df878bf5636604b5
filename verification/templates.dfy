/**
 * `Templates`: rendering one question record through an HTML template whose
 * `{{ placeholder }}` tags are replaced by `strtr`. The template files are an abstract
 * store (a map from sanitised name to content).
 */
module Templates {
  import opened Chars

  /* --------------------------------- names --------------------------------- */

  /** The characters `sanitizeName` keeps: `[A-Za-z0-9_-]`. */
  predicate IsNameChar(c: char) { IsAlnum(c) || c == '_' || c == '-' }

  /** The characters of a sanitised name: `[A-Z0-9_-]`. */
  predicate IsCleanChar(c: char) { 'A' <= c <= 'Z' || IsDigit(c) || c == '_' || c == '-' }

  /**
   * `sanitizeName`: the name characters, upper-cased; `''` and `'Q1'` become `'T1'`
   * (a missing name counts as `''`).
   */
  function SanitizeName(name: Option<string>): (r: string)
    ensures r != [] && r != "Q1"
    ensures forall k :: 0 <= k < |r| ==> IsCleanChar(r[k])
    ensures r == "T1" || r == Upper(Filter(name.GetOr([]), IsNameChar))
    ensures Upper(Filter(name.GetOr([]), IsNameChar)) != [] && Upper(Filter(name.GetOr([]), IsNameChar)) != "Q1"
      ==> r == Upper(Filter(name.GetOr([]), IsNameChar))
  {
    var kept := Upper(Filter(name.GetOr([]), IsNameChar));
    if kept == "Q1" || kept == [] then "T1" else kept
  }

  lemma {:induction false} FilterAll(s: string, p: char -> bool)
    requires forall k :: 0 <= k < |s| ==> p(s[k])
    ensures Filter(s, p) == s
    decreases |s|
  {
    if s != [] {
      FilterAll(s[1..], p);
    }
  }

  /** Sanitising a sanitised name changes nothing. */
  lemma SanitizeIdempotent(name: Option<string>)
    ensures SanitizeName(Some(SanitizeName(name))) == SanitizeName(name)
  {
    var r := SanitizeName(name);
    FilterAll(r, IsNameChar);
    assert Upper(r) == r;
  }

  /* ----------------------------- placeholder docs ----------------------------- */

  /** One documented placeholder; `types` restricts it to some question types. */
  datatype Doc = Doc(tag: string, types: Option<seq<string>>)

  const AnswerTypes: seq<string> := ["T1", "T2", "T4"]

  /** The ten documented placeholders, in order (their French descriptions left out). */
  const AllDocs: seq<Doc> := [
    Doc(Tag("template_name"), None),
    Doc(Tag("question_type"), None),
    Doc(Tag("question_index"), None),
    Doc(Tag("statement_html"), None),
    Doc(Tag("statement_text"), None),
    Doc(Tag("images"), None),
    Doc(Tag("answers_list"), Some(AnswerTypes)),
    Doc(Tag("answers_items"), Some(AnswerTypes)),
    Doc(Tag("answers_count"), None),
    Doc(Tag("answers_letters"), Some(AnswerTypes))
  ]

  predicate Applies(d: Doc, t: string) { d.types.None? || t in d.types.value }

  /** `array_values(array_filter(...))`: the entries that apply to `t`, in order. */
  function KeepDocs(docs: seq<Doc>, t: string): (r: seq<Doc>)
    ensures |r| <= |docs|
    ensures forall d :: d in r <==> d in docs && Applies(d, t)
    decreases |docs|
  {
    if docs == [] then []
    else (if Applies(docs[0], t) then [docs[0]] else []) + KeepDocs(docs[1..], t)
  }

  /** A single entry is kept iff it applies. */
  lemma KeepDocsOne(d: Doc, t: string)
    ensures KeepDocs([d], t) == if Applies(d, t) then [d] else []
  {
    assert [d][1..] == [];
  }

  /** The filter keeps order and multiplicity: the entries of `a` come out before those of `b`. */
  lemma {:induction false} KeepDocsAppend(a: seq<Doc>, b: seq<Doc>, t: string)
    ensures KeepDocs(a + b, t) == KeepDocs(a, t) + KeepDocs(b, t)
    decreases |a|
  {
    if a == [] {
      assert a + b == b;
    } else {
      assert (a + b)[0] == a[0] && (a + b)[1..] == a[1..] + b;
      KeepDocsAppend(a[1..], b, t);
    }
  }

  /** `placeholderDocs`: every entry without a type, else those for the sanitised type. */
  function PlaceholderDocs(t: Option<string>): seq<Doc> {
    if t.None? then AllDocs else KeepDocs(AllDocs, SanitizeName(t))
  }

  /** The unrestricted entries of `docs`, in order. */
  function Unrestricted(docs: seq<Doc>): seq<Doc>
    decreases |docs|
  {
    if docs == [] then []
    else (if docs[0].types.None? then [docs[0]] else []) + Unrestricted(docs[1..])
  }

  /**
   * Without a type all ten entries are listed; for T1, T2 and T4 (in any spelling that
   * sanitises to them) all ten as well; for any other type only the unrestricted ones.
   */
  lemma PlaceholderDocsFor(t: Option<string>)
    ensures t.None? ==> |PlaceholderDocs(t)| == 10
    ensures t.Some? && SanitizeName(t) in AnswerTypes ==> PlaceholderDocs(t) == AllDocs
    ensures t.Some? && SanitizeName(t) !in AnswerTypes ==> PlaceholderDocs(t) == Unrestricted(AllDocs)
  {
    if t.Some? {
      KeepRestricted(AllDocs, SanitizeName(t));
    }
  }

  lemma {:induction false} KeepRestricted(docs: seq<Doc>, t: string)
    requires forall k :: 0 <= k < |docs| ==> docs[k].types.None? || docs[k].types == Some(AnswerTypes)
    ensures t in AnswerTypes ==> KeepDocs(docs, t) == docs
    ensures t !in AnswerTypes ==> KeepDocs(docs, t) == Unrestricted(docs)
    decreases |docs|
  {
    if docs != [] {
      KeepRestricted(docs[1..], t);
    }
  }

  /* -------------------------------- letters -------------------------------- */

  /** `chr(65 + ($i % 26))`. */
  function LetterAt(i: nat): (c: char)
    ensures 'A' <= c <= 'Z'
    ensures c == 'A' <==> i % 26 == 0
  {
    (65 + i % 26) as char
  }

  /** The `for` loop of `buildReplacementMap` filling `$letters`. */
  method Letters(count: nat) returns (letters: seq<string>)
    ensures |letters| == count
    ensures forall i :: 0 <= i < count ==> letters[i] == [LetterAt(i)]
  {
    letters := [];
    for i := 0 to count
      invariant |letters| == i
      invariant forall j :: 0 <= j < i ==> letters[j] == [LetterAt(j)]
    {
      letters := letters + [[LetterAt(i)]];
    }
  }

  function LetterList(count: nat): seq<string> {
    seq(count, i requires 0 <= i < count => [LetterAt(i)])
  }

  /** `answers_letters`: the letters joined by ", ", or `''` without answers. */
  function LettersField(count: nat): string {
    if count == 0 then [] else Join(LetterList(count), ", ")
  }

  /** Letter `k` sits at position `3k`, separated from the next one by ", ". */
  lemma LettersLayout(count: nat)
    ensures |LettersField(count)| == if count == 0 then 0 else 3 * count - 2
    ensures forall k :: 0 <= k < count ==> LettersField(count)[3 * k] == LetterAt(k)
    ensures forall k :: 0 <= k < count - 1 ==> LettersField(count)[3 * k + 1 .. 3 * k + 3] == ", "
  {
    if count > 0 {
      JoinSingles(LetterList(count), ", ");
    }
  }

  /* ---------------------------------- strtr ---------------------------------- */

  type Pairs = seq<(string, string)>

  /** Keys are non-empty and none is a prefix of another one (so they are distinct too). */
  predicate PrefixFree(pairs: Pairs) {
    (forall k :: 0 <= k < |pairs| ==> pairs[k].0 != [])
    && forall i, j :: 0 <= i < |pairs| && 0 <= j < |pairs| && i != j ==> !StartsWith(pairs[j].0, pairs[i].0)
  }

  /** The longest key `s` starts with (the earliest one among equally long keys). */
  function KeyAt(s: string, pairs: Pairs): (r: Option<nat>)
    ensures r.Some? ==> r.value < |pairs| && StartsWith(s, pairs[r.value].0)
    ensures r.Some? ==> forall k :: 0 <= k < |pairs| && StartsWith(s, pairs[k].0) ==> |pairs[k].0| <= |pairs[r.value].0|
    ensures r.None? ==> forall k :: 0 <= k < |pairs| ==> !StartsWith(s, pairs[k].0)
    decreases |pairs|
  {
    if pairs == [] then None
    else
      var init := pairs[..|pairs| - 1];
      var prev := KeyAt(s, init);
      var k := |pairs| - 1;
      assert forall j :: 0 <= j < k ==> init[j] == pairs[j];
      if StartsWith(s, pairs[k].0) && (prev.None? || |pairs[prev.value].0| < |pairs[k].0|) then Some(k)
      else prev
  }

  /**
   * PHP `strtr` with an array: scanning left to right, the longest key found at the
   * current position is replaced by its value and scanning resumes after the key; the
   * values are never scanned again.
   */
  function Strtr(s: string, pairs: Pairs): string
    requires forall k :: 0 <= k < |pairs| ==> pairs[k].0 != []
    decreases |s|
  {
    if s == [] then []
    else match KeyAt(s, pairs)
      case None => [s[0]] + Strtr(s[1..], pairs)
      case Some(k) => pairs[k].1 + Strtr(s[|pairs[k].0|..], pairs)
  }

  /** A template: literal text and placeholder holes. */
  datatype Piece = Lit(text: string) | Hole(key: string)

  function Source(t: seq<Piece>): string
    decreases |t|
  {
    if t == [] then [] else (match t[0] case Lit(x) => x case Hole(k) => k) + Source(t[1..])
  }

  function ValueOf(pairs: Pairs, key: string): string
    decreases |pairs|
  {
    if pairs == [] then key
    else if pairs[0].0 == key then pairs[0].1
    else ValueOf(pairs[1..], key)
  }

  /** The template with every hole replaced by its value. */
  function Filled(t: seq<Piece>, pairs: Pairs): string
    decreases |t|
  {
    if t == [] then [] else (match t[0] case Lit(x) => x case Hole(k) => ValueOf(pairs, k)) + Filled(t[1..], pairs)
  }

  /** `s` holds no `{`. */
  predicate NoBrace(s: string) { '{' !in s }

  predicate KeysOpenWithBrace(pairs: Pairs) {
    forall k :: 0 <= k < |pairs| ==> pairs[k].0 != [] && pairs[k].0[0] == '{'
  }

  predicate HasKey(pairs: Pairs, key: string) {
    exists k :: 0 <= k < |pairs| && pairs[k].0 == key
  }

  /** Literals without `{` and holes that are keys: the template is filled hole by hole. */
  predicate FitsTemplate(t: seq<Piece>, pairs: Pairs) {
    forall i :: 0 <= i < |t| ==>
      match t[i]
      case Lit(x) => NoBrace(x)
      case Hole(k) => HasKey(pairs, k)
  }

  /**
   * `strtr` of a template made of brace-free text and placeholder holes, with prefix-free
   * keys all opening with `{`, replaces exactly the holes.
   */
  lemma {:induction false} StrtrTemplate(t: seq<Piece>, pairs: Pairs)
    requires PrefixFree(pairs) && KeysOpenWithBrace(pairs) && FitsTemplate(t, pairs)
    ensures Strtr(Source(t), pairs) == Filled(t, pairs)
    decreases |t|
  {
    if t != [] {
      assert FitsTemplate(t[1..], pairs) by {
        forall i | 0 <= i < |t[1..]| ensures t[1..][i] == t[i + 1] { }
      }
      StrtrTemplate(t[1..], pairs);
      match t[0]
      case Lit(x) =>
        assert NoBrace(x) by { assert FitsTemplate(t, pairs); }
        StrtrPlain(x, Source(t[1..]), pairs);
      case Hole(k) =>
        assert HasKey(pairs, k) by { assert FitsTemplate(t, pairs); }
        StrtrKey(k, Source(t[1..]), pairs);
    }
  }

  /** Brace-free text is copied unchanged. */
  lemma {:induction false} StrtrPlain(x: string, rest: string, pairs: Pairs)
    requires KeysOpenWithBrace(pairs)
    requires NoBrace(x)
    ensures Strtr(x + rest, pairs) == x + Strtr(rest, pairs)
    decreases |x|
  {
    if x == [] {
      assert x + rest == rest;
    } else {
      var s := x + rest;
      assert s[0] == x[0] && x[0] in x;
      assert NoBrace(x[1..]) by { assert forall c :: c in x[1..] ==> c in x; }
      StrtrCopiesFirst(s, pairs);
      assert s[1..] == x[1..] + rest;
      StrtrPlain(x[1..], rest, pairs);
    }
  }

  /** A first character other than '{' starts no key and is copied. */
  lemma StrtrCopiesFirst(s: string, pairs: Pairs)
    requires KeysOpenWithBrace(pairs) && s != [] && s[0] != '{'
    ensures Strtr(s, pairs) == [s[0]] + Strtr(s[1..], pairs)
  {
    assert KeyAt(s, pairs).None? by {
      forall k | 0 <= k < |pairs| ensures !StartsWith(s, pairs[k].0) {
        assert pairs[k].0[0] == '{';
      }
    }
  }

  /** A key at the front is replaced by its value, and scanning resumes after it. */
  lemma StrtrKey(key: string, rest: string, pairs: Pairs)
    requires PrefixFree(pairs) && HasKey(pairs, key)
    ensures Strtr(key + rest, pairs) == ValueOf(pairs, key) + Strtr(rest, pairs)
  {
    var s := key + rest;
    var i :| 0 <= i < |pairs| && pairs[i].0 == key;
    assert StartsWith(s, pairs[i].0) by { assert s[..|key|] == key; }
    var r := KeyAt(s, pairs);
    assert r.value == i;
    assert s[|key|..] == rest;
    ValueOfAt(pairs, i);
  }

  lemma {:induction false} ValueOfAt(pairs: Pairs, i: nat)
    requires PrefixFree(pairs) && i < |pairs|
    ensures ValueOf(pairs, pairs[i].0) == pairs[i].1
    decreases |pairs|
  {
    if i > 0 {
      assert pairs[0].0 != pairs[i].0 by {
        assert !StartsWith(pairs[i].0, pairs[0].0);
      }
      assert PrefixFree(pairs[1..]) by {
        forall a, b | 0 <= a < |pairs[1..]| && 0 <= b < |pairs[1..]| && a != b
          ensures !StartsWith(pairs[1..][b].0, pairs[1..][a].0)
        {
          assert pairs[1..][a] == pairs[a + 1] && pairs[1..][b] == pairs[b + 1];
        }
      }
      ValueOfAt(pairs[1..], i - 1);
    }
  }

  /* ---------------------------- default templates ---------------------------- */

  /** The names of the ten placeholders, in the order of the replacement map. */
  const PlaceholderNames: seq<string> := [
    "template_name", "question_type", "question_index", "statement_html", "statement_text",
    "images", "answers_list", "answers_items", "answers_count", "answers_letters"]

  /** The placeholder tag of a name: `{{ name }}`. */
  function Tag(name: string): string { "{{ " + name + " }}" }

  const TagTemplateName := Tag(PlaceholderNames[0])
  const TagQuestionType := Tag(PlaceholderNames[1])
  const TagQuestionIndex := Tag(PlaceholderNames[2])
  const TagStatementHtml := Tag(PlaceholderNames[3])
  const TagStatementText := Tag(PlaceholderNames[4])
  const TagImages := Tag(PlaceholderNames[5])
  const TagAnswersList := Tag(PlaceholderNames[6])
  const TagAnswersItems := Tag(PlaceholderNames[7])
  const TagAnswersCount := Tag(PlaceholderNames[8])
  const TagAnswersLetters := Tag(PlaceholderNames[9])

  predicate NoSpace(s: string) { forall j :: 0 <= j < |s| ==> s[j] != ' ' }

  /** The placeholder names are distinct and hold no space. */
  lemma NamesWellFormed()
    ensures forall k :: 0 <= k < |PlaceholderNames| ==> NoSpace(PlaceholderNames[k])
    ensures forall i, j :: 0 <= i < j < |PlaceholderNames| ==> PlaceholderNames[i] != PlaceholderNames[j]
  {
  }

  /** The base template up to its `{{ images }}` placeholder. */
  function HeadPieces(): seq<Piece> {
    [Lit(Head0), Hole(TagTemplateName), Lit(Head1), Hole(TagQuestionType),
     Lit(Head2), Hole(TagQuestionIndex), Lit(Head3), Hole(TagStatementHtml),
     Lit(Head4), Hole(TagImages)]
  }

  const Head0 := "<div class=\"qblock\" data-template=\""
  const Head1 := "\" data-type=\""
  const Head2 := "\">\n  <div class=\"qtext\"><span class=\"qnum\">"
  const Head3 := ". </span>"
  const Head4 := "</div>\n  "
  const LineBreak := "\n  "
  const Close := "\n</div>"

  /** `BASE_TEMPLATE`: the head, the answers list line, the closing `</div>`. */
  function BasePieces(): (t: seq<Piece>)
    ensures t == HeadPieces() + [Lit(LineBreak), Hole(TagAnswersList), Lit(Close)]
  {
    [Lit(Head0), Hole(TagTemplateName), Lit(Head1), Hole(TagQuestionType),
     Lit(Head2), Hole(TagQuestionIndex), Lit(Head3), Hole(TagStatementHtml),
     Lit(Head4), Hole(TagImages), Lit(LineBreak), Hole(TagAnswersList), Lit(Close)]
  }

  /** The T3 default: the base template without its answers list line. */
  function T3Pieces(): (t: seq<Piece>)
    ensures t == HeadPieces() + [Lit(Close)]
  {
    [Lit(Head0), Hole(TagTemplateName), Lit(Head1), Hole(TagQuestionType),
     Lit(Head2), Hole(TagQuestionIndex), Lit(Head3), Hole(TagStatementHtml),
     Lit(Head4), Hole(TagImages), Lit(Close)]
  }

  /** `defaultTemplate`: T3 (free answer) has no answers placeholder; every other name gets the base. */
  function DefaultTemplate(name: string): (r: string)
    ensures name == "T3" ==> r == Source(T3Pieces())
    ensures name != "T3" ==> r == Source(BasePieces())
  {
    if name == "T3" then Source(T3Pieces()) else Source(BasePieces())
  }

  /* ------------------------------ template store ------------------------------ */

  /** The readable template files, by sanitised name. */
  type Store = map<string, string>

  function FallbackName(name: string, fallbackType: Option<string>): string {
    if fallbackType.Some? && Truthy(fallbackType.value) then SanitizeName(fallbackType) else SanitizeName(Some(name))
  }

  /**
   * `loadTemplateContent`: the stored template of the sanitised name, else the default
   * template of the sanitised fallback type (of the name itself when the type is falsy).
   */
  function LoadTemplate(store: Store, name: string, fallbackType: Option<string>): string {
    var clean := SanitizeName(Some(name));
    if clean in store then store[clean] else DefaultTemplate(FallbackName(name, fallbackType))
  }

  /** Without a stored file, the T3 default is chosen exactly when the fallback is T3. */
  lemma LoadDefault(store: Store, name: string, fallbackType: Option<string>)
    requires SanitizeName(Some(name)) !in store
    ensures LoadTemplate(store, name, fallbackType) == Source(T3Pieces())
        <==> FallbackName(name, fallbackType) == "T3"
  {
    BaseLonger();
  }

  lemma BaseLonger()
    ensures |Source(BasePieces())| == |Source(T3Pieces())| + 21
  {
    var tail := [Lit(LineBreak), Hole(TagAnswersList), Lit(Close)];
    SourceAppend(HeadPieces(), tail);
    SourceAppend(HeadPieces(), [Lit(Close)]);
    TailSources(tail);
  }

  lemma TailSources(tail: seq<Piece>)
    requires tail == [Lit(LineBreak), Hole(TagAnswersList), Lit(Close)]
    ensures |Source(tail)| == |Source([Lit(Close)])| + 21
  {
    assert Source(tail) == LineBreak + TagAnswersList + Source(tail[2..]);
    assert Source(tail[2..]) == Close + Source(tail[3..]);
    assert Source([Lit(Close)]) == Close + Source([]);
    assert |TagAnswersList| == 18;
  }

  lemma {:induction false} SourceAppend(a: seq<Piece>, b: seq<Piece>)
    ensures Source(a + b) == Source(a) + Source(b)
    decreases |a|
  {
    if a == [] {
      assert a + b == b;
    } else {
      assert (a + b)[0] == a[0];
      assert (a + b)[1..] == a[1..] + b;
      SourceAppend(a[1..], b);
    }
  }

  /**
   * `saveTemplateContent`: only T1 to T4 (after sanitising) may be stored; any other
   * name is refused (`None` stands for the exception).
   */
  function SaveTemplate(store: Store, name: string, content: string): (r: Option<Store>)
    ensures r.None? <==> SanitizeName(Some(name)) !in ["T1", "T2", "T3", "T4"]
    ensures r.Some? ==> r.value.Keys == store.Keys + {SanitizeName(Some(name))}
    ensures r.Some? ==> forall k :: k in store && k != SanitizeName(Some(name)) ==> r.value[k] == store[k]
  {
    var clean := SanitizeName(Some(name));
    if clean in ["T1", "T2", "T3", "T4"] then Some(store[clean := content]) else None
  }

  /** A saved template is what loading the same name gives back. */
  lemma SaveThenLoad(store: Store, name: string, content: string, fallbackType: Option<string>)
    requires SaveTemplate(store, name, content).Some?
    ensures LoadTemplate(SaveTemplate(store, name, content).value, name, fallbackType) == content
  {
  }

  /* --------------------------------- answers --------------------------------- */

  /** `~^<li\b~`: `<li` at the start, not followed by a word character. */
  predicate OpensLi(h: string) {
    StartsWith(h, "<li") && (|h| == 3 || !IsWord(h[3]))
  }

  /** The leading `<li` of an answer gains `class="ans"`; anything else is kept. */
  function LiClass(h: string): (r: string)
    ensures !OpensLi(h) ==> r == h
    ensures OpensLi(h) ==> StartsWith(r, "<li class=\"ans\"") && r[15..] == h[3..]
    ensures r == [] <==> h == []
  {
    if OpensLi(h) then "<li class=\"ans\"" + h[3..] else h
  }

  /** The answer records as `renderQuestion` reads them: only their `html`, if any. */
  function AnswerItems(answers: seq<Option<string>>): string {
    Concat(seq(|answers|, i requires 0 <= i < |answers| => LiClass(answers[i].GetOr([]))))
  }

  /** The `foreach` of `renderQuestion` and the `implode('', ...)` after it. */
  method RenderAnswers(answers: seq<Option<string>>) returns (items: string)
    ensures items == AnswerItems(answers)
  {
    var parts: seq<string> := [];
    for i := 0 to |answers|
      invariant parts == seq(i, j requires 0 <= j < i => LiClass(answers[j].GetOr([])))
    {
      parts := parts + [LiClass(answers[i].GetOr([]))];
    }
    items := Concat(parts);
  }

  /** `answers_list`: the items inside `<ol class="answers" type="a">`, or `''` without items. */
  function AnswersList(items: string): (r: string)
    ensures r == [] <==> items == []
  {
    if items == [] then [] else "<ol class=\"answers\" type=\"a\">" + items + "</ol>"
  }

  /** The answers list is empty exactly when every answer's markup is empty. */
  lemma AnswersListEmpty(answers: seq<Option<string>>)
    ensures AnswersList(AnswerItems(answers)) == [] <==> forall i :: 0 <= i < |answers| ==> answers[i].GetOr([]) == []
  {
    var parts := seq(|answers|, i requires 0 <= i < |answers| => LiClass(answers[i].GetOr([])));
    ConcatEmpty(parts);
    assert forall i :: 0 <= i < |answers| ==> (parts[i] == [] <==> answers[i].GetOr([]) == []);
  }

  lemma {:induction false} ConcatEmpty(parts: seq<string>)
    ensures Concat(parts) == [] <==> forall i :: 0 <= i < |parts| ==> parts[i] == []
    decreases |parts|
  {
    if parts != [] {
      ConcatEmpty(parts[1..]);
      assert forall i :: 0 < i < |parts| ==> parts[i] == parts[1..][i - 1];
    }
  }

  /* --------------------------------- images --------------------------------- */

  /** The `<img>` tag of one statement image. */
  function ImgTag(src: string): string {
    "<img src=\"" + HtmlEscape(src) + "\" alt=\"img\" class=\"qimg\">"
  }

  /** `images`: `''` without sources, else one tag per source, in order, inside `<div class="qimgs">`. */
  function Images(srcs: seq<string>): (r: string)
    ensures r == [] <==> srcs == []
  {
    if srcs == [] then []
    else "<div class=\"qimgs\">" + Concat(seq(|srcs|, i requires 0 <= i < |srcs| => ImgTag(srcs[i]))) + "</div>"
  }

  /**
   * The `src` attribute of an image tag ends at the first quote after it, and decoding it
   * gives the source back: no source can break out of the attribute.
   */
  lemma ImgTagSource(src: string)
    ensures IndexOf(ImgTag(src), "\"", 10) == Some(10 + |HtmlEscape(src)|)
    ensures HtmlUnescape(ImgTag(src)[10..10 + |HtmlEscape(src)|]) == src
  {
    var t := ImgTag(src);
    var e := HtmlEscape(src);
    var rest := "\" alt=\"img\" class=\"qimg\">";
    assert t == "<img src=\"" + e + rest;
    assert t[10..10 + |e|] == e;
    EscapeHasNoMarkup(src);
    UnescapeEscape(src);
    assert t[10 + |e|] == '"';
    assert t[10 + |e|..10 + |e| + 1] == "\"";
    forall j | 10 <= j < 10 + |e| ensures !OccursAt(t, "\"", j) {
      assert t[j] == e[j - 10];
      assert t[j..j + 1] == [t[j]];
    }
    FirstFrom(t, "\"", 10, 10 + |e|);
  }

  /** The leftmost occurrence is the first position with one. */
  lemma FirstFrom(s: string, t: string, from: nat, p: nat)
    requires from <= p <= |s| && OccursAt(s, t, p)
    requires forall j :: from <= j < p ==> !OccursAt(s, t, j)
    ensures IndexOf(s, t, from) == Some(p)
  {
  }

  /* ------------------------------ the question ------------------------------ */

  /** A question record, as `renderQuestion` reads it. */
  datatype QRec = QRec(
    index: int, qtype: Option<string>, template: Option<string>,
    statementHtml: Option<string>, statementText: Option<string>,
    images: seq<string>, answers: seq<Option<string>>)

  /** `$templateName`: the record's template, else its type, else T1. */
  function TemplateName(q: QRec): string {
    q.template.GetOr(q.qtype.GetOr("T1"))
  }

  /** `buildReplacementMap`: the ten placeholders and their values. */
  function ReplacementMap(q: QRec, templateName: string, images: string, list: string, items: string): Pairs {
    [(TagTemplateName, HtmlEscape(templateName)),
     (TagQuestionType, HtmlEscape(q.qtype.GetOr([]))),
     (TagQuestionIndex, HtmlEscape(IntToString(q.index))),
     (TagStatementHtml, q.statementHtml.GetOr([])),
     (TagStatementText, HtmlEscape(q.statementText.GetOr([]))),
     (TagImages, images),
     (TagAnswersList, list),
     (TagAnswersItems, items),
     (TagAnswersCount, NatToString(|q.answers|)),
     (TagAnswersLetters, LettersField(|q.answers|))]
  }

  /** The imperative `buildReplacementMap`, with its letters loop. */
  method BuildReplacementMap(q: QRec, templateName: string, images: string, list: string, items: string)
    returns (pairs: Pairs)
    ensures pairs == ReplacementMap(q, templateName, images, list, items)
  {
    var letters := Letters(|q.answers|);
    assert letters == LetterList(|q.answers|);
    var lettersField := if letters == [] then [] else Join(letters, ", ");
    pairs := [(TagTemplateName, HtmlEscape(templateName)),
      (TagQuestionType, HtmlEscape(q.qtype.GetOr([]))),
      (TagQuestionIndex, HtmlEscape(IntToString(q.index))),
      (TagStatementHtml, q.statementHtml.GetOr([])),
      (TagStatementText, HtmlEscape(q.statementText.GetOr([]))),
      (TagImages, images),
      (TagAnswersList, list),
      (TagAnswersItems, items),
      (TagAnswersCount, NatToString(|q.answers|)),
      (TagAnswersLetters, lettersField)];
  }

  /** Two distinct placeholder tags are never prefixes of one another. */
  lemma TagsPrefixFree(a: string, b: string)
    requires NoSpace(a) && NoSpace(b) && a != b
    ensures !StartsWith(Tag(b), Tag(a))
  {
    var ta, tb := Tag(a), Tag(b);
    if |a| == |b| {
      assert ta[3..3 + |a|] == a && tb[3..3 + |b|] == b;
    } else if |a| < |b| {
      assert ta[3 + |a|] == ' ' && tb[3 + |a|] == b[|a|] != ' ';
    }
  }

  /**
   * The replacement map's keys are the ten placeholder tags, in the documented order; they
   * are prefix-free and each is looked up to its own value.
   */
  lemma ReplacementKeys(q: QRec, templateName: string, images: string, list: string, items: string)
    ensures PrefixFree(ReplacementMap(q, templateName, images, list, items))
    ensures KeysOpenWithBrace(ReplacementMap(q, templateName, images, list, items))
    ensures IsTagMap(ReplacementMap(q, templateName, images, list, items))
    ensures forall k :: 0 <= k < |PlaceholderNames| ==>
      ValueOf(ReplacementMap(q, templateName, images, list, items), Tag(PlaceholderNames[k]))
        == ReplacementMap(q, templateName, images, list, items)[k].1
  {
    var pairs := ReplacementMap(q, templateName, images, list, items);
    assert IsTagMap(pairs);
    TagMapPrefixFree(pairs);
  }

  /** The keys of `pairs` are the placeholder tags, in order. */
  predicate IsTagMap(pairs: Pairs) {
    |pairs| == |PlaceholderNames| && forall k :: 0 <= k < |pairs| ==> pairs[k].0 == Tag(PlaceholderNames[k])
  }

  lemma TagMapPrefixFree(pairs: Pairs)
    requires IsTagMap(pairs)
    ensures PrefixFree(pairs) && KeysOpenWithBrace(pairs)
    ensures forall k :: 0 <= k < |pairs| ==> ValueOf(pairs, Tag(PlaceholderNames[k])) == pairs[k].1
  {
    NamesWellFormed();
    forall i, j | 0 <= i < |pairs| && 0 <= j < |pairs| && i != j
      ensures !StartsWith(pairs[j].0, pairs[i].0)
    {
      TagsPrefixFree(PlaceholderNames[i], PlaceholderNames[j]);
    }
    forall k | 0 <= k < |pairs| ensures ValueOf(pairs, Tag(PlaceholderNames[k])) == pairs[k].1 {
      ValueOfAt(pairs, k);
    }
  }

  /** The default templates hold brace-free text and placeholders of the replacement map. */
  lemma TextNoBrace0() ensures NoBrace(Head0) && NoBrace(Head1) { }
  lemma TextNoBrace1() ensures NoBrace(Head2) { }
  lemma TextNoBrace2() ensures NoBrace(Head3) && NoBrace(Head4) { }
  lemma TextNoBrace3() ensures NoBrace(LineBreak) && NoBrace(Close) { }

  lemma DefaultsFit(pairs: Pairs)
    requires IsTagMap(pairs)
    ensures FitsTemplate(BasePieces(), pairs) && FitsTemplate(T3Pieces(), pairs)
  {
    TextNoBrace0();
    TextNoBrace1();
    TextNoBrace2();
    TextNoBrace3();
    assert HasKey(pairs, TagTemplateName) by { assert pairs[0].0 == TagTemplateName; }
    assert HasKey(pairs, TagQuestionType) by { assert pairs[1].0 == TagQuestionType; }
    assert HasKey(pairs, TagQuestionIndex) by { assert pairs[2].0 == TagQuestionIndex; }
    assert HasKey(pairs, TagStatementHtml) by { assert pairs[3].0 == TagStatementHtml; }
    assert HasKey(pairs, TagImages) by { assert pairs[5].0 == TagImages; }
    assert HasKey(pairs, TagAnswersList) by { assert pairs[6].0 == TagAnswersList; }
  }

  /**
   * The values of the replacement map: names, type, index and text are escaped (no
   * markup character survives), the count reads back as the number of answers, and the
   * letters are `A, B, C, ...`.
   */
  lemma ReplacementValues(q: QRec, templateName: string, images: string, list: string, items: string)
    ensures var pairs := ReplacementMap(q, templateName, images, list, items);
      (forall k :: k in {0, 1, 2, 4} ==> forall j :: 0 <= j < |pairs[k].1| ==> !IsMarkupChar(pairs[k].1[j]))
      && ParseDigits(pairs[8].1) == |q.answers|
      && pairs[9].1 == LettersField(|q.answers|)
  {
    EscapeHasNoMarkup(templateName);
    EscapeHasNoMarkup(q.qtype.GetOr([]));
    EscapeHasNoMarkup(IntToString(q.index));
    EscapeHasNoMarkup(q.statementText.GetOr([]));
    ParseNatToString(|q.answers|);
  }

  /** What `renderQuestion` returns, as a function of the record and the template store. */
  function Rendered(q: QRec, store: Store): string {
    var items := AnswerItems(q.answers);
    var name := TemplateName(q);
    var pairs := ReplacementMap(q, name, Images(q.images), AnswersList(items), items);
    ReplacementKeys(q, name, Images(q.images), AnswersList(items), items);
    Strtr(LoadTemplate(store, name, q.qtype), pairs)
  }

  /** `renderQuestion`. */
  method RenderQuestion(q: QRec, store: Store) returns (html: string)
    ensures html == Rendered(q, store)
  {
    var items := RenderAnswers(q.answers);
    var list := AnswersList(items);
    var images := Images(q.images);
    var name := TemplateName(q);
    var template := LoadTemplate(store, name, q.qtype);
    var pairs := BuildReplacementMap(q, name, images, list, items);
    ReplacementKeys(q, name, images, list, items);
    html := Strtr(template, pairs);
  }

  /**
   * With no stored template, a question renders as the default template of its fallback
   * type (the T3 one has no answers list) with each placeholder replaced by its value.
   */
  lemma RenderedDefault(q: QRec, store: Store)
    requires SanitizeName(Some(TemplateName(q))) !in store
    ensures var items := AnswerItems(q.answers);
      var pairs := ReplacementMap(q, TemplateName(q), Images(q.images), AnswersList(items), items);
      Rendered(q, store) == Filled(if FallbackName(TemplateName(q), q.qtype) == "T3" then T3Pieces() else BasePieces(), pairs)
  {
    var items := AnswerItems(q.answers);
    var name := TemplateName(q);
    var pairs := ReplacementMap(q, name, Images(q.images), AnswersList(items), items);
    ReplacementKeys(q, name, Images(q.images), AnswersList(items), items);
    DefaultsFit(pairs);
    if FallbackName(name, q.qtype) == "T3" {
      StrtrTemplate(T3Pieces(), pairs);
    } else {
      StrtrTemplate(BasePieces(), pairs);
    }
  }
}
