/** Quiz output handling: pulling the JSON array out of the model's reply,
    with a placeholder record instead of any exception, and the paragraph
    layout of the quiz document. */
module Quiz {
  import opened Outcomes
  import opened Text
  import opened Json
  import opened DocExport

  // ---------------------------------------------------------------------
  // The pattern \[\s*{.*}\s*\] under re.DOTALL
  // ---------------------------------------------------------------------

  /** End of the run of whitespace starting at `i`. */
  function SpaceRunEnd(s: string, i: nat): (e: nat)
    requires i <= |s|
    ensures i <= e <= |s|
    ensures forall k :: i <= k < e ==> IsSpace(s[k])
    ensures e < |s| ==> !IsSpace(s[e])
    decreases |s| - i
  {
    if i < |s| && IsSpace(s[i]) then SpaceRunEnd(s, i + 1) else i
  }

  /** `}\s*\]` matches at `k`; the result is where that match ends. */
  function CloseAt(s: string, k: nat): Option<nat>
    requires k < |s|
  {
    if s[k] != '}' then None
    else
      var e := SpaceRunEnd(s, k + 1);
      if e < |s| && s[e] == ']' then Some(e + 1) else None
  }

  /** The greedy `.*`: the last position in `[lo, hi)` where `}\s*\]` matches,
      with the end of that match. */
  function LastClose(s: string, lo: nat, hi: nat): (r: Option<(nat, nat)>)
    requires lo <= hi <= |s|
    ensures r.Some? ==> lo <= r.value.0 < hi && CloseAt(s, r.value.0) == Some(r.value.1)
    ensures r.Some? ==> forall k :: r.value.0 < k < hi ==> CloseAt(s, k).None?
    ensures r.None? ==> forall k :: lo <= k < hi ==> CloseAt(s, k).None?
    decreases hi - lo
  {
    if hi == lo then None
    else match CloseAt(s, hi - 1)
      case Some(e) => Some((hi - 1, e))
      case None => LastClose(s, lo, hi - 1)
  }

  /** Where a match starting at `i` ends: `[`, whitespace, `{`, then the
      longest stretch of any characters that still lets `}\s*\]` follow. */
  function MatchAt(s: string, i: nat): (r: Option<nat>)
    requires i < |s|
    ensures r.Some? ==> i < r.value <= |s| && s[i] == '[' && s[r.value - 1] == ']'
  {
    if s[i] != '[' then None
    else
      var j := SpaceRunEnd(s, i + 1);
      if j == |s| || s[j] != '{' then None
      else match LastClose(s, j + 1, |s|)
        case None => None
        case Some((_, e)) => Some(e)
  }

  /** `re.search`: the leftmost start from `i` on at which the pattern matches. */
  function SearchFrom(s: string, i: nat): (r: Option<(nat, nat)>)
    requires i <= |s|
    ensures r.Some? ==> i <= r.value.0 < |s| && MatchAt(s, r.value.0) == Some(r.value.1)
    ensures r.Some? ==> forall k :: i <= k < r.value.0 ==> MatchAt(s, k).None?
    ensures r.None? ==> forall k :: i <= k < |s| ==> MatchAt(s, k).None?
    decreases |s| - i
  {
    if i == |s| then None
    else match MatchAt(s, i)
      case Some(e) => Some((i, e))
      case None => SearchFrom(s, i + 1)
  }

  /** The matched text runs from a `[` to a `]`, holds a `{` after the
      opening bracket and its blanks, and a `}` before the closing one. */
  lemma MatchShape(s: string)
    requires SearchFrom(s, 0).Some?
    ensures var (i, e) := SearchFrom(s, 0).value;
      && i < e <= |s| && s[i] == '[' && s[e - 1] == ']'
      && (exists j :: i < j < e && s[j] == '{' && forall k :: i < k < j ==> IsSpace(s[k]))
      && (exists c :: i < c < e - 1 && s[c] == '}' && forall k :: c < k < e - 1 ==> IsSpace(s[k]))
  {
    var (i, e) := SearchFrom(s, 0).value;
    var j := SpaceRunEnd(s, i + 1);
    var (c, e') := LastClose(s, j + 1, |s|).value;
    assert e' == e;
    assert i < j < e && s[j] == '{';
    var f := SpaceRunEnd(s, c + 1);
    assert f == e - 1;
  }

  // ---------------------------------------------------------------------
  // extract_quiz_json
  // ---------------------------------------------------------------------

  /** The record returned in place of an exception. */
  function Placeholder(e: Exception): (r: Json)
    ensures r.JArray? && |r.items| == 1 && r.items[0].JObject?
    ensures r.items[0].fields.Keys == {"question", "options", "answer"}
    ensures r.items[0].fields["question"] == JString("Error parsing quiz.")
    ensures r.items[0].fields["options"] == JArray([])
    ensures r.items[0].fields["answer"] == JString(e.typeName + ": " + e.message)
  {
    JArray([JObject(map[
      "question" := JString("Error parsing quiz."),
      "options" := JArray([]),
      "answer" := JString(e.typeName + ": " + e.message)])])
  }

  const NoArrayError: Exception := ValueError("No valid JSON array found in input.")

  /** The parsed value, or the placeholder carrying the decoder's exception. */
  function Decoded(r: Result<Json>): Json
  {
    match r
    case Ok(v) => v
    case Err(e) => Placeholder(e)
  }

  /** `extract_quiz_json`: text that starts with `[` once stripped goes to
      the decoder whole; otherwise the first bracketed array of objects in it
      does; with neither, and on any decoding error, the result is the
      placeholder record. The decoded value is returned as it is, array or not. */
  function ExtractQuizJson(contentStr: string, parse: Parser): (r: Json)
    ensures var content := Strip(contentStr);
      |content| > 0 && content[0] == '[' ==>
        (parse(content).Ok? ==> r == parse(content).value) &&
        (parse(content).Err? ==> r == Placeholder(parse(content).error))
    ensures var content := Strip(contentStr);
      !(|content| > 0 && content[0] == '[') && SearchFrom(content, 0).None? ==> r == Placeholder(NoArrayError)
    ensures var content := Strip(contentStr);
      !(|content| > 0 && content[0] == '[') && SearchFrom(content, 0).Some? ==>
        var (i, e) := SearchFrom(content, 0).value;
        r == Decoded(parse(content[i..e]))
  {
    var content := Strip(contentStr);
    if |content| > 0 && content[0] == '[' then Decoded(parse(content))
    else match SearchFrom(content, 0)
      case Some((i, e)) => Decoded(parse(content[i..e]))
      case None => Placeholder(NoArrayError)
  }

  // ---------------------------------------------------------------------
  // generate_quiz_docx
  // ---------------------------------------------------------------------

  /** A quiz entry with its question, options and answer. */
  datatype QuizItem = QuizItem(question: string, options: seq<string>, answer: string)

  const DefaultQuizTitle: string := "Generated Quiz"

  /** The python-docx list styles of the question and option paragraphs. */
  const NumberStyle: string := "List Number"
  const BulletStyle: string := "List Bullet"

  const AnswerPrefix: string := "\U{2705} Answer: "

  function QuestionLine(n: nat, q: QuizItem): DocxBlock
  {
    Paragraph("Q" + NatToDecimal(n) + ": " + q.question, Some(NumberStyle))
  }

  function Bullets(options: seq<string>): (bs: seq<DocxBlock>)
    ensures |bs| == |options|
    ensures forall j :: 0 <= j < |options| ==> bs[j] == Paragraph(options[j], Some(BulletStyle))
  {
    seq(|options|, j requires 0 <= j < |options| => Paragraph(options[j], Some(BulletStyle)))
  }

  function AnswerLine(q: QuizItem): DocxBlock
  {
    Paragraph(AnswerPrefix + q.answer + "\n", None)
  }

  /** The paragraphs of the `n`-th question (1-based). */
  function ItemBlocks(n: nat, q: QuizItem): (bs: seq<DocxBlock>)
    ensures |bs| == |q.options| + 2
  {
    [QuestionLine(n, q)] + Bullets(q.options) + [AnswerLine(q)]
  }

  /** The paragraphs after the heading, question by question. */
  function QuizBody(quiz: seq<QuizItem>): seq<DocxBlock>
  {
    if quiz == [] then []
    else QuizBody(quiz[..|quiz| - 1]) + ItemBlocks(|quiz|, quiz[|quiz| - 1])
  }

  /** `Σ (|options| + 2)` over the questions. */
  function ParagraphCount(quiz: seq<QuizItem>): nat
  {
    if quiz == [] then 0 else ParagraphCount(quiz[..|quiz| - 1]) + |quiz[|quiz| - 1].options| + 2
  }

  lemma {:induction false} QuizBodyLength(quiz: seq<QuizItem>)
    ensures |QuizBody(quiz)| == ParagraphCount(quiz)
  {
    if quiz != [] {
      QuizBodyLength(quiz[..|quiz| - 1]);
    }
  }

  lemma {:induction false} QuizBodyPrefix(quiz: seq<QuizItem>, n: nat)
    requires n <= |quiz|
    ensures |QuizBody(quiz[..n])| <= |QuizBody(quiz)|
    ensures QuizBody(quiz)[..|QuizBody(quiz[..n])|] == QuizBody(quiz[..n])
    decreases |quiz| - n
  {
    if n < |quiz| {
      QuizBodyPrefix(quiz, n + 1);
      assert quiz[..n + 1][..n] == quiz[..n];
    } else {
      assert quiz[..n] == quiz;
    }
  }

  /** The body of the first `idx + 1` questions extends that of the first
      `idx` by the paragraphs of question `idx`. */
  lemma QuizBodySnoc(quiz: seq<QuizItem>, idx: nat)
    requires idx < |quiz|
    ensures QuizBody(quiz[..idx + 1]) == QuizBody(quiz[..idx]) + ItemBlocks(idx + 1, quiz[idx])
  {
    assert quiz[..idx + 1][..idx] == quiz[..idx];
  }

  /** The same extension, with the heading in front. */
  lemma BodyAfterHeading(head: DocxBlock, quiz: seq<QuizItem>, idx: nat)
    requires idx < |quiz|
    ensures [head] + QuizBody(quiz[..idx]) + ItemBlocks(idx + 1, quiz[idx]) == [head] + QuizBody(quiz[..idx + 1])
  {
    QuizBodySnoc(quiz, idx);
  }

  /** Question `k` (0-based) occupies the paragraphs right after those of
      the questions before it: its `Q{k+1}:` line, one bullet per option in
      order, then its answer line. */
  lemma {:induction false} QuizBodyAt(quiz: seq<QuizItem>, k: nat)
    requires k < |quiz|
    ensures var start := ParagraphCount(quiz[..k]);
      && start + |quiz[k].options| + 2 <= |QuizBody(quiz)|
      && QuizBody(quiz)[start..start + |quiz[k].options| + 2] == ItemBlocks(k + 1, quiz[k])
  {
    QuizBodyPrefix(quiz, k + 1);
    QuizBodySnoc(quiz, k);
    QuizBodyLength(quiz[..k]);
    var start := ParagraphCount(quiz[..k]);
    var upto := QuizBody(quiz[..k + 1]);
    assert QuizBody(quiz)[start..start + |quiz[k].options| + 2] == upto[start..];
  }

  /** One question's paragraphs appended to the document: its numbered
      line, a bullet per option, its answer line. */
  method AddItem(doc: seq<DocxBlock>, n: nat, q: QuizItem) returns (out: seq<DocxBlock>)
    ensures out == doc + ItemBlocks(n, q)
  {
    out := doc + [QuestionLine(n, q)];
    for j := 0 to |q.options|
      invariant out == doc + [QuestionLine(n, q)] + Bullets(q.options[..j])
    {
      assert Bullets(q.options[..j + 1]) == Bullets(q.options[..j]) + [Paragraph(q.options[j], Some(BulletStyle))];
      out := out + [Paragraph(q.options[j], Some(BulletStyle))];
    }
    assert q.options[..|q.options|] == q.options;
    out := out + [AnswerLine(q)];
  }

  /** `generate_quiz_docx`: a heading with the title, then for each question
      its numbered line, a bullet per option and its answer line. `title` is
      the keyword argument, None when the caller omits it. */
  method GenerateQuizDocx(quiz: seq<QuizItem>, title: Option<string>) returns (doc: seq<DocxBlock>)
    ensures |doc| == 1 + ParagraphCount(quiz)
    ensures title.Some? ==> doc[0] == Heading(Some(title.value), 1)
    ensures title.None? ==> doc[0] == Heading(Some(DefaultQuizTitle), 1)
    ensures doc[1..] == QuizBody(quiz)
  {
    var heading := if title.Some? then title.value else DefaultQuizTitle;
    doc := [Heading(Some(heading), 1)];
    for idx := 0 to |quiz|
      invariant doc == [Heading(Some(heading), 1)] + QuizBody(quiz[..idx])
    {
      doc := AddItem(doc, idx + 1, quiz[idx]);
      BodyAfterHeading(Heading(Some(heading), 1), quiz, idx);
    }
    assert quiz[..|quiz|] == quiz;
    QuizBodyLength(quiz);
  }
}
