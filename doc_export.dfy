/** The DOCX and PDF exporters, as the sequence of blocks each one hands to
    its rendering library: heading or title, optional class/subject line,
    spacers, and one paragraph per blank-line-separated block of text. */
module DocExport {
  import opened Outcomes
  import opened Text

  /** A python-docx block: a heading of a level (its text may be absent), or
      a paragraph with an optional named style. */
  datatype DocxBlock = Heading(heading: Option<string>, level: nat) | Paragraph(text: string, style: Option<string>)

  datatype PdfStyle = TitleStyle | Heading2Style | NormalStyle

  /** A reportlab flowable: a styled paragraph or a spacer. */
  datatype Flowable = Para(text: string, style: PdfStyle) | Spacer(width: nat, height: nat)

  const BlankLine: string := "\n\n"

  /** The labels of the class and subject in the DOCX line and the PDF markup. */
  const ClassLabel: string := "Class: "
  const SubjectLabel: string := "Subject: "
  const ClassMarkup: string := "<b>Class:</b> "
  const SubjectMarkup: string := "<b>Subject:</b> "
  const Gap: Flowable := Spacer(1, 12)

  /** Python truthiness of an optional string argument. */
  predicate Truthy(s: Option<string>)
  {
    s.Some? && s.value != ""
  }

  predicate HasMeta(classGrade: Option<string>, subject: Option<string>)
  {
    Truthy(classGrade) || Truthy(subject)
  }

  /** The DOCX class/subject line. */
  function DocxMetaLine(classGrade: Option<string>, subject: Option<string>): string
  {
    var withClass := if Truthy(classGrade) then "" + ClassLabel + classGrade.value + "  " else "";
    if Truthy(subject) then withClass + SubjectLabel + subject.value else withClass
  }

  /** The PDF class/subject markup. */
  function PdfMetadata(classGrade: Option<string>, subject: Option<string>): string
  {
    var withClass := if Truthy(classGrade) then "" + ClassMarkup + classGrade.value + "<br/>" else "";
    if Truthy(subject) then withClass + SubjectMarkup + subject.value else withClass
  }

  /** The metadata line is written exactly when it has something to say. */
  lemma MetaLineNonEmpty(classGrade: Option<string>, subject: Option<string>)
    ensures DocxMetaLine(classGrade, subject) != "" <==> HasMeta(classGrade, subject)
    ensures PdfMetadata(classGrade, subject) != "" <==> HasMeta(classGrade, subject)
  {
    if Truthy(subject) && !Truthy(classGrade) {
      assert DocxMetaLine(classGrade, subject)[0] == 'S';
      assert PdfMetadata(classGrade, subject)[0] == '<';
    }
    if Truthy(classGrade) {
      assert DocxMetaLine(classGrade, subject)[0] == 'C';
      assert PdfMetadata(classGrade, subject)[0] == '<';
    }
  }

  // ---------------------------------------------------------------------
  // generate_docx
  // ---------------------------------------------------------------------

  /** `doc` ends with one paragraph per piece, each stripped, after `head` earlier blocks. */
  predicate BodyParagraphs(doc: seq<DocxBlock>, head: nat, pieces: seq<string>)
  {
    |doc| == head + |pieces| && forall k :: 0 <= k < |pieces| ==> doc[head + k] == Paragraph(Strip(pieces[k]), None)
  }

  /** `for para in ...: doc.add_paragraph(para.strip())`. */
  method AddParagraphs(doc: seq<DocxBlock>, pieces: seq<string>) returns (out: seq<DocxBlock>)
    ensures BodyParagraphs(out, |doc|, pieces) && out[..|doc|] == doc
  {
    out := doc;
    for k := 0 to |pieces|
      invariant BodyParagraphs(out, |doc|, pieces[..k]) && out[..|doc|] == doc
    {
      out := out + [Paragraph(Strip(pieces[k]), None)];
    }
    assert pieces[..|pieces|] == pieces;
  }

  /** `generate_docx`: the heading, the metadata paragraph when there is
      metadata, an empty spacer paragraph, then a stripped paragraph for each
      blank-line-separated block of the stripped text. */
  method GenerateDocx(formattedText: string, title: Option<string>, classGrade: Option<string>, subject: Option<string>)
    returns (doc: seq<DocxBlock>)
    ensures var m := if HasMeta(classGrade, subject) then 1 else 0;
      && BodyParagraphs(doc, 2 + m, Split(Strip(formattedText), BlankLine))
      && doc[0] == Heading(title, 1)
      && (m == 1 ==> doc[1] == Paragraph(DocxMetaLine(classGrade, subject), None))
      && doc[1 + m] == Paragraph("", None)
  {
    doc := [Heading(title, 1)];
    if Truthy(classGrade) || Truthy(subject) {
      var metaLine := "";
      if Truthy(classGrade) {
        metaLine := metaLine + ClassLabel + classGrade.value + "  ";
      }
      if Truthy(subject) {
        metaLine := metaLine + SubjectLabel + subject.value;
      }
      assert metaLine == DocxMetaLine(classGrade, subject);
      doc := doc + [Paragraph(metaLine, None)];
    }
    doc := doc + [Paragraph("", None)];
    ghost var front := doc;
    ghost var m := if HasMeta(classGrade, subject) then 1 else 0;
    assert |front| == 2 + m && front[0] == Heading(title, 1) && front[1 + m] == Paragraph("", None);
    assert m == 1 ==> front[1] == Paragraph(DocxMetaLine(classGrade, subject), None);
    doc := AddParagraphs(doc, Split(Strip(formattedText), BlankLine));
    assert forall j :: 0 <= j < |front| ==> doc[j] == doc[..|front|][j] == front[j];
  }

  /** The DOCX body paragraphs, before stripping, rejoined with blank lines
      give back the stripped text, and none of them holds a blank line. */
  lemma DocxBodyCoversText(formattedText: string, k: nat)
    requires k < |Split(Strip(formattedText), BlankLine)|
    ensures Join(BlankLine, Split(Strip(formattedText), BlankLine)) == Strip(formattedText)
    ensures FindFirst(Split(Strip(formattedText), BlankLine)[k], BlankLine).None?
  {
    SplitJoin(Strip(formattedText), BlankLine);
    SplitPiecesFree(Strip(formattedText), BlankLine, k);
  }

  /** Whitespace-only text still gives one (empty) body paragraph. */
  lemma BlankTextOneParagraph(formattedText: string)
    requires Strip(formattedText) == ""
    ensures Split(Strip(formattedText), BlankLine) == [""]
  {
    assert FindFirst("", BlankLine) == None;
  }

  // ---------------------------------------------------------------------
  // generate_pdf
  // ---------------------------------------------------------------------

  /** Leftmost non-overlapping occurrences of `sep`: the separators `Split` cuts at. */
  function Separators(s: string, sep: string): nat
    requires |sep| > 0
    decreases |s|
  {
    match FindFirst(s, sep)
    case None => 0
    case Some(i) => 1 + Separators(s[i + |sep|..], sep)
  }

  /** Splitting yields one piece more than there are separators. */
  lemma {:induction false} SplitCount(s: string, sep: string)
    requires |sep| > 0
    ensures |Split(s, sep)| == Separators(s, sep) + 1
    decreases |s|
  {
    match FindFirst(s, sep)
    case None =>
    case Some(i) => SplitCount(s[i + |sep|..], sep);
  }

  /** Each piece, stripped, followed by a spacer. */
  function PdfBody(pieces: seq<string>): seq<Flowable>
  {
    if pieces == [] then []
    else PdfBody(pieces[..|pieces| - 1]) + [Para(Strip(pieces[|pieces| - 1]), NormalStyle), Gap]
  }

  /** The body alternates paragraph and spacer: the `k`-th piece, stripped,
      at `2k`, a spacer at `2k + 1`. */
  lemma {:induction false} PdfBodyAlternates(pieces: seq<string>, k: nat)
    requires k < |pieces|
    ensures |PdfBody(pieces)| == 2 * |pieces|
    ensures PdfBody(pieces)[2 * k] == Para(Strip(pieces[k]), NormalStyle)
    ensures PdfBody(pieces)[2 * k + 1] == Gap
  {
    var n := |pieces| - 1;
    var init := pieces[..n];
    var body := PdfBody(init);
    PdfBodyLength(init);
    assert PdfBody(pieces) == body + [Para(Strip(pieces[n]), NormalStyle), Gap];
    if k < n {
      PdfBodyAlternates(init, k);
      assert init[k] == pieces[k];
      assert PdfBody(pieces)[2 * k] == body[2 * k] && PdfBody(pieces)[2 * k + 1] == body[2 * k + 1];
    }
  }

  lemma {:induction false} PdfBodyLength(pieces: seq<string>)
    ensures |PdfBody(pieces)| == 2 * |pieces|
  {
    if pieces != [] {
      PdfBodyLength(pieces[..|pieces| - 1]);
    }
  }

  /** `for para in ...: flowables.append(Paragraph(...)); flowables.append(Spacer(1, 12))`. */
  method AddFlowables(flowables: seq<Flowable>, pieces: seq<string>) returns (out: seq<Flowable>)
    ensures out == flowables + PdfBody(pieces)
  {
    out := flowables;
    for k := 0 to |pieces|
      invariant out == flowables + PdfBody(pieces[..k])
    {
      assert pieces[..k + 1][..k] == pieces[..k];
      out := out + [Para(Strip(pieces[k]), NormalStyle), Gap];
    }
    assert pieces[..|pieces|] == pieces;
  }

  /** The number of flowables before the body: two for the title, two for the metadata. */
  function PdfHeaderLength(title: Option<string>, classGrade: Option<string>, subject: Option<string>): nat
  {
    (if Truthy(title) then 2 else 0) + (if HasMeta(classGrade, subject) then 2 else 0)
  }

  /** `generate_pdf`: title and spacer when there is a title, metadata and
      spacer when there is metadata, then each blank-line-separated block of
      the unstripped text, stripped, followed by a spacer. */
  method GeneratePdf(formattedText: string, title: Option<string>, classGrade: Option<string>, subject: Option<string>)
    returns (flowables: seq<Flowable>)
    ensures |flowables| >= PdfHeaderLength(title, classGrade, subject)
    ensures Truthy(title) ==> flowables[..2] == [Para(title.value, TitleStyle), Gap]
    ensures HasMeta(classGrade, subject) ==> var i := if Truthy(title) then 2 else 0;
      flowables[i..i + 2] == [Para(PdfMetadata(classGrade, subject), Heading2Style), Gap]
    ensures flowables[PdfHeaderLength(title, classGrade, subject)..] == PdfBody(Split(formattedText, BlankLine))
  {
    flowables := [];
    if Truthy(title) {
      flowables := flowables + [Para(title.value, TitleStyle), Gap];
    }
    ghost var titled := flowables;
    if Truthy(classGrade) || Truthy(subject) {
      var metadata := "";
      if Truthy(classGrade) {
        metadata := metadata + ClassMarkup + classGrade.value + "<br/>";
      }
      if Truthy(subject) {
        metadata := metadata + SubjectMarkup + subject.value;
      }
      assert metadata == PdfMetadata(classGrade, subject);
      flowables := flowables + [Para(metadata, Heading2Style), Gap];
    }
    ghost var front := flowables;
    assert |front| == PdfHeaderLength(title, classGrade, subject);
    assert Truthy(title) ==> front[..2] == [Para(title.value, TitleStyle), Gap];
    flowables := AddFlowables(flowables, Split(formattedText, BlankLine));
    assert flowables[..|front|] == front;
  }
}
