# AI Teacher Assistant: chapter splitter, LLM client, flashcards, exporters and quizzes in Dafny

This project models the back-end logic of the AI Teacher Assistant app and proves properties of that model.

**Chapter splitter** (`backend/services/chapter_splitter.py`). A textbook PDF is cut into one file per chapter, in four stages:

- it reads each page's printed ("visible") number from the first three and last three non-empty lines of the page;
- it fills gaps in the sparse visible-to-physical map by linear interpolation, skipping segments wider than 100 pages;
- it de-duplicates the chapter table by page, sorts it by page, and translates the visible pages into physical indices;
- it writes each chapter's page range `[start_i, start_{i+1})` under a sanitised, numbered file name.

A segment wider than the cap writes no key at all, so its left anchor is dropped from the interpolated map. Its right anchor survives only as the left end of a filled next segment or as the last anchor, which is always added (`Interpolation.SkippedSegmentUnmapped`, `Interpolation.WideGapExample`).

**LLM client** (`backend/models/llm_client.py`). This part covers:

- the per-model token budget `min(context - input, output, 48000)`;
- the tokenizer fallback to `cl100k_base`;
- the retry policy of `ask_openai_sync`: up to 10 attempts, retried only on rate limits;
- its error shaping: provider errors propagate, other errors become a `❌ Unexpected Error:` reply;
- the token filtering of the streaming call;
- the line accumulation of `ask_llama3`. The model of `ask_llama3` also covers `ask_mistral`, whose code is the same.

**Flashcards** (`backend/services/flashcard_gen.py`). This part covers:

- the longest prefix of a document's lines that fits in 100 000 tokens;
- the checks on the model's JSON reply;
- the normalisation of the input path into a list of PDFs;
- the merge of per-document dictionaries in completion order.

**Exporters** (`backend/services/text_to_pdf_docx.py`, `backend/services/quiz_gen.py`). The DOCX and PDF exporters are modelled as the sequence of blocks each hands to its rendering library. `extract_quiz_json` is modelled together with its fallback record, and `generate_quiz_docx` as its paragraph sequence.

Collaborators the code calls but does not define are parameters of the model. Each is an arbitrary function, so every property holds for all of them:

- the tokenizer: `LlmClient.Tokenizer`;
- the completion provider: `LlmClient.Provider`. For a prompt, attempt number and output budget it gives a reply, a rate limit, another provider error, or an unexpected exception;
- `json.loads`: `Json.Parser`;
- the file system: `Flashcards.FileSystem`;
- PDF text extraction: a PDF is its sequence of page texts.

Python exceptions are values of the `Outcomes.Exception` datatype, carrying a type name and a message. A call that may raise returns an `Outcomes.Result`.

Files: `outcomes.dfy`, `text.dfy` (the Python string operations used), `json.dfy`, `page_detection.dfy`, `interpolation.dfy`, `chapter_splitter.dfy`, `llm_client.dfy`, `flashcards.dfy`, `doc_export.dfy`, `quiz.dfy`.

## Model

| member | source | states |
|---|---|---|
| PageDetection.NonEmptyStripped | backend/services/chapter_splitter.py:14 | every kept line is non-empty; at most one line per input part |
| PageDetection.Candidates | backend/services/chapter_splitter.py:15 | `lines[:3] + lines[-3:]` has twice min(3, number of lines) entries |
| PageDetection.FirstDigitIndex | backend/services/chapter_splitter.py:17 | the index returned holds a digit and no earlier index does; None exactly when the line has no digit |
| PageDetection.RunEnd | backend/services/chapter_splitter.py:17-19 | the digit run `\d+` is maximal: digits up to the end, then a non-digit or the end of the line |
| PageDetection.Declarations | backend/services/chapter_splitter.py:12-22 | one declared number per physical page, in page order |
| PageDetection.VisibleStep | backend/services/chapter_splitter.py:20-21 | processing page i keeps the map correct for the first i+1 pages: a number is recorded only the first time it is seen |
| PageDetection.FindNumber | backend/services/chapter_splitter.py:16-22 | the inner loop stops at the first candidate line with a digit run and returns that run's value, even if the number is already claimed |
| PageDetection.GetVisiblePageNumbers | backend/services/chapter_splitter.py:9-23 | the keys are exactly the declared numbers, and each maps to the first physical page declaring it |
| PageDetection.VisibleMapInjective | backend/services/chapter_splitter.py:20-21 | distinct visible numbers never share a physical page |
| PageDetection.VisibleMapUnique | backend/services/chapter_splitter.py:9-23 | the specification of the detected map determines it completely |
| PageDetection.VisibleMapValues | backend/services/chapter_splitter.py:12-21 | every value is a page index in `[0, page count)` |
| PageDetection.VisibleMapEmpty | backend/services/chapter_splitter.py:11-23 | the map is empty exactly when no page declares a number |
| Interpolation.RoundNearest | backend/services/chapter_splitter.py:59 | `round` gives a nearest integer to the exact quotient, and the even one on a tie |
| Interpolation.RoundBetween | backend/services/chapter_splitter.py:59 | rounding a quotient that lies between two integers stays between them |
| Interpolation.InterpAtAnchor | backend/services/chapter_splitter.py:55-59 | the left anchor of a segment maps to its own physical page (`vis1 ↦ int1`) |
| Interpolation.InterpBetween | backend/services/chapter_splitter.py:55-59 | every interpolated value lies between `int1` and `int2` |
| Interpolation.SortedItems | backend/services/chapter_splitter.py:43 | `sorted(items())` lists every item exactly once, with strictly increasing keys, so every gap is at least 1 |
| Interpolation.FillSegment | backend/services/chapter_splitter.py:58-59 | every v in `[vis1, vis2)` gets its interpolated value; every other entry is unchanged |
| Interpolation.Interpolate | backend/services/chapter_splitter.py:39-64 | fails with IndexError exactly when the map is empty; otherwise it keeps the last anchor, fills every segment within the cap, and adds nothing else |
| Interpolation.InterpolationUnique | backend/services/chapter_splitter.py:43-62 | at most one map meets the specification |
| Interpolation.SkippedSegmentUnmapped | backend/services/chapter_splitter.py:51-53 | a segment wider than the cap writes no key in `[vis1, vis2)`, including its own left anchor |
| Interpolation.KeysWithinAnchors | backend/services/chapter_splitter.py:43-62 | every output key lies between the smallest and the largest known key |
| Interpolation.AnchorsPreserved | backend/services/chapter_splitter.py:46-59 | the left anchor of an interpolated segment keeps its physical page |
| Interpolation.ValuesWithinRange | backend/services/chapter_splitter.py:46-62 | if every anchor points into `[lo, hi]`, so does every output value |
| Interpolation.SingleAnchor | backend/services/chapter_splitter.py:46-62 | a single anchor is returned unchanged and alone |
| Interpolation.LinearExample | backend/services/chapter_splitter.py:46-62 | anchors {1: 0, 10: 9} give exactly keys 1..10, each mapped to v-1 |
| Interpolation.WideGapExample | backend/services/chapter_splitter.py:51-62 | anchors {1: 0, 500: 499} give exactly {500: 499} |
| ChapterSplitter.FirstOccurrences | backend/services/chapter_splitter.py:155-157 | the distinct pages in order of first occurrence: no repeats, and the same elements as the input |
| ChapterSplitter.FirstOccurrencesOrdered | backend/services/chapter_splitter.py:155-157 | the de-duplicated pages come in the order of their first occurrence in the input |
| ChapterSplitter.LastTitleFor | backend/services/chapter_splitter.py:155-156 | defined exactly for the pages of the dict, and the title is paired with that page in the dict |
| ChapterSplitter.Assign | backend/services/chapter_splitter.py:156 | `seen[page] = title`: an existing key keeps its position and a new key is appended; the key gets the title and other entries are unchanged |
| ChapterSplitter.DictStep | backend/services/chapter_splitter.py:155-156 | one more item makes its title the last title of its page and leaves the other pages alone |
| ChapterSplitter.LastTitlesDistinct | backend/services/chapter_splitter.py:157 | the final comprehension has no colliding keys: distinct pages have distinct last titles |
| ChapterSplitter.RemoveDuplicatePages | backend/services/chapter_splitter.py:153-157 | the pages are the input's distinct pages in first-occurrence order; each carries the last title seen with it; titles stay distinct |
| ChapterSplitter.DedupKeepsEveryPage | backend/services/chapter_splitter.py:153-157 | every input page survives, and no page appears twice |
| ChapterSplitter.ToChapters | backend/services/chapter_splitter.py:171 | one chapter per dict item, in order, with its title and page |
| ChapterSplitter.InsertByPage | backend/services/chapter_splitter.py:172 | insertion keeps the list sorted by page, adds exactly the one element (as multisets) and puts it first or keeps the old first chapter in front |
| ChapterSplitter.InsertByPagePermutes | backend/services/chapter_splitter.py:172 | inserting into a sorted list adds exactly the one chapter and loses none, counted as multisets |
| ChapterSplitter.SortByPage | backend/services/chapter_splitter.py:172 | the result is sorted by page and is a permutation of the input |
| ChapterSplitter.MapChaptersToInternal | backend/services/chapter_splitter.py:26-36 | the loop's result equals `Mapped`, the in-order translation of the chapters whose page is a key |
| ChapterSplitter.MappedIsOrderedSubsequence | backend/services/chapter_splitter.py:26-36 | exactly the chapters whose page is a key, in their original order, with titles unchanged and pages replaced by the map's value |
| ChapterSplitter.MappedPagesAreValues | backend/services/chapter_splitter.py:30-34 | translated pages lie within any bounds of the map's values |
| ChapterSplitter.SafeTitle | backend/services/chapter_splitter.py:80 | at most 50 characters, each in `[\w\-_. ]`; a kept character is unchanged and every other one becomes exactly one `_` |
| ChapterSplitter.FileName | backend/services/chapter_splitter.py:81 | ends in `.pdf`; its length is the padded number, `_`, the safe title and `.pdf` |
| ChapterSplitter.FileNameNumber | backend/services/chapter_splitter.py:81 | the chapter number i+1 can be read back from the digits before the first `_` |
| ChapterSplitter.FileNamesDistinct | backend/services/chapter_splitter.py:72-81 | different chapters never share a file name |
| ChapterSplitter.PageIndex | backend/services/chapter_splitter.py:78 | `reader.pages[p]` succeeds exactly for `-total <= p < total`, and negative indices count from the end |
| ChapterSplitter.PagesRead | backend/services/chapter_splitter.py:77-78 | `range(start, end)` copies `end - start` pages, none when start ≥ end |
| ChapterSplitter.CopyPages | backend/services/chapter_splitter.py:76-78 | the page loop succeeds exactly when every index names a page, and then copies exactly `PagesRead` |
| ChapterSplitter.SaveChapter | backend/services/chapter_splitter.py:73-84 | one chapter is saved exactly when every page of its range can be read, and then under its numbered file name with exactly that range |
| ChapterSplitter.SplitByChapterList | backend/services/chapter_splitter.py:67-86 | file i holds chapter i's range `[page_i, page_{i+1})` (the last one ends at the page count) under `FileName(i, title)`; an unreadable range raises after the earlier files |
| ChapterSplitter.SpansContiguous | backend/services/chapter_splitter.py:72-74 | each chapter's range ends where the next one starts, and the last one ends at the page count |
| ChapterSplitter.InsideIsIdentity | backend/services/chapter_splitter.py:77-78 | a range inside the document is copied as is |
| ChapterSplitter.SpansPartition | backend/services/chapter_splitter.py:72-78 | sorted in-document chapters partition the pages from the first start to the end: no page is lost or copied twice |
| ChapterSplitter.SplitWithinDocument | backend/services/chapter_splitter.py:72-84 | when every chapter starts inside the document, the split raises no page lookup error and every copied page is below the page count |
| ChapterSplitter.PrepareChapters | backend/services/chapter_splitter.py:170-172 | the chapters are the de-duplicated table's items (distinct pages in first-occurrence order, each with its last title), sorted by page |
| ChapterSplitter.ResolveMap | backend/services/chapter_splitter.py:176-179 | the caller's map when given; otherwise the interpolation of the document's detected map, with every value a page of the document, or IndexError exactly when no page declares a number |
| ChapterSplitter.SplitMapped | backend/services/chapter_splitter.py:182-189 | stops with "could not map" exactly when no chapter's page is a key of the map; otherwise the files are the split of the translated chapters, and with in-document values no lookup fails |
| ChapterSplitter.MainSplit | backend/services/chapter_splitter.py:160-192 | see below |
| LlmClient.ContextLimit | backend/models/llm_client.py:87-93 | the table's context limit for a listed model, 200 000 otherwise |
| LlmClient.OutputLimit | backend/models/llm_client.py:87-93 | the table's output limit for a listed model, 100 000 otherwise; never below 4096 |
| LlmClient.EncodingFor | backend/models/llm_client.py:95-99 | the model's own encoding, or `cl100k_base` when the tokenizer does not know the model |
| LlmClient.CountTokens | backend/models/llm_client.py:95-100 | the token count under the model's own encoding, or under `cl100k_base` when the tokenizer does not know the model |
| LlmClient.GetMaxTokens | backend/models/llm_client.py:103-109 | the budget is at most each of the three terms and equal to one of them; it is negative exactly when the input exceeds the context limit |
| LlmClient.AskOnce | backend/models/llm_client.py:120-149 | provider errors, rate limits included, propagate unchanged; an unexpected exception becomes the reply `❌ Unexpected Error: {e}`; a reply with content is stripped; a null content fails the `.strip()` call, so the reply is `❌ Unexpected Error: 'NoneType' object has no attribute 'strip'` |
| LlmClient.RetryFromShape | backend/models/llm_client.py:111-116 | at most 10 attempts; every attempt but the last was a rate limit; the result is the last attempt's, and it is not a rate limit unless the attempts ran out |
| LlmClient.RetryFromLast | backend/models/llm_client.py:111-116 | the outcome is that of the last attempt, made within the ten allowed, and it is a rate limit only when the ten are used up |
| LlmClient.RetryFromEarlier | backend/models/llm_client.py:111-116 | every attempt before the last one ended in a rate limit |
| LlmClient.AlwaysRateLimitedExhausts | backend/models/llm_client.py:111-116 | a provider that always rate-limits is called exactly 10 times, and its last error is re-raised unchanged |
| LlmClient.OnlyRateLimitRetried | backend/models/llm_client.py:114 | any first outcome other than a rate limit ends the call after one attempt |
| LlmClient.AskOpenAiSync | backend/models/llm_client.py:111-149 | the attempt loop gives the decorated call's result: 1 to 10 attempts, every earlier one rate-limited, the result that of the last attempt |
| LlmClient.Tokens | backend/models/llm_client.py:159-162 | only non-empty tokens are yielded, at most one per chunk |
| LlmClient.StreamedIsTokens | backend/models/llm_client.py:152-164 | on well-formed chunks the generator yields exactly the non-empty tokens in order, then one error token if the stream fails |
| LlmClient.StreamStopsAtNoChoices | backend/models/llm_client.py:159-164 | a chunk without choices yields one error token and ends the stream |
| LlmClient.StreamedStep | backend/models/llm_client.py:159-164 | one chunk: without choices it yields only the error token and stops; a non-empty token is yielded before the rest; an empty or missing token yields nothing |
| LlmClient.AskOpenAiChatStreaming | backend/models/llm_client.py:152-164 | the generator's output equals the specification `Streamed` |
| LlmClient.LineContribution | backend/models/llm_client.py:52-58 | an empty line or a JSONDecodeError adds `""`; an object adds its string `"response"` field, or `""` when it has none; a non-string field raises TypeError, a non-object AttributeError; any other decoding error propagates unchanged |
| LlmClient.AccumulatedConcat | backend/models/llm_client.py:51-60 | the call succeeds exactly when no line raises, and then returns the in-order concatenation of every line's contribution |
| LlmClient.AccumulatedOk | backend/models/llm_client.py:52-58 | the call succeeds exactly when no line raises |
| LlmClient.AccumulatedValue | backend/models/llm_client.py:51-60 | a successful call returns the in-order concatenation of the lines' contributions |
| LlmClient.AskLlama3 | backend/models/llm_client.py:43-60 | the loop's result equals the specification `Accumulated` |
| LlmClient.AccumulatedErrSticks | backend/models/llm_client.py:52-58 | an exception raised on a line ends the call with that exception |
| Flashcards.SumTokensSnoc | backend/services/flashcard_gen.py:59-60 | the running total grows by the tokens of each appended line |
| Flashcards.WithinBudgetIsLongest | backend/services/flashcard_gen.py:55-60 | the selection is a prefix within the budget, and every longer prefix exceeds the budget |
| Flashcards.SelectLines | backend/services/flashcard_gen.py:52-60 | the loop selects exactly `WithinBudget(lines, 100000)`, and its total is their token count, at most 100 000 |
| Flashcards.LimitedTextWithinBudget | backend/services/flashcard_gen.py:48-62 | the lines joined into the prompt are a prefix of the document's lines and cost at most 100 000 tokens |
| Flashcards.ParseFlashcards | backend/services/flashcard_gen.py:74-82 | success exactly when the reply decodes to an object; a decoding error or a non-object becomes the matching ValueError naming the file's basename |
| Flashcards.GenerateFlashcardsFromPdf | backend/services/flashcard_gen.py:46-82 | the method's result equals the specification `FlashcardsForPdf`: budgeted prompt, the retrying call, then the reply checks |
| Flashcards.PdfNames | backend/services/flashcard_gen.py:17-21 | the entries kept are exactly the listed names with a case-insensitive `.pdf` suffix |
| Flashcards.PdfEntries | backend/services/flashcard_gen.py:17-21 | each kept name is joined to the directory, in listing order |
| Flashcards.NormalisePaths | backend/services/flashcard_gen.py:12-25 | a list passes through; a PDF file becomes a singleton; a directory gives its PDF entries, or a ValueError when there are none; anything else is a ValueError |
| Flashcards.CombineOkAll | backend/services/flashcard_gen.py:35-41 | a successful merge means every document succeeded |
| Flashcards.CombineKeys | backend/services/flashcard_gen.py:35-39 | the merged keys are the union of the documents' keys |
| Flashcards.CombineLastWins | backend/services/flashcard_gen.py:35-39 | a key takes its value from the document merged last that has it |
| Flashcards.FirstFailureIndex | backend/services/flashcard_gen.py:35-41 | the first failing outcome in completion order: every earlier one succeeded; None exactly when all succeeded |
| Flashcards.CombineFirstFailure | backend/services/flashcard_gen.py:35-41 | the merge fails exactly when some document fails, and then with the RuntimeError naming the first failing file in completion order |
| Flashcards.CombineErrSticks | backend/services/flashcard_gen.py:40-41 | once a failure is raised, later documents do not change the outcome |
| Flashcards.Completed | backend/services/flashcard_gen.py:35-38 | the k-th completed future is the path of the k-th finished submission paired with that document's outcome |
| Flashcards.DocumentResultsAt | backend/services/flashcard_gen.py:29-33 | the future of document i holds that document's own outcome |
| Flashcards.SubmitAll | backend/services/flashcard_gen.py:29-33 | the loop submits every path once, in order, and collects each document's outcome |
| Flashcards.MergeCompleted | backend/services/flashcard_gen.py:35-41 | the merge loop returns the specification `Combine` of the completed outcomes: the union with later documents winning, or the first failure |
| Flashcards.GenerateFlashcardsFromPath | backend/services/flashcard_gen.py:10-43 | a normalisation error propagates; otherwise every document is processed and the outcomes are merged in the given completion order |
| Text.StripTrims | backend/services/text_to_pdf_docx.py:47-48 | `strip()` gives the infix left after removing whitespace at both ends; it starts and ends with a non-space character |
| Text.Split | backend/services/text_to_pdf_docx.py:47 | `split(sep)` always yields at least one piece |
| Text.SplitJoin | backend/services/text_to_pdf_docx.py:47 | joining the pieces with the separator gives back the text |
| Text.SplitPiecesFree | backend/services/text_to_pdf_docx.py:47 | no piece contains the separator |
| Text.SplitCutsLeftmost | backend/services/text_to_pdf_docx.py:47 | every cut is at the leftmost occurrence: each piece but the last, followed by the separator, has its first occurrence right after the piece; with `SplitJoin` and `SplitPiecesFree` this fixes the pieces, also for a separator that overlaps itself such as `\n\n` |
| Text.SplitLines | backend/services/flashcard_gen.py:51 | `splitlines()`: no line holds a boundary character, and there are no lines exactly when the text is empty |
| Text.SplitLinesContent | backend/services/flashcard_gen.py:51 | the lines, concatenated, are the text with every boundary character removed |
| Text.SplitLinesIsSplit | backend/services/flashcard_gen.py:51 | for non-empty text whose only boundary character is `\n` and that does not end in one, `splitlines()` is `split("\n")` |
| Text.Basename | backend/services/flashcard_gen.py:41 | a suffix of the path without `/`, preceded by `/` when shorter than the path |
| Text.ZeroPad2 | backend/services/chapter_splitter.py:81 | `{n:02d}`: at least two digits, reading back as n |
| Text.NatToDecimal | backend/services/quiz_gen.py:54 | `str(n)` is all digits, with no leading zero, one digit exactly below 10 |
| Text.DecimalRoundTrip | backend/services/quiz_gen.py:54 | the decimal form of n reads back as n |
| Text.JoinPath | backend/services/chapter_splitter.py:81 | `os.path.join`: an absolute name replaces the directory; otherwise the path begins with the directory and ends with the name |
| DocExport.MetaLineNonEmpty | backend/services/text_to_pdf_docx.py:36-42 | the DOCX and PDF metadata strings are non-empty exactly when class or subject is truthy |
| DocExport.AddParagraphs | backend/services/text_to_pdf_docx.py:47-48 | one stripped paragraph per piece, in order, after the existing blocks |
| DocExport.GenerateDocx | backend/services/text_to_pdf_docx.py:29-54 | the heading, then the metadata paragraph only when there is metadata, then one empty paragraph, then one stripped paragraph per piece of the stripped text split on blank lines |
| DocExport.DocxBodyCoversText | backend/services/text_to_pdf_docx.py:47-48 | the body pieces rejoined with blank lines are the stripped text, and no piece holds a blank line |
| DocExport.BlankTextOneParagraph | backend/services/text_to_pdf_docx.py:47-48 | whitespace-only text gives a single empty body paragraph |
| DocExport.SplitCount | backend/services/text_to_pdf_docx.py:85-87 | splitting yields one piece more than there are separators |
| DocExport.PdfBodyAlternates | backend/services/text_to_pdf_docx.py:85-87 | the body alternates the k-th stripped piece (at 2k) with exactly one spacer (at 2k+1) |
| DocExport.PdfBodyLength | backend/services/text_to_pdf_docx.py:85-87 | the body has two flowables per piece |
| DocExport.AddFlowables | backend/services/text_to_pdf_docx.py:85-87 | the loop appends exactly `PdfBody(pieces)` |
| DocExport.GeneratePdf | backend/services/text_to_pdf_docx.py:60-92 | the title and a spacer only when the title is truthy; the metadata and a spacer only when there is metadata; then the body of the unstripped text split on blank lines |
| Quiz.SpaceRunEnd | backend/services/quiz_gen.py:33 | `\s*` is greedy: whitespace up to a non-space character or the end |
| Quiz.LastClose | backend/services/quiz_gen.py:33 | the greedy `.*`: the last position where `}\s*\]` matches, with no later match |
| Quiz.MatchAt | backend/services/quiz_gen.py:33 | a match starting at i begins with `[` and ends with `]` |
| Quiz.SearchFrom | backend/services/quiz_gen.py:33 | `re.search` returns the leftmost start at which the pattern matches; none exactly when no position matches |
| Quiz.MatchShape | backend/services/quiz_gen.py:33-36 | the matched text is `[`, blanks, `{`, …, `}`, blanks, `]` |
| Quiz.Placeholder | backend/services/quiz_gen.py:40-45 | a one-element list whose record has question `Error parsing quiz.`, no options, and answer `TypeName: message` |
| Quiz.ExtractQuizJson | backend/services/quiz_gen.py:26-45 | stripped text starting with `[` goes to the decoder whole; otherwise the leftmost greedy match does; no match, or a decoding error, gives the placeholder record |
| Quiz.Bullets | backend/services/quiz_gen.py:55-56 | one `List Bullet` paragraph per option, in order |
| Quiz.ItemBlocks | backend/services/quiz_gen.py:54-57 | a question contributes its options plus 2 paragraphs |
| Quiz.QuizBodyLength | backend/services/quiz_gen.py:53-57 | the paragraphs after the heading number Σ(options + 2) |
| Quiz.QuizBodyPrefix | backend/services/quiz_gen.py:53-57 | the paragraphs of the first n questions are a prefix of the whole body |
| Quiz.QuizBodyAt | backend/services/quiz_gen.py:53-57 | question k occupies the paragraphs right after those of the earlier questions: `Q{k+1}: question`, its bullets, then its answer line |
| Quiz.AddItem | backend/services/quiz_gen.py:54-57 | one question appends exactly its question line, its option bullets in order, and its answer line |
| Quiz.GenerateQuizDocx | backend/services/quiz_gen.py:49-62 | a level-1 heading with the title, or `Generated Quiz` when the title is omitted, then the quiz body; 1 + Σ(options + 2) blocks in all |

What `ChapterSplitter.MainSplit` states (backend/services/chapter_splitter.py:160-192):

- it stops with "no chapters detected" exactly when no table is given and the extraction returns none;
- without a given map, it raises IndexError exactly when no page declares a number, because interpolation of the empty map fails;
- otherwise its ghost results name the intermediate values. The chapters are the de-duplicated table (the caller's, else the extracted one) sorted by page. The map is the caller's, or else the interpolation of the document's detected map;
- it stops with "could not map any chapter pages" exactly when neither earlier exit applies and no chapter's page is a key of that map;
- otherwise the files written are exactly the split (`SplitOf`) of the translated chapters, and the split writes at least one file or reports a failure;
- without a given map, every chapter range lies inside the document, so no page lookup fails.

## Left out

- `backend/main.py` (the Streamlit UI) is not part of this model.
- The wrapper functions that only build a prompt and call the model are not part of this model: `backend/services/summarizer.py`, `backend/services/worksheet_generator.py`, `backend/services/text_to_pdf.py`, `convert_text_to_pdf` and `generate_quiz_from_text`. They have no logic of their own.
- `ask_llama3_stream_false` (a single HTTP call and a dictionary lookup) is left out.
- Network calls, the OpenAI client, tiktoken and `json.loads` are parameters of the model, not implementations.
- A PDF is its page texts. PyMuPDF, PyPDF2, reportlab and python-docx rendering are not modelled. Files written are recorded as their path and the physical pages copied, and documents as the blocks handed to the renderer, not bytes.
- `extract_chapters_from_index_with_llm` (chapter_splitter.py:89-150) is left out. It evaluates model output with `eval`. `MainSplit` takes its result as the parameter `extracted`.
- The ThreadPoolExecutor is not modelled. The merge runs in an arbitrary completion order given as a permutation.
- Randomised backoff waits between retries are not modelled; only the attempt count and the retry decision are.
- `print` logging and `traceback.print_exc` are not modelled.
- Interpolation uses exact rational arithmetic and Python's round-half-to-even instead of floating point. Floating-point rounding errors near a .5 tie are therefore not captured.
- `\d`, `\w`, `\s`, `str.isspace` and `str.lower` are restricted to ASCII. Unicode digits, letters and whitespace are not modelled. `str.splitlines` uses Python's full set of line boundaries, including `\x85`, `\u2028` and `\u2029`.
- The UTF-8 decoding of streamed lines in `ask_llama3` is not modelled: lines arrive as text.
- RemoveDuplicatePages: requires distinct titles, because the input is a Python dict whose keys are the titles.
- MainSplit: the chapter table's pages are already integers. The `int(p)` conversion and its ValueError are not modelled. The early exits and the end of the function return no files, rather than Python's `[], {}` or `None`.
- CountTokens: the tokenizer's `encode` is total. tiktoken raises ValueError on text holding a special token such as `<|endoftext|>`. Inside `ask_openai_sync` that exception becomes the reply `❌ Unexpected Error: …`: before the provider is called when the prompt holds the token, and in place of the reply when the output holds it. The model does not capture either case.
- AskOnce: the provider's exceptions are split into rate limits, other `OpenAIError`s and everything else. The OpenAI exception hierarchy is not modelled further.
- QuizItem: a question record has string fields and a list of string options. Missing keys, non-string values and their KeyError/TypeError are not modelled.
- A call to `doc.add_heading(None)` is recorded as a heading with no text.
