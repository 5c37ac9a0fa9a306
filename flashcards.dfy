/** Flashcard generation: the token-budgeted prefix of a document's lines
    that goes into the prompt, the checks on the model's JSON reply, the
    normalisation of the input path into a list of PDF paths, and the merge
    of the per-document dictionaries. */
module Flashcards {
  import opened Outcomes
  import opened Text
  import opened Json
  import LlmClient

  /** `MAX_INPUT_TOKENS`. */
  const MaxInputTokens: nat := 100_000

  /** A flashcard dictionary: question or term to answer. */
  type Cards = map<string, Json>

  // ---------------------------------------------------------------------
  // The token-budgeted line prefix of generate_flashcards_from_pdf
  // ---------------------------------------------------------------------

  function SumTokens(lines: seq<string>, tokens: string -> nat): nat
  {
    if lines == [] then 0 else tokens(lines[0]) + SumTokens(lines[1..], tokens)
  }

  lemma {:induction false} SumTokensSnoc(lines: seq<string>, line: string, tokens: string -> nat)
    ensures SumTokens(lines + [line], tokens) == SumTokens(lines, tokens) + tokens(line)
  {
    if lines != [] {
      assert (lines + [line])[1..] == lines[1..] + [line];
      SumTokensSnoc(lines[1..], line, tokens);
    }
  }

  /** Lines taken from the front while their running token count stays
      within `budget`; the first line that would exceed it ends the prefix. */
  function WithinBudget(lines: seq<string>, tokens: string -> nat, budget: int): seq<string>
  {
    if lines == [] || tokens(lines[0]) > budget then []
    else [lines[0]] + WithinBudget(lines[1..], tokens, budget - tokens(lines[0]))
  }

  /** The selection is a prefix within the budget, and every longer prefix
      exceeds it: it is the longest prefix within the budget. */
  lemma {:induction false} WithinBudgetIsLongest(lines: seq<string>, tokens: string -> nat, budget: int)
    requires budget >= 0
    ensures var r := WithinBudget(lines, tokens, budget);
      && |r| <= |lines| && r == lines[..|r|]
      && SumTokens(r, tokens) <= budget
      && forall m :: |r| < m <= |lines| ==> SumTokens(lines[..m], tokens) > budget
  {
    if lines != [] {
      var t := tokens(lines[0]);
      if t <= budget {
        var rest := lines[1..];
        WithinBudgetIsLongest(rest, tokens, budget - t);
        var r := WithinBudget(rest, tokens, budget - t);
        forall m | |r| + 1 < m <= |lines| ensures SumTokens(lines[..m], tokens) > budget {
          assert lines[..m][1..] == rest[..m - 1];
        }
        assert lines[..|r| + 1] == [lines[0]] + rest[..|r|];
      } else {
        forall m | 0 < m <= |lines| ensures SumTokens(lines[..m], tokens) > budget {
          assert lines[..m][0] == lines[0];
        }
      }
    }
  }

  /** The selection loop: keeps lines while the running total stays within
      `MAX_INPUT_TOKENS` and stops at the first line that would exceed it. */
  method SelectLines(lines: seq<string>, tokens: string -> nat) returns (selected: seq<string>, total: nat)
    ensures selected == WithinBudget(lines, tokens, MaxInputTokens)
    ensures total == SumTokens(selected, tokens) <= MaxInputTokens
  {
    selected, total := [], 0;
    var i := 0;
    while i < |lines|
      invariant 0 <= i <= |lines| && selected == lines[..i]
      invariant total == SumTokens(selected, tokens) <= MaxInputTokens
      invariant selected + WithinBudget(lines[i..], tokens, MaxInputTokens - total) == WithinBudget(lines, tokens, MaxInputTokens)
    {
      var line := lines[i];
      var t := tokens(line);
      if total + t > MaxInputTokens {
        break;
      }
      ghost var later := WithinBudget(lines[i + 1..], tokens, MaxInputTokens - total - t);
      assert lines[i..][1..] == lines[i + 1..];
      assert WithinBudget(lines[i..], tokens, MaxInputTokens - total) == [line] + later;
      assert selected + ([line] + later) == (selected + [line]) + later;
      SumTokensSnoc(selected, line, tokens);
      assert lines[..i + 1] == lines[..i] + [line];
      selected := selected + [line];
      total := total + t;
      i := i + 1;
    }
  }

  /** The text sent to the model: the budgeted lines of the document's text
      (its pages joined by newlines), joined by newlines. */
  function LimitedText(pages: seq<string>, tokens: string -> nat): string
  {
    Join("\n", WithinBudget(SplitLines(Join("\n", pages)), tokens, MaxInputTokens))
  }

  /** The budgeted text costs at most `MAX_INPUT_TOKENS` tokens, line by line. */
  lemma LimitedTextWithinBudget(pages: seq<string>, tokens: string -> nat)
    ensures var lines := SplitLines(Join("\n", pages));
      var selected := WithinBudget(lines, tokens, MaxInputTokens);
      |selected| <= |lines| && selected == lines[..|selected|] && SumTokens(selected, tokens) <= MaxInputTokens
  {
    WithinBudgetIsLongest(SplitLines(Join("\n", pages)), tokens, MaxInputTokens);
  }

  const FlashcardInstructions: string :=
    "You are an expert flashcard generator.\nCreate a dictionary of flashcards from the following text.\nEach key should be a concise question or term. Each value should be the answer or explanation.\nReturn ONLY valid JSON (no markdown, no explanation).\n\nText:\n"

  function FlashcardPrompt(limitedText: string): string
  {
    FlashcardInstructions + limitedText
  }

  // ---------------------------------------------------------------------
  // Checking the reply
  // ---------------------------------------------------------------------

  /** The reply must decode, and decode to an object; a decoding error
      becomes a `ValueError` naming the file. */
  function ParseFlashcards(pdfPath: string, output: string, parse: Parser): (r: Result<Cards>)
    ensures r.Ok? <==> parse(output).Ok? && parse(output).value.JObject?
    ensures r.Ok? ==> parse(output) == Ok(JObject(r.value))
    ensures parse(output).Err? && parse(output).error.typeName == "JSONDecodeError" ==>
      r == Err(ValueError("Invalid JSON output from LLM for: " + Basename(pdfPath)))
    ensures parse(output).Err? && parse(output).error.typeName != "JSONDecodeError" ==> r == Err(parse(output).error)
    ensures parse(output).Ok? && !parse(output).value.JObject? ==>
      r == Err(ValueError("Output is not a dictionary for: " + Basename(pdfPath)))
  {
    match parse(output)
    case Err(e) =>
      if e.typeName == "JSONDecodeError" then Err(ValueError("Invalid JSON output from LLM for: " + Basename(pdfPath)))
      else Err(e)
    case Ok(JObject(fields)) => Ok(fields)
    case Ok(_) => Err(ValueError("Output is not a dictionary for: " + Basename(pdfPath)))
  }

  /** The collaborators of flashcard generation: the page texts of the PDF at
      a path (or the exception opening it raises), the tokenizer, the
      provider and the JSON decoder, and the file system. */
  datatype Backend = Backend(
    documents: string -> Result<seq<string>>,
    tokenizer: LlmClient.Tokenizer,
    provider: LlmClient.Provider,
    parse: Parser,
    fs: FileSystem)

  function LineTokens(tk: LlmClient.Tokenizer, model: string): string -> nat
  {
    line => LlmClient.CountTokens(tk, line, model)
  }

  /** What `generate_flashcards_from_pdf(path, model)` returns or raises. */
  function FlashcardsForPdf(b: Backend, model: string, path: string): Result<Cards>
  {
    match b.documents(path)
    case Err(e) => Err(e)
    case Ok(pages) =>
      var prompt := FlashcardPrompt(LimitedText(pages, LineTokens(b.tokenizer, model)));
      var budget := LlmClient.GetMaxTokens(b.tokenizer, prompt, model);
      match LlmClient.RetryFrom(b.provider, prompt, budget, 0).0
      case Err(e) => Err(e)
      case Ok(output) => ParseFlashcards(path, output, b.parse)
  }

  /** `generate_flashcards_from_pdf`. */
  method GenerateFlashcardsFromPdf(b: Backend, model: string, path: string) returns (r: Result<Cards>)
    ensures r == FlashcardsForPdf(b, model, path)
  {
    var pages := b.documents(path);
    if pages.Err? {
      return Err(pages.error);
    }
    var fullText := Join("\n", pages.value);
    var lines := SplitLines(fullText);
    var selected, total := SelectLines(lines, LineTokens(b.tokenizer, model));
    var limitedText := Join("\n", selected);
    var prompt := FlashcardPrompt(limitedText);
    var output, attempts := LlmClient.AskOpenAiSync(b.tokenizer, b.provider, prompt, model);
    if output.Err? {
      return Err(output.error);
    }
    r := ParseFlashcards(path, output.value, b.parse);
  }

  // ---------------------------------------------------------------------
  // Input normalisation of generate_flashcards_from_path
  // ---------------------------------------------------------------------

  /** The file-system queries the normalisation makes. */
  datatype FileSystem = FileSystem(isFile: string -> bool, isDir: string -> bool, listDir: string -> seq<string>)

  /** `input_path` is either a list of paths or a single path. */
  datatype PathInput = PathList(paths: seq<string>) | SinglePath(path: string)

  /** The directory entries with a `.pdf` suffix (in any letter case), in listing order. */
  function PdfNames(names: seq<string>): (r: seq<string>)
    ensures |r| <= |names|
    ensures forall n :: n in r <==> n in names && EndsWithPdf(n)
  {
    if names == [] then []
    else
      var rest := PdfNames(names[1..]);
      assert forall n :: n in names <==> n == names[0] || n in names[1..];
      (if EndsWithPdf(names[0]) then [names[0]] else []) + rest
  }

  /** `[os.path.join(dir, f) for f in names if f.lower().endswith(".pdf")]`. */
  function PdfEntries(dir: string, names: seq<string>): (r: seq<string>)
    ensures |r| == |PdfNames(names)|
    ensures forall k :: 0 <= k < |r| ==> r[k] == JoinPath(dir, PdfNames(names)[k])
  {
    var pdfs := PdfNames(names);
    seq(|pdfs|, k requires 0 <= k < |pdfs| => JoinPath(dir, pdfs[k]))
  }

  /** Normalising `input_path` to a list of PDF paths. */
  function NormalisePaths(input: PathInput, fs: FileSystem): (r: Result<seq<string>>)
    ensures input.PathList? ==> r == Ok(input.paths)
    ensures input.SinglePath? && fs.isFile(input.path) && EndsWithPdf(input.path) ==> r == Ok([input.path])
    ensures input.SinglePath? && !(fs.isFile(input.path) && EndsWithPdf(input.path)) && fs.isDir(input.path) ==>
      (r.Ok? <==> exists n :: n in fs.listDir(input.path) && EndsWithPdf(n)) &&
      (r.Ok? ==> r.value == PdfEntries(input.path, fs.listDir(input.path))) &&
      (r.Err? ==> r.error == ValueError("No PDF files found in folder: " + input.path))
    ensures input.SinglePath? && !(fs.isFile(input.path) && EndsWithPdf(input.path)) && !fs.isDir(input.path) ==>
      r == Err(ValueError("Invalid input path: " + input.path))
    ensures input.SinglePath? && r.Ok? ==> |r.value| > 0
  {
    match input
    case PathList(paths) => Ok(paths)
    case SinglePath(p) =>
      if fs.isFile(p) && EndsWithPdf(p) then Ok([p])
      else if fs.isDir(p) then
        var entries := PdfEntries(p, fs.listDir(p));
        assert entries == [] <==> PdfNames(fs.listDir(p)) == [];
        assert PdfNames(fs.listDir(p)) != [] ==> PdfNames(fs.listDir(p))[0] in PdfNames(fs.listDir(p));
        if entries == [] then Err(ValueError("No PDF files found in folder: " + p))
        else Ok(entries)
      else Err(ValueError("Invalid input path: " + p))
  }

  // ---------------------------------------------------------------------
  // Merging the per-document results
  // ---------------------------------------------------------------------

  /** The exception that aborts the batch when one document fails. */
  function FailedFor(path: string, e: Exception): Exception
  {
    RuntimeError("\U{274C} Failed for " + Basename(path) + ": " + e.message)
  }

  /** One completed future: `update` with its dictionary, or the abort its
      exception causes; nothing changes once the batch has failed. */
  function MergeStep(acc: Result<Cards>, entry: (string, Result<Cards>)): Result<Cards>
  {
    if acc.Err? then acc
    else match entry.1
      case Err(e) => Err(FailedFor(entry.0, e))
      case Ok(cards) => Ok(acc.value + cards)
  }

  /** Merging per-document outcomes, given with their paths in completion
      order: `update` for each success, the first failure aborting. */
  function Combine(done: seq<(string, Result<Cards>)>): Result<Cards>
  {
    if done == [] then Ok(map[]) else MergeStep(Combine(done[..|done| - 1]), done[|done| - 1])
  }

  /** A merge succeeds only if every document succeeded. */
  lemma {:induction false} CombineOkAll(done: seq<(string, Result<Cards>)>)
    requires Combine(done).Ok?
    ensures forall i :: 0 <= i < |done| ==> done[i].1.Ok?
  {
    if done != [] {
      var n := |done| - 1;
      CombineOkAll(done[..n]);
      forall i | 0 <= i < n ensures done[i].1.Ok? {
        assert done[..n][i] == done[i];
      }
    }
  }

  /** A successful merge holds exactly the keys of the merged dictionaries. */
  lemma {:induction false} CombineKeys(done: seq<(string, Result<Cards>)>, key: string)
    requires Combine(done).Ok?
    ensures forall i :: 0 <= i < |done| ==> done[i].1.Ok?
    ensures key in Combine(done).value <==> exists i :: 0 <= i < |done| && key in done[i].1.value
  {
    CombineOkAll(done);
    if done != [] {
      var n := |done| - 1;
      var init := done[..n];
      CombineKeys(init, key);
      assert Combine(done).value == Combine(init).value + done[n].1.value;
      if key in Combine(init).value {
        var i :| 0 <= i < n && key in init[i].1.value;
        assert done[i] == init[i];
      }
      if exists i :: 0 <= i < n && key in done[i].1.value {
        var i :| 0 <= i < n && key in done[i].1.value;
        assert done[i] == init[i];
      }
    }
  }

  /** A key of a successful merge takes its value from the last dictionary,
      in completion order, that has it. */
  lemma {:induction false} CombineLastWins(done: seq<(string, Result<Cards>)>, key: string, i: nat)
    requires Combine(done).Ok?
    requires i < |done| && done[i].1.Ok? && key in done[i].1.value
    requires forall j :: i < j < |done| ==> done[j].1.Ok? && key !in done[j].1.value
    ensures key in Combine(done).value && Combine(done).value[key] == done[i].1.value[key]
  {
    var n := |done| - 1;
    var init := done[..n];
    assert Combine(done).value == Combine(init).value + done[n].1.value;
    if i < n {
      assert init[i] == done[i];
      forall j | i < j < n ensures init[j].1.Ok? && key !in init[j].1.value {
        assert init[j] == done[j];
      }
      CombineLastWins(init, key, i);
    }
  }

  /** The position of the first failed document, in completion order. */
  function FirstFailureIndex(done: seq<(string, Result<Cards>)>): (r: Option<nat>)
    ensures r.Some? ==> r.value < |done| && done[r.value].1.Err?
    ensures r.Some? ==> forall j :: 0 <= j < r.value ==> done[j].1.Ok?
    ensures r.None? ==> forall j :: 0 <= j < |done| ==> done[j].1.Ok?
  {
    if done == [] then None
    else
      var n := |done| - 1;
      assert forall j :: 0 <= j < n ==> done[..n][j] == done[j];
      match FirstFailureIndex(done[..n])
      case Some(k) => Some(k)
      case None => if done[n].1.Err? then Some(n) else None
  }

  /** The merge fails exactly when some document fails, and then with the
      error of the first failure in completion order, naming its file. */
  lemma {:induction false} CombineFirstFailure(done: seq<(string, Result<Cards>)>)
    ensures Combine(done).Err? <==> FirstFailureIndex(done).Some?
    ensures Combine(done).Err? ==> var k := FirstFailureIndex(done).value;
      Combine(done).error == FailedFor(done[k].0, done[k].1.error)
  {
    if done != [] {
      var n := |done| - 1;
      CombineFirstFailure(done[..n]);
      match FirstFailureIndex(done[..n])
      case Some(k) =>
        assert done[..n][k] == done[k];
      case None =>
    }
  }

  /** Once the merge of a prefix has failed, the rest changes nothing. */
  lemma {:induction false} CombineErrSticks(done: seq<(string, Result<Cards>)>, i: nat)
    requires i <= |done| && Combine(done[..i]).Err?
    ensures Combine(done) == Combine(done[..i])
    decreases |done|
  {
    if i == |done| {
      assert done[..i] == done;
    } else {
      var n := |done| - 1;
      assert done[..n][..i] == done[..i];
      CombineErrSticks(done[..n], i);
    }
  }

  /** `completion` lists each index of `n` paths once: the order in which
      the futures complete. */
  predicate IsCompletionOrder(completion: seq<nat>, n: nat)
  {
    |completion| == n && (forall k :: 0 <= k < n ==> completion[k] < n)
    && forall k, j :: 0 <= k < j < n ==> completion[k] != completion[j]
  }

  /** The documents' outcomes with their paths, in completion order. */
  function Completed(paths: seq<string>, results: seq<Result<Cards>>, completion: seq<nat>): (done: seq<(string, Result<Cards>)>)
    requires |results| == |paths|
    requires forall k :: 0 <= k < |completion| ==> completion[k] < |paths|
    ensures |done| == |completion|
    ensures forall k :: 0 <= k < |completion| ==> done[k] == (paths[completion[k]], results[completion[k]])
  {
    seq(|completion|, k requires 0 <= k < |completion| => (paths[completion[k]], results[completion[k]]))
  }

  /** What every submitted future computes: one document's flashcards or exception. */
  function DocumentResults(b: Backend, model: string, paths: seq<string>): (results: seq<Result<Cards>>)
    ensures |results| == |paths|
  {
    if paths == [] then []
    else DocumentResults(b, model, paths[..|paths| - 1]) + [FlashcardsForPdf(b, model, paths[|paths| - 1])]
  }

  /** Each future computes its own document's outcome. */
  lemma {:induction false} DocumentResultsAt(b: Backend, model: string, paths: seq<string>, i: nat)
    requires i < |paths|
    ensures DocumentResults(b, model, paths)[i] == FlashcardsForPdf(b, model, paths[i])
  {
    var n := |paths| - 1;
    if i < n {
      DocumentResultsAt(b, model, paths[..n], i);
    }
  }

  /** `executor.submit(generate_flashcards_from_pdf, path, model)` for every
      path: each document is processed, whatever happens to the others. */
  method SubmitAll(b: Backend, model: string, paths: seq<string>) returns (results: seq<Result<Cards>>)
    ensures results == DocumentResults(b, model, paths)
  {
    results := [];
    for i := 0 to |paths|
      invariant results == DocumentResults(b, model, paths[..i])
    {
      var cards := GenerateFlashcardsFromPdf(b, model, paths[i]);
      assert paths[..i + 1][..i] == paths[..i];
      results := results + [cards];
    }
    assert paths[..|paths|] == paths;
  }

  /** The `as_completed` loop: each document's dictionary is merged as its
      future completes, and the first failure aborts the batch. */
  method MergeCompleted(paths: seq<string>, results: seq<Result<Cards>>, completion: seq<nat>)
    returns (r: Result<Cards>)
    requires |results| == |paths|
    requires forall k :: 0 <= k < |completion| ==> completion[k] < |paths|
    ensures r == Combine(Completed(paths, results, completion))
  {
    ghost var done := Completed(paths, results, completion);
    var combined: Cards := map[];
    for k := 0 to |completion|
      invariant Combine(done[..k]) == Ok(combined)
    {
      assert done[..k + 1][..k] == done[..k];
      var path := paths[completion[k]];
      var cards := results[completion[k]];
      if cards.Err? {
        CombineErrSticks(done, k + 1);
        return Err(FailedFor(path, cards.error));
      }
      combined := combined + cards.value;
    }
    assert done[..|completion|] == done;
    r := Ok(combined);
  }

  /** `generate_flashcards_from_path`: every document is processed and the
      results are merged in `completion` order, any order the thread pool
      may produce. */
  method GenerateFlashcardsFromPath(b: Backend, model: string, input: PathInput, completion: seq<nat>)
    returns (r: Result<Cards>)
    requires NormalisePaths(input, b.fs).Ok? ==> IsCompletionOrder(completion, |NormalisePaths(input, b.fs).value|)
    ensures NormalisePaths(input, b.fs).Err? ==> r == Err(NormalisePaths(input, b.fs).error)
    ensures NormalisePaths(input, b.fs).Ok? ==>
      var paths := NormalisePaths(input, b.fs).value;
      r == Combine(Completed(paths, DocumentResults(b, model, paths), completion))
  {
    var paths := NormalisePaths(input, b.fs);
    if paths.Err? {
      return Err(paths.error);
    }
    var results := SubmitAll(b, model, paths.value);
    r := MergeCompleted(paths.value, results, completion);
  }
}
