/** The LLM client: per-model token limits, the output-token budget, the
    rate-limit retry policy around the synchronous call, the error shaping of
    that call, the streaming generator, and the line accumulation of the
    local streaming endpoint. The tokenizer, the provider and the JSON decoder
    are oracles passed in as values. */
module LlmClient {
  import opened Outcomes
  import opened Text
  import opened Json

  // ---------------------------------------------------------------------
  // MODEL_LIMITS, count_tokens, get_max_tokens
  // ---------------------------------------------------------------------

  datatype Limits = Limits(context: nat, output: nat)

  /** `MODEL_LIMITS.get(model)`. */
  function ModelLimits(model: string): Option<Limits>
  {
    if model == "o4-mini" then Some(Limits(200_000, 100_000))
    else if model == "gpt-4o" then Some(Limits(128_000, 16_384))
    else if model == "gpt-3.5-turbo" then Some(Limits(16_000, 4_096))
    else if model == "gpt-4.1-nano-2025-04-14" then Some(Limits(1_047_576, 32_768))
    else if model == "gpt-oss-120b" then Some(Limits(131_072, 131_072))
    else None
  }

  const DefaultContext: nat := 200_000
  const DefaultOutput: nat := 100_000
  /** The application's own ceiling on requested output tokens. */
  const HardCap: nat := 48_000

  /** The context window of `model`, 200 000 for a model missing from the table. */
  function ContextLimit(model: string): (c: nat)
    ensures ModelLimits(model).Some? ==> c == ModelLimits(model).value.context
    ensures ModelLimits(model).None? ==> c == DefaultContext
  {
    match ModelLimits(model)
    case Some(l) => l.context
    case None => DefaultContext
  }

  /** The provider's output ceiling for `model`, 100 000 for a model missing from the table. */
  function OutputLimit(model: string): (o: nat)
    ensures ModelLimits(model).Some? ==> o == ModelLimits(model).value.output
    ensures ModelLimits(model).None? ==> o == DefaultOutput
    ensures o >= 4_096
  {
    match ModelLimits(model)
    case Some(l) => l.output
    case None => DefaultOutput
  }

  /** The tokenizer library: the encoding it registers for a model, if it
      knows the model, and the encoder of each named encoding. */
  datatype Tokenizer = Tokenizer(encodingForModel: string -> Option<string>, encode: (string, string) -> seq<int>)

  const FallbackEncoding: string := "cl100k_base"

  /** The encoding `count_tokens` uses: the model's own, or `cl100k_base`
      when the library raises `KeyError` for an unknown model. */
  function EncodingFor(tk: Tokenizer, model: string): (name: string)
    ensures tk.encodingForModel(model).None? ==> name == FallbackEncoding
    ensures tk.encodingForModel(model).Some? ==> name == tk.encodingForModel(model).value
  {
    match tk.encodingForModel(model)
    case Some(e) => e
    case None => FallbackEncoding
  }

  /** `count_tokens(text, model)`. */
  function CountTokens(tk: Tokenizer, text: string, model: string): (n: nat)
    ensures tk.encodingForModel(model).Some? ==> n == |tk.encode(tk.encodingForModel(model).value, text)|
    ensures tk.encodingForModel(model).None? ==> n == |tk.encode(FallbackEncoding, text)|
  {
    |tk.encode(EncodingFor(tk, model), text)|
  }

  function Min3(a: int, b: int, c: int): int
  {
    if a <= b && a <= c then a else if b <= c then b else c
  }

  /** `get_max_tokens(prompt, model)`: the least of the context left after the
      prompt, the provider's output limit and the hard cap. It is never
      clamped at zero: it is negative exactly when the prompt alone exceeds
      the context window. */
  function GetMaxTokens(tk: Tokenizer, prompt: string, model: string): (budget: int)
    ensures budget <= ContextLimit(model) - CountTokens(tk, prompt, model)
    ensures budget <= OutputLimit(model) && budget <= HardCap
    ensures budget == ContextLimit(model) - CountTokens(tk, prompt, model)
         || budget == OutputLimit(model) || budget == HardCap
    ensures budget < 0 <==> CountTokens(tk, prompt, model) > ContextLimit(model)
  {
    Min3(ContextLimit(model) - CountTokens(tk, prompt, model), OutputLimit(model), HardCap)
  }

  // ---------------------------------------------------------------------
  // ask_openai_sync and its retry decorator
  // ---------------------------------------------------------------------

  /** What one chat-completion request does: completes with the message
      content (which the provider may leave null), raises the provider's
      rate-limit error, raises another provider error (an `OpenAIError`), or
      raises anything else. */
  datatype ProviderOutcome =
    | Completed(content: Option<string>)
    | RateLimited(message: string)
    | ProviderError(typeName: string, message: string)
    | Unexpected(typeName: string, message: string)

  /** The provider seen from the client: the outcome of the request for
      `prompt` made on attempt number `attempt` (from 0) with the given
      `max_completion_tokens`. */
  type Provider = (string, nat, int) -> ProviderOutcome

  const RateLimitErrorName: string := "RateLimitError"

  predicate IsRateLimit(r: Result<string>)
  {
    r.Err? && r.error.typeName == RateLimitErrorName
  }

  /** The message of the `AttributeError` raised by stripping a null reply. */
  const NoneStripMessage: string := "'NoneType' object has no attribute 'strip'"

  /** The text returned in place of a reply when a non-provider exception occurs. */
  function UnexpectedReply(message: string): string
  {
    "\U{274C} Unexpected Error: " + message
  }

  /** One call of the undecorated `ask_openai_sync`: the stripped reply;
      provider errors (the rate limit included) re-raised; every other
      exception, such as stripping a null content, turned into a returned
      error string. */
  function AskOnce(outcome: ProviderOutcome): (r: Result<string>)
    ensures r.Err? <==> outcome.RateLimited? || outcome.ProviderError?
    ensures outcome.RateLimited? ==> IsRateLimit(r)
    ensures outcome.ProviderError? ==> (IsRateLimit(r) <==> outcome.typeName == RateLimitErrorName)
    ensures outcome.RateLimited? ==> r.error == Exception(RateLimitErrorName, outcome.message)
    ensures outcome.ProviderError? ==> r.error == Exception(outcome.typeName, outcome.message)
    ensures outcome.Unexpected? ==> r == Ok(UnexpectedReply(outcome.message))
    ensures outcome.Completed? && outcome.content.Some? ==> r == Ok(Strip(outcome.content.value))
    ensures outcome == Completed(None) ==> r == Ok(UnexpectedReply(NoneStripMessage))
  {
    match outcome
    case Completed(Some(c)) => Ok(Strip(c))
    case Completed(None) => Ok(UnexpectedReply(NoneStripMessage))
    case RateLimited(m) => Err(Exception(RateLimitErrorName, m))
    case ProviderError(t, m) => Err(Exception(t, m))
    case Unexpected(_, m) => Ok(UnexpectedReply(m))
  }

  /** `stop_after_attempt(10)`. */
  const MaxAttempts: nat := 10

  /** The decorated call from attempt `k` on: a rate-limit error is retried
      until the attempts run out, and the last outcome, value or exception,
      is what the caller sees. Returns that outcome and the attempt count. */
  function RetryFrom(provider: Provider, prompt: string, budget: int, k: nat): (res: (Result<string>, nat))
    requires k < MaxAttempts
    decreases MaxAttempts - k
  {
    var r := AskOnce(provider(prompt, k, budget));
    if IsRateLimit(r) && k + 1 < MaxAttempts then RetryFrom(provider, prompt, budget, k + 1)
    else (r, k + 1)
  }

  /** Attempts after `k` happen only after rate limits, never more than ten in
      all, and the outcome is that of the last attempt. */
  lemma RetryFromShape(provider: Provider, prompt: string, budget: int, k: nat)
    requires k < MaxAttempts
    ensures var (r, n) := RetryFrom(provider, prompt, budget, k);
      && k < n <= MaxAttempts
      && r == AskOnce(provider(prompt, n - 1, budget))
      && (forall j :: k <= j < n - 1 ==> IsRateLimit(AskOnce(provider(prompt, j, budget))))
      && (n < MaxAttempts ==> !IsRateLimit(r))
  {
    RetryFromLast(provider, prompt, budget, k);
    RetryFromEarlier(provider, prompt, budget, k);
  }

  /** The outcome is that of attempt `n - 1`, the last of at most ten, and
      it is a rate limit only when the attempts ran out. */
  lemma {:induction false} RetryFromLast(provider: Provider, prompt: string, budget: int, k: nat)
    requires k < MaxAttempts
    ensures var (r, n) := RetryFrom(provider, prompt, budget, k);
      && k < n <= MaxAttempts
      && r == AskOnce(provider(prompt, n - 1, budget))
      && (n < MaxAttempts ==> !IsRateLimit(r))
    decreases MaxAttempts - k
  {
    if IsRateLimit(AskOnce(provider(prompt, k, budget))) && k + 1 < MaxAttempts {
      RetryFromLast(provider, prompt, budget, k + 1);
    }
  }

  /** Every attempt before the last one was a rate limit. */
  lemma {:induction false} RetryFromEarlier(provider: Provider, prompt: string, budget: int, k: nat)
    requires k < MaxAttempts
    ensures forall j :: k <= j < RetryFrom(provider, prompt, budget, k).1 - 1 ==>
      IsRateLimit(AskOnce(provider(prompt, j, budget)))
    decreases MaxAttempts - k
  {
    if IsRateLimit(AskOnce(provider(prompt, k, budget))) && k + 1 < MaxAttempts {
      RetryFromEarlier(provider, prompt, budget, k + 1);
    }
  }

  /** A provider that always signals a rate limit is asked exactly ten
      times, and its tenth rate-limit error is raised unchanged. */
  lemma {:induction false} AlwaysRateLimitedExhausts(provider: Provider, prompt: string, budget: int, k: nat)
    requires k < MaxAttempts
    requires forall j :: provider(prompt, j, budget).RateLimited?
    ensures RetryFrom(provider, prompt, budget, k) ==
      (Err(Exception(RateLimitErrorName, provider(prompt, MaxAttempts - 1, budget).message)), MaxAttempts)
    decreases MaxAttempts - k
  {
    if k + 1 < MaxAttempts {
      AlwaysRateLimitedExhausts(provider, prompt, budget, k + 1);
    }
  }

  /** Any other first outcome, including another provider error, ends the
      call after one attempt. */
  lemma OnlyRateLimitRetried(provider: Provider, prompt: string, budget: int)
    requires !IsRateLimit(AskOnce(provider(prompt, 0, budget)))
    ensures RetryFrom(provider, prompt, budget, 0) == (AskOnce(provider(prompt, 0, budget)), 1)
  {
  }

  /** `ask_openai_sync` with its retry decorator: every attempt requests the
      same output budget; the randomised waits between attempts are not
      modelled. Returns the final outcome and the number of requests made. */
  method AskOpenAiSync(tk: Tokenizer, provider: Provider, prompt: string, model: string)
    returns (r: Result<string>, attempts: nat)
    ensures (r, attempts) == RetryFrom(provider, prompt, GetMaxTokens(tk, prompt, model), 0)
    ensures 1 <= attempts <= MaxAttempts
    ensures r == AskOnce(provider(prompt, attempts - 1, GetMaxTokens(tk, prompt, model)))
    ensures forall j :: 0 <= j < attempts - 1 ==>
      IsRateLimit(AskOnce(provider(prompt, j, GetMaxTokens(tk, prompt, model))))
    ensures attempts < MaxAttempts ==> !IsRateLimit(r)
  {
    var budget := GetMaxTokens(tk, prompt, model);
    attempts := 1;
    r := AskOnce(provider(prompt, 0, budget));
    while IsRateLimit(r) && attempts < MaxAttempts
      invariant 1 <= attempts <= MaxAttempts
      invariant r == AskOnce(provider(prompt, attempts - 1, budget))
      invariant RetryFrom(provider, prompt, budget, attempts - 1) == RetryFrom(provider, prompt, budget, 0)
      decreases MaxAttempts - attempts
    {
      r := AskOnce(provider(prompt, attempts, budget));
      attempts := attempts + 1;
    }
    RetryFromShape(provider, prompt, budget, 0);
  }

  // ---------------------------------------------------------------------
  // ask_openai_chat_streaming
  // ---------------------------------------------------------------------

  /** A streamed chunk: the delta content of its first choice (possibly
      null), or a chunk without choices, on which `choices[0]` raises. */
  datatype StreamChunk = Delta(content: Option<string>) | NoChoices

  /** The token the generator yields for an exception, in place of raising it. */
  function ErrorToken(e: Exception): string
  {
    ErrorTokenPrefix + e.message
  }

  const ErrorTokenPrefix: string := "\n\U{274C} Error: "

  const NoChoicesError: Exception := IndexError("list index out of range")

  /** What the generator yields for the chunks still to come and the error,
      if any, that the stream raises after them. */
  function Streamed(chunks: seq<StreamChunk>, failure: Option<Exception>): seq<string>
  {
    if chunks == [] then (if failure.Some? then [ErrorToken(failure.value)] else [])
    else match chunks[0]
      case NoChoices => [ErrorToken(NoChoicesError)]
      case Delta(Some(t)) => (if t != "" then [t] else []) + Streamed(chunks[1..], failure)
      case Delta(None) => Streamed(chunks[1..], failure)
  }

  /** The non-empty delta tokens, in order. */
  function Tokens(chunks: seq<StreamChunk>): (ts: seq<string>)
    ensures forall k :: 0 <= k < |ts| ==> ts[k] != ""
    ensures |ts| <= |chunks|
  {
    if chunks == [] then []
    else (if chunks[0].Delta? && chunks[0].content.Some? && chunks[0].content.value != ""
          then [chunks[0].content.value] else []) + Tokens(chunks[1..])
  }

  predicate WellFormed(chunks: seq<StreamChunk>)
  {
    forall k :: 0 <= k < |chunks| ==> chunks[k].Delta?
  }

  /** On a stream of well-formed chunks the generator yields exactly the
      non-empty tokens, in order, then one error token if the stream fails. */
  lemma {:induction false} StreamedIsTokens(chunks: seq<StreamChunk>, failure: Option<Exception>)
    requires WellFormed(chunks)
    ensures Streamed(chunks, failure) ==
      Tokens(chunks) + (if failure.Some? then [ErrorToken(failure.value)] else [])
  {
    if chunks != [] {
      StreamedIsTokens(chunks[1..], failure);
    }
  }

  /** A chunk without choices ends the stream: what follows it is never yielded. */
  lemma {:induction false} StreamStopsAtNoChoices(chunks: seq<StreamChunk>, i: nat, failure: Option<Exception>)
    requires i < |chunks| && chunks[i].NoChoices? && WellFormed(chunks[..i])
    ensures Streamed(chunks, failure) == Tokens(chunks[..i]) + [ErrorToken(NoChoicesError)]
  {
    if i > 0 {
      assert chunks[1..][..i - 1] == chunks[..i][1..];
      StreamStopsAtNoChoices(chunks[1..], i - 1, failure);
    }
  }

  /** What the generator yields from chunk `i` on: the error token of a
      chunk without choices, else that chunk's non-empty token, if any,
      before what the later chunks yield. */
  lemma StreamedStep(chunks: seq<StreamChunk>, failure: Option<Exception>, i: nat)
    requires i < |chunks|
    ensures chunks[i].NoChoices? ==> Streamed(chunks[i..], failure) == [ErrorToken(NoChoicesError)]
    ensures chunks[i].Delta? && chunks[i].content.Some? && chunks[i].content.value != "" ==>
      Streamed(chunks[i..], failure) == [chunks[i].content.value] + Streamed(chunks[i + 1..], failure)
    ensures chunks[i].Delta? && !(chunks[i].content.Some? && chunks[i].content.value != "") ==>
      Streamed(chunks[i..], failure) == Streamed(chunks[i + 1..], failure)
  {
    assert chunks[i..][0] == chunks[i];
    assert chunks[i..][1..] == chunks[i + 1..];
  }

  /** `ask_openai_chat_streaming`, with the stream it consumes given as the
      chunks it delivers followed by the failure, if any, that ends it (a
      failure to open the stream is a failure after no chunks). */
  method AskOpenAiChatStreaming(chunks: seq<StreamChunk>, failure: Option<Exception>) returns (yielded: seq<string>)
    ensures yielded == Streamed(chunks, failure)
  {
    yielded := [];
    var i := 0;
    while i < |chunks|
      invariant 0 <= i <= |chunks|
      invariant yielded + Streamed(chunks[i..], failure) == Streamed(chunks, failure)
    {
      StreamedStep(chunks, failure, i);
      match chunks[i]
      case NoChoices =>
        yielded := yielded + [ErrorToken(NoChoicesError)];
        return;
      case Delta(token) =>
        if token.Some? && token.value != "" {
          yielded := yielded + [token.value];
        }
      i := i + 1;
    }
    if failure.Some? {
      yielded := yielded + [ErrorToken(failure.value)];
    }
  }

  // ---------------------------------------------------------------------
  // ask_llama3 / ask_mistral
  // ---------------------------------------------------------------------

  /** What one streamed line adds to `full_text`: nothing for an empty or
      undecodable line, the `"response"` field of an object (`""` when
      absent); `data.get` on a non-object and `+=` of a non-string raise. */
  function LineContribution(line: string, parse: Parser): (r: Result<string>)
    ensures line == [] ==> r == Ok("")
    ensures line != [] && parse(line).Err? && parse(line).error.typeName == "JSONDecodeError" ==> r == Ok("")
    ensures line != [] && parse(line).Err? && parse(line).error.typeName != "JSONDecodeError" ==>
      r == Err(parse(line).error)
    ensures line != [] && parse(line).Ok? && parse(line).value.JObject? ==>
      var fields := parse(line).value.fields;
      && ("response" !in fields ==> r == Ok(""))
      && ("response" in fields && fields["response"].JString? ==> r == Ok(fields["response"].s))
      && ("response" in fields && !fields["response"].JString? ==> r.Err? && r.error.typeName == "TypeError")
    ensures line != [] && parse(line).Ok? && !parse(line).value.JObject? ==>
      r.Err? && r.error.typeName == "AttributeError"
    ensures r.Ok? && r.value != "" ==>
      parse(line).Ok? && parse(line).value.JObject? && "response" in parse(line).value.fields &&
      parse(line).value.fields["response"] == JString(r.value)
  {
    if line == [] then Ok("")
    else match parse(line)
      case Err(e) => if e.typeName == "JSONDecodeError" then Ok("") else Err(e)
      case Ok(JObject(fields)) =>
        if "response" !in fields then Ok("")
        else if fields["response"].JString? then Ok(fields["response"].s)
        else Err(Exception("TypeError", "can only concatenate str (not \"" + PyTypeName(fields["response"]) + "\") to str"))
      case Ok(other) => Err(Exception("AttributeError", "'" + PyTypeName(other) + "' object has no attribute 'get'"))
  }

  /** The first failing line's exception, else the concatenation of every
      line's contribution. */
  function Accumulated(lines: seq<string>, parse: Parser): Result<string>
  {
    if lines == [] then Ok("")
    else
      var init := Accumulated(lines[..|lines| - 1], parse);
      if init.Err? then init
      else match LineContribution(lines[|lines| - 1], parse)
        case Err(e) => Err(e)
        case Ok(t) => Ok(init.value + t)
  }

  function Concat(parts: seq<string>): string
  {
    if parts == [] then "" else Concat(parts[..|parts| - 1]) + parts[|parts| - 1]
  }

  /** The text each line contributes (`""` for a line that raises). */
  function Contributions(lines: seq<string>, parse: Parser): (ts: seq<string>)
    ensures |ts| == |lines|
  {
    if lines == [] then []
    else
      var t := match LineContribution(lines[|lines| - 1], parse) case Ok(t) => t case Err(_) => "";
      Contributions(lines[..|lines| - 1], parse) + [t]
  }

  /** The call succeeds exactly when no line raises, and then returns the
      in-order concatenation of every line's contribution. */
  lemma AccumulatedConcat(lines: seq<string>, parse: Parser)
    ensures Accumulated(lines, parse).Ok? <==> forall k :: 0 <= k < |lines| ==> LineContribution(lines[k], parse).Ok?
    ensures Accumulated(lines, parse).Ok? ==> Accumulated(lines, parse).value == Concat(Contributions(lines, parse))
  {
    AccumulatedOk(lines, parse);
    AccumulatedValue(lines, parse);
  }

  lemma {:induction false} AccumulatedOk(lines: seq<string>, parse: Parser)
    ensures Accumulated(lines, parse).Ok? <==> forall k :: 0 <= k < |lines| ==> LineContribution(lines[k], parse).Ok?
  {
    if lines != [] {
      var init := lines[..|lines| - 1];
      AccumulatedOk(init, parse);
      assert Accumulated(lines, parse).Ok? <==>
        Accumulated(init, parse).Ok? && LineContribution(lines[|lines| - 1], parse).Ok?;
      forall k | 0 <= k < |init| ensures init[k] == lines[k] { }
    }
  }

  lemma {:induction false} AccumulatedValue(lines: seq<string>, parse: Parser)
    ensures Accumulated(lines, parse).Ok? ==> Accumulated(lines, parse).value == Concat(Contributions(lines, parse))
  {
    if lines != [] {
      var init := lines[..|lines| - 1];
      AccumulatedValue(init, parse);
      var parts := Contributions(lines, parse);
      assert parts[..|parts| - 1] == Contributions(init, parse);
    }
  }

  /** `ask_llama3` (and the identical `ask_mistral`), given the lines the
      response delivers, already decoded as text. */
  method AskLlama3(lines: seq<string>, parse: Parser) returns (r: Result<string>)
    ensures r == Accumulated(lines, parse)
  {
    var fullText := "";
    for i := 0 to |lines|
      invariant Accumulated(lines[..i], parse) == Ok(fullText)
    {
      assert lines[..i + 1][..i] == lines[..i];
      var added := LineContribution(lines[i], parse);
      if added.Err? {
        AccumulatedErrSticks(lines, parse, i + 1);
        return Err(added.error);
      }
      fullText := fullText + added.value;
    }
    assert lines[..|lines|] == lines;
    r := Ok(fullText);
  }

  /** Once a prefix has failed, the whole run fails with the same exception. */
  lemma {:induction false} AccumulatedErrSticks(lines: seq<string>, parse: Parser, i: nat)
    requires i <= |lines| && Accumulated(lines[..i], parse).Err?
    ensures Accumulated(lines, parse) == Accumulated(lines[..i], parse)
    decreases |lines| - i
  {
    if i < |lines| {
      assert lines[..i + 1][..i] == lines[..i];
      AccumulatedErrSticks(lines, parse, i + 1);
    } else {
      assert lines[..i] == lines;
    }
  }
}
