/**
  The text-generation front end (core/generation.py) with its network and SDK
  calls abstracted: what a server or the Gemini SDK answered is a parameter.
  Failures are reported in-band, as strings that start with "[INTERNAL]".
*/
module Generation {
  import opened Wrappers
  import opened Text

  /** The marker every failure string of a generator starts with. */
  const InternalPrefix: string := "[INTERNAL]"

  predicate IsInternal(text: string) {
    InternalPrefix <= text
  }

  /** A failure string: the marker followed by a description. */
  function Failure(detail: string): (r: string)
    ensures IsInternal(r)
  {
    InternalPrefix + detail
  }

  const ErrorPrefix: string := "Error:"

  /** The test callers apply to generated text: `text and not text.startswith("Error:")`. */
  predicate PassesErrorCheck(text: string) {
    text != [] && !(ErrorPrefix <= text)
  }

  /** The outcome of calling a generator: the string it returned, or an exception it raised. */
  datatype Call = Returned(text: string) | Raised

  // ---------------------------------------------------------------------
  // generate_marketing_message (identical in both generators)

  /** `response.strip().strip('"\'')`: surrounding whitespace off, then surrounding quotes off. */
  function CleanMarketing(text: string): (r: string)
    ensures r != [] ==> !IsQuote(r[0]) && !IsQuote(r[|r| - 1])
  {
    Strip(Strip(text, IsSpace), IsQuote)
  }

  /** The cleaned message is a contiguous piece of the generated text: clean-up only removes. */
  lemma CleanMarketingIsPiece(text: string)
    ensures Contains(text, CleanMarketing(text))
  {
    var trimmed := Strip(text, IsSpace);
    StripIsPiece(text, IsSpace);
    StripIsPiece(trimmed, IsQuote);
    ContainsTransitive(text, trimmed, CleanMarketing(text));
  }

  /** Text with no surrounding whitespace or quotes is delivered as generated. */
  lemma CleanMarketingKeepsPlainText(text: string)
    requires text != []
    requires !IsSpace(text[0]) && !IsSpace(text[|text| - 1])
    requires !IsQuote(text[0]) && !IsQuote(text[|text| - 1])
    ensures CleanMarketing(text) == text
  {
  }

  /**
    The marketing wrapper: a raised exception or an "[INTERNAL]" failure
    becomes "", anything else is cleaned.
  */
  function MarketingMessage(c: Call): (r: string)
    ensures r != [] ==> c.Returned? && !IsInternal(c.text) && r == CleanMarketing(c.text)
    ensures c.Raised? || IsInternal(c.text) ==> r == []
    ensures c.Returned? && !IsInternal(c.text) ==> r == CleanMarketing(c.text)
  {
    match c
    case Raised => []
    case Returned(text) => if IsInternal(text) then [] else CleanMarketing(text)
  }

  // ---------------------------------------------------------------------
  // GenerationManager

  datatype Provider = Ollama | Gemini

  /** `__init__` lower-cases the provider name and `_initialize_generator` dispatches on it. */
  function InitializeGenerator(modelProvider: string): (r: Result<Provider, string>)
    ensures r == Ok(Ollama) <==> Lower(modelProvider) == "ollama"
    ensures r == Ok(Gemini) <==> Lower(modelProvider) == "gemini"
    ensures r.Err? ==> r.error == "Unsupported model provider: " + Lower(modelProvider)
  {
    var name := Lower(modelProvider);
    if name == "ollama" then Ok(Ollama)
    else if name == "gemini" then Ok(Gemini)
    else Err("Unsupported model provider: " + name)
  }

  /** The dispatch ignores the case of the provider name. */
  lemma ProviderNameIsCaseInsensitive(modelProvider: string)
    ensures InitializeGenerator(Lower(modelProvider)) == InitializeGenerator(modelProvider)
  {
    LowerIdempotent(modelProvider);
  }

  /** Where `GenerationManager.generate_text` sends a request, or the error the call raises. */
  datatype Forward =
    | ToOllama(context: string, model: Option<string>)
    | ToGemini(context: string, model: Option<string>, personality: string)
    | ArgumentCountError

  /** The positional parameters after `self` of each generator's `generate_text`. */
  function GenerateTextParameters(p: Provider): nat {
    match p
    case Ollama => 2
    case Gemini => 3
  }

  /** `GenerationManager.generate_text` passes context, model and personality positionally. */
  const ForwardedArguments: nat := 3

  /**
    The forwarding as written: a call with more positional arguments than
    the callee declares raises TypeError before the callee runs.
  */
  function ForwardGenerateTextAsWritten(p: Provider, context: string, model: Option<string>, personality: string): (f: Forward)
    ensures f.ArgumentCountError? <==> p == Ollama
    ensures f.ToGemini? ==> f == ToGemini(context, model, personality)
  {
    if ForwardedArguments > GenerateTextParameters(p) then ArgumentCountError
    else ForwardGenerateText(p, context, model, personality)
  }

  /**
    The forwarding as intended: each generator receives the arguments it
    declares; Ollama has no personality parameter.
  */
  function ForwardGenerateText(p: Provider, context: string, model: Option<string>, personality: string): (f: Forward)
    ensures !f.ArgumentCountError?
    ensures f.context == context && f.model == model
    ensures f.ToGemini? <==> p == Gemini
    ensures f.ToGemini? ==> f.personality == personality
  {
    match p
    case Ollama => ToOllama(context, model)
    case Gemini => ToGemini(context, model, personality)
  }

  /** The outcome of a forwarded request, given what each generator returns for its arguments. */
  function CallThrough(f: Forward, ollama: (string, Option<string>) -> string, gemini: (string, Option<string>, string) -> string): Call {
    match f
    case ArgumentCountError => Raised
    case ToOllama(context, model) => Returned(ollama(context, model))
    case ToGemini(context, model, personality) => Returned(gemini(context, model, personality))
  }

  /**
    `GenerationManager.generate_text(context)` as written, with the default
    model and personality, as a generator for one context.
  */
  function ManagerGenerateTextAsWritten(
    p: Provider, ollama: (string, Option<string>) -> string, gemini: (string, Option<string>, string) -> string): (generate: string -> Call)
    ensures p == Ollama ==> forall context :: generate(context) == Raised
    ensures p == Gemini ==> forall context :: generate(context) == Returned(gemini(context, None, []))
  {
    context => CallThrough(ForwardGenerateTextAsWritten(p, context, None, []), ollama, gemini)
  }

  /**
    The same with the intended forwarding: the call always reaches the
    selected generator, with no model and an empty personality, and returns
    what that generator returns.
  */
  function ManagerGenerateText(
    p: Provider, ollama: (string, Option<string>) -> string, gemini: (string, Option<string>, string) -> string): (generate: string -> Call)
    ensures p == Ollama ==> forall context :: generate(context) == Returned(ollama(context, None))
    ensures p == Gemini ==> forall context :: generate(context) == Returned(gemini(context, None, []))
  {
    context => CallThrough(ForwardGenerateText(p, context, None, []), ollama, gemini)
  }

  // ---------------------------------------------------------------------
  // GeminiGenerationManager

  /** `api_key or os.getenv("GEMINI_API_KEY")`, and the ValueError when neither is set. */
  function GeminiApiKey(apiKey: string, environment: Option<string>): (r: Result<string, string>)
    ensures r.Ok? ==> r.value != [] && (r.value == apiKey || (apiKey == [] && environment == Some(r.value)))
    ensures r.Err? <==> apiKey == [] && (environment.None? || environment.value == [])
  {
    var key := if apiKey != [] then Some(apiKey) else environment;
    if key.None? || key.value == [] then
      Err("Gemini API key is required. Set the GEMINI_API_KEY environment variable.")
    else Ok(key.value)
  }

  /** Seconds the Gemini generator keeps between two requests. */
  const RateLimitDelay: int := 2

  /**
    The sleep before a Gemini request: `None` when at least `RateLimitDelay`
    seconds have passed since the last request, otherwise the remaining wait.
  */
  function RateLimitPause(now: int, lastRequestTime: int): (pause: Option<int>)
    ensures pause.None? <==> now - lastRequestTime >= RateLimitDelay
    ensures pause.Some? ==> pause.value > 0 && now + pause.value == lastRequestTime + RateLimitDelay
    ensures pause.Some? && lastRequestTime <= now ==> pause.value <= RateLimitDelay
  {
    var elapsed := now - lastRequestTime;
    if elapsed < RateLimitDelay then Some(RateLimitDelay - elapsed) else None
  }

  /**
    The prompt sent to Gemini: with a personality, a "Personality: ..."
    header and a blank line go in front; the context always ends the prompt.
  */
  function GeminiContext(context: string, personality: string): (r: string)
    ensures personality == [] ==> r == context
    ensures personality != [] ==> "Personality: " + personality + "\n\n" <= r
    ensures |r| >= |context| && r[|r| - |context|..] == context
    ensures personality != [] ==> |r| == |"Personality: " + personality + "\n\n"| + |context|
  {
    if personality != [] then
      var header := "Personality: " + personality + "\n\n";
      assert (header + context)[|header|..] == context;
      header + context
    else context
  }

  /** What the Gemini SDK did with a prompt: answered (at a time), or raised. */
  datatype SdkReply = Answer(text: string, receivedAt: int) | SdkError(message: string)

  const GeminiNoText: string := Failure(" Gemini generation failed: No text returned")

  function GeminiUnexpected(message: string): string {
    Failure(" An unexpected error occurred with Gemini: " + message)
  }

  class GeminiGenerator {
    const defaultModel: string
    /** When the last answer arrived (0 before any request). */
    var lastRequestTime: int

    constructor(defaultModel: string)
      ensures this.defaultModel == defaultModel && lastRequestTime == 0
    {
      this.defaultModel := defaultModel;
      lastRequestTime := 0;
    }

    /**
      `generate_text`: sleeps `pause`, sends the prompt, and on an answer
      records when it arrived. The model argument is only logged by the
      source and is left out here.
    */
    method GenerateText(context: string, personality: string, now: int, sdk: string -> SdkReply)
      returns (text: string, pause: Option<int>)
      modifies this`lastRequestTime
      ensures pause == RateLimitPause(now, old(lastRequestTime))
      ensures var reply := sdk(GeminiContext(context, personality));
        && (reply.Answer? ==> lastRequestTime == reply.receivedAt)
        && (reply.SdkError? ==> lastRequestTime == old(lastRequestTime))
        && (if reply.Answer? && reply.text != [] then text == Strip(reply.text, IsSpace) else IsInternal(text))
    {
      pause := RateLimitPause(now, lastRequestTime);
      var prompt := GeminiContext(context, personality);
      var reply := sdk(prompt);
      match reply
      case SdkError(message) =>
        text := GeminiUnexpected(message);
      case Answer(answer, receivedAt) =>
        lastRequestTime := receivedAt;
        if answer != [] {
          text := Strip(answer, IsSpace);
        } else {
          text := GeminiNoText;
        }
    }
  }

  // ---------------------------------------------------------------------
  // OllamaGenerationManager

  /** `default_model or os.getenv("OLLAMA_MODEL", "llama3.3:latest")`. */
  function OllamaDefaultModel(given: Option<string>, environment: Option<string>): (m: string)
    ensures given.Some? && given.value != [] ==> m == given.value
    ensures (given.None? || given.value == []) ==> m == (if environment.Some? then environment.value else "llama3.3:latest")
  {
    if given.Some? && given.value != [] then given.value
    else if environment.Some? then environment.value
    else "llama3.3:latest"
  }

  /** `model or self.default_model`. */
  function ModelToUse(model: Option<string>, defaultModel: string): (m: string)
    ensures model.Some? && model.value != [] ==> m == model.value
    ensures model.None? || model.value == [] ==> m == defaultModel
  {
    if model.Some? && model.value != [] then model.value else defaultModel
  }

  /** The answer of the `/api/generate` POST: a status and the `response` field, or an exception. */
  datatype PostReply = Posted(status: int, response: Option<string>) | PostConnectError | PostFailed

  /**
    What the Ollama server looks like to one request: whether `/api/version`
    answered 200, the names `/api/tags` listed (empty when that failed), and
    how it answers a POST of (model, prompt).
  */
  datatype OllamaServer = OllamaServer(reachable: bool, models: seq<string>, post: (string, string) -> PostReply)

  function ModelUnavailable(model: string, models: seq<string>): string {
    Failure(" Model '" + model + "' not available. Please use one of: " + Join(models, ", "))
  }

  /**
    `generate_text`: anything that is not a stripped answer of a 200 POST to
    an available model is an "[INTERNAL]" failure.
  */
  function OllamaGenerateText(context: string, model: Option<string>, defaultModel: string, server: OllamaServer): (r: string)
    ensures !IsInternal(r) ==>
      var m := ModelToUse(model, defaultModel);
      && server.reachable && m in server.models
      && server.post(m, context).Posted? && server.post(m, context).status == 200
      && server.post(m, context).response.Some?
      && r == Strip(server.post(m, context).response.value, IsSpace)
    ensures var m := ModelToUse(model, defaultModel);
      server.reachable && m in server.models
      && server.post(m, context).Posted? && server.post(m, context).status == 200
      && server.post(m, context).response.Some?
      ==> r == Strip(server.post(m, context).response.value, IsSpace)
    ensures server.reachable && server.models != [] && ModelToUse(model, defaultModel) !in server.models ==>
      r == ModelUnavailable(ModelToUse(model, defaultModel), server.models)
  {
    if !server.reachable then Failure(" Could not connect to Ollama server")
    else if server.models == [] then Failure(" No models available on the server")
    else
      var m := ModelToUse(model, defaultModel);
      if m !in server.models then ModelUnavailable(m, server.models)
      else
        match server.post(m, context)
        case PostConnectError => Failure(" Connection error with language model server")
        case PostFailed => Failure(" An unexpected error occurred")
        case Posted(status, body) =>
          if status != 200 then Failure(" Error communicating with language model")
          else if body.None? then Failure(" Invalid response from language model")
          else Strip(body.value, IsSpace)
  }
}
