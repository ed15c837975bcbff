# Chat agent core in Dafny

This project models the decision logic of a chat agent that plays a
configured character in Telegram and Discord groups. The logic covered is:

- **Marketing.** Each message handler owns one marketing manager, shared by
  all the chats its client serves. The manager counts messages from every
  chat and sends a promotional message, in whichever chat's message
  triggers it, once enough messages or enough time have gone by. It never
  sends within a six-hour cooldown of the previous one (`marketing.dfy`).
- **Replies.** A message handler counts every message, gives a due
  promotional message priority, and otherwise asks the character's reply
  rules whether to answer. When it answers, it fills the reply template and
  asks a text generator (`message_handler.dfy`).
- **Generation front end.** This covers provider dispatch, the Gemini
  personality header and rate-limit pause, the Ollama model check, the
  "[INTERNAL]" failure marker and the clean-up of promotional text
  (`generation.dfy`). The HTTP and SDK traffic is replaced by parameters that
  say what the server or SDK answered.
- **Character registry.** Templates are registered by name, and the
  interactive numbered selection picks one (`character_manager.dfy`).
- **Telegram allow-list.** This is parsed from a comma-separated setting.
  It is turned into chat ids from the client's dialogs and used to filter
  incoming messages (`telegram_client.dfy`).
- **Desktop window.** The string logic covered is the file-name sanitiser,
  the prompt-file mapping with its special case, the checks before a new
  character is created, prompt save and load, and the log-line colour
  (`main_window.dfy`).

The Python string operations the code relies on are written out in
`text.dfy`: `str.strip`, `lower`, `in`, `replace`, `split`/`join`,
`endswith` and `int()`. The character configuration is in `config.dfy`.

### Conventions

- **Time.** Time is whole seconds. The current time `now` is a parameter,
  read once per operation.
- **Generators.** A text generator is a function value
  `string -> Call`: for a prompt it either returns a string or raises.
- **File system.** The desktop window's file system is a map from path to
  content. The character loader's directory listing is a sequence of file
  names with their parsed contents.
- **State.** State that the Python objects update in place is modelled as
  classes: the marketing manager, the message handler, the Gemini
  generator's last request time, the character registry and the Telegram
  client's allowed chat ids.

## Model

| member | source | states |
|---|---|---|
| `Text.Strip` | core/generation.py:64 | `str.strip`: the result neither starts nor ends with a stripped character |
| `Text.StripIsPiece` | core/generation.py:64 | what `str.strip` returns is a contiguous piece of its input |
| `Text.ContainsAt` | core/message_handler.py:20 | Python's `in` on strings holds exactly when the piece occurs at some offset |
| `Text.ReplaceAllAbsent` | core/message_handler.py:53-55 | `str.replace` changes nothing when the pattern does not occur |
| `Text.ReplaceAllIdentity` | core/message_handler.py:53-55 | replacing a pattern by itself changes nothing |
| `Text.JoinSplit` | clients/telegram/client.py:21 | joining the pieces of `split(',')` with the separator gives the text back |
| `Text.SplitJoin` | clients/telegram/client.py:21 | splitting a join of separator-free pieces gives the pieces back, empty pieces included |
| `Text.SplitAppend` | clients/telegram/client.py:21 | each separator cuts the text: the pieces of `a + sep + b` are those of `a` followed by those of `b` |
| `Text.Split` | clients/telegram/client.py:21 | `str.split` with a one-character separator: at least one piece, and no piece holds the separator |
| `Text.Join` | core/generation.py:171 | `sep.join(parts)`; the body is the reference definition, `Text.JoinAppend` states it for separators of any length, and `Text.JoinSplit`, `Text.SplitJoin` and `Text.SplitAppend` state its properties for one-character separators |
| `Text.JoinAppend` | core/generation.py:171 | for any separator, such as the `', '` used here: no parts join to the empty text, one part joins to itself, and adding a part appends the separator and then the part |
| `Text.Lower` | core/message_handler.py:20 | `str.lower` on ASCII: same length, upper-case letters shifted to lower case, everything else kept, no upper-case letter left |
| `Text.Contains` | core/message_handler.py:20 | Python's `sub in s`; its meaning is fixed by `Text.ContainsAt` |
| `Text.ReplaceAll` | core/message_handler.py:53-55 | `str.replace`: the body is the reference definition, a left-to-right scan that replaces each non-overlapping occurrence and does not rescan the replacement; the lemmas beside it state its properties |
| `Text.ReplaceAllAtFirstOccurrence` | core/message_handler.py:53-55 | the first occurrence of the pattern is replaced and the scan goes on after it, so every non-overlapping occurrence is replaced, left to right |
| `Text.ParseDecimal` | core/character_manager.py:68 | `int(str(n)) == n` for every natural number |
| `Text.ParseInt` | core/character_manager.py:68 | `int()` succeeds exactly on an optionally signed, well-formed digit string; an unsigned or `+` string gives its digit value, a `-` string its negation; a negative result needs a leading `-` |
| `Marketing.Triggers` | core/marketing_manager.py:21-38 | within the cooldown the trigger is false whatever the count or elapsed time; outside it, the trigger is true iff the count reaches 5 or 6 hours have passed since the timer started |
| `Marketing.MarketingManager.ShouldSendMarketing` | core/marketing_manager.py:21-38 | never within the cooldown; before any send, due iff 5 messages or 6 hours since the start; for a well-formed manager after a send, due iff the cooldown has passed since that send |
| `Marketing.TriggerStaysDue` | core/marketing_manager.py:21-38 | once due, a promotion stays due as messages arrive and time passes |
| `Marketing.ElapsedTimeAloneDecidesAfterSend` | core/marketing_manager.py:24-38 | after a send the timer restarts at the send time; because the cooldown equals the time threshold, only elapsed time decides from then on |
| `Marketing.MarketingReply` | core/marketing_manager.py:40-65 | a message is produced iff the trigger fires, the template is non-empty and the cleaned generated text passes the "Error:" check; it came from a non-failure answer and has no quote at either end |
| `Marketing.NoSecondPromoAtSameInstant` | core/marketing_manager.py:24-25 | right after a send, another request at the same instant produces nothing |
| `Marketing.MarketingManager.constructor` | core/marketing_manager.py:7-15 | a new manager has count 0, no send time, and its timer started at `now` |
| `Marketing.MarketingManager.RecordMessage` | core/marketing_manager.py:17-19 | the count goes up by exactly one and nothing else changes |
| `Marketing.MarketingManager.GenerateMarketingMessage` | core/marketing_manager.py:40-69 | returns `MarketingReply` of the old state; on a send the count, send time and timer are reset together, otherwise nothing changes; after a send the trigger is off |
| `Generation.Failure` | core/generation.py:50-56 | every failure string starts with "[INTERNAL]" |
| `Generation.CleanMarketing` | core/generation.py:64 | whitespace then quotes are stripped, so the result has no quote at either end |
| `Generation.CleanMarketingIsPiece` | core/generation.py:64 | clean-up only removes: the message is a contiguous piece of the generated text |
| `Generation.CleanMarketingKeepsPlainText` | core/generation.py:64 | text with no surrounding whitespace or quotes is delivered unchanged |
| `Generation.MarketingMessage` | core/generation.py:58-71 | an exception or an "[INTERNAL]" answer gives ""; any other answer gives its cleaned text (`strip()` then `strip('"\'')`) |
| `Generation.InitializeGenerator` | core/generation.py:74-89 | "ollama" and "gemini" are recognised case-insensitively; any other name is an error that carries the lower-cased name |
| `Generation.ProviderNameIsCaseInsensitive` | core/generation.py:75 | dispatching on the lower-cased name gives the same result as dispatching on the name |
| `Generation.ForwardGenerateTextAsWritten` | core/generation.py:91-92 | the three positional arguments raise an argument-count error exactly when the provider is Ollama |
| `Generation.ManagerGenerateTextAsWritten` | core/generation.py:91-92 | as written, the manager's text request raises for every context with Ollama, and returns Gemini's answer with Gemini |
| `Generation.ForwardGenerateText` | core/generation.py:91-92 | the corrected forwarding always reaches the generator, keeps context and model, and passes the personality only to Gemini |
| `Generation.ManagerGenerateText` | core/generation.py:91-92 | the corrected manager's text request returns exactly what the selected generator returns for that context |
| `Generation.GeminiApiKey` | core/generation.py:12-15 | the explicit key wins, then the environment; with neither set, construction fails |
| `Generation.RateLimitPause` | core/generation.py:27-32 | no pause iff 2 seconds have passed; otherwise the pause is positive, ends exactly 2 seconds after the last request and is at most 2 seconds |
| `Generation.GeminiContext` | core/generation.py:36-38 | an empty personality leaves the context unchanged; otherwise the "Personality: ..." header comes first, the context ends the prompt, and nothing else lies between them (the length is exactly header plus context) |
| `Generation.GeminiGenerator.constructor` | core/generation.py:12-20 | the last request time starts at 0 |
| `Generation.GeminiGenerator.GenerateText` | core/generation.py:23-56 | the pause is the rate-limit pause of the old last request time; an answer updates the last request time and an SDK error does not; a non-empty answer is returned stripped, anything else is an "[INTERNAL]" failure |
| `Generation.OllamaDefaultModel` | core/generation.py:99-101 | a given model wins, then the environment, then "llama3.3:latest" |
| `Generation.ModelToUse` | core/generation.py:166 | a given non-empty model wins, otherwise the default |
| `Generation.OllamaGenerateText` | core/generation.py:152-208 | a result that is not an "[INTERNAL]" failure is the stripped `response` of a 200 reply from a reachable server for an available model, and conversely such a reply always gives its stripped `response`; a model not in the list gives the "not available" failure |
| `MessageHandling.ShouldReply` | core/message_handler.py:12-41 | any ignore keyword (case-insensitive substring) rejects; a non-empty required list with no match rejects; past both checks the answer is exactly the length bounds |
| `MessageHandling.FillTemplate` | core/message_handler.py:53-55 | the body is the reference definition: `{message}`, then `{character_name}`, then `{personality}` replaced in turn with `Text.ReplaceAll`; the two lemmas below state its consequences |
| `MessageHandling.NoRulesAlwaysReply` | core/message_handler.py:16-37 | with no rules configured every message is answered |
| `MessageHandling.ShouldReplyIgnoresCase` | core/message_handler.py:20-28 | the decision for the lower-cased message is the decision for the message |
| `MessageHandling.MoreIgnoreKeywordsRejectMore` | core/message_handler.py:19-22 | adding an ignore keyword never turns silence into a reply |
| `MessageHandling.TemplateWithoutPlaceholdersIsSentAsIs` | core/message_handler.py:53-55 | a template without placeholders is the prompt itself |
| `MessageHandling.PlaceholdersInMessageAreFilled` | core/message_handler.py:53-55 | substitution is sequential: placeholders typed in the user's message are filled in too |
| `MessageHandling.ReplyPrompt` | core/message_handler.py:47-55 | there is no prompt, and no generator call, exactly when the reply template is empty |
| `MessageHandling.GenerateReplyAsWritten` | core/message_handler.py:43-67 | as written, a reply is any returned response that is non-empty and does not start with "Error:" |
| `MessageHandling.InternalFailureIsRepliedAsWritten` | core/message_handler.py:58-60 | as written, a generator failure string is returned as the reply |
| `MessageHandling.GenerateReply` | core/message_handler.py:43-67 | a reply is exactly a returned response that is non-empty, not "Error:"-prefixed and not an "[INTERNAL]" failure; no template means no reply |
| `MessageHandling.OllamaRepliesLostAsWritten` | core/message_handler.py:58 | as written, with the Ollama provider no reply is ever produced |
| `MessageHandling.ReplyFiltersDifferOnlyOnFailures` | core/message_handler.py:58-60 | the filter as written and the corrected filter disagree exactly when the generator returned an "[INTERNAL]" failure; whenever the corrected filter gives a reply, the filter as written gives the same one |
| `MessageHandling.MessageHandler.constructor` | core/message_handler.py:7-10 | the handler owns a fresh marketing manager for the same character |
| `MessageHandling.MessageHandler.HandleMessage` | core/message_handler.py:69-91 | the message is counted once; a due promotion is returned and resets the manager; otherwise the count stays raised and the reply is the corrected `GenerateReply` when the rules allow, else none |
| `Characters.Registry.Put` | core/character_manager.py:26 | storing under a name keeps the registry well formed and the existing order |
| `Characters.Load` | core/character_manager.py:19-26 | a loadable template is stored under its name; any other file leaves the registry as it is; the order of names is kept |
| `Characters.LoadAll` | core/character_manager.py:18-26 | loading a listing keeps every key and the order of the names already there |
| `Characters.LoadAllValid` | core/character_manager.py:12-28 | loading keeps keys distinct, non-empty and equal to the stored template's name, and keeps the old order as a prefix |
| `Characters.LoadAllKeys` | core/character_manager.py:18-26 | after loading, the keys are the old keys plus the names of the `.json` templates that parsed and have a name |
| `Characters.NamelessNeverRegistered` | core/character_manager.py:24-26 | a template without a name is never registered |
| `Characters.LastTemplateWins` | core/character_manager.py:26 | when templates share a name, the one loaded last is stored |
| `Characters.Decide` | core/character_manager.py:63-79 | Ctrl-C or "q" in any case quits; otherwise a number n picks index n-1 iff 1 <= n <= count, and anything else asks again |
| `Characters.Session` | core/character_manager.py:52-79 | a selection session ends on the first quit or valid pick, skipping refused entries, and any pick is in range |
| `Characters.PickByNumber` | core/character_manager.py:67-71 | typing the number k+1 picks entry k |
| `Characters.OutOfRangeNumberRetries` | core/character_manager.py:68-73 | 0 or a number beyond the list asks again |
| `Characters.RefusedEntriesAreSkipped` | core/character_manager.py:52-75 | refused entries leave the session's outcome unchanged |
| `Characters.CharacterManager.constructor` | core/character_manager.py:7-10 | the registry is the result of loading the listing into an empty registry, or empty when the directory is missing |
| `Characters.CharacterManager.LoadCharacters` | core/character_manager.py:12-28 | the loop over the listing produces `LoadAll` of the old registry and keeps it well formed |
| `Characters.CharacterManager.CharacterNames` | core/character_manager.py:30-32 | the names are exactly the registry keys, each once |
| `Characters.CharacterManager.GetCharacter` | core/character_manager.py:34-36 | None for an unknown name; otherwise the stored template, whose name is the requested one |
| `Characters.CharacterManager.SelectCharacter` | core/character_manager.py:48-79 | no characters gives None without reading input; otherwise the result follows `Session`: the picked template, None on quit, or end of input |
| `Telegram.StrippedNonEmpty` | clients/telegram/client.py:22 | every kept entry is non-empty and stripped, and no more entries than pieces |
| `Telegram.StrippedNonEmptyOne` | clients/telegram/client.py:22 | one piece gives its stripped text, or nothing when it is blank |
| `Telegram.StrippedNonEmptyAppend` | clients/telegram/client.py:22 | the comprehension goes piece by piece in order: the names of `a + b` are those of `a` followed by those of `b` |
| `Telegram.PieceNameIsKept` | clients/telegram/client.py:22 | every piece that is not blank contributes its stripped text |
| `Telegram.StrippedNonEmptyCommaFree` | clients/telegram/client.py:21-22 | stripping comma-free pieces yields comma-free entries |
| `Telegram.ParseAllowedGroups` | clients/telegram/client.py:21-22 | every parsed group name is non-empty, stripped and comma-free |
| `Telegram.StrippedNonEmptyKeepsNames` | clients/telegram/client.py:22 | pieces that are already clean names pass through unchanged and in order |
| `Telegram.ParseJoinedGroups` | clients/telegram/client.py:21-22 | parsing clean names written comma-separated gives the same names in the same order |
| `Telegram.NonBlankEntryIsAllowed` | clients/telegram/client.py:21-22 | every comma-separated entry of the setting that is not blank is allowed, trimmed |
| `Telegram.ParseJoinedSettings` | clients/telegram/client.py:21-22 | the setting `a,b` allows the groups of `a` followed by those of `b` |
| `Telegram.EmptySettingAllowsNoGroup` | clients/telegram/client.py:21-22 | an unset or empty setting allows no group |
| `Telegram.AdmittedIds` | clients/telegram/client.py:37-40 | an id is admitted iff some Chat or Channel dialog with a listed name has it |
| `Telegram.PaddedDialogNameNeverAdmitted` | clients/telegram/client.py:38-40 | a dialog name with surrounding whitespace never matches the parsed list |
| `Telegram.TelegramUserClient.constructor` | clients/telegram/client.py:10-23 | the allow-list is parsed from the setting ("" when unset) and no chat id is allowed yet |
| `Telegram.TelegramUserClient.ResolveAllowedChats` | clients/telegram/client.py:36-41 | the allowed set grows by exactly the admitted dialog ids |
| `Telegram.TelegramUserClient.HandleNewMessage` | clients/telegram/client.py:48-53 | a message reaches the message manager iff its chat id is allowed |
| `MainWindow.SanitizeName` | gui/main_window.py:503 | same length; letters and digits kept in place, every other character becomes `_` |
| `MainWindow.SanitizedNameIsSafe` | gui/main_window.py:503 | every character of a sanitised name is a letter, digit or `_` |
| `MainWindow.SanitizeKeepsSafeName` | gui/main_window.py:503 | a name of safe characters is unchanged |
| `MainWindow.SanitizeIdempotent` | gui/main_window.py:503 | sanitising twice equals sanitising once |
| `MainWindow.SanitizeConflatesNames` | gui/main_window.py:503 | distinct names ("a b", "a-b") can share one file name |
| `MainWindow.PathJoin` | gui/main_window.py:241-243 | POSIX `os.path.join`: an absolute second part wins; otherwise one `/` separates the parts, and none is added when the first part is empty or already ends in `/` |
| `MainWindow.PromptPath` | gui/main_window.py:241-247 | "neuronlinkenthusiast" reads `prompts/neuronlink_prompt.txt`; any other relative name reads `prompts/<name>_prompt.txt`; an absolute name replaces the directory |
| `MainWindow.NewPromptPath` | gui/main_window.py:506 | a new character's prompt goes to `prompts/<name>_prompt.txt` |
| `MainWindow.TemplatePath` | gui/main_window.py:505 | a new character's template goes to `characters/templates/<name>.json` |
| `MainWindow.PromptPathFollowsNamingRule` | gui/main_window.py:241-247 | every name but the special one maps to `prompts/<name>_prompt.txt`, the path a new character gets |
| `MainWindow.PromptPathInjective` | gui/main_window.py:241-247 | names that follow the rule never share a prompt file |
| `MainWindow.SpecialCharacterSharesPromptFile` | gui/main_window.py:244-247 | "neuronlinkenthusiast" and "neuronlink" use the same prompt file |
| `MainWindow.AddNewCharacter` | gui/main_window.py:494-525 | an empty trimmed name is refused; an existing template or prompt path is refused; otherwise exactly the empty template and the prompt are written and the sanitised name is selected |
| `MainWindow.CreationKeepsExistingFiles` | gui/main_window.py:509-521 | creation never overwrites or removes an existing file |
| `MainWindow.SecondCreationRefused` | gui/main_window.py:505-511 | creating the same name again is refused |
| `MainWindow.CharacterSelected` | gui/main_window.py:239-257 | the agent gets the content of the mapped prompt file, or a not-found error when it is missing |
| `MainWindow.SavePrompt` | gui/main_window.py:260-278 | refused without a selected character; otherwise the editor text is written to the mapped prompt file and given to the agent |
| `MainWindow.SaveThenSelect` | gui/main_window.py:260-276 | save and load use the same mapping: selecting after saving gives back the saved text |
| `MainWindow.SelectNewCharacter` | gui/main_window.py:503-525 | selecting a newly created character loads the prompt it was created with, unless it is the special name |
| `MainWindow.NewSpecialCharacterPromptNotFound` | gui/main_window.py:239-247 | a new "neuronlinkenthusiast" is written to one prompt file and read from another |
| `MainWindow.LogColour` | gui/main_window.py:283-292 | warning is orange, error red, debug blue, info green; the colour is black iff the level is none of these |
| `MainWindow.KnownLevelsHaveDistinctColours` | gui/main_window.py:284-292 | the four known levels have four different colours |
| `MainWindow.AppendLog` | gui/main_window.py:283-294 | the log line is the opening font tag of the level's colour, then the message unescaped, then `</font>` |

## Left out

- **Unicode case and character classes.** `str.lower` and `str.isalnum` are modelled on ASCII only. Python applies them to all of Unicode. The whitespace set of `str.strip` is Python's full set.
- **Digits in `int()`.** Only ASCII digits are accepted, with an optional sign and single underscores between digits. Python also accepts other Unicode decimal digits.
- **Non-string JSON values.** Only strings are modelled where the code reads them. The source registers a template whose `name` is a truthy non-string (such as `42`) under that value, and a non-object JSON file makes `character.get` raise, which the loader catches and logs. The model covers neither path: a parsed template's name is always a string.
- **Logging, `print` and the Qt widgets.** These are output only. The menu printing of `select_character` and `print_available_characters` are left out for this reason.
- **File, network and SDK I/O.** These are parameters:
  - the directory listing with parsed contents;
  - the file map of the desktop window;
  - the Ollama server's reachability, model list and POST answer;
  - the Gemini SDK answer.

  Write failures in the desktop window, the `/api/version` and `/api/tags` probes, and the HTTP client cache (`_get_client`) are not modelled separately.
- **Clock.** The clock is read once per operation. The source reads `datetime.now()` several times within one call.
- **Floating-point time.** Fractional seconds are not modelled.
- **Sleeps.** The Gemini rate-limit sleep is returned as the pause length instead of being performed. The typing delay of the platform adapters is left out.
- **One generator per call.** Within one `handle_message` call, the same generator function answers the marketing prompt and the reply prompt. With the corrected forwarding, the manager's text request returns what the generator returns (`Generation.ManagerGenerateText`), so one function serves both.
- **Gemini model argument.** The Gemini generator only logs its `model` argument, so it is left out. The SDK's own behaviour is a parameter.
- **Outer exception handlers.** The outermost `except` of `handle_message` and `generate_marketing_message` covers failures the modelled operations cannot raise. The generator raising inside `_generate_reply` is modelled; it gives no reply.
- MessageHandling.MessageHandler.HandleMessage: uses the corrected reply filter `GenerateReply`, which also drops "[INTERNAL]" failures. As written, `handle_message` returns such a failure string as the reply; `MessageHandling.ReplyFiltersDifferOnlyOnFailures` states exactly where the two differ.
- MessageHandling.MessageHandler.HandleMessage: also relies on the corrected forwarding, with one `generateText` answering both the marketing prompt and the reply prompt. With the Ollama provider it therefore replies, where `handle_message` as written always returns None, because the forwarding at core/generation.py:91-92 raises TypeError (`MessageHandling.OllamaRepliesLostAsWritten`).
- Telegram.TelegramUserClient.constructor: models the allow-list set-up of clients/telegram/client.py:10-23 and succeeds. As written, lines 32-34 build `TelegramMessageManager` without the `generation_manager` argument its `__init__` requires (clients/telegram/message_manager.py:8), so construction raises `TypeError`. The message manager adapter is not part of this model.
- **Character dropdown.** `populate_character_dropdown` and the Telethon login dialog are UI wiring.
- **Windows paths.** `os.path.join` is modelled with POSIX rules only.
- **Interactive selection.** `select_character` reads from a finite sequence of inputs. Running out of input stands for the `EOFError` that `input()` raises, which the source does not catch.

## Findings

| source | as written | input that shows it | evidently intended | confidence | as-written member | corrected member |
|---|---|---|---|---|---|---|
| core/generation.py:91-92 | `GenerationManager.generate_text` passes context, model and personality positionally, but the Ollama generator's `generate_text` (line 152) takes only context and model, so the call raises `TypeError` | provider "ollama" and any message that passes the reply rules with a reply template: `_generate_reply` catches the error and returns None (`MessageHandling.OllamaRepliesLostAsWritten`) | forward only the parameters the selected generator declares | high; not executed | `Generation.ForwardGenerateTextAsWritten` | `Generation.ForwardGenerateText` |
| core/message_handler.py:59 | replies are filtered only on the "Error:" prefix, but every generator reports failure as a string starting with "[INTERNAL]" | with the Gemini provider, an SDK answer without text makes the generator return "[INTERNAL] Gemini generation failed: No text returned" (core/generation.py:52), and that string is returned as the reply (`MessageHandling.InternalFailureIsRepliedAsWritten`) | also reject "[INTERNAL]" failures, as the marketing path does (core/generation.py:63) | high; not executed | `MessageHandling.GenerateReplyAsWritten` | `MessageHandling.GenerateReply` |
