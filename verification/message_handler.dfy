/**
  The reply pipeline (core/message_handler.py): every incoming message is
  counted for marketing; a promotional message, when one is due, is returned
  instead of a reply; otherwise the character's reply rules decide whether a
  reply is generated from the reply template.
*/
module MessageHandling {
  import opened Wrappers
  import opened Text
  import opened Config
  import opened Generation
  import opened Marketing

  // ---------------------------------------------------------------------
  // _should_reply

  /** `any(keyword.lower() in message.lower() for keyword in keywords)`. */
  predicate MentionsAny(message: string, keywords: seq<string>) {
    exists k :: k in keywords && Contains(Lower(message), Lower(k))
  }

  /** `min_length <= len(message) <= max_length`. */
  predicate WithinLength(length: int, rules: ReplyRules) {
    rules.minLength <= length && (rules.maxLength.None? || length <= rules.maxLength.value)
  }

  /** `_should_reply`: ignore keywords first, then required keywords, then the length bounds. */
  function ShouldReply(rules: ReplyRules, message: string): (r: bool)
    ensures MentionsAny(message, rules.ignoreKeywords) ==> !r
    ensures rules.requiredKeywords != [] && !MentionsAny(message, rules.requiredKeywords) ==> !r
    ensures !MentionsAny(message, rules.ignoreKeywords)
      && (rules.requiredKeywords == [] || MentionsAny(message, rules.requiredKeywords))
      ==> (r <==> WithinLength(|message|, rules))
  {
    if MentionsAny(message, rules.ignoreKeywords) then false
    else if rules.requiredKeywords != [] && !MentionsAny(message, rules.requiredKeywords) then false
    else WithinLength(|message|, rules)
  }

  /** A character without reply rules replies to every message. */
  lemma NoRulesAlwaysReply(message: string)
    ensures ShouldReply(NoRules, message)
  {
  }

  /** The decision does not depend on the case of the message. */
  lemma ShouldReplyIgnoresCase(rules: ReplyRules, message: string)
    ensures ShouldReply(rules, Lower(message)) == ShouldReply(rules, message)
  {
    LowerIdempotent(message);
    assert |Lower(message)| == |message|;
    assert forall ks :: MentionsAny(Lower(message), ks) == MentionsAny(message, ks);
  }

  /** Adding an ignore keyword can only turn a reply into silence, never the reverse. */
  lemma MoreIgnoreKeywordsRejectMore(rules: ReplyRules, keyword: string, message: string)
    ensures ShouldReply(rules.(ignoreKeywords := rules.ignoreKeywords + [keyword]), message) ==> ShouldReply(rules, message)
  {
  }

  // ---------------------------------------------------------------------
  // _generate_reply

  /** The reply prompt: `{message}`, then `{character_name}`, then `{personality}` replaced in turn. */
  function FillTemplate(template: string, message: string, name: string, personality: string): string {
    var withMessage := ReplaceAll(template, "{message}", message);
    var withName := ReplaceAll(withMessage, "{character_name}", name);
    ReplaceAll(withName, "{personality}", personality)
  }

  /** A template without placeholders is sent as it is. */
  lemma TemplateWithoutPlaceholdersIsSentAsIs(template: string, message: string, name: string, personality: string)
    requires !Contains(template, "{message}")
    requires !Contains(template, "{character_name}")
    requires !Contains(template, "{personality}")
    ensures FillTemplate(template, message, name, personality) == template
  {
    ReplaceAllAbsent(template, "{message}", message);
    ReplaceAllAbsent(template, "{character_name}", name);
    ReplaceAllAbsent(template, "{personality}", personality);
  }

  /**
    The substitution is sequential, so placeholders that the user's own
    message contains are filled in as well.
  */
  lemma PlaceholdersInMessageAreFilled(message: string, name: string, personality: string)
    ensures FillTemplate("{message}", message, name, personality)
      == ReplaceAll(ReplaceAll(message, "{character_name}", name), "{personality}", personality)
  {
    ReplaceAllWhole("{message}", message);
  }

  /** The prompt for a reply, or `None` when the character has no reply template (the generator is not called). */
  function ReplyPrompt(character: Character, message: string): (prompt: Option<string>)
    ensures prompt.None? <==> character.replyTemplate == []
  {
    if character.replyTemplate == [] then None
    else Some(FillTemplate(character.replyTemplate, message, character.name, character.personality))
  }

  /** `_generate_reply` as written: a response is kept when it passes the "Error:" check. */
  function GenerateReplyAsWritten(character: Character, message: string, generateText: string -> Call): (r: Option<string>)
    ensures r.Some? <==>
      && ReplyPrompt(character, message).Some?
      && generateText(ReplyPrompt(character, message).value).Returned?
      && PassesErrorCheck(generateText(ReplyPrompt(character, message).value).text)
    ensures r.Some? ==> generateText(ReplyPrompt(character, message).value) == Returned(r.value)
  {
    match ReplyPrompt(character, message)
    case None => None
    case Some(prompt) =>
      match generateText(prompt)
      case Raised => None
      case Returned(response) => if PassesErrorCheck(response) then Some(response) else None
  }

  /** As written, a generator failure string is returned as the reply. */
  lemma InternalFailureIsRepliedAsWritten(character: Character, message: string, detail: string)
    requires character.replyTemplate != []
    ensures GenerateReplyAsWritten(character, message, _ => Returned(Failure(detail))) == Some(Failure(detail))
  {
    assert Failure(detail)[0] == '[' && ErrorPrefix[0] == 'E';
  }

  /**
    `_generate_reply` with the failure marker checked as well: a reply is a
    generated response that is non-empty, does not start with "Error:" and
    is not an "[INTERNAL]" failure.
  */
  function GenerateReply(character: Character, message: string, generateText: string -> Call): (r: Option<string>)
    ensures character.replyTemplate == [] ==> r == None
    ensures r.Some? <==>
      && ReplyPrompt(character, message).Some?
      && generateText(ReplyPrompt(character, message).value).Returned?
      && PassesErrorCheck(generateText(ReplyPrompt(character, message).value).text)
      && !IsInternal(generateText(ReplyPrompt(character, message).value).text)
    ensures r.Some? ==> generateText(ReplyPrompt(character, message).value) == Returned(r.value)
  {
    match ReplyPrompt(character, message)
    case None => None
    case Some(prompt) =>
      match generateText(prompt)
      case Raised => None
      case Returned(response) =>
        if PassesErrorCheck(response) && !IsInternal(response) then Some(response) else None
  }

  /** As written, the Ollama provider never produces a reply: the forwarded call always raises. */
  lemma OllamaRepliesLostAsWritten(
    character: Character, message: string,
    ollama: (string, Option<string>) -> string, gemini: (string, Option<string>, string) -> string)
    ensures GenerateReplyAsWritten(character, message, ManagerGenerateTextAsWritten(Ollama, ollama, gemini)) == None
  {
  }

  /**
    The corrected filter differs from the filter as written on exactly one
    kind of answer: an "[INTERNAL]" failure, which as written becomes the reply.
  */
  lemma ReplyFiltersDifferOnlyOnFailures(character: Character, message: string, generateText: string -> Call)
    ensures GenerateReplyAsWritten(character, message, generateText) != GenerateReply(character, message, generateText)
      <==>
      && ReplyPrompt(character, message).Some?
      && generateText(ReplyPrompt(character, message).value).Returned?
      && IsInternal(generateText(ReplyPrompt(character, message).value).text)
    ensures GenerateReply(character, message, generateText).Some? ==>
      GenerateReplyAsWritten(character, message, generateText) == GenerateReply(character, message, generateText)
  {
    var prompt := ReplyPrompt(character, message);
    if prompt.Some? && generateText(prompt.value).Returned? {
      var text := generateText(prompt.value).text;
      if IsInternal(text) {
        assert text[0] == '[' && ErrorPrefix[0] == 'E';
      }
    }
  }

  // ---------------------------------------------------------------------
  // MessageHandler

  class MessageHandler {
    const character: Character
    const marketingManager: MarketingManager

    ghost predicate Valid()
      reads this, marketingManager
    {
      marketingManager.character == character && marketingManager.Valid()
    }

    constructor(character: Character, now: int)
      ensures this.character == character && fresh(marketingManager)
      ensures marketingManager.messageCount == 0 && marketingManager.lastMarketingTime == None
      ensures marketingManager.startTime == now
      ensures Valid()
    {
      this.character := character;
      marketingManager := new MarketingManager(character, now);
    }

    /**
      `handle_message`: the message is counted exactly once; a promotional
      message that is due is returned without consulting the reply rules;
      otherwise the reply rules decide whether a reply is generated.
    */
    method HandleMessage(message: string, now: int, generateText: string -> Call) returns (reply: Option<string>)
      requires Valid()
      modifies marketingManager
      ensures Valid()
      ensures var promo := MarketingReply(
          old(marketingManager.messageCount) + 1, old(marketingManager.lastMarketingTime),
          old(marketingManager.startTime), now, character.marketingTemplate, generateText);
        && (promo.Some? ==>
          && reply == promo
          && marketingManager.messageCount == 0
          && marketingManager.lastMarketingTime == Some(now)
          && marketingManager.startTime == now)
        && (promo.None? ==>
          && marketingManager.messageCount == old(marketingManager.messageCount) + 1
          && marketingManager.lastMarketingTime == old(marketingManager.lastMarketingTime)
          && marketingManager.startTime == old(marketingManager.startTime)
          && reply == (if ShouldReply(character.replyRules, message) then GenerateReply(character, message, generateText) else None))
    {
      marketingManager.RecordMessage();
      var promo := marketingManager.GenerateMarketingMessage(now, generateText);
      if promo.Some? {
        return promo;
      }
      if !ShouldReply(character.replyRules, message) {
        return None;
      }
      reply := GenerateReply(character, message, generateText);
    }
  }
}
