/**
  The marketing trigger (core/marketing_manager.py). A manager counts the
  messages seen since the last promotional message and sends a new one when
  enough messages or enough time have gone by, but never within the cooldown
  after the previous one. Time is in whole seconds and `now` is passed in.
*/
module Marketing {
  import opened Wrappers
  import opened Text
  import opened Config
  import opened Generation

  const Hour: int := 3600

  /** `marketing_cooldown`: six hours, the same for every manager and never changed. */
  const MarketingCooldown: int := 6 * Hour

  /** `message_threshold`. */
  const MessageThreshold: nat := 5

  /** `time_threshold`. */
  const TimeThreshold: int := 6 * Hour

  /** A promotional message went out less than `MarketingCooldown` seconds before `now`. */
  predicate InCooldown(lastMarketingTime: Option<int>, now: int) {
    lastMarketingTime.Some? && now - lastMarketingTime.value < MarketingCooldown
  }

  /** `should_send_marketing` on the manager's three fields. */
  predicate Triggers(messageCount: nat, lastMarketingTime: Option<int>, startTime: int, now: int)
    ensures InCooldown(lastMarketingTime, now) ==> !Triggers(messageCount, lastMarketingTime, startTime, now)
    ensures !InCooldown(lastMarketingTime, now) ==>
      (Triggers(messageCount, lastMarketingTime, startTime, now) <==>
        messageCount >= MessageThreshold || now - startTime >= TimeThreshold)
  {
    if lastMarketingTime.Some? && now - lastMarketingTime.value < MarketingCooldown then false
    else if messageCount >= MessageThreshold then true
    else now - startTime >= TimeThreshold
  }

  /** Once due, a promotional message stays due as messages arrive and time passes. */
  lemma TriggerStaysDue(messageCount: nat, lastMarketingTime: Option<int>, startTime: int, now: int, laterCount: nat, later: int)
    requires Triggers(messageCount, lastMarketingTime, startTime, now)
    requires messageCount <= laterCount && now <= later
    ensures Triggers(laterCount, lastMarketingTime, startTime, later)
  {
  }

  /**
    Right after a send the timer restarts at the send time, and the cooldown
    equals the time threshold: from then on only the elapsed time decides,
    and the message count has no effect.
  */
  lemma ElapsedTimeAloneDecidesAfterSend(messageCount: nat, sentAt: int, now: int)
    ensures Triggers(messageCount, Some(sentAt), sentAt, now) <==> now - sentAt >= MarketingCooldown
  {
  }

  /**
    `generate_marketing_message` as a decision: `None` unless the trigger
    fires, the character has a marketing template and the cleaned text the
    generator produced for that template passes the "Error:" check.
  */
  function MarketingReply(
    messageCount: nat, lastMarketingTime: Option<int>, startTime: int, now: int,
    template: string, generateText: string -> Call): (r: Option<string>)
    ensures r.Some? <==>
      && Triggers(messageCount, lastMarketingTime, startTime, now)
      && template != []
      && PassesErrorCheck(MarketingMessage(generateText(template)))
    ensures r.Some? ==>
      && r.value == MarketingMessage(generateText(template))
      && generateText(template).Returned? && !IsInternal(generateText(template).text)
      && !IsQuote(r.value[0]) && !IsQuote(r.value[|r.value| - 1])
  {
    if !Triggers(messageCount, lastMarketingTime, startTime, now) then None
    else if template == [] then None
    else
      var message := MarketingMessage(generateText(template));
      if PassesErrorCheck(message) then Some(message) else None
  }

  /** Immediately after a send, a second call at the same instant sends nothing. */
  lemma NoSecondPromoAtSameInstant(messageCount: nat, now: int, template: string, generateText: string -> Call)
    ensures MarketingReply(messageCount, Some(now), now, now, template, generateText) == None
  {
  }

  class MarketingManager {
    /** The character configuration; only `marketing_template` is read. */
    const character: Character
    var messageCount: nat
    var lastMarketingTime: Option<int>
    var startTime: int

    /** Every send restarts the timer at the send time. */
    ghost predicate Valid()
      reads this
    {
      lastMarketingTime.Some? ==> startTime == lastMarketingTime.value
    }

    constructor(character: Character, now: int)
      ensures this.character == character
      ensures messageCount == 0 && lastMarketingTime == None && startTime == now
      ensures Valid()
    {
      this.character := character;
      messageCount := 0;
      lastMarketingTime := None;
      startTime := now;
    }

    /** `record_message`. */
    method RecordMessage()
      requires Valid()
      modifies this`messageCount
      ensures messageCount == old(messageCount) + 1
      ensures Valid()
    {
      messageCount := messageCount + 1;
    }

    /**
      `should_send_marketing`: reads the fields, changes nothing. Since every
      send restarts the timer, once a message has gone out only the time since
      that send decides.
    */
    predicate ShouldSendMarketing(now: int): (due: bool)
      reads this
      ensures InCooldown(lastMarketingTime, now) ==> !due
      ensures Valid() && lastMarketingTime.Some? ==> (due <==> now - lastMarketingTime.value >= MarketingCooldown)
      ensures lastMarketingTime.None? ==> (due <==> messageCount >= MessageThreshold || now - startTime >= TimeThreshold)
    {
      Triggers(messageCount, lastMarketingTime, startTime, now)
    }

    /**
      `generate_marketing_message`: on a send, the count, the send time and
      the timer are reset together; on every other path nothing changes.
    */
    method GenerateMarketingMessage(now: int, generateText: string -> Call) returns (message: Option<string>)
      requires Valid()
      modifies this`messageCount, this`lastMarketingTime, this`startTime
      ensures Valid()
      ensures message == MarketingReply(
        old(messageCount), old(lastMarketingTime), old(startTime), now, character.marketingTemplate, generateText)
      ensures message.Some? ==> messageCount == 0 && lastMarketingTime == Some(now) && startTime == now
      ensures message.None? ==>
        messageCount == old(messageCount) && lastMarketingTime == old(lastMarketingTime) && startTime == old(startTime)
      ensures message.Some? ==> !ShouldSendMarketing(now)
    {
      if !ShouldSendMarketing(now) {
        return None;
      }
      var template := character.marketingTemplate;
      if template == [] {
        return None;
      }
      var text := MarketingMessage(generateText(template));
      if PassesErrorCheck(text) {
        lastMarketingTime := Some(now);
        messageCount := 0;
        startTime := now;
        return Some(text);
      }
      return None;
    }
  }
}
