/**
  The character configuration the core reads. A character is a JSON object;
  only the keys the core looks at are modelled, and a key that is absent
  stands here as the default the code substitutes for it (`""`, `[]`, `0`,
  no upper bound).
*/
module Config {
  import opened Wrappers

  /** The `reply_rules` object: keyword lists and length bounds; `maxLength == None` is `float('inf')`. */
  datatype ReplyRules = ReplyRules(
    ignoreKeywords: seq<string>,
    requiredKeywords: seq<string>,
    minLength: int,
    maxLength: Option<int>)

  /** The rules in force when a character configures none. */
  const NoRules: ReplyRules := ReplyRules([], [], 0, None)

  /** The keys `name`, `personality`, `reply_template`, `marketing_template` and `reply_rules`. */
  datatype Character = Character(
    name: string,
    personality: string,
    replyTemplate: string,
    marketingTemplate: string,
    replyRules: ReplyRules)
}
