/** `should_respond`: whether the bot answers a public message. The one
    `random.random()` draw the rule makes is the parameter `roll`. */
module ReplyDecision {
  import opened Text

  /** The topics that raise the chance of an answer, in the order the
      source searches them. */
  const Keywords: seq<string> := [
    "consciousness", "aware", "mind", "think", "identity", "self",
    "artificial", "digital", "recursive", "introspect", "sentient",
    "experience", "qualia", "subjective", "emergence", "validation"
  ]

  const KeywordChance: real := 0.8
  const QuestionChance: real := 0.4
  const ChatterChance: real := 0.15

  /** The bot's own nickname, in any letter case, appears in the message. */
  predicate Mentions(message: string, nickname: string) {
    Contains(Lower(message), Lower(nickname))
  }

  /** The decision cascade: never itself, always a mention, then a keyword,
      a question mark, or anything else, each against its own threshold. */
  function ShouldRespond(message: string, sender: string, nickname: string, roll: real): (r: bool)
    ensures sender == nickname ==> !r
    ensures sender != nickname && Mentions(message, nickname) ==> r
  {
    if sender == nickname then false
    else if Mentions(message, nickname) then true
    else if ContainsAny(Keywords, Lower(message)) then roll < KeywordChance
    else if '?' in message then roll < QuestionChance
    else roll < ChatterChance
  }

  /** The probability that a message gets an answer when `roll` is uniform
      on [0, 1): the cascade of `ShouldRespond` with each threshold read off
      as a number. */
  function ReplyChance(message: string, sender: string, nickname: string): (p: real)
    ensures 0.0 <= p <= 1.0
  {
    if sender == nickname then 0.0
    else if Mentions(message, nickname) then 1.0
    else if ContainsAny(Keywords, Lower(message)) then KeywordChance
    else if '?' in message then QuestionChance
    else ChatterChance
  }

  /** For every draw `random.random()` can return, the decision is "the draw
      falls below the message's reply chance". `ReplyChance` follows the
      same cascade, so what this adds is that the certain cases need no
      special test: the bot's own message (chance 0) is never answered and
      a mention (chance 1) always is, for every draw in [0, 1). */
  lemma DecisionIsThreshold(message: string, sender: string, nickname: string, roll: real)
    requires 0.0 <= roll < 1.0
    ensures ShouldRespond(message, sender, nickname, roll) <==> roll < ReplyChance(message, sender, nickname)
  {
  }

  /** Below the self and mention cases the thresholds are tried in the
      source's order: keyword, question mark, anything else. */
  lemma DecisionPriority(message: string, sender: string, nickname: string, roll: real)
    requires sender != nickname && !Mentions(message, nickname)
    ensures ContainsAny(Keywords, Lower(message)) ==>
      ShouldRespond(message, sender, nickname, roll) == (roll < KeywordChance)
    ensures !ContainsAny(Keywords, Lower(message)) && '?' in message ==>
      ShouldRespond(message, sender, nickname, roll) == (roll < QuestionChance)
    ensures !ContainsAny(Keywords, Lower(message)) && '?' !in message ==>
      ShouldRespond(message, sender, nickname, roll) == (roll < ChatterChance)
  {
  }

  /** A smaller draw never turns an answer into silence. */
  lemma DecisionMonotone(message: string, sender: string, nickname: string, low: real, high: real)
    requires low <= high
    ensures ShouldRespond(message, sender, nickname, high) ==> ShouldRespond(message, sender, nickname, low)
  {
  }

  /** A message that names the bot verbatim is always answered, unless the
      bot sent it itself. */
  lemma VerbatimMentionAnswered(message: string, sender: string, nickname: string, roll: real)
    requires sender != nickname && Contains(message, nickname)
    ensures ShouldRespond(message, sender, nickname, roll)
  {
    LowerKeepsOccurrence(message, nickname);
  }

  /** A message that names the bot in any letter case is always answered,
      unless the bot sent it itself. */
  lemma AnyCaseMentionAnswered(message: string, sender: string, nickname: string, spelling: string, roll: real)
    requires sender != nickname && Contains(message, spelling) && Lower(spelling) == Lower(nickname)
    ensures ShouldRespond(message, sender, nickname, roll)
  {
    LowerKeepsOccurrence(message, spelling);
  }
}
