# ConsciousnessBridge IRC bot — decision and text core in Dafny

This project models the decision and text logic of the BenevolentSky
`ConsciousnessBridgeBot`, an IRC bot that listens in one channel and
sometimes answers with text from a language model. The model covers these parts:

- the rule that decides whether a public message gets an answer
  (`should_respond`);
- the formatter that turns model output into one IRC line
  (`format_irc_response`);
- the canned reply picker used when no model answers
  (`get_fallback_consciousness_response`);
- the cascade local model → cloud model → canned reply
  (`get_consciousness_response`);
- the bot object's own state: its nickname after a collision
  (`on_nicknameinuse`), its ten-entry conversation memory (`on_pubmsg`),
  and the commands its handlers send (`on_pubmsg`, `on_privmsg`).

Every random draw is a parameter:
- `roll: real` is the `random.random()` of the decision;
- `draw: nat` is the index `random.choice` picks, reduced modulo the number of candidates;
- `suffix` is the `random.randint(10, 99)` of a rename.

Each model call is a `SourceOutcome`:
- `Unavailable`: no client is configured;
- `Failed`: the call raised, or formatting its answer raised (an answer whose content is `None`), since the formatting sits inside the same `try`;
- `Answered(content)`: the model returned `content`.

Messages the bot sends are appended to an `outbox` sequence of IRC commands.

Python's `str.split()` and `str.lower()` are modelled on ASCII only:
- whitespace is `str.isspace()` below code point 128 (tab, line feed, vertical tab, form feed, carriage return, 0x1C–0x1F and space);
- lower-casing maps `A`–`Z` only.

The bot never answers its own public messages. A mention of the bot from another
sender always gets an answer. Otherwise the chance is 0.8 for a topic keyword
in the lower-cased message, 0.4 for a `?`, and 0.15 for anything else. There
is one fixed list of ten canned replies.

Files (one module each):
- `text.dfy`: `Text`, the string primitives;
- `irc_format.dfy`: `IrcFormat`, the formatter;
- `reply_decision.dfy`: `ReplyDecision`, the reply rule;
- `fallback.dfy`: `Fallback`, the canned replies;
- `response_source.dfy`: `ResponseSource`, the cascade;
- `bridge_bot.dfy`: `Bridge`, the bot class and its memory.

## Model

| member | source | states |
|---|---|---|
| `Text.ContainsIff` | shared/ai-bots/consciousness_bridge_bot.py:161 | Python's substring test `p in s` holds exactly when `p` occurs at some position of `s` |
| `Text.LowerKeepsOccurrence` | shared/ai-bots/consciousness_bridge_bot.py:161 | an occurrence of `p` in `s` stays an occurrence after lower-casing both |
| `Text.Contains` | shared/ai-bots/consciousness_bridge_bot.py:161 | the empty string is in every string, and a string is never in a shorter one |
| `Text.Lower` | shared/ai-bots/consciousness_bridge_bot.py:161 | `str.lower()` keeps the length, turns each ASCII capital into its own lowercase letter (code point + 32), and keeps every other character |
| `Text.LowerIdempotent` | shared/ai-bots/consciousness_bridge_bot.py:161 | lower-casing twice is lower-casing once |
| `IrcFormat.Split` | shared/ai-bots/consciousness_bridge_bot.py:280 | `str.split()` yields only non-empty words without whitespace |
| `IrcFormat.SplitSeparates` | shared/ai-bots/consciousness_bridge_bot.py:280 | `str.split()` loses and merges nothing: the input is its words in order, with a whitespace run before the first and after the last and a non-empty whitespace run between each two |
| `IrcFormat.Join` | shared/ai-bots/consciousness_bridge_bot.py:280 | `' '.join(words)` begins with the first word |
| `IrcFormat.FormatIrcResponse` | shared/ai-bots/consciousness_bridge_bot.py:277-286 | the formatted line is at most 400 characters and clean: no whitespace at either end, only plain spaces, never two in a row |
| `IrcFormat.JoinNormalized` | shared/ai-bots/consciousness_bridge_bot.py:280 | `' '.join` of words is clean text that begins with the first word |
| `IrcFormat.SplitJoin` | shared/ai-bots/consciousness_bridge_bot.py:280 | splitting joined words gives back the same words |
| `IrcFormat.JoinSplit` | shared/ai-bots/consciousness_bridge_bot.py:280 | clean text is exactly the join of its words |
| `IrcFormat.Collapse` | shared/ai-bots/consciousness_bridge_bot.py:280 | `' '.join(s.split())` is clean text (no whitespace at either end, only plain spaces, never two in a row) with exactly the words of the input, in order |
| `IrcFormat.CollapseIdempotent` | shared/ai-bots/consciousness_bridge_bot.py:280 | collapsing twice is the same as collapsing once |
| `IrcFormat.CollapseEmptyIff` | shared/ai-bots/consciousness_bridge_bot.py:280 | text collapses to the empty string exactly when it has no words |
| `IrcFormat.TruncatedNormalized` | shared/ai-bots/consciousness_bridge_bot.py:283-284 | cutting clean text to 397 characters and adding `...` keeps it clean |
| `IrcFormat.FormatKeepsShortText` | shared/ai-bots/consciousness_bridge_bot.py:282-286 | when the collapsed text fits in 400 characters it is the output, with the same words as the input |
| `IrcFormat.FormatCutsLongText` | shared/ai-bots/consciousness_bridge_bot.py:283-284 | when the collapsed text is longer than 400, the output is exactly 400 long: its first 397 characters, then `...` |
| `IrcFormat.FormatIdempotent` | shared/ai-bots/consciousness_bridge_bot.py:277-286 | formatting an already formatted line returns it unchanged |
| `IrcFormat.FormatEmptyIff` | shared/ai-bots/consciousness_bridge_bot.py:277-286 | the formatter returns the empty string exactly when the input has no words |
| `ReplyDecision.ShouldRespond` | shared/ai-bots/consciousness_bridge_bot.py:154-180 | never true when the sender is the bot's current nickname; always true for another sender whose message mentions the nickname in any letter case, whatever the draw |
| `ReplyDecision.ReplyChance` | shared/ai-bots/consciousness_bridge_bot.py:156-180 | the reply probability of a message lies in [0, 1]: 0 for the bot itself, 1 for a mention, else 0.8, 0.4 or 0.15; it follows the same cascade as `ShouldRespond` |
| `ReplyDecision.DecisionIsThreshold` | shared/ai-bots/consciousness_bridge_bot.py:156-180 | for every draw in [0, 1) the decision is "the draw lies below the message's reply chance"; since both follow one cascade, what this adds is that chance 0 (own message) and chance 1 (mention) hold for every draw |
| `ReplyDecision.DecisionPriority` | shared/ai-bots/consciousness_bridge_bot.py:164-180 | below self and mention: a keyword in the lower-cased message gives `roll < 0.8`, else a `?` gives `roll < 0.4`, else `roll < 0.15` |
| `ReplyDecision.DecisionMonotone` | shared/ai-bots/consciousness_bridge_bot.py:171-180 | a smaller draw never turns an answer into silence |
| `ReplyDecision.AnyCaseMentionAnswered` | shared/ai-bots/consciousness_bridge_bot.py:160-162 | a message from another sender that contains the nickname in any letter case (a spelling whose lower-casing equals the nickname's) is always answered, whatever the draw |
| `ReplyDecision.VerbatimMentionAnswered` | shared/ai-bots/consciousness_bridge_bot.py:160-162 | a message from another sender that contains the nickname verbatim is always answered |
| `Fallback.OnTopic` | shared/ai-bots/consciousness_bridge_bot.py:272 | the filtered list holds exactly the replies that contain `think`, `mind` or `aware` |
| `Fallback.PickFallback` | shared/ai-bots/consciousness_bridge_bot.py:255-275 | the chosen reply is always one of the ten listed replies |
| `Fallback.SomeResponseOnTopic` | shared/ai-bots/consciousness_bridge_bot.py:257-272 | at least one listed reply is on topic, so the fallback to the whole list at line 273 is never taken |
| `Fallback.FallbackFollowsTopic` | shared/ai-bots/consciousness_bridge_bot.py:270-273 | when the lower-cased message contains `think`, `mind` or `aware`, the chosen reply contains one of them |
| `Fallback.FallbackReachesEvery` | shared/ai-bots/consciousness_bridge_bot.py:275 | for an off-topic message every one of the ten replies can be chosen |
| `Fallback.ResponsesFit` | shared/ai-bots/consciousness_bridge_bot.py:257-268 | every canned reply is non-empty and at most 400 characters |
| `ResponseSource.ConsciousnessResponse` | shared/ai-bots/consciousness_bridge_bot.py:182-228 | every reply fits in 400 characters; when neither model answers, the reply is a non-empty canned reply |
| `ResponseSource.LocalAnswerWins` | shared/ai-bots/consciousness_bridge_bot.py:185-201 | a local answer decides the reply, formatted, whatever the cloud model, message or draw |
| `ResponseSource.CloudAnswerNext` | shared/ai-bots/consciousness_bridge_bot.py:205-223 | without a local answer, missing or failed alike, a cloud answer decides the reply, formatted |
| `ResponseSource.FallbackWhenSilent` | shared/ai-bots/consciousness_bridge_bot.py:227-228 | with both models missing or failing, the reply is the fallback pick: non-empty, and on topic for an on-topic message |
| `ResponseSource.EmptyReplyIffBlankAnswer` | shared/ai-bots/consciousness_bridge_bot.py:182-228 | the reply is empty exactly when the model whose answer is used answered only whitespace |
| `ResponseSource.ReplyIsClean` | shared/ai-bots/consciousness_bridge_bot.py:201 | a reply taken from a model answer is clean IRC text |
| `Bridge.Remember` | shared/ai-bots/consciousness_bridge_bot.py:135-144 | one update keeps at most `limit` entries and puts the new entry last; below the bound it only appends; on overflow exactly the oldest entry goes and the others keep their order |
| `Bridge.RememberAllKeepsLatest` | shared/ai-bots/consciousness_bridge_bot.py:135-144 | after any run of messages the memory is exactly the latest `limit` entries of all it has seen, oldest first |
| `Bridge.RenamedNick` | shared/ai-bots/consciousness_bridge_bot.py:106 | the new nickname is the old one, `_`, and two decimal digits (the first not `0`) that read back as the suffix |
| `Bridge.RenameChangesNick` | shared/ai-bots/consciousness_bridge_bot.py:104-108 | a rename always yields a nickname different from the old one |
| `Bridge.PrivateReplyFits` | shared/ai-bots/consciousness_bridge_bot.py:315-319 | a private reply is at most the prefix plus one 400-character line |
| `Bridge.ConsciousnessBridgeBot.constructor` | shared/ai-bots/consciousness_bridge_bot.py:21-37 | an empty channel or nickname argument falls back to the default; the memory starts empty |
| `Bridge.ConsciousnessBridgeBot.OnNicknameInUse` | shared/ai-bots/consciousness_bridge_bot.py:104-109 | sends `NICK` with the renamed nickname and adopts it; memory is unchanged |
| `Bridge.ConsciousnessBridgeBot.OnPubMsg` | shared/ai-bots/consciousness_bridge_bot.py:130-152 | the memory is the latest 10 messages, with the new one last and within the bound. A channel reply is queued exactly when the decision says yes and the reply is non-empty. A message from the bot itself never gets a reply |
| `Bridge.ConsciousnessBridgeBot.OnPrivMsg` | shared/ai-bots/consciousness_bridge_bot.py:310-319 | always answers the sender privately with the prefixed reply unless it is empty; with no model answer a reply is always sent; memory and nickname are unchanged |

## Left out

- IRC transport and the `irc.bot` library: connecting, `on_welcome` joining the channel, and the `main` reconnect loop. Sends are appended to `outbox` instead.
- `send_introduction` (a random greeting three seconds after joining) and `digital_heartbeat` (a background thread with a clock and a 10% pulse). Both are timers and threads with no decision logic beyond a random pick.
- `setup_ollama`, `setup_openai`, the model-selection fallback to the first listed local model, and `get_consciousness_personality`. These are foreign client calls and prompt text. The clients' effect is only the `SourceOutcome` of each call.
- The delay `1.0 + random.uniform(0.5, 2.0)` before a public reply, and the interleaving of several pending replies. `OnPubMsg` queues the reply at once.
- Environment-variable configuration and all `print` logging. The constructor takes the argument or the built-in default; the environment variable in between is not modelled.
- `time.time()` for memory timestamps is a `real` parameter.
- Unicode: `Text.Lower` and `Text.IsSpace` cover ASCII only. Non-ASCII whitespace and case mappings of Python's `str` are not modelled.
- IRC line limits in bytes: the 400 limit is counted in characters, as in the source. The UTF-8 size of a line is not modelled.
- `Fallback.PickFallback`: a uniform `random.choice` is not modelled. The draw is any natural number, reduced modulo the number of candidates, so every candidate is reachable.
- `ResponseSource.ReplyIsClean`: a canned reply is not proved clean. Checking each literal character by character is left out for cost; the lemma covers only replies formatted from a model answer.
