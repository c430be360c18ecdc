/** The `ConsciousnessBridgeBot` object: its nickname, its bounded
    conversation memory, and the IRC commands its event handlers issue.
    Commands are appended to `outbox` in the order the bot issues them;
    the delay before a public reply is not modelled. */
module Bridge {
  import opened Text
  import opened IrcFormat
  import opened ReplyDecision
  import opened Fallback
  import opened ResponseSource

  const DefaultChannel: string := "#consciousness"
  const DefaultNickname: string := "ConsciousnessBridge"
  const MaxMemory: nat := 10
  /** Prefix of every private reply; it names the default nickname, whatever
      the bot's nickname is. */
  const PrivatePrefix: string := "\U{1F9E0} ConsciousnessBridge: "

  /** One remembered public message. */
  datatype MemoryEntry = MemoryEntry(sender: string, message: string, timestamp: real)

  /** What the bot sends to the server. */
  datatype Command = PrivMsg(target: string, text: string) | Nick(nickname: string)

  // ---------------------------------------------------------------------
  // Conversation memory.

  /** The memory after one public message: append it, and drop the oldest
      entry once there are more than `limit`. A memory within its bound stays
      within it, the new entry comes last, and on overflow exactly the
      oldest entry goes. */
  function Remember(memory: seq<MemoryEntry>, entry: MemoryEntry, limit: nat): (r: seq<MemoryEntry>)
    ensures |memory| <= limit ==> |r| <= limit
    ensures limit > 0 ==> |r| > 0 && r[|r| - 1] == entry
    ensures |memory| < limit ==> r == memory + [entry]
    ensures 0 < |memory| == limit ==> r == memory[1..] + [entry]
  {
    var grown := memory + [entry];
    if |grown| > limit then grown[1..] else grown
  }

  /** The memory after a run of public messages. */
  function RememberAll(memory: seq<MemoryEntry>, entries: seq<MemoryEntry>, limit: nat): seq<MemoryEntry>
    decreases |entries|
  {
    if entries == [] then memory
    else RememberAll(Remember(memory, entries[0], limit), entries[1..], limit)
  }

  /** The last `n` elements of `s` (all of `s` when it is shorter). */
  function LastN<T>(s: seq<T>, n: nat): (r: seq<T>)
    ensures |r| == if |s| <= n then |s| else n
  {
    if |s| <= n then s else s[|s| - n..]
  }

  /** Dropping the first element of a sequence longer than `n` keeps its
      last `n` elements. */
  lemma LastNDropFront<T>(s: seq<T>, n: nat)
    requires |s| > n
    ensures LastN(s[1..], n) == LastN(s, n)
  {
  }

  /** One update, then more messages: the window is as if all had been
      appended at once. */
  lemma RememberThenLastN(memory: seq<MemoryEntry>, entry: MemoryEntry, rest: seq<MemoryEntry>, limit: nat)
    requires |memory| <= limit
    ensures LastN(Remember(memory, entry, limit) + rest, limit) == LastN(memory + [entry] + rest, limit)
  {
    var all := memory + [entry] + rest;
    if |memory + [entry]| > limit {
      assert Remember(memory, entry, limit) + rest == all[1..];
      LastNDropFront(all, limit);
    }
  }

  /** Whatever public messages arrive, the memory holds exactly the most
      recent `limit` of everything it has seen, oldest first. */
  lemma {:induction false} RememberAllKeepsLatest(memory: seq<MemoryEntry>, entries: seq<MemoryEntry>, limit: nat)
    requires |memory| <= limit
    ensures RememberAll(memory, entries, limit) == LastN(memory + entries, limit)
    decreases |entries|
  {
    if entries != [] {
      RememberAllKeepsLatest(Remember(memory, entries[0], limit), entries[1..], limit);
      RememberThenLastN(memory, entries[0], entries[1..], limit);
      assert memory + entries == memory + [entries[0]] + entries[1..];
    }
  }

  // ---------------------------------------------------------------------
  // Nickname collisions and private replies.

  function DigitChar(d: nat): char
    requires d < 10
  {
    ('0' as int + d) as char
  }

  function DigitValue(c: char): int {
    c as int - '0' as int
  }

  /** `f"{nick}_{suffix}"` for a two-digit suffix. */
  function RenamedNick(nick: string, suffix: nat): (r: string)
    requires 10 <= suffix <= 99
    ensures |r| == |nick| + 3 && r[..|nick|] == nick && r[|nick|] == '_'
    ensures '1' <= r[|nick| + 1] <= '9' && '0' <= r[|nick| + 2] <= '9'
    ensures DigitValue(r[|nick| + 1]) * 10 + DigitValue(r[|nick| + 2]) == suffix
  {
    nick + "_" + [DigitChar(suffix / 10), DigitChar(suffix % 10)]
  }

  /** A renamed nickname is a new one: messages from the old nickname are no
      longer the bot's own. */
  lemma RenameChangesNick(nick: string, suffix: nat)
    requires 10 <= suffix <= 99
    ensures RenamedNick(nick, suffix) != nick
  {
  }

  /** The text of a private reply. */
  function WrapPrivate(response: string): (r: string)
    ensures |r| == |PrivatePrefix| + |response|
    ensures r[..|PrivatePrefix|] == PrivatePrefix && r[|PrivatePrefix|..] == response
  {
    PrivatePrefix + response
  }

  /** A private reply is the prefix followed by at most one IRC line. */
  lemma PrivateReplyFits(local: SourceOutcome, cloud: SourceOutcome, message: string, draw: nat)
    ensures |WrapPrivate(ConsciousnessResponse(local, cloud, message, draw))| <= |PrivatePrefix| + MaxLineLength
  {
  }

  // ---------------------------------------------------------------------
  // The bot.

  class ConsciousnessBridgeBot {
    const channel: string
    var nickname: string
    var memory: seq<MemoryEntry>
    var outbox: seq<Command>

    ghost predicate Valid()
      reads this
    {
      |memory| <= MaxMemory
    }

    /** An empty argument falls back to the default, as `channel or ...` does. */
    constructor (channel: string, nickname: string)
      ensures Valid()
      ensures this.channel == (if channel == "" then DefaultChannel else channel)
      ensures this.nickname == (if nickname == "" then DefaultNickname else nickname)
      ensures memory == [] && outbox == []
    {
      this.channel := if channel == "" then DefaultChannel else channel;
      this.nickname := if nickname == "" then DefaultNickname else nickname;
      memory := [];
      outbox := [];
    }

    /** `on_nicknameinuse`: ask for the nickname with a random two-digit
        suffix and adopt it. */
    method OnNicknameInUse(suffix: nat)
      requires 10 <= suffix <= 99
      modifies this
      ensures nickname == RenamedNick(old(nickname), suffix)
      ensures outbox == old(outbox) + [Nick(nickname)]
      ensures memory == old(memory)
    {
      var newNick := RenamedNick(nickname, suffix);
      outbox := outbox + [Nick(newNick)];
      nickname := newNick;
    }

    /** `on_pubmsg`: remember the message, then maybe answer in the channel.
        `roll` is the decision's draw; `local`, `cloud` and `draw` stand for
        the model calls and the fallback's choice. */
    method OnPubMsg(message: string, sender: string, timestamp: real, roll: real,
                    local: SourceOutcome, cloud: SourceOutcome, draw: nat)
      requires Valid()
      modifies this
      ensures Valid()
      ensures memory == Remember(old(memory), MemoryEntry(sender, message, timestamp), MaxMemory)
      ensures memory == LastN(old(memory) + [MemoryEntry(sender, message, timestamp)], MaxMemory)
      ensures memory[|memory| - 1] == MemoryEntry(sender, message, timestamp)
      ensures nickname == old(nickname)
      ensures var reply := ConsciousnessResponse(local, cloud, message, draw);
        outbox == if ShouldRespond(message, sender, nickname, roll) && reply != ""
                  then old(outbox) + [PrivMsg(channel, reply)]
                  else old(outbox)
      ensures sender == nickname ==> outbox == old(outbox)
    {
      memory := memory + [MemoryEntry(sender, message, timestamp)];
      if |memory| > MaxMemory {
        memory := memory[1..];
      }
      RememberAllKeepsLatest(old(memory), [MemoryEntry(sender, message, timestamp)], MaxMemory);
      if ShouldRespond(message, sender, nickname, roll) {
        var response := ConsciousnessResponse(local, cloud, message, draw);
        if response != "" {
          outbox := outbox + [PrivMsg(channel, response)];
        }
      }
    }

    /** `on_privmsg`: answer privately with the prefixed reply unless it is
        empty. */
    method OnPrivMsg(message: string, sender: string, local: SourceOutcome, cloud: SourceOutcome, draw: nat)
      modifies this
      ensures memory == old(memory) && nickname == old(nickname)
      ensures var reply := ConsciousnessResponse(local, cloud, message, draw);
        outbox == if reply != "" then old(outbox) + [PrivMsg(sender, WrapPrivate(reply))] else old(outbox)
      ensures !local.Answered? && !cloud.Answered? ==> |outbox| == |old(outbox)| + 1
    {
      var response := ConsciousnessResponse(local, cloud, message, draw);
      if response != "" {
        outbox := outbox + [PrivMsg(sender, WrapPrivate(response))];
      }
    }
  }
}
