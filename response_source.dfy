/** `get_consciousness_response`: ask the local model, then the cloud model,
    then fall back to a canned reply. What each model call did is given as
    a `SourceOutcome`; the clients themselves are not modelled. */
module ResponseSource {
  import opened Text
  import opened IrcFormat
  import opened Fallback

  /** One model call: no client configured; a call that raised, including an
      answer whose formatting raised (content `None`), since the formatting
      sits inside the same `try`; or the text the model answered. */
  datatype SourceOutcome = Unavailable | Failed | Answered(content: string)

  function ConsciousnessResponse(local: SourceOutcome, cloud: SourceOutcome, message: string, draw: nat): (r: string)
    ensures |r| <= MaxLineLength
    ensures !local.Answered? && !cloud.Answered? ==> r in Responses && r != ""
  {
    if local.Answered? then FormatIrcResponse(local.content)
    else if cloud.Answered? then FormatIrcResponse(cloud.content)
    else
      ResponsesFit();
      PickFallback(message, draw)
  }

  /** A local answer decides the reply, formatted for IRC: the cloud model,
      the message and the draw play no part. */
  lemma LocalAnswerWins(content: string, cloud: SourceOutcome, cloud': SourceOutcome,
                        message: string, message': string, draw: nat, draw': nat)
    ensures ConsciousnessResponse(Answered(content), cloud, message, draw)
         == ConsciousnessResponse(Answered(content), cloud', message', draw')
         == FormatIrcResponse(content)
  {
  }

  /** Without a local answer, a cloud answer decides the reply, whether the
      local model was missing or failed. */
  lemma CloudAnswerNext(local: SourceOutcome, content: string, message: string, draw: nat)
    requires !local.Answered?
    ensures ConsciousnessResponse(local, Answered(content), message, draw) == FormatIrcResponse(content)
  {
  }

  /** With both models missing or failing, the reply is the canned one,
      which is never empty and follows the message's topic. */
  lemma FallbackWhenSilent(local: SourceOutcome, cloud: SourceOutcome, message: string, draw: nat)
    requires !local.Answered? && !cloud.Answered?
    ensures ConsciousnessResponse(local, cloud, message, draw) == PickFallback(message, draw)
    ensures ConsciousnessResponse(local, cloud, message, draw) != ""
    ensures ContainsAny(TopicWords, Lower(message)) ==>
      ContainsAny(TopicWords, ConsciousnessResponse(local, cloud, message, draw))
  {
    ResponsesFit();
    if ContainsAny(TopicWords, Lower(message)) {
      FallbackFollowsTopic(message, draw);
    }
  }

  /** The reply is empty, and so not sent, exactly when the model whose
      answer was used answered only whitespace. */
  lemma EmptyReplyIffBlankAnswer(local: SourceOutcome, cloud: SourceOutcome, message: string, draw: nat)
    ensures ConsciousnessResponse(local, cloud, message, draw) == "" <==>
      if local.Answered? then Split(local.content) == []
      else cloud.Answered? && Split(cloud.content) == []
  {
    if local.Answered? {
      FormatEmptyIff(local.content);
    } else if cloud.Answered? {
      FormatEmptyIff(cloud.content);
    }
  }

  /** A reply taken from a model answer is clean IRC text. */
  lemma ReplyIsClean(local: SourceOutcome, cloud: SourceOutcome, message: string, draw: nat)
    requires local.Answered? || cloud.Answered?
    ensures Normalized(ConsciousnessResponse(local, cloud, message, draw))
  {
  }
}
