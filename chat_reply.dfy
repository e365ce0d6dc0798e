/**
 * The reply text send_request (chat-with-local-llm.py) hands to
 * update_conversation, from the chat service's answer.
 */
module ChatReply {
  import opened Wrappers

  /** The default of the inner .get: shown when the answer carries no text. */
  const NO_RESPONSE: string := "<No response received>"

  /**
   * What the request gave: a decoded body whose "message" member (an object
   * of string fields) may be absent, or a request exception with its text.
   */
  datatype ChatOutcome = Received(message: Option<map<string, string>>) | RequestFailed(error: string)

  /** dict.get(key, default) */
  function Get(m: map<string, string>, key: string, default: string): string
  {
    if key in m then m[key] else default
  }

  /** data.get("message", {}).get("content", "<No response received>"), or "Error: {e}". */
  function BotReply(outcome: ChatOutcome): (reply: string)
    ensures outcome.RequestFailed? ==> reply == "Error: " + outcome.error
    ensures outcome.Received? && (outcome.message.None? || "content" !in outcome.message.value) ==>
      reply == NO_RESPONSE
    ensures outcome.Received? && outcome.message.Some? && "content" in outcome.message.value ==>
      reply == outcome.message.value["content"]
  {
    match outcome
    case RequestFailed(e) => "Error: " + e
    case Received(message) =>
      var fields := match message case Some(m) => m case None => map[];
      Get(fields, "content", NO_RESPONSE)
  }
}
