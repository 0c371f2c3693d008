/** The chat messages sent to the hosted vision-language model, and
    `request_vlm` (utils/request_models.py) as declared and as its callers use it. */
module RequestModels {
  import opened Wrappers

  /** One element of a message's "content" list. */
  datatype Part = TextPart(text: string) | ImageUrlPart(url: string)

  /** A `{"role": ..., "content": [...]}` message. */
  datatype Message = Message(role: string, content: seq<Part>)

  /** The hosted model behind the OpenAI-compatible client: the reply text it
      gives to a list of messages. It is outside this model, so it is a parameter. */
  type ChatModel = seq<Message> -> string

  /** How a caller invokes `request_vlm(system_content=s, user_content=u)`. */
  type VlmCall = (Message, Message) -> Result<string>

  /** The system message `request_vlm` puts before the user message. */
  const HelpfulAssistant := Message("system", [TextPart("You are a helpful assistant.")])

  /** `request_vlm` as declared: it takes `user_content` only and sends it after
      its own system message. Passing `system_content=` raises TypeError before
      the model is reached. */
  function RequestVlmAsDeclared(model: ChatModel, systemArg: Option<Message>, user: Message): Result<string>
  {
    if systemArg.Some? then Err(TypeError("request_vlm() got an unexpected keyword argument 'system_content'"))
    else Ok(model([HelpfulAssistant, user]))
  }

  /** The call `request_vlm(system_content=s, user_content=u)` as written at the
      call sites, against the declared signature. */
  function AsWrittenCall(model: ChatModel): VlmCall
  {
    (s: Message, u: Message) => RequestVlmAsDeclared(model, Some(s), u)
  }

  /** The same call as its callers intend it: both messages are sent, the
      caller's system message first. */
  function IntendedCall(model: ChatModel): VlmCall
  {
    (s: Message, u: Message) => Ok(model([s, u]))
  }
}
