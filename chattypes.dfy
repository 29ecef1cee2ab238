/** The message and response records the chat backend passes around. */
module ChatTypes {
  import opened Wrappers

  /** The `role` of a chat message. */
  datatype Role = User | Assistant | System

  /** One turn of a conversation: `{ role, content }`. */
  datatype ChatMessage = ChatMessage(role: Role, content: string)

  /** `{ answer, citations? }`: an answer and, in contextual mode, the
      snippets of the documents it appears to draw on. */
  datatype ChatResponse = ChatResponse(answer: string, citations: Option<seq<string>>)
}
