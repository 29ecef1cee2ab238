/** The prompt that `OpenaiService.generateChatResponse` sends to the chat
    completion API: a Portuguese system instruction, extended with the
    contextual documents when there are any, followed by at most the last
    ten messages of the conversation. */
module OpenaiService {
  import opened Wrappers
  import opened JsString
  import opened ChatTypes

  /** The instruction used when no document is given. */
  const GenericInstruction: string := "Voc\U{EA} \U{E9} um assistente \U{FA}til e prestativo."

  /** What the instruction gains before the documents, up to the line break
      and indentation of the template literal. */
  const ContextIntro: string :=
    " Responda \U{E0}s perguntas com base no seguinte contexto: \n        "

  /** The separator of `contextualDocuments.join('\n\n')`. */
  const ContextSeparator: string := "\n\n"

  /** How many of the latest messages are kept: `messages.slice(-10)`. */
  const HistoryWindow: nat := 10

  /** The optional parameter holds at least one document. */
  predicate HasDocuments(contextualDocuments: Option<seq<string>>) {
    contextualDocuments.Some? && |contextualDocuments.value| > 0
  }

  /** `systemMessage`: the generic instruction, or the instruction with the
      documents appended when there are any. */
  function SystemMessage(contextualDocuments: Option<seq<string>>): (r: string)
    ensures r == GenericInstruction <==> !HasDocuments(contextualDocuments)
    ensures GenericInstruction <= r
  {
    if HasDocuments(contextualDocuments) then
      var r := GenericInstruction + ContextIntro + Join(contextualDocuments.value, ContextSeparator);
      assert |r| > |GenericInstruction|;
      r
    else
      GenericInstruction
  }

  /** The system message contains every document given. */
  lemma SystemMessageHoldsDocuments(contextualDocuments: Option<seq<string>>)
    ensures contextualDocuments.Some? ==>
      forall i :: 0 <= i < |contextualDocuments.value| ==>
        Contains(SystemMessage(contextualDocuments), contextualDocuments.value[i])
  {
    if HasDocuments(contextualDocuments) {
      var docs := contextualDocuments.value;
      var prefix := GenericInstruction + ContextIntro;
      var joined := Join(docs, ContextSeparator);
      assert SystemMessage(contextualDocuments) == prefix + joined;
      forall i | 0 <= i < |docs|
        ensures Contains(prefix + joined, docs[i])
      {
        JoinContainsEach(docs, ContextSeparator, i);
        var k: nat :| k <= |joined| && ContainsAt(joined, docs[i], k);
        ContainsAfter(prefix, joined, docs[i], k);
      }
    }
  }

  /** `finalMessages`: the system message followed by the latest messages. */
  function FinalMessages(messages: seq<ChatMessage>, contextualDocuments: Option<seq<string>>)
    : (fm: seq<ChatMessage>)
    ensures |fm| == 1 + Min(|messages|, HistoryWindow)
    ensures fm[0] == ChatMessage(System, SystemMessage(contextualDocuments))
    ensures fm[1..] == messages[|messages| - Min(|messages|, HistoryWindow)..]
  {
    var tail := SliceFrom(messages, -(HistoryWindow as int));
    var fm := [ChatMessage(System, SystemMessage(contextualDocuments))] + tail;
    assert fm[1..] == tail;
    fm
  }

  /** A conversation of at most ten messages is passed on whole, and every
      message after the system one comes from the conversation. */
  lemma FinalMessagesKeepLatest(messages: seq<ChatMessage>,
                                contextualDocuments: Option<seq<string>>)
    ensures var fm := FinalMessages(messages, contextualDocuments);
      && (|messages| <= HistoryWindow ==> fm[1..] == messages)
      && (forall m :: m in fm[1..] ==> m in messages)
  {
  }

  /** `generateChatResponse`, with the chat completion API as a function from
      the prompt to the content of the first choice. */
  method GenerateChatResponse(messages: seq<ChatMessage>,
                              contextualDocuments: Option<seq<string>>,
                              model: seq<ChatMessage> -> Option<string>)
    returns (content: Option<string>)
    ensures content == model(FinalMessages(messages, contextualDocuments))
  {
    var systemMessage := GenericInstruction;
    if contextualDocuments.Some? && |contextualDocuments.value| > 0 {
      systemMessage := GenericInstruction + ContextIntro
                       + Join(contextualDocuments.value, ContextSeparator);
    }
    var finalMessages := [ChatMessage(System, systemMessage)] + SliceFrom(messages, -(HistoryWindow as int));
    content := model(finalMessages);
  }
}
