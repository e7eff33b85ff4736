/**
 * The six wire messages exchanged by chat nodes (src/Message.ts).
 * Every message carries the name of the node that sent it; the schema's
 * non-negative integers are `nat`.
 */
module Messages {

  /** One entry of the replicated chat log: who wrote it, its text and its global position. */
  datatype ChatMessage = ChatMessage(sender: string, text: string, index: nat)

  /** The discriminated union of everything that travels on the multicast group. */
  datatype MessageUnion =
    | JoinNetworkRequest(sender: string)
    | JoinNetworkResponse(sender: string, requester: string)
    | PassToken(sender: string, target: string, messageIndex: nat, nodeList: seq<string>)
    | RequestChatMessageHistory(sender: string, requestedIndexes: seq<nat>)
    | MessageHistoryAnnouncement(sender: string, messages: seq<ChatMessage>)
    | Chat(chat: ChatMessage)
}
