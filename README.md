# Token-ring chat node, modelled in Dafny

This project models one peer (`ChatNode`) of a replicated chat. Peers form a logical
token ring over a lossy multicast group. Only the peer that holds the token may give the
next chat message its global index. The model covers the peer's whole protocol:

- the membership and token state machine: join handshake with retries and bootstrap,
  growth of the ring, round-robin hand-off of the token;
- the chat log: idempotent append keyed by index, gap detection, and the pull-based
  history repair between a replica and the token holder;
- the dispatch of a decoded wire message to its handler.

Modules:

- `Messages` (messages.dfy): the six wire messages of `src/Message.ts` as one datatype.
- `ChatLog` (chat_log.dfy): the log as a value. It holds `Store` (idempotent append),
  `StoreAll` (applying a history announcement), `Select` (answering a history request),
  `MaxIndex`, and `Gaps` (gap detection), with the lemmas about them.
- `Ring` (ring.dfy): `IndexOf`, `NextInRing` (the source's `getNextValue`) and `AddMember`
  (the join update of the ring). It also proves round-robin fairness.
- `Node` (node.dfy): the `NetworkState` datatype and the class `ChatNode`. Each handler of
  the source is a method that updates the fields `state`, `messages`, `outbox` and `timer`
  in place. A broadcast is an append to `outbox`. A timer expiring is a call of the
  matching handler, and `timer` records which timer is pending.

Each handler's contract states the node's whole new state in terms of the old one. The
effect of every handler that the dispatch reaches is written once, as a two-state
predicate (`JoinRequestHandled`, `JoinResponseHandled`, `PassTokenHandled`, `ChatHandled`,
`HistoryRequestHandled`, `HistoryResponseHandled`). The handler and the dispatch both
promise it. The contracts name the functions of `ChatLog` and `Ring`, and the lemmas prove
what those functions promise. `Valid()` is the object invariant: the pending timer belongs to the
current state (so at most one timer is live), and join attempts stay between 1 and
`MaxRetries() + 1`. `Consistent()` holds the protocol's data invariants: log indexes are
unique, and a held ring has no duplicate names. Every handler preserves `Consistent()`.
A token hand-off preserves it when the ring it carries has no duplicates.

Behaviour the model keeps as the code has it:

- `handleChatMessage` asks for the history when the log length after storing differs from
  the received message's index (src/Node.ts:399).
- `handleMessageHistoryResponse` has no state guard. It stores announced messages in every
  state (src/Node.ts:448-456).
- A network founded from an empty log numbers its messages from 1. `initNetwork` sets the
  index to the log length and `simulateSendChatMessage` increments it before use
  (src/Node.ts:212, 366). Gap detection scans from 0, so in such a log index 0 is always
  reported missing and is never filled (`ChatLog.IndexZeroAlwaysMissing`).
- A replica whose log is numbered from 0 and that lost exactly one message never asks for
  it. After 0 .. n-1 it receives n + 1, and the new length n + 1 equals that index, so no
  request goes out. A second delivery of n + 1 is dropped as already known
  (src/Node.ts:391-393, 399). The gap at n stays open (`Node.SingleLossNotRequested`).
  A network numbered from 1 behaves differently: a replica holding 1 .. n that receives
  n + 2 ends with length n + 1, which differs from n + 2, so it does broadcast a history
  request (`Node.SingleLossRequested`).
- `ChatLog.HistoryRepairClosesGaps` applies only to logs numbered from 0. In the code's own
  numbering from 1 no node holds index 0, so a repair round leaves exactly the requested
  gaps the responder also lacks, and 0 is always among them
  (`ChatLog.HistoryRepairLeavesHolderGaps`).

## Model

| member | source | states |
|---|---|---|
| `ChatLog.Known` | src/Node.ts:92 | some log entry carries the index (the `messages.some(...)` test, also at lines 391 and 451) |
| `ChatLog.KnownConcat` | src/Node.ts:91-92 | an index is known in two logs put together exactly when one of them knows it, so a push keeps every known index and adds the pushed one |
| `ChatLog.Indexes` | src/Node.ts:474 | the list of log indexes holds exactly the indexes some entry carries |
| `ChatLog.Store` | src/Node.ts:90-105 | a known index leaves the log unchanged; otherwise the message goes at the end; entries are never replaced; afterwards the index is known; the known indexes are the old ones plus this one; unique indexes stay unique |
| `ChatLog.StoreIdempotent` | src/Node.ts:90-94 | storing the same message twice equals storing it once |
| `ChatLog.StoreAll` | src/Node.ts:448-456 | after an announcement is applied, every announced index is present; the old log is a prefix of the new one; appended entries come from the announcement; known indexes are exactly the old ones plus the announced ones; unique indexes stay unique |
| `ChatLog.Select` | src/Node.ts:439 | the reply holds exactly the log entries whose index was requested, as a subsequence of the log (log order) |
| `ChatLog.MaxIndex` | src/Node.ts:469-472 | the result is an index present in the non-empty log and bounds every entry's index |
| `ChatLog.MissingBelow` | src/Node.ts:476-482 | the indexes below n that the log lacks, exactly, in strictly ascending order |
| `ChatLog.Gaps` | src/Node.ts:460-485 | an empty log has no gaps; otherwise the gaps are exactly the absent indexes in [0, highest known index], strictly ascending |
| `ChatLog.NoGapsWhenContiguous` | src/Node.ts:460-485 | when every index up to the highest is present, gap detection returns the empty list |
| `ChatLog.HistoryRepairClosesGaps` | src/Node.ts:413-456 | if the responder holds every index the requester lacks, storing its answer to the gap request leaves the requester with no gap |
| `ChatLog.HistoryRepairLeavesHolderGaps` | src/Node.ts:413-456 | for any requester and responder, after storing the answer to the gap request the requester lacks exactly the indexes it requested that the responder lacks too |
| `ChatLog.GapsExample` | src/Node.ts:460-485 | a log with indexes 0, 1, 3, 5 reports gaps [2, 4] |
| `ChatLog.ReconciliationExample` | src/Node.ts:413-456 | starting from the history request: a replica with 0, 1, 2, 4 lacks [3]; a holder with 0..4 answers with message 3 only; afterwards the replica has no gap (such a request is sent when a replica holding 0, 1, 4 receives 2, `Node.LateArrivalRequested`) |
| `ChatLog.SingleLossGap` | src/Node.ts:460-485 | a log holding exactly 0 .. n-1 plus n + 1 reports the single gap [n] |
| `ChatLog.IndexZeroAlwaysMissing` | src/Node.ts:467 | a non-empty log without index 0 always reports 0 as its first gap |
| `Ring.IndexOf` | src/Node.ts:276 | -1 exactly when the name is absent; otherwise the position of its first occurrence |
| `Ring.NextInRing` | src/Node.ts:275-278 | the successor is a ring member; a node absent from the ring picks the first member; in a ring of two or more distinct names no node picks itself |
| `Ring.NextInRingAt` | src/Node.ts:275-278 | the successor of the name at its first position i is the name at i + 1, wrapping round to position 0 |
| `Ring.AddMember` | src/Node.ts:231-234 | the joiner is in the ring; the old ring is a prefix (order kept); nothing else is added; a known joiner changes nothing; a duplicate-free ring stays duplicate-free |
| `Ring.RoundRobin` | src/Node.ts:273-322 | in a duplicate-free ring, the token starting at position i is at position (i + k) mod n after k hand-offs |
| `Ring.ThreeNodeRotation` | src/Node.ts:273-322 | ring [A, B, C] started at A visits B, then C, then A |
| `Node.BootstrapOnLastTimeout` | src/Node.ts:169-203 | starting from attempts = 1, a node with no answer bootstraps on exactly the (maxRetries + 1)-th join timeout |
| `Node.ChatNode.MaxRetries` | src/Node.ts:176 | the retry maximum, defined as 1 for the node named "primeiro" and the configured value for every other node; what it implies is proved by `Node.PrimeiroBootstrapsFirst` |
| `Node.PrimeiroBootstrapsFirst` | src/Node.ts:176-178 | "primeiro" bootstraps on its second unanswered join timeout, any other node on its (configured maximum + 1)-th |
| `Node.ChatNode.constructor` | src/Node.ts:46-70 | a new node is `Unconnected` with no timer and an empty outbox, and its log is the stored one |
| `Node.ChatNode.Send` | src/Node.ts:349-359 | a broadcast appends exactly that message to the outbox |
| `Node.ChatNode.StoreChatMessage` | src/Node.ts:90-105 | the log becomes `Store(old log, m)`, and the result is the new log length |
| `Node.ChatNode.JoinNetwork` | src/Node.ts:139-166 | acts only from `Unconnected`: sends one join request, arms the response timer, enters `Connecting(1)`; otherwise nothing changes |
| `Node.ChatNode.HandleJoinNetworkResponseTimeout` | src/Node.ts:169-203 | in `Connecting(a)` with a <= max retries: re-sends the request, a grows by one; beyond that: founds the network as `TokenOwning` with ring [self] and emits a message of index log length + 1; each timeout brings bootstrap one timeout closer; other states: no-op |
| `Node.ChatNode.InitNetwork` | src/Node.ts:206-224 | holds the token alone with ring [self], arms the hold timer, stores and broadcasts three times a message of index log length + 1 |
| `Node.ChatNode.HandleJoinNetworkRequest` | src/Node.ts:227-249 | acts only in `TokenOwning`: the sender joins the ring (order kept, no duplicates), the index is unchanged, and three identical responses to the sender are sent; otherwise nothing changes |
| `Node.ChatNode.HandleNetworkJoinResponse` | src/Node.ts:252-270 | a response for another node changes nothing; in `Connecting` the node disarms the timer and enters `NoTokenOwning`; in any other state nothing changes |
| `Node.ChatNode.HandleOwningTokenTimeTimeout` | src/Node.ts:273-322 | with a ring below 2 members: state, ring and index unchanged, hold timer re-armed; otherwise: `NoTokenOwning`, timer disarmed, three identical hand-offs to the ring successor carrying the unchanged ring and index, never addressed to itself in a duplicate-free ring; other states: no-op |
| `Node.ChatNode.HandlePassTokenMessage` | src/Node.ts:325-346 | a hand-off for another node, or one arriving outside `NoTokenOwning`, changes nothing; otherwise the node adopts ring and index, arms the hold timer, and emits one message whose index is the carried one plus one |
| `Node.ChatNode.SimulateSendChatMessage` | src/Node.ts:362-384 | in `TokenOwning` the index grows by exactly one, the ring is unchanged, and the message with the new index is stored and broadcast three times; otherwise nothing changes |
| `Node.ChatNode.HandleChatMessage` | src/Node.ts:387-410 | acts only in `NoTokenOwning` and for an unknown index: appends the message, and sends a history request carrying the current gaps exactly when the new log length differs from the message index; otherwise nothing changes |
| `Node.ChatNode.SendMessageHistoryRequest` | src/Node.ts:413-429 | broadcasts one request for exactly the gaps of the log |
| `Node.ChatNode.HandleMessageHistoryRequest` | src/Node.ts:432-444 | in `TokenOwning` broadcasts one announcement of exactly the requested log entries in log order; otherwise sends nothing |
| `Node.ChatNode.HandleMessageHistoryResponse` | src/Node.ts:448-456 | the log becomes `StoreAll(old log, announced)`: every announced index is present and the old log is a prefix |
| `Node.ChatNode.VerifyChatHistory` | src/Node.ts:460-485 | the counting loop returns exactly `Gaps(log)` |
| `Node.ChatNode.HandleDelayedMessage` | src/Node.ts:509-541 | each kind of message has exactly its handler's effect on state, timer, log and outbox (one two-state predicate per kind); for any message the invariants hold, log and outbox only grow, consistency is kept (given a duplicate-free ring in a hand-off), and a response or hand-off addressed to another node changes nothing |
| `Node.DuplicateJoinResponses` | src/Node.ts:252-270 | three copies of the join response make a connecting node `NoTokenOwning` once, with nothing else changed |
| `Node.SingleLossNotRequested` | src/Node.ts:387-410 | a replica holding 0 .. n-1 that receives n + 1 twice appends it once, sends no history request, and is left with the gap [n] |
| `Node.SingleLossRequested` | src/Node.ts:387-410 | a replica holding 1 .. n that receives n + 2 appends it and broadcasts one history request for its gaps, which include the lost n + 1 |
| `Node.LateArrivalRequested` | src/Node.ts:387-410 | a replica holding 0, 1, 4 that receives 2 appends it and, its length 4 differing from 2, broadcasts one history request for exactly [3] |
| `Node.TokenHandOff` | src/Node.ts:273-346 | a holder's timeout plus its successor's delivery moves the token: the holder no longer has it; the successor holds the same ring with the index plus one, and has stored the message it emitted |

## Left out

- UDP socket creation, bind, multicast membership and transmission (src/Node.ts:42, 57, 108-136, 349-359) are network I/O. `Send` appends to `outbox` instead.
- File persistence (`loadStoredMessages`, the `writeFileSync` inside `storeChatMessage`, src/Node.ts:60-87, 96-101) is filesystem I/O whose failures are only logged. The stored log is a constructor parameter, and no write is modelled.
- `setTimeout`/`clearTimeout` are host timers. Their durations are not modelled. Arming or disarming is an assignment to `timer`, and an expiry is a call of `HandleJoinNetworkResponseTimeout` or `HandleOwningTokenTimeTimeout`.
- Node.ChatNode.HandleOwningTokenTimeTimeout: re-arming the hold timer of a sole member leaves `timer` at `TokenHoldTimer`, so the contract cannot tell a restarted timer from the old one.
- `handleSocketMessage` (src/Node.ts:488-506) filters the node's own IP address and randomly drops and delays messages. This is fault injection driven by `Math.random`, so it is not modelled.
- JSON parsing and schema validation in `handleDelayedMessage` (src/Node.ts:511-516) wrap a library not visible here. `HandleDelayedMessage` takes an already decoded `MessageUnion`.
- src/Params.ts (random drop and delay, environment flags, interface discovery, timing constants) and src/index.ts (startup, signals, startup delay) are process plumbing. The configured retry maximum is a constructor parameter.
- The node's random name and the random chat text (src/Node.ts:54, 371) become the constructor's `name` and the `text` parameter of the handlers that emit a message.
- The `console.log` calls are not modelled. Neither is the unused `maior_index_conhecido` computation (src/Node.ts:142-145), nor the first `verifyChatHistory` call in `handleChatMessage` (src/Node.ts:400), whose result is only logged.
- JavaScript numbers are modelled as unbounded `nat`. Indexes beyond 2^53 lose precision in the source, and the model does not capture that.
- Eventual consistency under random loss across many nodes is probabilistic and is not modelled. `ChatLog.HistoryRepairClosesGaps` and `ChatLog.HistoryRepairLeavesHolderGaps` prove what one repair round does.
- Node.ChatNode.HandleDelayedMessage: ring duplicate-freedom is guaranteed only if the incoming hand-off's ring has no duplicates. The model covers one node, so the fact that every hand-off ring descends from a duplicate-free ring is not proved across nodes.
