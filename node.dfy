/**
 * One peer of the token-ring chat (class `ChatNode` of src/Node.ts): the
 * membership and token state machine and the chat log with its pull-based
 * repair. Every handler first checks the current state and otherwise does
 * nothing. Broadcasting a message appends it to `outbox`; a timer expiring is
 * a call of the matching handler; `timer` records which timer is pending.
 */
module Node {
  import opened Messages
  import opened ChatLog
  import opened Ring

  /** The node's position relative to the ring (src/Node.ts:16-36, without the timer handles). */
  datatype NetworkState =
    | Unconnected
    | Connecting(attempts: nat)
    | TokenOwning(messageIndex: nat, ring: seq<string>)
    | NoTokenOwning

  /** Which host timer is pending: the join-response timer, the token-hold timer, or none. */
  datatype Timer = Idle | JoinResponseTimer | TokenHoldTimer

  /** At most one timer is live, and it is the one the current state waits on. */
  predicate TimerMatches(state: NetworkState, timer: Timer)
  {
    match state
    case Connecting(_) => timer == JoinResponseTimer
    case TokenOwning(_, _) => timer == TokenHoldTimer
    case _ => timer == Idle
  }

  /**
   * How many join-response timeouts a node in `Connecting(attempts)` still
   * sees before it bootstraps a network of its own: every timeout with
   * `attempts <= maxRetries` is a retry, the next one bootstraps.
   */
  function TimeoutsUntilBootstrap(attempts: nat, maxRetries: nat): nat
    decreases if attempts <= maxRetries then maxRetries + 1 - attempts else 0
  {
    if attempts <= maxRetries then 1 + TimeoutsUntilBootstrap(attempts + 1, maxRetries) else 1
  }

  /**
   * A node that sent its first join request (attempts = 1) and never hears a
   * response bootstraps on exactly the (maxRetries + 1)-th timeout.
   */
  lemma {:induction false} BootstrapOnLastTimeout(maxRetries: nat)
    ensures TimeoutsUntilBootstrap(1, maxRetries) == maxRetries + 1
  {
    RemainingTimeouts(1, maxRetries);
  }

  lemma {:induction false} RemainingTimeouts(attempts: nat, maxRetries: nat)
    requires 1 <= attempts <= maxRetries + 1
    ensures TimeoutsUntilBootstrap(attempts, maxRetries) == maxRetries + 2 - attempts
    decreases maxRetries + 1 - attempts
  {
    if attempts <= maxRetries {
      RemainingTimeouts(attempts + 1, maxRetries);
    }
  }

  class ChatNode {
    const name: string
    /** The configured maximum number of join retries. */
    const configuredMaxRetries: nat
    var state: NetworkState
    /** The chat log, in arrival order. */
    var messages: seq<ChatMessage>
    /** Everything broadcast so far, in order. */
    var outbox: seq<MessageUnion>
    var timer: Timer

    /** The node named "primeiro" retries only once, so that it founds the network first. */
    function MaxRetries(): nat
    {
      if name == "primeiro" then 1 else configuredMaxRetries
    }

    /** The object invariant: the pending timer matches the state and join attempts are bounded. */
    ghost predicate Valid()
      reads this
    {
      && TimerMatches(state, timer)
      && (state.Connecting? ==> 1 <= state.attempts <= MaxRetries() + 1)
    }

    /** The protocol's data invariants: log indexes are unique and a held ring has no duplicate names. */
    ghost predicate Consistent()
      reads this
    {
      && UniqueIndexes(messages)
      && (state.TokenOwning? ==> Distinct(state.ring))
    }

    /** A fresh node, seeded with the log it had stored before. */
    constructor (name: string, configuredMaxRetries: nat, stored: seq<ChatMessage>)
      ensures Valid()
      ensures this.name == name && this.configuredMaxRetries == configuredMaxRetries
      ensures state == Unconnected && timer == Idle
      ensures messages == stored && outbox == []
    {
      this.name := name;
      this.configuredMaxRetries := configuredMaxRetries;
      state := Unconnected;
      messages := stored;
      outbox := [];
      timer := Idle;
    }

    /** Broadcast to the multicast group. */
    method Send(m: MessageUnion)
      modifies this`outbox
      ensures outbox == old(outbox) + [m]
    {
      outbox := outbox + [m];
    }

    /** Idempotent append to the log; answers the new log length. */
    method StoreChatMessage(m: ChatMessage) returns (size: nat)
      modifies this`messages
      ensures messages == Store(old(messages), m)
      ensures size == |messages|
    {
      if !Known(messages, m.index) {
        messages := messages + [m];
      }
      size := |messages|;
    }

    /** From `Unconnected`: broadcast one join request, arm the response timer, enter `Connecting(1)`. */
    method JoinNetwork()
      requires Valid()
      modifies this
      ensures Valid()
      ensures old(state).Unconnected? ==>
        && state == Connecting(1)
        && timer == JoinResponseTimer
        && messages == old(messages)
        && outbox == old(outbox) + [JoinNetworkRequest(name)]
      ensures !old(state).Unconnected? ==> unchanged(this)
      ensures old(Consistent()) ==> Consistent()
    {
      if state.Unconnected? {
        Send(JoinNetworkRequest(name));
        timer := JoinResponseTimer;
        state := Connecting(1);
      }
    }

    /**
     * The join-response timer fired. In `Connecting(a)` with `a <= MaxRetries()`
     * the request is re-sent and `a` grows by one; past that the node founds a
     * network of its own. Each timeout brings bootstrap one timeout closer.
     * In any other state nothing happens.
     */
    method HandleJoinNetworkResponseTimeout(text: string)
      requires Valid()
      modifies this
      ensures Valid()
      ensures old(state).Connecting? && old(state).attempts <= MaxRetries() ==>
        && state == Connecting(old(state).attempts + 1)
        && timer == JoinResponseTimer
        && messages == old(messages)
        && outbox == old(outbox) + [JoinNetworkRequest(name)]
      ensures old(state).Connecting? && old(state).attempts > MaxRetries() ==>
        var first := ChatMessage(name, text, |old(messages)| + 1);
        && state == TokenOwning(|old(messages)| + 1, [name])
        && timer == TokenHoldTimer
        && messages == Store(old(messages), first)
        && outbox == old(outbox) + [Chat(first), Chat(first), Chat(first)]
      ensures old(state).Connecting? ==>
        (state.TokenOwning? <==> TimeoutsUntilBootstrap(old(state).attempts, MaxRetries()) == 1)
      ensures old(state).Connecting? && state.Connecting? ==>
        TimeoutsUntilBootstrap(state.attempts, MaxRetries()) == TimeoutsUntilBootstrap(old(state).attempts, MaxRetries()) - 1
      ensures !old(state).Connecting? ==> unchanged(this)
      ensures old(Consistent()) ==> Consistent()
    {
      if state.Connecting? {
        var maxRetries := MaxRetries();
        if state.attempts <= maxRetries {
          state := Connecting(state.attempts + 1);
          Send(JoinNetworkRequest(name));
          timer := JoinResponseTimer;
        } else {
          InitNetwork(text);
        }
      }
    }

    /**
     * Found a new network: hold the token alone with the next index set to the
     * log length, arm the hold timer, and emit the first chat message, whose
     * index is therefore the log length plus one.
     */
    method InitNetwork(text: string)
      modifies this
      ensures Valid()
      ensures var first := ChatMessage(name, text, |old(messages)| + 1);
        && state == TokenOwning(|old(messages)| + 1, [name])
        && timer == TokenHoldTimer
        && messages == Store(old(messages), first)
        && outbox == old(outbox) + [Chat(first), Chat(first), Chat(first)]
      ensures UniqueIndexes(old(messages)) ==> Consistent()
    {
      state := TokenOwning(|messages|, [name]);
      timer := TokenHoldTimer;
      SimulateSendChatMessage(text);
    }

    /** The effect of a join request: the holder adds the sender to its ring and answers three times; other states change nothing. */
    twostate predicate JoinRequestHandled(request: MessageUnion)
      requires request.JoinNetworkRequest?
      reads this
    {
      if old(state).TokenOwning? then
        var answer := JoinNetworkResponse(name, request.sender);
        && state == TokenOwning(old(state).messageIndex, AddMember(old(state).ring, request.sender))
        && timer == old(timer)
        && messages == old(messages)
        && outbox == old(outbox) + [answer, answer, answer]
      else
        unchanged(this)
    }

    /** The effect of a join response: the connecting requester stops waiting and joins without the token; anything else changes nothing. */
    twostate predicate JoinResponseHandled(response: MessageUnion)
      requires response.JoinNetworkResponse?
      reads this
    {
      if response.requester == name && old(state).Connecting? then
        && state == NoTokenOwning
        && timer == Idle
        && messages == old(messages)
        && outbox == old(outbox)
      else
        unchanged(this)
    }

    /** The effect of a token hand-off: the addressed node without the token takes it and emits one message; anything else changes nothing. */
    twostate predicate PassTokenHandled(pass: MessageUnion, text: string)
      requires pass.PassToken?
      reads this
    {
      if pass.target == name && old(state).NoTokenOwning? then
        var emitted := ChatMessage(name, text, pass.messageIndex + 1);
        && state == TokenOwning(pass.messageIndex + 1, pass.nodeList)
        && timer == TokenHoldTimer
        && messages == Store(old(messages), emitted)
        && outbox == old(outbox) + [Chat(emitted), Chat(emitted), Chat(emitted)]
      else
        unchanged(this)
    }

    /** The effect of a chat message: a new index reaching a node without the token is appended, with a gap request when the length and the index differ; anything else changes nothing. */
    twostate predicate ChatHandled(incoming: MessageUnion)
      requires incoming.Chat?
      reads this
    {
      if old(state).NoTokenOwning? && !Known(old(messages), incoming.chat.index) then
        && messages == old(messages) + [incoming.chat]
        && state == old(state)
        && timer == old(timer)
        && outbox == old(outbox) +
             (if |messages| != incoming.chat.index then [RequestChatMessageHistory(name, Gaps(messages))] else [])
      else
        unchanged(this)
    }

    /** The effect of a history request: the holder answers once with the requested entries; only the outbox changes, and only at the holder. */
    twostate predicate HistoryRequestHandled(request: MessageUnion)
      requires request.RequestChatMessageHistory?
      reads this
    {
      && state == old(state)
      && timer == old(timer)
      && messages == old(messages)
      && outbox == old(outbox) +
           (if old(state).TokenOwning? then [MessageHistoryAnnouncement(name, Select(messages, request.requestedIndexes))] else [])
    }

    /** The effect of a history announcement, in any state: the announced messages are stored; only the log changes. */
    twostate predicate HistoryResponseHandled(announcement: MessageUnion)
      requires announcement.MessageHistoryAnnouncement?
      reads this
    {
      && messages == StoreAll(old(messages), announcement.messages)
      && state == old(state)
      && timer == old(timer)
      && outbox == old(outbox)
    }

    /**
     * A join request reaching the token holder: the sender joins the ring
     * (existing members keep their order, no name twice) and is answered with
     * three identical responses. Other states ignore it.
     */
    method HandleJoinNetworkRequest(request: MessageUnion)
      requires Valid() && request.JoinNetworkRequest?
      modifies this
      ensures Valid()
      ensures JoinRequestHandled(request)
      ensures old(state).TokenOwning? ==> request.sender in state.ring && old(state).ring <= state.ring
      ensures old(Consistent()) ==> Consistent()
    {
      if state.TokenOwning? {
        if request.sender !in state.ring {
          state := state.(ring := state.ring + [request.sender]);
        }
        var answer := JoinNetworkResponse(name, request.sender);
        Send(answer);
        Send(answer);
        Send(answer);
      }
    }

    /**
     * A join response: ignored unless it names this node as requester; in
     * `Connecting` it disarms the timer and the node enters `NoTokenOwning`,
     * so every later copy finds another state and changes nothing.
     */
    method HandleNetworkJoinResponse(response: MessageUnion)
      requires Valid() && response.JoinNetworkResponse?
      modifies this
      ensures Valid()
      ensures JoinResponseHandled(response)
      ensures old(Consistent()) ==> Consistent()
    {
      if response.requester != name {
        return;
      }
      if state.Connecting? {
        timer := Idle;
        state := NoTokenOwning;
      }
    }

    /**
     * The token-hold timer fired. A sole member keeps the token and re-arms
     * the timer. Otherwise the node gives the token up and broadcasts three
     * identical hand-offs to its successor in the ring, carrying its own ring
     * and message index unchanged. Other states ignore the timer.
     */
    method HandleOwningTokenTimeTimeout()
      requires Valid()
      modifies this
      ensures Valid()
      ensures old(state).TokenOwning? && |old(state).ring| < 2 ==>
        && state == old(state)
        && timer == TokenHoldTimer
        && messages == old(messages)
        && outbox == old(outbox)
      ensures old(state).TokenOwning? && |old(state).ring| >= 2 ==>
        var pass := PassToken(name, NextInRing(old(state).ring, name), old(state).messageIndex, old(state).ring);
        && state == NoTokenOwning
        && timer == Idle
        && messages == old(messages)
        && outbox == old(outbox) + [pass, pass, pass]
      ensures old(state).TokenOwning? && |old(state).ring| >= 2 && Distinct(old(state).ring) ==>
        outbox[|outbox| - 1].target != name
      ensures !old(state).TokenOwning? ==> unchanged(this)
      ensures old(Consistent()) ==> Consistent()
    {
      if state.TokenOwning? {
        if |state.ring| < 2 {
          timer := TokenHoldTimer;
          return;
        }
        var target := NextInRing(state.ring, name);
        var pass := PassToken(name, target, state.messageIndex, state.ring);
        timer := Idle;
        state := NoTokenOwning;
        Send(pass);
        Send(pass);
        Send(pass);
      }
    }

    /**
     * A token hand-off: ignored unless addressed to this node and the node is
     * in `NoTokenOwning`. The node adopts the carried ring and message index,
     * arms the hold timer and emits one chat message, whose index is the
     * carried one plus one.
     */
    method HandlePassTokenMessage(pass: MessageUnion, text: string)
      requires Valid() && pass.PassToken?
      modifies this
      ensures Valid()
      ensures PassTokenHandled(pass, text)
      ensures old(Consistent()) && Distinct(pass.nodeList) ==> Consistent()
    {
      if pass.target != name {
        return;
      }
      if state.NoTokenOwning? {
        state := TokenOwning(pass.messageIndex, pass.nodeList);
        timer := TokenHoldTimer;
        SimulateSendChatMessage(text);
      }
    }

    /**
     * The token holder's chat production: the message index grows by exactly
     * one, the message carrying it is stored locally and broadcast three
     * times. Without the token nothing happens.
     */
    method SimulateSendChatMessage(text: string)
      modifies this`state, this`messages, this`outbox
      ensures old(state).TokenOwning? ==>
        var emitted := ChatMessage(name, text, old(state).messageIndex + 1);
        && state == old(state).(messageIndex := old(state).messageIndex + 1)
        && messages == Store(old(messages), emitted)
        && outbox == old(outbox) + [Chat(emitted), Chat(emitted), Chat(emitted)]
      ensures !old(state).TokenOwning? ==> unchanged(this)
    {
      if state.TokenOwning? {
        state := state.(messageIndex := state.messageIndex + 1);
        var emitted := ChatMessage(name, text, state.messageIndex);
        var _ := StoreChatMessage(emitted);
        Send(Chat(emitted));
        Send(Chat(emitted));
        Send(Chat(emitted));
      }
    }

    /**
     * A chat message reaching a node without the token: a known index is
     * dropped; a new one is stored, and a history request for the current
     * gaps is broadcast exactly when the new log length differs from the
     * message's index. Other states ignore it.
     */
    method HandleChatMessage(incoming: MessageUnion)
      requires Valid() && incoming.Chat?
      modifies this
      ensures Valid()
      ensures ChatHandled(incoming)
      ensures old(Consistent()) ==> Consistent()
    {
      if state.NoTokenOwning? {
        if Known(messages, incoming.chat.index) {
          return;
        }
        UnknownIsAppended(messages, incoming.chat);
        var _ := StoreChatMessage(incoming.chat);
        if |messages| != incoming.chat.index {
          SendMessageHistoryRequest();
        }
      }
    }

    /** Ask for every index gap detection reports. */
    method SendMessageHistoryRequest()
      modifies this`outbox
      ensures outbox == old(outbox) + [RequestChatMessageHistory(name, Gaps(messages))]
    {
      var requested := VerifyChatHistory();
      Send(RequestChatMessageHistory(name, requested));
    }

    /**
     * A history request reaching the token holder: answered with one
     * announcement holding exactly the log entries whose index was requested,
     * in log order. Other states ignore it.
     */
    method HandleMessageHistoryRequest(request: MessageUnion)
      requires request.RequestChatMessageHistory?
      modifies this`outbox
      ensures HistoryRequestHandled(request)
    {
      if state.TokenOwning? {
        Send(MessageHistoryAnnouncement(name, Select(messages, request.requestedIndexes)));
      }
    }

    /**
     * A history announcement, in any state: each announced message whose
     * index is not yet known is stored. Afterwards every announced index is
     * present and no earlier entry has been replaced.
     */
    method HandleMessageHistoryResponse(announcement: MessageUnion)
      requires announcement.MessageHistoryAnnouncement?
      modifies this`messages
      ensures HistoryResponseHandled(announcement)
      ensures old(messages) <= messages
      ensures forall k | 0 <= k < |announcement.messages| :: Known(messages, announcement.messages[k].index)
    {
      var announced := announcement.messages;
      var j := 0;
      while j < |announced|
        invariant 0 <= j <= |announced|
        invariant messages == StoreAll(old(messages), announced[..j])
      {
        var m := announced[j];
        if !Known(messages, m.index) {
          var _ := StoreChatMessage(m);
        } else {
          KnownIsStored(messages, m);
        }
        StoreAllStep(old(messages), announced, j);
        j := j + 1;
      }
      assert announced[..j] == announced;
    }

    /**
     * Gap detection over the log: nothing for an empty log, otherwise every
     * index from 0 to the highest known one that is absent, ascending.
     */
    method VerifyChatHistory() returns (missing: seq<nat>)
      ensures missing == Gaps(messages)
    {
      if |messages| == 0 {
        return [];
      }
      var maxIndex := MaxIndex(messages);
      var existing := Indexes(messages);
      missing := [];
      for i := 0 to maxIndex + 1
        invariant missing == MissingBelow(messages, i)
      {
        if i !in existing {
          missing := missing + [i];
        }
      }
    }

    /**
     * Dispatch of a decoded message to its handler: each kind of message has
     * exactly the effect of its handler. Whatever arrives, the log and the
     * outbox only grow, the invariants are kept, and a response or hand-off
     * addressed to another node changes nothing.
     */
    method HandleDelayedMessage(msg: MessageUnion, text: string)
      requires Valid()
      modifies this
      ensures Valid()
      ensures msg.JoinNetworkRequest? ==> JoinRequestHandled(msg)
      ensures msg.JoinNetworkResponse? ==> JoinResponseHandled(msg)
      ensures msg.PassToken? ==> PassTokenHandled(msg, text)
      ensures msg.Chat? ==> ChatHandled(msg)
      ensures msg.RequestChatMessageHistory? ==> HistoryRequestHandled(msg)
      ensures msg.MessageHistoryAnnouncement? ==> HistoryResponseHandled(msg)
      ensures old(messages) <= messages && old(outbox) <= outbox
      ensures old(Consistent()) && (msg.PassToken? ==> Distinct(msg.nodeList)) ==> Consistent()
      ensures msg.JoinNetworkResponse? && msg.requester != name ==> unchanged(this)
      ensures msg.PassToken? && msg.target != name ==> unchanged(this)
    {
      match msg
      case JoinNetworkRequest(_) =>
        HandleJoinNetworkRequest(msg);
      case JoinNetworkResponse(_, _) =>
        HandleNetworkJoinResponse(msg);
      case PassToken(_, _, _, _) =>
        HandlePassTokenMessage(msg, text);
      case Chat(_) =>
        HandleChatMessage(msg);
      case RequestChatMessageHistory(_, _) =>
        HandleMessageHistoryRequest(msg);
      case MessageHistoryAnnouncement(_, _) =>
        HandleMessageHistoryResponse(msg);
    }
  }

  /**
   * Join convergence: a connecting node that receives three copies of the
   * response addressed to it enters `NoTokenOwning` once and stays there;
   * nothing else changes.
   */
  method DuplicateJoinResponses(node: ChatNode, response: MessageUnion)
    requires node.Valid() && node.state.Connecting?
    requires response.JoinNetworkResponse? && response.requester == node.name
    modifies node
    ensures node.Valid() && node.state == NoTokenOwning && node.timer == Idle
    ensures node.messages == old(node.messages) && node.outbox == old(node.outbox)
  {
    node.HandleNetworkJoinResponse(response);
    node.HandleNetworkJoinResponse(response);
    node.HandleNetworkJoinResponse(response);
  }

  /**
   * The node named "primeiro" bootstraps on its second unanswered join
   * timeout; any other node on its (configured maximum + 1)-th.
   */
  lemma PrimeiroBootstrapsFirst(node: ChatNode)
    ensures TimeoutsUntilBootstrap(1, node.MaxRetries()) ==
      (if node.name == "primeiro" then 2 else node.configuredMaxRetries + 1)
  {
    BootstrapOnLastTimeout(node.MaxRetries());
  }

  /**
   * A replica numbered from 0 that lost exactly one message never asks for
   * it: after 0 .. n-1 it receives n + 1, the new length equals that index,
   * so no history request goes out, and a second delivery of n + 1 is
   * dropped as known. The gap at n stays open.
   */
  method SingleLossNotRequested(node: ChatNode, m: ChatMessage)
    requires node.Valid() && node.state.NoTokenOwning?
    requires forall k | 0 <= k < |node.messages| :: node.messages[k].index == k
    requires m.index == |node.messages| + 1
    modifies node
    ensures node.messages == old(node.messages) + [m]
    ensures Gaps(node.messages) == [|old(node.messages)|]
    ensures node.outbox == old(node.outbox)
  {
    SingleLossGap(node.messages, m);
    node.HandleChatMessage(Chat(m));
    node.HandleChatMessage(Chat(m));
  }

  /**
   * The same loss in a network numbered from 1: a replica holding 1 .. n that
   * receives n + 2 ends with length n + 1, which differs from the index, so it
   * broadcasts one history request, and the lost index n + 1 is among the
   * gaps it asks for.
   */
  method SingleLossRequested(node: ChatNode, m: ChatMessage)
    requires node.Valid() && node.state.NoTokenOwning?
    requires forall k | 0 <= k < |node.messages| :: node.messages[k].index == k + 1
    requires m.index == |node.messages| + 2
    modifies node
    ensures node.messages == old(node.messages) + [m]
    ensures node.outbox == old(node.outbox) + [RequestChatMessageHistory(node.name, Gaps(node.messages))]
    ensures |old(node.messages)| + 1 in Gaps(node.messages)
  {
    var n := |node.messages|;
    var full := node.messages + [m];
    assert !Known(node.messages, m.index) by {
      forall k | 0 <= k < n ensures node.messages[k].index != m.index {
      }
    }
    node.HandleChatMessage(Chat(m));
    assert node.messages == full;
    assert n + 1 <= MaxIndex(full) by {
      assert full[n].index == n + 2;
    }
    assert !Known(full, n + 1) by {
      forall k | 0 <= k < |full| ensures full[k].index != n + 1 {
        if k < n { assert full[k] == old(node.messages)[k]; }
      }
    }
  }

  /**
   * A message overtaken by a later one: a replica holding 0, 1 and 4 receives
   * 2. Its log then has length 4, which differs from 2, so it broadcasts one
   * history request, for exactly the index 3 it still lacks.
   */
  method LateArrivalRequested(node: ChatNode, a: string, t: string)
    requires node.Valid() && node.state.NoTokenOwning?
    requires node.messages == [ChatMessage(a, t, 0), ChatMessage(a, t, 1), ChatMessage(a, t, 4)]
    modifies node
    ensures node.messages == old(node.messages) + [ChatMessage(a, t, 2)]
    ensures node.outbox == old(node.outbox) + [RequestChatMessageHistory(node.name, [3])]
  {
    var late := ChatMessage(a, t, 2);
    assert !Known(node.messages, 2);
    node.HandleChatMessage(Chat(late));
    var log := node.messages;
    assert log[0].index == 0 && log[1].index == 1 && log[2].index == 4 && log[3].index == 2;
    assert MaxIndex(log) == 4;
    MissingBelowNone(log, 3);
    assert MissingBelow(log, 4) == [3];
    assert MissingBelow(log, 5) == [3];
  }

  /**
   * One token hand-off between two nodes: the holder's timeout broadcasts the
   * hand-off, its successor delivers it. Afterwards the successor holds the
   * token with the same ring, the holder does not, and the message index has
   * grown by exactly the one chat message the new holder emitted.
   */
  method TokenHandOff(holder: ChatNode, successor: ChatNode, text: string)
    requires holder != successor && holder.Valid() && successor.Valid()
    requires holder.state.TokenOwning? && |holder.state.ring| >= 2
    requires successor.state.NoTokenOwning?
    requires successor.name == NextInRing(holder.state.ring, holder.name)
    modifies holder, successor
    ensures holder.state == NoTokenOwning
    ensures successor.state == TokenOwning(old(holder.state.messageIndex) + 1, old(holder.state.ring))
    ensures successor.messages == Store(old(successor.messages), ChatMessage(successor.name, text, old(holder.state.messageIndex) + 1))
  {
    holder.HandleOwningTokenTimeTimeout();
    var pass := holder.outbox[|holder.outbox| - 1];
    successor.HandlePassTokenMessage(pass, text);
  }
}
