/**
 * The node's chat log as a value: an append-only sequence of chat messages
 * keyed by their index, the idempotent append that grows it, the filter that
 * answers history requests, and gap detection (src/Node.ts).
 */
module ChatLog {
  import opened Messages

  /** Some entry of the log carries index `i` (the source's `messages.some(msg => msg.index === i)`). */
  predicate Known(log: seq<ChatMessage>, i: nat)
  {
    exists k | 0 <= k < |log| :: log[k].index == i
  }

  /** An index is known in two logs put together exactly when one of them knows it. */
  lemma KnownConcat(a: seq<ChatMessage>, b: seq<ChatMessage>, i: nat)
    ensures Known(a + b, i) <==> Known(a, i) || Known(b, i)
  {
    if Known(a + b, i) {
      var k :| 0 <= k < |a + b| && (a + b)[k].index == i;
      if k >= |a| { assert b[k - |a|].index == i; }
    }
    if Known(a, i) {
      var k :| 0 <= k < |a| && a[k].index == i;
      assert (a + b)[k].index == i;
    }
    if Known(b, i) {
      var k :| 0 <= k < |b| && b[k].index == i;
      assert (a + b)[|a| + k].index == i;
    }
  }

  /** No two entries of the log share an index. */
  ghost predicate UniqueIndexes(log: seq<ChatMessage>)
  {
    forall a, b | 0 <= a < b < |log| :: log[a].index != log[b].index
  }

  ghost predicate StrictlyIncreasing(s: seq<nat>)
  {
    forall a, b | 0 <= a < b < |s| :: s[a] < s[b]
  }

  /** The indexes of the log, in log order (`messages.map(msg => msg.index)`). */
  function Indexes(log: seq<ChatMessage>): (r: seq<nat>)
    ensures forall i: nat :: i in r <==> Known(log, i)
  {
    var r := seq(|log|, k requires 0 <= k < |log| => log[k].index);
    assert forall k | 0 <= k < |log| :: r[k] == log[k].index;
    r
  }

  /**
   * Idempotent append: a message whose index is already present leaves the log
   * as it is, any other message goes at the end. Entries are never replaced and
   * indexes stay pairwise distinct.
   */
  function Store(log: seq<ChatMessage>, m: ChatMessage): (r: seq<ChatMessage>)
    ensures Known(log, m.index) ==> r == log
    ensures !Known(log, m.index) ==> r == log + [m]
    ensures log <= r && Known(r, m.index)
    ensures forall i: nat :: Known(r, i) <==> Known(log, i) || i == m.index
    ensures UniqueIndexes(log) ==> UniqueIndexes(r)
  {
    if Known(log, m.index) then log else
      var r := log + [m];
      assert r[|log|].index == m.index;
      r
  }

  /** Storing the same message twice is the same as storing it once. */
  lemma StoreIdempotent(log: seq<ChatMessage>, m: ChatMessage)
    ensures Store(Store(log, m), m) == Store(log, m)
  {
  }

  /**
   * The announced messages stored one after the other, in announcement order.
   * Every announced index ends up present, no entry of the log is replaced,
   * what is appended comes from the announcement, and indexes stay distinct.
   */
  function StoreAll(log: seq<ChatMessage>, ms: seq<ChatMessage>): (r: seq<ChatMessage>)
    ensures log <= r
    ensures forall k | 0 <= k < |ms| :: Known(r, ms[k].index)
    ensures forall i: nat :: Known(r, i) <==> Known(log, i) || Known(ms, i)
    ensures forall k | |log| <= k < |r| :: r[k] in ms
    ensures UniqueIndexes(log) ==> UniqueIndexes(r)
    decreases |ms|
  {
    if ms == [] then log else
      var init := ms[..|ms| - 1];
      var last := ms[|ms| - 1];
      var before := StoreAll(log, init);
      assert forall k | 0 <= k < |init| :: init[k] == ms[k];
      assert forall i: nat :: Known(ms, i) <==> Known(init, i) || last.index == i by {
        forall i: nat | Known(ms, i) ensures Known(init, i) || last.index == i {
          var k :| 0 <= k < |ms| && ms[k].index == i;
          if k < |init| { assert init[k].index == i; }
        }
      }
      Store(before, last)
  }

  /** Storing a message whose index is already known leaves the log as it is. */
  lemma KnownIsStored(log: seq<ChatMessage>, m: ChatMessage)
    requires Known(log, m.index)
    ensures log == Store(log, m)
  {
  }

  /** Storing a message whose index is new appends it. */
  lemma UnknownIsAppended(log: seq<ChatMessage>, m: ChatMessage)
    requires !Known(log, m.index)
    ensures Store(log, m) == log + [m]
  {
  }

  /** Applying an announcement one more message at a time: message `j` is stored after the ones before it. */
  lemma StoreAllStep(log: seq<ChatMessage>, ms: seq<ChatMessage>, j: nat)
    requires j < |ms|
    ensures StoreAll(log, ms[..j + 1]) == Store(StoreAll(log, ms[..j]), ms[j])
  {
    assert ms[..j + 1][..j] == ms[..j];
  }

  /**
   * The reply to a history request: the entries of the log whose index was
   * requested, in log order (`messages.filter(msg => requested.includes(msg.index))`).
   */
  function Select(log: seq<ChatMessage>, requested: seq<nat>): (r: seq<ChatMessage>)
    ensures forall m :: m in r <==> m in log && m.index in requested
    ensures |r| <= |log|
    ensures Subsequence(r, log)
    decreases |log|
  {
    if log == [] then [] else
      var init := log[..|log| - 1];
      var last := log[|log| - 1];
      assert log == init + [last];
      var front := Select(init, requested);
      if last.index in requested then
        front + [last]
      else
        SubsequenceExtend(front, init, last);
        front
  }

  /**
   * `s` can be obtained from `t` by deleting entries: its elements appear in
   * `t` in the same order (matched greedily from the end).
   */
  ghost predicate Subsequence<T>(s: seq<T>, t: seq<T>)
    decreases |t|
  {
    if s == [] then true
    else if t == [] then false
    else if s[|s| - 1] == t[|t| - 1] then Subsequence(s[..|s| - 1], t[..|t| - 1])
    else Subsequence(s, t[..|t| - 1])
  }

  lemma {:induction false} SubsequenceDropLast<T>(s: seq<T>, t: seq<T>)
    requires s != [] && Subsequence(s, t)
    ensures Subsequence(s[..|s| - 1], t)
    decreases |t|
  {
    var s' := s[..|s| - 1];
    if s' != [] && t != [] {
      if s[|s| - 1] == t[|t| - 1] {
        if s'[|s'| - 1] == t[|t| - 1] {
          SubsequenceDropLast(s', t[..|t| - 1]);
        } else {
          assert Subsequence(s', t[..|t| - 1]);
        }
      } else {
        SubsequenceDropLast(s, t[..|t| - 1]);
        if s'[|s'| - 1] == t[|t| - 1] {
          SubsequenceDropLast(s', t[..|t| - 1]);
        }
      }
    }
  }

  lemma {:induction false} SubsequenceExtend<T>(s: seq<T>, t: seq<T>, x: T)
    requires Subsequence(s, t)
    ensures Subsequence(s, t + [x])
  {
    var t' := t + [x];
    assert t'[..|t'| - 1] == t;
    if s != [] && s[|s| - 1] == x {
      SubsequenceDropLast(s, t);
    }
  }

  /** The highest index in a non-empty log (the source's `reduce` with `Math.max`). */
  function MaxIndex(log: seq<ChatMessage>): (r: nat)
    requires |log| > 0
    ensures Known(log, r)
    ensures forall k | 0 <= k < |log| :: log[k].index <= r
    decreases |log|
  {
    if |log| == 1 then log[0].index else
      var init := log[..|log| - 1];
      var m := MaxIndex(init);
      var last := log[|log| - 1].index;
      assert forall k | 0 <= k < |init| :: init[k] == log[k];
      if last > m then last else m
  }

  /** The indexes below `n` that the log lacks, in ascending order. */
  function MissingBelow(log: seq<ChatMessage>, n: nat): (r: seq<nat>)
    ensures forall i: nat :: i in r <==> i < n && !Known(log, i)
    ensures StrictlyIncreasing(r)
    decreases n
  {
    if n == 0 then [] else
      var front := MissingBelow(log, n - 1);
      if Known(log, n - 1) then front else
        assert forall k | 0 <= k < |front| :: front[k] in front;
        front + [n - 1]
  }

  /**
   * Gap detection: an empty log has no gaps; otherwise the gaps are exactly
   * the indexes from 0 up to the highest known index that the log lacks, in
   * strictly ascending order.
   */
  function Gaps(log: seq<ChatMessage>): (r: seq<nat>)
    ensures log == [] ==> r == []
    ensures log != [] ==> forall i: nat :: i in r <==> i <= MaxIndex(log) && !Known(log, i)
    ensures StrictlyIncreasing(r)
  {
    if |log| == 0 then [] else MissingBelow(log, MaxIndex(log) + 1)
  }

  /** Once every index up to the highest one is present, gap detection reports nothing. */
  lemma {:induction false} NoGapsWhenContiguous(log: seq<ChatMessage>)
    requires log != []
    requires forall i: nat | i <= MaxIndex(log) :: Known(log, i)
    ensures Gaps(log) == []
  {
    MissingBelowNone(log, MaxIndex(log) + 1);
  }

  lemma {:induction false} MissingBelowNone(log: seq<ChatMessage>, n: nat)
    requires forall i: nat | i < n :: Known(log, i)
    ensures MissingBelow(log, n) == []
  {
    if n > 0 {
      MissingBelowNone(log, n - 1);
    }
  }

  /**
   * Pull-based repair closes every gap: if the node answering the history
   * request holds every index the requester lacks, storing its announcement
   * leaves the requester with no gap.
   */
  lemma {:induction false} HistoryRepairClosesGaps(log: seq<ChatMessage>, holderLog: seq<ChatMessage>)
    requires forall i | i in Gaps(log) :: Known(holderLog, i)
    ensures Gaps(StoreAll(log, Select(holderLog, Gaps(log)))) == []
  {
    if log == [] {
      return;
    }
    var gaps := Gaps(log);
    var answer := Select(holderLog, gaps);
    var repaired := StoreAll(log, answer);
    StoreAllKeepsMax(log, answer);
    forall i: nat | i <= MaxIndex(repaired) ensures Known(repaired, i) {
      if !Known(log, i) {
        AnswerCoversGap(holderLog, gaps, i);
      }
    }
    NoGapsWhenContiguous(repaired);
  }

  /**
   * What a repair round leaves open, for any requester and any responder:
   * afterwards the requester lacks exactly the indexes it asked for that the
   * responder does not hold either. With logs numbered from 1 no node holds
   * index 0, so 0 is always among them (see `IndexZeroAlwaysMissing`).
   */
  lemma {:induction false} HistoryRepairLeavesHolderGaps(log: seq<ChatMessage>, holderLog: seq<ChatMessage>)
    ensures forall i: nat :: i in Gaps(StoreAll(log, Select(holderLog, Gaps(log)))) <==> i in Gaps(log) && !Known(holderLog, i)
  {
    if log == [] {
      return;
    }
    var gaps := Gaps(log);
    var answer := Select(holderLog, gaps);
    StoreAllKeepsMax(log, answer);
    forall i: nat ensures Known(answer, i) <==> i in gaps && Known(holderLog, i) {
      if Known(answer, i) {
        var j :| 0 <= j < |answer| && answer[j].index == i;
        assert answer[j] in answer;
        var w :| 0 <= w < |holderLog| && holderLog[w] == answer[j];
        assert holderLog[w].index == i;
      }
      if i in gaps && Known(holderLog, i) {
        AnswerCoversGap(holderLog, gaps, i);
      }
    }
  }

  /** A requested index the responder holds is in its answer. */
  lemma AnswerCoversGap(holderLog: seq<ChatMessage>, requested: seq<nat>, i: nat)
    requires i in requested && Known(holderLog, i)
    ensures Known(Select(holderLog, requested), i)
  {
    var answer := Select(holderLog, requested);
    var w :| 0 <= w < |holderLog| && holderLog[w].index == i;
    assert holderLog[w] in holderLog;
    var j :| 0 <= j < |answer| && answer[j] == holderLog[w];
  }

  /** Storing entries no higher than the log's maximum keeps that maximum. */
  lemma StoreAllKeepsMax(log: seq<ChatMessage>, ms: seq<ChatMessage>)
    requires log != []
    requires forall m | m in ms :: m.index <= MaxIndex(log)
    ensures StoreAll(log, ms) != [] && MaxIndex(StoreAll(log, ms)) == MaxIndex(log)
  {
    var repaired := StoreAll(log, ms);
    var top := MaxIndex(log);
    assert repaired != [] by { assert log <= repaired; }
    forall k | |log| <= k < |repaired| ensures repaired[k].index <= top {
      assert repaired[k] in ms;
    }
    var t := MaxIndex(repaired);
    var j :| 0 <= j < |repaired| && repaired[j].index == t;
    var w :| 0 <= w < |log| && log[w].index == top;
    assert log[w] == repaired[w];
    if j < |log| { assert log[j] == repaired[j]; }
  }

  /** Gap detection on indexes 0, 1, 3 and 5 reports 2 and 4 missing. */
  lemma GapsExample(a: string, t: string)
    ensures Gaps([ChatMessage(a, t, 0), ChatMessage(a, t, 1), ChatMessage(a, t, 3), ChatMessage(a, t, 5)]) == [2, 4]
  {
    var log := [ChatMessage(a, t, 0), ChatMessage(a, t, 1), ChatMessage(a, t, 3), ChatMessage(a, t, 5)];
    assert log[0].index == 0 && log[1].index == 1 && log[2].index == 3 && log[3].index == 5;
    assert MaxIndex(log) == 5;
    MissingBelowNone(log, 2);
    assert MissingBelow(log, 3) == [2];
    assert MissingBelow(log, 4) == [2];
    assert MissingBelow(log, 5) == [2, 4];
  }

  /**
   * A repair round, from the history request on: a replica holding indexes
   * 0, 1, 2 and 4 lacks exactly 3; a holder that has 3 answers with that one
   * message, and afterwards the replica has no gap. The request is sent when
   * the replica, holding 0, 1 and 4, receives 2 (see `LateArrivalRequested`).
   */
  lemma ReconciliationExample(a: string, t: string)
    ensures var replica := [ChatMessage(a, t, 0), ChatMessage(a, t, 1), ChatMessage(a, t, 2), ChatMessage(a, t, 4)];
            var holder := [ChatMessage(a, t, 0), ChatMessage(a, t, 1), ChatMessage(a, t, 2), ChatMessage(a, t, 3), ChatMessage(a, t, 4)];
            && Gaps(replica) == [3]
            && Select(holder, [3]) == [ChatMessage(a, t, 3)]
            && Gaps(StoreAll(replica, Select(holder, [3]))) == []
  {
    var replica := [ChatMessage(a, t, 0), ChatMessage(a, t, 1), ChatMessage(a, t, 2), ChatMessage(a, t, 4)];
    var holder := [ChatMessage(a, t, 0), ChatMessage(a, t, 1), ChatMessage(a, t, 2), ChatMessage(a, t, 3), ChatMessage(a, t, 4)];
    ReplicaGaps(replica, a, t);
    HolderAnswer(holder, a, t);
    assert Known(holder, 3) by { assert holder[3].index == 3; }
    HistoryRepairClosesGaps(replica, holder);
  }

  lemma ReplicaGaps(replica: seq<ChatMessage>, a: string, t: string)
    requires replica == [ChatMessage(a, t, 0), ChatMessage(a, t, 1), ChatMessage(a, t, 2), ChatMessage(a, t, 4)]
    ensures Gaps(replica) == [3]
  {
    assert replica[0].index == 0 && replica[1].index == 1 && replica[2].index == 2 && replica[3].index == 4;
    assert MaxIndex(replica) == 4;
    MissingBelowNone(replica, 3);
    assert MissingBelow(replica, 4) == [3];
  }

  lemma HolderAnswer(holder: seq<ChatMessage>, a: string, t: string)
    requires holder == [ChatMessage(a, t, 0), ChatMessage(a, t, 1), ChatMessage(a, t, 2), ChatMessage(a, t, 3), ChatMessage(a, t, 4)]
    ensures Select(holder, [3]) == [ChatMessage(a, t, 3)]
  {
    var h0, h1, h2, h3, h4 := holder[0], holder[1], holder[2], holder[3], holder[4];
    assert h0.index !in [3] && h1.index !in [3] && h2.index !in [3] && h3.index in [3] && h4.index !in [3];
    SelectSnoc([], [3], h0);
    assert [] + [h0] == [h0];
    assert Select([h0], [3]) == [];
    SelectSnoc([h0], [3], h1);
    assert [h0] + [h1] == [h0, h1];
    assert Select([h0, h1], [3]) == [];
    SelectSnoc([h0, h1], [3], h2);
    assert [h0, h1] + [h2] == [h0, h1, h2];
    assert Select([h0, h1, h2], [3]) == [];
    SelectSnoc([h0, h1, h2], [3], h3);
    assert [h0, h1, h2] + [h3] == [h0, h1, h2, h3];
    assert Select([h0, h1, h2, h3], [3]) == [h3];
    SelectSnoc([h0, h1, h2, h3], [3], h4);
    assert [h0, h1, h2, h3] + [h4] == holder;
  }

  /** Answering over one more entry: the entry joins the reply exactly when its index was requested. */
  lemma SelectSnoc(log: seq<ChatMessage>, requested: seq<nat>, m: ChatMessage)
    ensures Select(log + [m], requested) == if m.index in requested then Select(log, requested) + [m] else Select(log, requested)
  {
    assert (log + [m])[..|log|] == log;
  }

  /**
   * A single lost message in a log numbered from 0: a replica holding
   * 0 .. n-1 that next receives n + 1 has exactly the gap [n].
   */
  lemma SingleLossGap(log: seq<ChatMessage>, m: ChatMessage)
    requires forall k | 0 <= k < |log| :: log[k].index == k
    requires m.index == |log| + 1
    ensures Gaps(log + [m]) == [|log|]
  {
    var full := log + [m];
    var n := |log|;
    assert Known(full, n + 1) by { assert full[n].index == n + 1; }
    assert MaxIndex(full) == n + 1 by {
      var j :| 0 <= j < |full| && full[j].index == MaxIndex(full);
      if j < n { assert full[j] == log[j]; }
    }
    assert forall i: nat | i < n :: Known(full, i) by {
      forall i: nat | i < n ensures Known(full, i) {
        assert full[i] == log[i];
      }
    }
    MissingBelowNone(full, n);
    assert !Known(full, n) by {
      forall k | 0 <= k < |full| ensures full[k].index != n {
        if k < n { assert full[k] == log[k]; }
      }
    }
    assert MissingBelow(full, n + 1) == [n];
    assert Known(full, n + 1);
  }

  /**
   * A network bootstrapped from an empty log numbers its chat messages from 1
   * (src/Node.ts:212 and 366) while gap detection starts at 0, so such a log
   * always reports 0 as missing and never becomes gap-free.
   */
  lemma IndexZeroAlwaysMissing(log: seq<ChatMessage>)
    requires log != []
    requires forall k | 0 <= k < |log| :: log[k].index >= 1
    ensures |Gaps(log)| > 0 && Gaps(log)[0] == 0
  {
    assert 0 in Gaps(log);
  }
}
