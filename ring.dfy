/**
 * The ring: the ordered list of node names that fixes the token's round-robin
 * hand-off order (src/Node.ts). It only ever grows, by the join handshake,
 * and the token holder picks its successor from it.
 */
module Ring {

  /** No name appears twice. */
  ghost predicate Distinct(ring: seq<string>)
  {
    forall a, b | 0 <= a < b < |ring| :: ring[a] != ring[b]
  }

  /** Position of the first occurrence of `x`, or -1 when absent (`Array.prototype.indexOf`). */
  function IndexOf(ring: seq<string>, x: string): (r: int)
    ensures -1 <= r < |ring|
    ensures r == -1 <==> x !in ring
    ensures 0 <= r ==> ring[r] == x && x !in ring[..r]
    decreases |ring|
  {
    if ring == [] then -1
    else if ring[0] == x then 0
    else
      var i := IndexOf(ring[1..], x);
      assert ring == [ring[0]] + ring[1..];
      if i == -1 then -1
      else
        assert ring[..i + 1] == [ring[0]] + ring[1..][..i];
        i + 1
  }

  /**
   * The successor of `self` in the ring (the source's `getNextValue`): the
   * name after its first occurrence, wrapping round at the end; a node absent
   * from the ring hands the token to the ring's first member. In a ring of
   * two or more distinct names no node picks itself.
   */
  function NextInRing(ring: seq<string>, self: string): (r: string)
    requires |ring| > 0
    ensures r in ring
    ensures self !in ring ==> r == ring[0]
    ensures Distinct(ring) && |ring| >= 2 ==> r != self
  {
    var i := IndexOf(ring, self);
    ring[(i + 1) % |ring|]
  }

  /** The successor of the name at position `i`, when that is its first occurrence, is the name at `i + 1`, wrapping round to the first. */
  lemma NextInRingAt(ring: seq<string>, i: nat)
    requires i < |ring| && ring[i] !in ring[..i]
    ensures NextInRing(ring, ring[i]) == ring[if i + 1 == |ring| then 0 else i + 1]
  {
    assert IndexOf(ring, ring[i]) == i;
    if i + 1 < |ring| {
      ModUnique(i + 1, |ring|, 0, i + 1);
    } else {
      ModUnique(i + 1, |ring|, 1, 0);
    }
  }

  /**
   * The join handshake's update of the ring: a name not yet present goes at
   * the end; existing entries keep their order and the ring stays free of
   * duplicates.
   */
  function AddMember(ring: seq<string>, x: string): (r: seq<string>)
    ensures ring <= r && |r| <= |ring| + 1
    ensures forall y :: y in r <==> y in ring || y == x
    ensures x in ring ==> r == ring
    ensures Distinct(ring) ==> Distinct(r)
  {
    if x in ring then ring else ring + [x]
  }

  /** The holder after `k` hand-offs starting from `start`, every hop taken with `NextInRing`. */
  function HolderAfter(ring: seq<string>, start: string, k: nat): string
    requires |ring| > 0
  {
    if k == 0 then start else NextInRing(ring, HolderAfter(ring, start, k - 1))
  }

  /**
   * Round-robin fairness: in a ring of distinct names, the token that starts
   * at position `i` is, after `k` hand-offs, at position `(i + k) mod |ring|`;
   * so every member holds it once in every `|ring|` consecutive hand-offs.
   */
  lemma RoundRobin(ring: seq<string>, i: nat, k: nat)
    requires Distinct(ring) && i < |ring|
    ensures HolderAfter(ring, ring[i], k) == ring[(i + k) % |ring|]
  {
    HolderPosition(ring, i, k);
    PositionIsMod(|ring|, i, k);
  }

  /** Position reached from `i` after `k` steps round a ring of `n` slots, one slot per step. */
  function PositionAfter(n: nat, i: nat, k: nat): (p: nat)
    requires i < n
    ensures p < n
  {
    if k == 0 then i else
      var q := PositionAfter(n, i, k - 1);
      if q + 1 == n then 0 else q + 1
  }

  lemma {:induction false} HolderPosition(ring: seq<string>, i: nat, k: nat)
    requires Distinct(ring) && i < |ring|
    ensures HolderAfter(ring, ring[i], k) == ring[PositionAfter(|ring|, i, k)]
  {
    if k > 0 {
      HolderPosition(ring, i, k - 1);
      HolderStep(ring, ring[i], k, PositionAfter(|ring|, i, k - 1));
    }
  }

  /** In a ring of distinct names, one more hand-off moves the token to the next slot. */
  lemma HolderStep(ring: seq<string>, start: string, k: nat, q: nat)
    requires Distinct(ring) && k > 0 && q < |ring|
    requires HolderAfter(ring, start, k - 1) == ring[q]
    ensures HolderAfter(ring, start, k) == ring[if q + 1 == |ring| then 0 else q + 1]
  {
    DistinctFirstOccurrence(ring, q);
    NextInRingAt(ring, q);
  }

  lemma {:induction false} PositionIsMod(n: nat, i: nat, k: nat)
    requires i < n
    ensures PositionAfter(n, i, k) == (i + k) % n
  {
    if k == 0 {
      ModUnique(i, n, 0, i);
    } else {
      PositionIsMod(n, i, k - 1);
      SuccessorMod(i + k - 1, n);
      var q := PositionAfter(n, i, k - 1);
      if q + 1 < n {
        ModUnique(q + 1, n, 0, q + 1);
      } else {
        ModUnique(q + 1, n, 1, 0);
      }
    }
  }

  lemma DistinctFirstOccurrence(ring: seq<string>, j: nat)
    requires Distinct(ring) && j < |ring|
    ensures ring[j] !in ring[..j]
  {
    forall m | 0 <= m < j ensures ring[..j][m] != ring[j] {
      assert ring[..j][m] == ring[m];
    }
  }

  lemma SuccessorMod(a: nat, n: nat)
    requires n > 0
    ensures (a % n + 1) % n == (a + 1) % n
  {
    var q, r := a / n, a % n;
    assert a == q * n + r;
    if r + 1 < n {
      ModUnique(a + 1, n, q, r + 1);
      ModUnique(r + 1, n, 0, r + 1);
    } else {
      assert a + 1 == (q + 1) * n;
      ModUnique(a + 1, n, q + 1, 0);
      ModUnique(r + 1, n, 1, 0);
    }
  }

  lemma ModUnique(x: int, n: int, q: int, r: int)
    requires n > 0 && 0 <= r < n && x == q * n + r
    ensures x % n == r
  {
    var q', r' := x / n, x % n;
    assert q * n + r == q' * n + r';
    if q > q' {
      MulAtLeast(q - q', n);
      assert false;
    } else if q < q' {
      MulAtLeast(q' - q, n);
      assert false;
    }
  }

  lemma {:induction false} MulAtLeast(d: nat, n: nat)
    requires d >= 1
    ensures d * n >= n
  {
    if d > 1 {
      MulAtLeast(d - 1, n);
      assert d * n == (d - 1) * n + n;
    }
  }

  /** The ring [A, B, C] started at A visits A, B, C and then A again. */
  lemma ThreeNodeRotation(a: string, b: string, c: string)
    requires a != b && b != c && a != c
    ensures HolderAfter([a, b, c], a, 1) == b
    ensures HolderAfter([a, b, c], a, 2) == c
    ensures HolderAfter([a, b, c], a, 3) == a
  {
    var ring := [a, b, c];
    RoundRobin(ring, 0, 1);
    RoundRobin(ring, 0, 2);
    RoundRobin(ring, 0, 3);
  }
}
