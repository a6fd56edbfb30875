/** Doubly linked rings kept as next/prev tables, as in the buffer cache's LRU list. */
module Ring {

  import opened Basics

  /** ring lists the nodes in next order, starting at the sentinel ring[0]. */
  ghost predicate Linked(ring: seq<nat>, next: seq<nat>, prev: seq<nat>)
  {
    && 0 < |ring|
    && |next| == |prev|
    && Distinct(ring)
    && (forall i | 0 <= i < |ring| :: ring[i] < |next|)
    && (forall i {:trigger next[ring[i]]} | 0 <= i < |ring| - 1 :: next[ring[i]] == ring[i + 1])
    && next[ring[|ring| - 1]] == ring[0]
    && (forall i {:trigger prev[ring[i]]} | 1 <= i < |ring| :: prev[ring[i]] == ring[i - 1])
    && prev[ring[0]] == ring[|ring| - 1]
  }

  ghost function Without(ring: seq<nat>, k: nat): (r: seq<nat>)
    requires k < |ring|
  {
    ring[..k] + ring[k + 1..]
  }

  ghost function AtFront(ring: seq<nat>, b: nat): (r: seq<nat>)
    requires 0 < |ring|
  {
    [ring[0], b] + ring[1..]
  }

  /** Taking ring[k] out by relinking its two neighbours. */
  lemma Unlink(ring: seq<nat>, next: seq<nat>, prev: seq<nat>, k: nat)
    requires Linked(ring, next, prev) && 1 <= k < |ring|
    requires next[ring[k]] < |next| && prev[ring[k]] < |next|
    ensures Linked(Without(ring, k), next[prev[ring[k]] := next[ring[k]]], prev[next[ring[k]] := prev[ring[k]]])
    ensures ring[k] !in Without(ring, k)
  {
  }

  /** Putting a node that is not in the ring right after the sentinel. */
  lemma InsertFront(ring: seq<nat>, next: seq<nat>, prev: seq<nat>, b: nat)
    requires Linked(ring, next, prev) && b < |next| && b !in ring
    requires next[ring[0]] < |next|
    ensures Linked(AtFront(ring, b),
                   next[b := next[ring[0]]][ring[0] := b],
                   prev[b := ring[0]][next[ring[0]] := b])
  {
  }

  /** Distinct numbers that all occur in t are no more than t has places. */
  lemma {:induction false} Pigeonhole(s: seq<nat>, t: seq<nat>)
    requires Distinct(s) && forall x <- s :: x in t
    ensures |s| <= |t|
  {
    if s != [] {
      assert s[0] in t;
      var k :| 0 <= k < |t| && t[k] == s[0];
      forall x <- s[1..] ensures x in Without(t, k) {
        assert x in s && x != s[0];
        var m :| 0 <= m < |t| && t[m] == x;
        assert Without(t, k)[if m < k then m else m - 1] == x;
      }
      Pigeonhole(s[1..], Without(t, k));
    }
  }
}
