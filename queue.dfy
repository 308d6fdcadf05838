/** The list operations behind the matchmaking queue: `findIndex` by socket id
    and the `splice` that removes the entry found (removeFromQueue). */
module MatchQueue {
  import opened Types

  /** No socket waits in the queue twice. */
  ghost predicate Distinct(q: seq<SocketId>) {
    forall i, j :: 0 <= i < j < |q| ==> q[i] != q[j]
  }

  /** The first position of the queue holding `s`, or -1 (Array.prototype.findIndex). */
  function IndexOf(q: seq<SocketId>, s: SocketId): (i: int)
    ensures -1 <= i < |q|
    ensures i == -1 <==> s !in q
    ensures 0 <= i ==> q[i] == s && s !in q[..i]
  {
    if q == [] then -1
    else if q[0] == s then 0
    else
      var k := IndexOf(q[1..], s);
      if k == -1 then -1
      else
        assert q[..k + 1] == [q[0]] + q[1..][..k];
        k + 1
  }

  /** The search loop of removeFromQueue: scans the queue front to back. */
  method FindIndex(q: seq<SocketId>, s: SocketId) returns (i: int)
    ensures i == -1 <==> s !in q
    ensures 0 <= i ==> i < |q| && q[i] == s && s !in q[..i]
    ensures i == IndexOf(q, s)
  {
    i := 0;
    while i < |q|
      invariant 0 <= i <= |q|
      invariant forall k :: 0 <= k < i ==> q[k] != s
    {
      if q[i] == s {
        return;
      }
      i := i + 1;
    }
    i := -1;
  }

  /** The queue after removeFromQueue(s): the first entry for `s`, if there is
      one, is dropped and every other entry keeps its place in line. */
  function Without(q: seq<SocketId>, s: SocketId): (r: seq<SocketId>)
    ensures s !in q ==> r == q
    ensures s in q ==> |r| == |q| - 1
  {
    if q == [] then []
    else if q[0] == s then q[1..]
    else
      assert q == [q[0]] + q[1..];
      [q[0]] + Without(q[1..], s)
  }

  /** Without is exactly the splice at the index findIndex reports. */
  lemma {:induction false} WithoutIsSplice(q: seq<SocketId>, s: SocketId)
    requires s in q
    ensures Without(q, s) == q[..IndexOf(q, s)] + q[IndexOf(q, s) + 1..]
  {
    if q[0] != s {
      WithoutIsSplice(q[1..], s);
      var k := IndexOf(q[1..], s);
      assert q[..k + 1] == [q[0]] + q[1..][..k];
      assert q[k + 2..] == q[1..][k + 1..];
    }
  }

  /** Removing `s` takes exactly one copy of it out of the queue, if it had one,
      and leaves the count of every other socket alone. */
  lemma {:induction false} WithoutCount(q: seq<SocketId>, s: SocketId)
    ensures multiset(Without(q, s)) == multiset(q) - multiset{s}
  {
    if q != [] {
      assert q == [q[0]] + q[1..];
      if q[0] != s {
        WithoutCount(q[1..], s);
      }
    }
  }

  /** Every entry that stays in the queue was in it before. */
  lemma WithoutSubset(q: seq<SocketId>, s: SocketId, x: SocketId)
    requires x in Without(q, s)
    ensures x in q
  {
    WithoutCount(q, s);
    assert x in multiset(Without(q, s));
  }

  /** In a queue without duplicates, removing `s` leaves no entry for `s`,
      keeps the others distinct, and a second removal changes nothing. */
  lemma {:induction false} WithoutIdempotent(q: seq<SocketId>, s: SocketId)
    requires Distinct(q)
    ensures s !in Without(q, s)
    ensures Distinct(Without(q, s))
    ensures Without(Without(q, s), s) == Without(q, s)
  {
    if q != [] {
      var rest := q[1..];
      assert Distinct(rest) by {
        forall i, j | 0 <= i < j < |rest| ensures rest[i] != rest[j] {
          assert rest[i] == q[i + 1] && rest[j] == q[j + 1];
        }
      }
      assert q[0] !in rest by {
        forall j | 0 <= j < |rest| ensures rest[j] != q[0] {
          assert rest[j] == q[j + 1];
        }
      }
      if q[0] != s {
        WithoutIdempotent(rest, s);
        var w := Without(rest, s);
        assert q[0] !in w by {
          if q[0] in w {
            WithoutSubset(rest, s, q[0]);
          }
        }
        var r := [q[0]] + w;
        forall i, j | 0 <= i < j < |r| ensures r[i] != r[j] {
          if i > 0 {
            assert r[i] == w[i - 1] && r[j] == w[j - 1];
          } else {
            assert r[j] == w[j - 1];
          }
        }
        assert r[1..] == w;
      }
    }
  }

  /** join-queue on a queue without duplicates: after removing any earlier entry and
      appending, the caller waits exactly once, at the back, and the queue has no duplicates. */
  lemma {:induction false} EnqueueOnce(q: seq<SocketId>, s: SocketId)
    requires Distinct(q)
    ensures var q' := Without(q, s) + [s];
      && Distinct(q')
      && q'[|q'| - 1] == s
      && multiset(q')[s] == 1
      && |q'| == (if s in q then |q| else |q| + 1)
  {
    WithoutIdempotent(q, s);
    var r := Without(q, s);
    var q' := r + [s];
    forall j, k | 0 <= j < k < |q'|
      ensures q'[j] != q'[k]
    {
      if k == |r| {
        assert q'[j] == r[j];
      } else {
        assert q'[j] == r[j] && q'[k] == r[k];
      }
    }
    assert multiset(r)[s] == 0;
  }
}
