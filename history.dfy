/**
 * The bounded, oldest-first history kept for each agent: a deque that drops
 * its head before an append when it already holds `cap` entries.
 */
module ContactHistory {
  import opened Types

  /** The reference definition of a bounded log: the `n` most recent elements of `s`, oldest first. */
  function LastN<T>(s: seq<T>, n: nat): (r: seq<T>)
    ensures |r| == Min(|s|, n)
  {
    if |s| <= n then s else s[|s| - n..]
  }

  /**
   * One append to a bounded deque: when the deque already holds `cap` or more
   * entries its head is popped first. Popping an empty deque is an error in the
   * source, so a full deque must be non-empty (this only excludes `cap == 0`
   * together with an empty deque).
   */
  function Push<T(==)>(h: seq<T>, e: T, cap: nat): (r: seq<T>)
    requires |h| >= cap ==> h != []
    ensures |r| > 0 && r[|r| - 1] == e
    ensures |h| < cap ==> r == h + [e]
    ensures |h| >= cap ==> |r| == |h| && r[..|r| - 1] == h[1..]
    ensures |h| <= cap ==> |r| <= cap
    ensures forall x :: x in r ==> x in h || x == e
  {
    (if |h| >= cap then h[1..] else h) + [e]
  }

  /** A single append keeps the `cap` most recent events. */
  lemma PushKeepsLatest<T>(h: seq<T>, e: T, cap: nat)
    requires 0 < cap && |h| <= cap
    ensures Push(h, e, cap) == LastN(h + [e], cap)
  {
    if |h| == cap {
      assert (h + [e])[1..] == h[1..] + [e];
    }
  }

  /** The deque after appending every element of `es` in order, one `Push` at a time. */
  function PushAll<T(==)>(h: seq<T>, es: seq<T>, cap: nat): (r: seq<T>)
    requires cap > 0
    decreases |es|
  {
    if es == [] then h else Push(PushAll(h, es[..|es| - 1], cap), es[|es| - 1], cap)
  }

  /** Truncating to the last `n` and then appending one element keeps the same last `n` as appending first. */
  lemma LastNAppend<T>(s: seq<T>, e: T, n: nat)
    requires n > 0
    ensures LastN(LastN(s, n) + [e], n) == LastN(s + [e], n)
  {
    if |s| > n {
      var t := s[|s| - n..];
      assert LastN(s, n) == t && |t| == n;
      assert LastN(t + [e], n) == (t + [e])[1..];
      assert (t + [e])[1..] == s[|s| - n + 1..] + [e];
      assert LastN(s + [e], n) == (s + [e])[|s| + 1 - n..];
      assert (s + [e])[|s| + 1 - n..] == s[|s| - n + 1..] + [e];
    }
  }

  /**
   * FIFO eviction: however many events are appended, the deque holds exactly
   * the `cap` most recent of them (or all of them while fewer), oldest first.
   */
  lemma {:induction false} PushAllKeepsLatest<T>(h: seq<T>, es: seq<T>, cap: nat)
    requires cap > 0 && |h| <= cap
    ensures PushAll(h, es, cap) == LastN(h + es, cap)
    ensures |PushAll(h, es, cap)| == Min(|h| + |es|, cap)
    decreases |es|
  {
    if es == [] {
      assert h + es == h;
    } else {
      var init, e := es[..|es| - 1], es[|es| - 1];
      var p := PushAll(h, init, cap);
      assert p == LastN(h + init, cap) by {
        PushAllKeepsLatest(h, init, cap);
      }
      assert (h + init) + [e] == h + es;
      calc {
        PushAll(h, es, cap);
        Push(p, e, cap);
        { PushKeepsLatest(p, e, cap); }
        LastN(p + [e], cap);
        { LastNAppend(h + init, e, cap); }
        LastN(h + es, cap);
      }
    }
  }
}
