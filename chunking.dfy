/**
 * The record fragmentation engine, kept abstract over the page layout: a
 * payload is cut into a chain of fragments, each of which fits one page
 * (at most `cap` bytes), and a read concatenates the chain in order.
 */
module Chunking {
  import opened Records

  /**
   * A chain as the engine writes it: at least one fragment, every fragment
   * fits a page, every fragment but the last is full, and the last one is
   * empty only when it is the whole (empty) record.
   */
  predicate WellFormed(chain: seq<Bytes>, cap: nat) {
    && |chain| > 0
    && (forall i | 0 <= i < |chain| :: |chain[i]| <= cap)
    && (forall i | 0 <= i < |chain| - 1 :: |chain[i]| == cap)
    && (|chain| > 1 ==> |chain[|chain| - 1]| > 0)
  }

  /** Splits a payload into the chain of fragments stored for it. */
  function Split(payload: Bytes, cap: nat): (chain: seq<Bytes>)
    requires cap > 0
    ensures |chain| >= 1
    ensures |chain| == 1 <==> |payload| <= cap
    decreases |payload|
  {
    if |payload| <= cap then [payload]
    else [payload[..cap]] + Split(payload[cap..], cap)
  }

  /** The engine only ever writes well-formed chains. */
  lemma {:induction false} SplitWellFormed(payload: Bytes, cap: nat)
    requires cap > 0
    ensures WellFormed(Split(payload, cap), cap)
    decreases |payload|
  {
    if |payload| > cap {
      var rest := Split(payload[cap..], cap);
      SplitWellFormed(payload[cap..], cap);
      var chain := [payload[..cap]] + rest;
      assert Split(payload, cap) == chain;
      assert forall i | 1 <= i < |chain| :: chain[i] == rest[i - 1];
    }
  }

  /** Reassembles a payload by walking the chain from its head fragment. */
  function Concat(chain: seq<Bytes>): (payload: Bytes)
  {
    if chain == [] then [] else chain[0] + Concat(chain[1..])
  }

  /** Walking two chains one after the other reads their payloads one after the other. */
  lemma {:induction false} ConcatAppend(front: seq<Bytes>, back: seq<Bytes>)
    ensures Concat(front + back) == Concat(front) + Concat(back)
    decreases |front|
  {
    if front == [] {
      assert front + back == back;
    } else {
      assert (front + back)[1..] == front[1..] + back;
      ConcatAppend(front[1..], back);
    }
  }

  /** Reading back what was split returns exactly the original bytes. */
  lemma {:induction false} ConcatSplit(payload: Bytes, cap: nat)
    requires cap > 0
    ensures Concat(Split(payload, cap)) == payload
    decreases |payload|
  {
    if |payload| <= cap {
      assert Concat([payload]) == payload + Concat([]);
    } else {
      var chain := Split(payload, cap);
      assert chain[0] == payload[..cap] && chain[1..] == Split(payload[cap..], cap);
      ConcatSplit(payload[cap..], cap);
      assert payload[..cap] + payload[cap..] == payload;
    }
  }

  /** Every well-formed chain is the one the engine writes for its own contents. */
  lemma {:induction false} SplitConcat(chain: seq<Bytes>, cap: nat)
    requires cap > 0 && WellFormed(chain, cap)
    ensures Split(Concat(chain), cap) == chain
    decreases |chain|
  {
    if |chain| == 1 {
      assert Concat(chain) == chain[0] + Concat(chain[1..]);
      assert chain[1..] == [];
      assert Concat(chain) == chain[0];
    } else {
      var tail := chain[1..];
      assert WellFormed(tail, cap) by {
        assert forall i | 0 <= i < |tail| :: tail[i] == chain[i + 1];
      }
      assert |tail[0]| > 0;
      var rest := Concat(tail);
      assert rest == tail[0] + Concat(tail[1..]);
      var whole := chain[0] + rest;
      assert Concat(chain) == whole;
      assert |whole| > cap;
      assert whole[..cap] == chain[0] && whole[cap..] == rest;
      SplitConcat(tail, cap);
      assert Split(whole, cap) == [chain[0]] + tail;
    }
  }

  /**
   * How many pages a payload occupies: a non-empty payload of n bytes takes
   * k fragments with (k - 1) * cap < n <= k * cap, i.e. n divided by the page
   * size, rounded up.
   */
  lemma {:induction false} SplitPages(payload: Bytes, cap: nat)
    requires cap > 0
    ensures var k := |Split(payload, cap)|;
            |payload| <= k * cap && (|payload| > 0 ==> (k - 1) * cap < |payload|)
    decreases |payload|
  {
    if |payload| > cap {
      SplitPages(payload[cap..], cap);
      var k := |Split(payload[cap..], cap)|;
      assert |Split(payload, cap)| == k + 1;
      assert (k + 1) * cap == k * cap + cap;
      assert k * cap == (k - 1) * cap + cap;
    }
  }
}
