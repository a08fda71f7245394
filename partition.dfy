/**
 * How average_scores cuts the row list into work items: the chunk size is the
 * list length divided by the number of worker threads (at least 1), and the
 * list is sliced into consecutive chunks of that size, the last one possibly
 * shorter, which are put on the work queue in order.
 */
module Partition {

  /** average_scores starts ten workers, whatever the configuration says. */
  const NumThreads: nat := 10

  /** `max(len(records) // num_threads, 1)`. */
  function ChunkSize(n: nat): (size: nat)
    ensures 1 <= size
    ensures n < NumThreads ==> size == 1
    ensures n >= NumThreads ==> size * NumThreads <= n < (size + 1) * NumThreads
  {
    if n / NumThreads > 1 then n / NumThreads else 1
  }

  /** The slices `s[i:i + size]` for i = 0, size, 2 * size, ... below |s|. */
  function Chunks<T>(s: seq<T>, size: nat): seq<seq<T>>
    requires 1 <= size
    decreases |s|
  {
    if s == [] then []
    else
      var cut := if size < |s| then size else |s|;
      [s[..cut]] + Chunks(s[cut..], size)
  }

  /** The chunks' elements one after the other. */
  function Flatten<T>(chunks: seq<seq<T>>): seq<T> {
    if chunks == [] then [] else chunks[0] + Flatten(chunks[1..])
  }

  lemma {:induction false} FlattenAppend<T>(a: seq<seq<T>>, b: seq<seq<T>>)
    ensures Flatten(a + b) == Flatten(a) + Flatten(b)
    decreases |a|
  {
    if a == [] {
      assert a + b == b;
    } else {
      assert (a + b)[1..] == a[1..] + b;
      FlattenAppend(a[1..], b);
    }
  }

  /** Concatenating the chunks in queue order gives back the list. */
  lemma {:induction false} ChunksRoundTrip<T>(s: seq<T>, size: nat)
    requires 1 <= size
    ensures Flatten(Chunks(s, size)) == s
    decreases |s|
  {
    if s != [] {
      var cut := if size < |s| then size else |s|;
      ChunksRoundTrip(s[cut..], size);
      assert Chunks(s, size)[1..] == Chunks(s[cut..], size);
      assert s == s[..cut] + s[cut..];
    }
  }

  /** Every chunk is non-empty and at most `size` long; all but the last are exactly `size` long. */
  lemma {:induction false} ChunksShape<T>(s: seq<T>, size: nat)
    requires 1 <= size
    ensures forall i :: 0 <= i < |Chunks(s, size)| ==> 0 < |Chunks(s, size)[i]| <= size
    ensures forall i :: 0 <= i < |Chunks(s, size)| - 1 ==> |Chunks(s, size)[i]| == size
    decreases |s|
  {
    if s != [] {
      var cut := if size < |s| then size else |s|;
      ChunksShape(s[cut..], size);
      var cs := Chunks(s, size);
      assert forall i :: 1 <= i < |cs| ==> cs[i] == Chunks(s[cut..], size)[i - 1];
      if size >= |s| {
        assert s[cut..] == [];
      }
    }
  }

  /** There are ceil(|s| / size) chunks. */
  lemma {:induction false} ChunksCount<T>(s: seq<T>, size: nat)
    requires 1 <= size
    ensures |Chunks(s, size)| == (|s| + size - 1) / size
    decreases |s|
  {
    if s != [] {
      if size < |s| {
        ChunksCount(s[size..], size);
        DivShift(|s| - 1, size);
      } else {
        assert s[|s|..] == [];
        DivOne(|s| + size - 1, size);
      }
    }
  }

  lemma DivShift(x: nat, size: nat)
    requires 1 <= size
    ensures (x + size) / size == x / size + 1
  {
    var q, r := x / size, x % size;
    assert x + size == (q + 1) * size + r;
    DivUnique(x + size, size, q + 1, r);
  }

  lemma DivUnique(x: int, d: int, q: int, r: int)
    requires 0 <= r < d && x == q * d + r
    ensures x / d == q
  {
    var q', r' := x / d, x % d;
    assert x == q' * d + r';
    var k := q - q';
    assert k * d == q * d - q' * d;
    assert k * d == r' - r;
    if k >= 1 {
      MulAtLeast(k, d);
    } else if k <= -1 {
      MulAtLeast(-k, d);
    }
  }

  lemma DivOne(x: nat, size: nat)
    requires size <= x < 2 * size
    ensures x / size == 1
  {
  }

  lemma MulAtLeast(k: int, d: int)
    requires k >= 1 && d >= 0
    ensures k * d >= d
  {
  }

  /**
   * How many chunks the queue gets for a list of rows: one per row below ten
   * rows, otherwise between ten and nineteen, so there can be more chunks than
   * workers but never fewer chunks than workers once there are ten rows.
   */
  lemma QueueLength<T>(records: seq<T>)
    ensures var count := |Chunks(records, ChunkSize(|records|))|;
            && (|records| < NumThreads ==> count == |records|)
            && (|records| >= NumThreads ==> NumThreads <= count < 2 * NumThreads)
  {
    ChunksCount(records, ChunkSize(|records|));
    CeilQuotientBounds(|records|);
  }

  lemma CeilQuotientBounds(n: nat)
    ensures var size := ChunkSize(n);
            var count := (n + size - 1) / size;
            && (n < NumThreads ==> count == n)
            && (n >= NumThreads ==> NumThreads <= count < 2 * NumThreads)
  {
  }

  /** Unfolding the chunks of a suffix: the slice that starts at `i`, then the chunks after it. */
  lemma ChunksFrom<T>(s: seq<T>, i: nat, size: nat)
    requires 1 <= size && i < |s|
    ensures var end := if i + size < |s| then i + size else |s|;
            Chunks(s[i..], size) == [s[i..end]] + Chunks(s[end..], size)
  {
    var end := if i + size < |s| then i + size else |s|;
    assert s[i..][..end - i] == s[i..end];
    assert s[i..][end - i..] == s[end..];
  }

  /** The loop of average_scores that fills the work queue. */
  method FillQueue<T>(records: seq<T>) returns (size: nat, queue: seq<seq<T>>)
    ensures size == ChunkSize(|records|)
    ensures queue == Chunks(records, size)
  {
    var n := |records|;
    size := ChunkSize(n);
    queue := [];
    var i := 0;
    assert records[i..] == records;
    while i < n
      invariant 0 <= i
      invariant i < n ==> Chunks(records, size) == queue + Chunks(records[i..], size)
      invariant i >= n ==> Chunks(records, size) == queue
    {
      var end := if i + size < n then i + size else n;
      ChunksFrom(records, i, size);
      queue := queue + [records[i..end]];
      i := i + size;
    }
  }
}
