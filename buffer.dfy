/**
 * `StateBuffer`: a fixed-capacity FIFO of transition records (a deque with a
 * maximum length) from which batches of distinct records are drawn and
 * re-stacked into one list per field.
 */
module Buffer {
  import opened Wrappers

  /** A transition record: field name to tensor. */
  type Record<V> = map<string, V>

  /** A batch: field name to the stacked values of the sampled records. */
  type Batch<V> = map<string, seq<V>>

  datatype BufferError =
    | NotEnoughData  // `ValueError`: fewer records than the batch size
    | EmptySample    // `IndexError` on `batch[0]` when the batch size is zero
    | MissingKey     // `KeyError`: a sampled record lacks a field of the first one

  /** The last `n` elements of `s`, or all of `s` when it is shorter. */
  function Latest<T>(s: seq<T>, n: nat): (r: seq<T>)
    ensures |r| == if |s| <= n then |s| else n
  {
    if |s| <= n then s else s[|s| - n..]
  }

  /** The contents of a buffer of capacity `n` holding `s` after appending each of `xs` in turn. */
  function Fill<T>(s: seq<T>, xs: seq<T>, n: nat): (r: seq<T>)
    ensures |s| <= n ==> |r| == if |s| + |xs| <= n then |s| + |xs| else n
    decreases |xs|
  {
    if xs == [] then s else Fill(Latest(s + [xs[0]], n), xs[1..], n)
  }

  /** Truncating early and truncating late keep the same suffix. */
  lemma LatestConcat<T>(u: seq<T>, w: seq<T>, n: nat)
    ensures Latest(Latest(u, n) + w, n) == Latest(u + w, n)
  {
    var l := Latest(u, n);
    assert u + w == u[..|u| - |l|] + (l + w);
  }

  lemma AppendHead<T>(s: seq<T>, xs: seq<T>)
    requires xs != []
    ensures s + [xs[0]] + xs[1..] == s + xs
  {
  }

  /**
   * Appending records one at a time to a buffer that respects its capacity
   * leaves exactly the most recent `n` of all records, oldest first.
   */
  lemma {:induction false} FillKeepsMostRecent<T>(s: seq<T>, xs: seq<T>, n: nat)
    requires |s| <= n
    ensures Fill(s, xs, n) == Latest(s + xs, n)
    decreases |xs|
  {
    if xs != [] {
      var u := s + [xs[0]];
      var s' := Latest(u, n);
      FillKeepsMostRecent(s', xs[1..], n);
      LatestConcat(u, xs[1..], n);
      AppendHead(s, xs);
    }
  }

  /** After `n + k` insertions into an empty buffer of capacity `n`, the first `k` are gone. */
  lemma OverflowEvictsOldest<T>(xs: seq<T>, n: nat, k: nat)
    requires |xs| == n + k
    ensures |Fill([], xs, n)| == n && Fill([], xs, n) == xs[k..]
  {
    FillKeepsMostRecent([], xs, n);
    assert [] + xs == xs;
  }

  /** `k` pairwise-distinct positions below `n`: what `random.sample` draws. */
  predicate IsSample(p: seq<nat>, n: nat, k: nat)
  {
    |p| == k &&
    (forall i :: 0 <= i < |p| ==> p[i] < n) &&
    (forall i, j :: 0 <= i < j < |p| ==> p[i] != p[j])
  }

  /** Pigeonhole: distinct elements drawn from `s` number at most `|s|`. */
  lemma {:induction false} DistinctBound(p: seq<nat>, s: set<nat>)
    requires forall i :: 0 <= i < |p| ==> p[i] in s
    requires forall i, j :: 0 <= i < j < |p| ==> p[i] != p[j]
    ensures |p| <= |s|
  {
    if p != [] {
      DistinctBound(p[1..], s - {p[0]});
    }
  }

  /** The positions `0 .. n - 1`. */
  function Below(n: nat): (r: set<nat>)
    ensures |r| == n
    ensures forall j: nat :: j in r <==> j < n
  {
    if n == 0 then {} else Below(n - 1) + {n - 1}
  }

  /**
   * Drawing as many positions as there are records takes every record: on a
   * buffer holding exactly a batch, the batch is all of it in some order.
   */
  lemma FullSampleTakesAll(p: seq<nat>, n: nat)
    requires IsSample(p, n, n)
    ensures forall j :: 0 <= j < n ==> j in p
  {
    forall j | 0 <= j < n
      ensures j in p
    {
      if j !in p {
        DistinctBound(p, Below(n) - {j});
      }
    }
  }

  /** The records at the drawn positions, in draw order. */
  function Select<V>(s: seq<Record<V>>, p: seq<nat>): (r: seq<Record<V>>)
    requires forall i :: 0 <= i < |p| ==> p[i] < |s|
    ensures |r| == |p| && forall i :: 0 <= i < |p| ==> r[i] == s[p[i]]
  {
    seq(|p|, i requires 0 <= i < |p| => s[p[i]])
  }

  predicate HasKey<V>(batch: seq<Record<V>>, k: string)
  {
    forall i :: 0 <= i < |batch| ==> k in batch[i]
  }

  /** Every field of the first record is present in every record. */
  predicate Uniform<V>(batch: seq<Record<V>>)
  {
    |batch| > 0 && forall k :: k in batch[0] ==> HasKey(batch, k)
  }

  /** `[d[key] for d in batch]`, stacked. */
  function Column<V>(batch: seq<Record<V>>, k: string): (c: seq<V>)
    requires HasKey(batch, k)
    ensures |c| == |batch| && forall i :: 0 <= i < |batch| ==> c[i] == batch[i][k]
  {
    seq(|batch|, i requires 0 <= i < |batch| => batch[i][k])
  }

  /** Converts a list of records into a record of lists, keyed by the first record's fields. */
  function Restack<V>(batch: seq<Record<V>>): (r: Batch<V>)
    requires Uniform(batch)
    ensures r.Keys == batch[0].Keys
    ensures forall k :: k in r ==> |r[k]| == |batch|
  {
    map k | k in batch[0].Keys :: Column(batch, k)
  }

  /** Every column of `b` has `n` entries. */
  predicate Columns<V>(b: Batch<V>, n: nat)
  {
    forall k :: k in b ==> |b[k]| == n
  }

  /** Converts a record of lists back into a list of records. */
  function Unstack<V>(b: Batch<V>, n: nat): (r: seq<Record<V>>)
    requires Columns(b, n)
    ensures |r| == n
  {
    seq(n, i requires 0 <= i < n => map k | k in b :: b[k][i])
  }

  /** Re-stacking is invertible when all records have the same fields. */
  lemma RestackRoundTrip<V>(batch: seq<Record<V>>)
    requires Uniform(batch)
    requires forall i :: 0 <= i < |batch| ==> batch[i].Keys == batch[0].Keys
    ensures Unstack(Restack(batch), |batch|) == batch
  {
    var r := Restack(batch);
    var u := Unstack(r, |batch|);
    forall i | 0 <= i < |batch|
      ensures u[i] == batch[i]
    {
      assert u[i].Keys == batch[i].Keys;
      forall k | k in u[i]
        ensures u[i][k] == batch[i][k]
      {
        assert r[k] == Column(batch, k);
      }
    }
  }

  class StateBuffer<V> {
    const bufferSize: nat
    const batchSize: nat
    var buffers: seq<Record<V>>

    ghost predicate Valid()
      reads this
    {
      |buffers| <= bufferSize
    }

    constructor (bufferSize: nat, batchSize: nat)
      ensures Valid()
      ensures this.bufferSize == bufferSize && this.batchSize == batchSize && buffers == []
    {
      this.bufferSize := bufferSize;
      this.batchSize := batchSize;
      buffers := [];
    }

    /** `deque.append` with a maximum length: when full, the oldest record is evicted. */
    method Add(data: Record<V>)
      requires Valid()
      modifies this
      ensures Valid()
      ensures buffers == Latest(old(buffers) + [data], bufferSize)
    {
      if bufferSize == 0 {
      } else if |buffers| == bufferSize {
        buffers := buffers[1..] + [data];
      } else {
        buffers := buffers + [data];
      }
    }

    /** `__len__`. */
    function Len(): (n: nat)
      reads this
      requires Valid()
      ensures n == |buffers| && n <= bufferSize
    {
      |buffers|
    }

    method Clear()
      modifies this
      ensures Valid() && buffers == []
    {
      buffers := [];
    }

    /**
     * `get_batch`. `draw` stands for the positions `random.sample` picks; it
     * is only consulted once the buffer holds enough records. The buffer is
     * not modified.
     */
    method GetBatch(draw: seq<nat>) returns (r: Result<Batch<V>, BufferError>)
      requires Valid()
      requires |buffers| >= batchSize ==> IsSample(draw, |buffers|, batchSize)
      ensures r == Failure(NotEnoughData) <==> |buffers| < batchSize
      ensures r == Failure(EmptySample) <==> |buffers| >= batchSize && batchSize == 0
      ensures r == Failure(MissingKey) <==> |buffers| >= batchSize > 0 && !Uniform(Select(buffers, draw))
      ensures r.Success? ==> |buffers| >= batchSize > 0 && Uniform(Select(buffers, draw)) &&
                             r.value == Restack(Select(buffers, draw))
      ensures r.Success? ==> forall k :: k in r.value ==>
                |r.value[k]| == batchSize &&
                forall i :: 0 <= i < batchSize ==> r.value[k][i] == buffers[draw[i]][k]
    {
      if |buffers| < batchSize {
        return Failure(NotEnoughData);
      }
      var batch := Select(buffers, draw);
      if batchSize == 0 {
        return Failure(EmptySample);
      }
      var keys := batch[0].Keys;
      var out: Batch<V> := map[];
      while keys != {}
        invariant keys <= batch[0].Keys
        invariant out.Keys == batch[0].Keys - keys
        invariant forall k :: k in out ==> HasKey(batch, k) && out[k] == Column(batch, k)
        decreases keys
      {
        var k :| k in keys;
        if !HasKey(batch, k) {
          return Failure(MissingKey);
        }
        out := out[k := Column(batch, k)];
        keys := keys - {k};
      }
      r := Success(out);
    }
  }
}
