// What the demultiplexer owes each sample, stated over the sequence of
// read pairs it has consumed so far, each tagged with the sample id
// `get_sample_id` gave it. The engine's dictionaries are proved equal to
// these functions; the properties of the run are proved about them here.
// Only the tagging looks inside a sample id; everything else takes the id
// type as a parameter `K`.

module Routing {
  import opened Fastq
  import opened Barcode

  /** The two read files of a run. */
  datatype Side = R1 | R2

  /** A consumed read pair and the sample id its Read 1 header gave. */
  datatype Assigned<K> = Assigned(sample: K, r1: Record, r2: Record)

  function Read<K>(a: Assigned<K>, side: Side): Record {
    if side == R1 then a.r1 else a.r2
  }

  /** The pairs of a run tagged with their sample ids, in arrival order. */
  function Assign(pairs: seq<ReadPair>, names: map<string, string>): seq<Assigned<string>> {
    seq(|pairs|, i requires 0 <= i < |pairs| => Assigned(SampleId(pairs[i].r1, names), pairs[i].r1, pairs[i].r2))
  }

  /** Every tag is the one `get_sample_id` gives the pair's Read 1 record. */
  predicate WellAssigned(h: seq<Assigned<string>>, names: map<string, string>) {
    forall i {:trigger SampleId(h[i].r1, names)} | 0 <= i < |h| :: h[i].sample == SampleId(h[i].r1, names)
  }

  /** The sample ids seen so far. */
  function Samples<K(==)>(h: seq<Assigned<K>>): set<K> {
    if h == [] then {} else Samples(h[..|h| - 1]) + {h[|h| - 1].sample}
  }

  /** How many consumed pairs went to sample `s`. */
  function CountOf<K(==)>(h: seq<Assigned<K>>, s: K): nat {
    if h == [] then 0
    else CountOf(h[..|h| - 1], s) + (if h[|h| - 1].sample == s then 1 else 0)
  }

  /** The records of one side that went to sample `s`, in arrival order. */
  function Routed<K(==)>(h: seq<Assigned<K>>, s: K, side: Side): seq<Record> {
    if h == [] then []
    else
      var last := h[|h| - 1];
      Routed(h[..|h| - 1], s, side) + (if last.sample == s then [Read(last, side)] else [])
  }

  /** The blocks of the samples `keys`, one after another. */
  function Drain<K(==)>(h: seq<Assigned<K>>, keys: seq<K>, side: Side): seq<Record> {
    if keys == [] then []
    else Drain(h, keys[..|keys| - 1], side) + Routed(h, keys[|keys| - 1], side)
  }

  /** The number of pairs that went to the samples `keys`. */
  function SumCounts<K(==)>(h: seq<Assigned<K>>, keys: seq<K>): nat {
    if keys == [] then 0
    else SumCounts(h, keys[..|keys| - 1]) + CountOf(h, keys[|keys| - 1])
  }

  predicate Distinct<K(==)>(keys: seq<K>) {
    forall i, j | 0 <= i < j < |keys| :: keys[i] != keys[j]
  }

  /** Consuming one more pair adds its sample, one to its count and its records to its blocks. */
  lemma Extend<K>(h: seq<Assigned<K>>, a: Assigned<K>)
    ensures Samples(h + [a]) == Samples(h) + {a.sample}
    ensures forall s :: CountOf(h + [a], s) == CountOf(h, s) + (if s == a.sample then 1 else 0)
    ensures forall s, side ::
      Routed(h + [a], s, side) == Routed(h, s, side) + (if s == a.sample then [Read(a, side)] else [])
  {
    assert (h + [a])[..|h|] == h;
  }

  lemma AssignedStep(h: seq<Assigned<string>>, a: Assigned<string>, names: map<string, string>)
    requires WellAssigned(h, names) && a.sample == SampleId(a.r1, names)
    ensures WellAssigned(h + [a], names)
  {
    assert forall i | 0 <= i < |h| :: (h + [a])[i] == h[i];
  }

  /** A sample has been seen exactly when some pair went to it. */
  lemma {:induction false} SeenIffCounted<K>(h: seq<Assigned<K>>, s: K)
    ensures s in Samples(h) <==> CountOf(h, s) > 0
  {
    if h != [] {
      SeenIffCounted(h[..|h| - 1], s);
    }
  }

  lemma {:induction false} RoutedLength<K>(h: seq<Assigned<K>>, s: K, side: Side)
    ensures |Routed(h, s, side)| == CountOf(h, s)
  {
    if h != [] {
      RoutedLength(h[..|h| - 1], s, side);
    }
  }

  /** A sample has been seen exactly when some consumed pair carries it. */
  lemma {:induction false} SamplesIndex<K>(h: seq<Assigned<K>>, s: K)
    ensures s in Samples(h) <==> exists i | 0 <= i < |h| :: h[i].sample == s
  {
    if h != [] {
      var init := h[..|h| - 1];
      SamplesIndex(init, s);
      if s in Samples(init) {
        var i :| 0 <= i < |init| && init[i].sample == s;
        assert h[i] == init[i];
      } else if s != h[|h| - 1].sample {
        forall i | 0 <= i < |h| ensures h[i].sample != s {
          if i < |init| {
            assert h[i] == init[i];
          }
        }
      }
    }
  }

  /** Blocks respect arrival order: the records of a later stretch follow those of an earlier one. */
  lemma {:induction false} RoutedConcat<K>(h1: seq<Assigned<K>>, h2: seq<Assigned<K>>, s: K, side: Side)
    ensures Routed(h1 + h2, s, side) == Routed(h1, s, side) + Routed(h2, s, side)
  {
    if h2 != [] {
      var init := h2[..|h2| - 1];
      RoutedConcat(h1, init, s, side);
      assert (h1 + h2)[..|h1 + h2| - 1] == h1 + init;
    } else {
      assert h1 + h2 == h1;
    }
  }

  /** The records of a sample's Read 1 block all carry that sample's id. */
  lemma {:induction false} RoutedOnly(h: seq<Assigned<string>>, s: string, names: map<string, string>)
    requires WellAssigned(h, names)
    ensures forall r | r in Routed(h, s, R1) :: SampleId(r, names) == s
  {
    if h != [] {
      RoutedOnly(h[..|h| - 1], s, names);
    }
  }

  /** The Read 1 records of a drain all belong to the drained samples. */
  lemma {:induction false} DrainOnly(h: seq<Assigned<string>>, keys: seq<string>, names: map<string, string>)
    requires WellAssigned(h, names)
    ensures forall r | r in Drain(h, keys, R1) :: SampleId(r, names) in keys
  {
    if keys != [] {
      var init := keys[..|keys| - 1];
      DrainOnly(h, init, names);
      RoutedOnly(h, keys[|keys| - 1], names);
    }
  }

  /** A drain holds as many records as pairs went to the drained samples. */
  lemma {:induction false} DrainLength<K>(h: seq<Assigned<K>>, keys: seq<K>, side: Side)
    ensures |Drain(h, keys, side)| == SumCounts(h, keys)
  {
    if keys != [] {
      DrainLength(h, keys[..|keys| - 1], side);
      RoutedLength(h, keys[|keys| - 1], side);
    }
  }

  lemma {:induction false} SumCountsConcat<K>(h: seq<Assigned<K>>, a: seq<K>, b: seq<K>)
    ensures SumCounts(h, a + b) == SumCounts(h, a) + SumCounts(h, b)
  {
    if b != [] {
      SumCountsConcat(h, a, b[..|b| - 1]);
      assert (a + b)[..|a + b| - 1] == a + b[..|b| - 1];
    } else {
      assert a + b == a;
    }
  }

  /** One more pair adds one to the sum once for every time its sample is listed. */
  lemma {:induction false} SumCountsExtend<K>(h: seq<Assigned<K>>, a: Assigned<K>, keys: seq<K>)
    ensures SumCounts(h + [a], keys) == SumCounts(h, keys) + multiset(keys)[a.sample]
  {
    Extend(h, a);
    if keys != [] {
      var init := keys[..|keys| - 1];
      SumCountsExtend(h, a, init);
      assert keys == init + [keys[|keys| - 1]];
    }
  }

  lemma {:induction false} DistinctOnce<K>(keys: seq<K>, x: K)
    requires Distinct(keys) && x in keys
    ensures multiset(keys)[x] == 1
  {
    var init := keys[..|keys| - 1];
    assert keys == init + [keys[|keys| - 1]];
    if x == keys[|keys| - 1] {
      assert x !in init;
    } else {
      DistinctOnce(init, x);
    }
  }

  /** Listing every seen sample once accounts for every consumed pair. */
  lemma {:induction false} CountsCover<K>(h: seq<Assigned<K>>, keys: seq<K>)
    requires Distinct(keys)
    requires forall s | s in Samples(h) :: s in keys
    ensures SumCounts(h, keys) == |h|
  {
    if h == [] {
      ZeroCounts(keys);
    } else {
      var init := h[..|h| - 1];
      var a := h[|h| - 1];
      assert h == init + [a];
      Extend(init, a);
      CountsCover(init, keys);
      SumCountsExtend(init, a, keys);
      DistinctOnce(keys, a.sample);
    }
  }

  lemma {:induction false} ZeroCounts<K>(keys: seq<K>)
    ensures SumCounts([], keys) == 0
  {
    if keys != [] {
      ZeroCounts(keys[..|keys| - 1]);
    }
  }

  /**
   * Conservation: when `done` lists the samples with dedicated files and
   * `pending` the ones drained, each seen sample exactly once, the dedicated
   * blocks and the drain together hold one record per consumed pair.
   */
  lemma Conservation<K>(h: seq<Assigned<K>>, done: seq<K>, pending: seq<K>, side: Side)
    requires Distinct(done + pending)
    requires forall s | s in Samples(h) :: s in done + pending
    ensures SumCounts(h, done) + |Drain(h, pending, side)| == |h|
  {
    CountsCover(h, done + pending);
    SumCountsConcat(h, done, pending);
    DrainLength(h, pending, side);
  }
}
