// The demultiplexing loop of `demultiplex`: per-sample counters, buffers
// that hold a sample's pairs until it has `minReads` of them, dedicated
// output files opened at that moment, and the final drain of what is still
// buffered to the undetermined files. A file is modelled by the records
// written to it, in order; its text is the concatenation of their lines.

module Engine {
  import opened Wrappers
  import opened Fastq
  import opened Barcode
  import opened SampleTable
  import opened Routing

  /** `f.write(''.join(record))` for every record of `recs`, in order. */
  method WriteAll(file: seq<Record>, recs: seq<Record>) returns (written: seq<Record>)
    ensures written == file + recs
  {
    written := file;
    var i := 0;
    while i < |recs|
      invariant 0 <= i <= |recs|
      invariant written == file + recs[..i]
    {
      written := written + [recs[i]];
      i := i + 1;
    }
    assert recs[..i] == recs;
  }

  /**
   * The dictionaries of the loop: `count`, the two buffers and the two sets
   * of output files, each keyed by sample id. The loop never looks inside
   * a sample id, so the key type is a parameter.
   */
  datatype Tables<K(==)> = Tables(
    count: map<K, nat>,
    bufferR1: map<K, seq<Record>>,
    bufferR2: map<K, seq<Record>>,
    outR1: map<K, seq<Record>>,
    outR2: map<K, seq<Record>>)

  function Get<K(==)>(f: map<K, seq<Record>>, s: K): seq<Record> {
    if s in f then f[s] else []
  }

  /** A dictionary after a sample `s` not yet in `count` is given the initial value `init`. */
  function Entered<K(==), V>(count: map<K, nat>, f: map<K, V>, s: K, init: V): map<K, V> {
    if s in count then f else f[s := init]
  }

  /**
   * One iteration of the loop over read pairs, on the dictionaries: a new
   * sample gets count 0 and empty buffers; its count goes up by one; below
   * `m` the pair is buffered, at `m` the buffers and then the pair go to
   * freshly opened files and the buffers are deleted, above `m` the pair is
   * appended to the files.
   */
  function Next<K(==)>(t: Tables<K>, a: Assigned<K>, m: int): Tables<K> {
    var s := a.sample;
    var c := Entered(t.count, t.count, s, 0);
    var b1 := Entered(t.count, t.bufferR1, s, []);
    var b2 := Entered(t.count, t.bufferR2, s, []);
    var n := c[s] + 1;
    if n < m then
      Tables(c[s := n], b1[s := Get(b1, s) + [a.r1]], b2[s := Get(b2, s) + [a.r2]], t.outR1, t.outR2)
    else if n == m then
      Tables(c[s := n], b1 - {s}, b2 - {s}, t.outR1[s := [] + Get(b1, s) + [a.r1]], t.outR2[s := [] + Get(b2, s) + [a.r2]])
    else
      Tables(c[s := n], b1, b2, t.outR1[s := Get(t.outR1, s) + [a.r1]], t.outR2[s := Get(t.outR2, s) + [a.r2]])
  }

  /** The first half of `Next`: a sample not yet counted gets count 0 and empty buffers. */
  function Enter<K(==)>(t: Tables<K>, s: K): Tables<K> {
    Tables(Entered(t.count, t.count, s, 0), Entered(t.count, t.bufferR1, s, []),
      Entered(t.count, t.bufferR2, s, []), t.outR1, t.outR2)
  }

  /** The second half of `Next`, for a sample already counted. */
  function Advance<K(==)>(t: Tables<K>, a: Assigned<K>, m: int): Tables<K>
    requires a.sample in t.count
  {
    var s := a.sample;
    var n := t.count[s] + 1;
    if n < m then
      Tables(t.count[s := n], t.bufferR1[s := Get(t.bufferR1, s) + [a.r1]],
        t.bufferR2[s := Get(t.bufferR2, s) + [a.r2]], t.outR1, t.outR2)
    else if n == m then
      Tables(t.count[s := n], t.bufferR1 - {s}, t.bufferR2 - {s},
        t.outR1[s := [] + Get(t.bufferR1, s) + [a.r1]], t.outR2[s := [] + Get(t.bufferR2, s) + [a.r2]])
    else
      Tables(t.count[s := n], t.bufferR1, t.bufferR2,
        t.outR1[s := Get(t.outR1, s) + [a.r1]], t.outR2[s := Get(t.outR2, s) + [a.r2]])
  }

  /** An iteration is the entry of its sample followed by the update of its phase. */
  lemma NextSplit<K>(t: Tables<K>, a: Assigned<K>, m: int)
    ensures a.sample in Enter(t, a.sample).count
    ensures Next(t, a, m) == Advance(Enter(t, a.sample), a, m)
  {
  }

  /** The dictionaries after the loop has consumed the pairs `h`. */
  function Replay<K(==)>(h: seq<Assigned<K>>, m: int): Tables<K> {
    if h == [] then Tables(map[], map[], map[], map[], map[])
    else Next(Replay(h[..|h| - 1], m), h[|h| - 1], m)
  }

  /** `count` holds exactly the seen samples, with the number of pairs each got. */
  ghost predicate Counted<K>(h: seq<Assigned<K>>, count: map<K, nat>) {
    count.Keys == Samples(h) && forall s {:trigger count[s]} | s in count :: count[s] == CountOf(h, s)
  }

  /** A pair of dictionaries (R1, R2) holds, for each of its samples, all of the sample's records so far. */
  ghost predicate Mirrors<K>(h: seq<Assigned<K>>, f1: map<K, seq<Record>>, f2: map<K, seq<Record>>) {
    f2.Keys == f1.Keys &&
    forall s {:trigger f1[s]} | s in f1 :: f1[s] == Routed(h, s, R1) && f2[s] == Routed(h, s, R2)
  }

  /** Every counted sample is buffering below `m` and has its own files from `m` on, never both. */
  ghost predicate Phased<K>(m: int, count: map<K, nat>, b1: map<K, seq<Record>>, o1: map<K, seq<Record>>) {
    b1.Keys <= count.Keys && o1.Keys <= count.Keys &&
    forall s {:trigger count[s]} | s in count :: (s in b1 <==> count[s] < m) && (s in o1 <==> count[s] >= m)
  }

  /**
   * What one iteration needs to know about its sample `s`: the phase its
   * count puts it in, and that R1 and R2 dictionaries have it alike.
   */
  predicate Ready<K(==)>(t: Tables<K>, s: K, m: int) {
    (s in t.count ==> (s in t.bufferR1 <==> t.count[s] < m) && (s in t.outR1 <==> t.count[s] >= m)) &&
    (s !in t.count ==> s !in t.bufferR1 && s !in t.outR1) &&
    (s in t.bufferR2 <==> s in t.bufferR1) && (s in t.outR2 <==> s in t.outR1)
  }

  /**
   * The dictionaries agree with the pairs `h`: every seen sample is counted
   * and is in exactly one phase; buffers and files hold exactly the
   * sample's records, in arrival order.
   */
  ghost predicate Phases<K>(h: seq<Assigned<K>>, m: int, t: Tables<K>) {
    Counted(h, t.count) && Mirrors(h, t.bufferR1, t.bufferR2) && Mirrors(h, t.outR1, t.outR2) &&
    Phased(m, t.count, t.bufferR1, t.outR1)
  }

  lemma CountedStep<K>(h: seq<Assigned<K>>, a: Assigned<K>, count: map<K, nat>)
    requires Counted(h, count)
    ensures var c := Entered(count, count, a.sample, 0);
      Counted(h + [a], c[a.sample := c[a.sample] + 1])
  {
    Extend(h, a);
    SeenIffCounted(h, a.sample);
  }

  /** An unseen sample has no records yet: empty buffers hold all of them. */
  lemma MirrorsEnter<K>(h: seq<Assigned<K>>, count: map<K, nat>, f1: map<K, seq<Record>>, f2: map<K, seq<Record>>, s: K)
    requires Mirrors(h, f1, f2) && Counted(h, count)
    ensures Mirrors(h, Entered(count, f1, s, []), Entered(count, f2, s, []))
  {
    SeenIffCounted(h, s);
    RoutedLength(h, s, R1);
    RoutedLength(h, s, R2);
  }

  /** Dictionaries without the new pair's sample are unaffected by it. */
  lemma MirrorsOther<K>(h: seq<Assigned<K>>, a: Assigned<K>, f1: map<K, seq<Record>>, f2: map<K, seq<Record>>)
    requires Mirrors(h, f1, f2) && a.sample !in f1
    ensures Mirrors(h + [a], f1, f2)
  {
    forall s | s in f1 ensures f1[s] == Routed(h + [a], s, R1) && f2[s] == Routed(h + [a], s, R2) {
      Extend(h, a);
    }
  }

  lemma MirrorsRemove<K>(h: seq<Assigned<K>>, f1: map<K, seq<Record>>, f2: map<K, seq<Record>>, s: K)
    requires Mirrors(h, f1, f2)
    ensures Mirrors(h, f1 - {s}, f2 - {s})
  {
  }

  /** Appending the new pair's records to its sample's records so far keeps the dictionaries in step. */
  lemma MirrorsPut<K>(h: seq<Assigned<K>>, a: Assigned<K>, f1: map<K, seq<Record>>, f2: map<K, seq<Record>>,
                      old1: seq<Record>, old2: seq<Record>)
    requires Mirrors(h, f1, f2)
    requires old1 == Routed(h, a.sample, R1) && old2 == Routed(h, a.sample, R2)
    ensures Mirrors(h + [a], f1[a.sample := old1 + [a.r1]], f2[a.sample := old2 + [a.r2]])
  {
    var s := a.sample;
    MirrorsRemove(h, f1, f2, s);
    MirrorsOther(h, a, f1 - {s}, f2 - {s});
    Extend(h, a);
  }

  lemma PhasedEnter<K>(m: int, count: map<K, nat>, b1: map<K, seq<Record>>, o1: map<K, seq<Record>>, s: K)
    requires Phased(m, count, b1, o1) && m >= 1
    ensures Phased(m, Entered(count, count, s, 0), Entered(count, b1, s, []), o1)
  {
  }

  lemma PhasedBuffer<K>(m: int, c: map<K, nat>, b1: map<K, seq<Record>>, o1: map<K, seq<Record>>, s: K, r: seq<Record>)
    requires Phased(m, c, b1, o1) && s in c && c[s] + 1 < m
    ensures s in b1 && s !in o1
    ensures Phased(m, c[s := c[s] + 1], b1[s := r], o1)
  {
  }

  lemma PhasedOpen<K>(m: int, c: map<K, nat>, b1: map<K, seq<Record>>, o1: map<K, seq<Record>>, s: K, r: seq<Record>)
    requires Phased(m, c, b1, o1) && s in c && c[s] + 1 == m
    ensures s in b1 && s !in o1
    ensures Phased(m, c[s := m], b1 - {s}, o1[s := r])
  {
  }

  lemma PhasedWrite<K>(m: int, c: map<K, nat>, b1: map<K, seq<Record>>, o1: map<K, seq<Record>>, s: K, r: seq<Record>)
    requires Phased(m, c, b1, o1) && s in c && c[s] + 1 > m
    ensures s !in b1 && s in o1
    ensures Phased(m, c[s := c[s] + 1], b1, o1[s := r])
  {
  }

  /** The new count of the pair's sample is one more than its entered count. */
  lemma NextCount<K>(t: Tables<K>, a: Assigned<K>, m: int)
    ensures var c := Entered(t.count, t.count, a.sample, 0);
      Next(t, a, m).count == c[a.sample := c[a.sample] + 1]
  {
  }

  lemma NextCounted<K>(h: seq<Assigned<K>>, a: Assigned<K>, m: int, t: Tables<K>)
    requires Counted(h, t.count)
    ensures Counted(h + [a], Next(t, a, m).count)
  {
    CountedStep(h, a, t.count);
    NextCount(t, a, m);
  }

  /** One iteration keeps every sample in exactly one phase. */
  lemma NextPhased<K>(t: Tables<K>, a: Assigned<K>, m: int)
    requires m >= 1 && Phased(m, t.count, t.bufferR1, t.outR1)
    ensures var u := Next(t, a, m); Phased(m, u.count, u.bufferR1, u.outR1)
  {
    var s := a.sample;
    var c := Entered(t.count, t.count, s, 0);
    var b1 := Entered(t.count, t.bufferR1, s, []);
    PhasedEnter(m, t.count, t.bufferR1, t.outR1, s);
    if c[s] + 1 < m {
      PhasedBuffer(m, c, b1, t.outR1, s, Get(b1, s) + [a.r1]);
    } else if c[s] + 1 == m {
      PhasedOpen(m, c, b1, t.outR1, s, [] + Get(b1, s) + [a.r1]);
    } else {
      PhasedWrite(m, c, b1, t.outR1, s, Get(t.outR1, s) + [a.r1]);
    }
  }

  /** One iteration keeps the buffers holding exactly the buffered samples' records. */
  lemma NextBuffers<K>(h: seq<Assigned<K>>, a: Assigned<K>, m: int, t: Tables<K>)
    requires m >= 1 && Phases(h, m, t)
    ensures Mirrors(h + [a], Next(t, a, m).bufferR1, Next(t, a, m).bufferR2)
  {
    var s := a.sample;
    var c := Entered(t.count, t.count, s, 0);
    var b1 := Entered(t.count, t.bufferR1, s, []);
    var b2 := Entered(t.count, t.bufferR2, s, []);
    MirrorsEnter(h, t.count, t.bufferR1, t.bufferR2, s);
    PhasedEnter(m, t.count, t.bufferR1, t.outR1, s);
    if c[s] + 1 < m {
      PhasedBuffer(m, c, b1, t.outR1, s, []);
      MirrorsPut(h, a, b1, b2, Get(b1, s), Get(b2, s));
    } else if c[s] + 1 == m {
      MirrorsRemove(h, b1, b2, s);
      MirrorsOther(h, a, b1 - {s}, b2 - {s});
    } else {
      PhasedWrite(m, c, b1, t.outR1, s, []);
      MirrorsOther(h, a, b1, b2);
    }
  }

  /** One iteration keeps the files holding exactly the dedicated samples' records. */
  lemma NextFiles<K>(h: seq<Assigned<K>>, a: Assigned<K>, m: int, t: Tables<K>)
    requires m >= 1 && Phases(h, m, t)
    ensures Mirrors(h + [a], Next(t, a, m).outR1, Next(t, a, m).outR2)
  {
    var s := a.sample;
    var c := Entered(t.count, t.count, s, 0);
    var b1 := Entered(t.count, t.bufferR1, s, []);
    var b2 := Entered(t.count, t.bufferR2, s, []);
    PhasedEnter(m, t.count, t.bufferR1, t.outR1, s);
    if c[s] + 1 < m {
      PhasedBuffer(m, c, b1, t.outR1, s, []);
      MirrorsOther(h, a, t.outR1, t.outR2);
    } else if c[s] + 1 == m {
      MirrorsEnter(h, t.count, t.bufferR1, t.bufferR2, s);
      PhasedOpen(m, c, b1, t.outR1, s, []);
      assert [] + Get(b1, s) == Get(b1, s) && [] + Get(b2, s) == Get(b2, s);
      MirrorsPut(h, a, t.outR1, t.outR2, [] + Get(b1, s), [] + Get(b2, s));
    } else {
      MirrorsPut(h, a, t.outR1, t.outR2, Get(t.outR1, s), Get(t.outR2, s));
    }
  }

  /** One iteration keeps the dictionaries in agreement with the pairs consumed. */
  lemma NextKeeps<K>(h: seq<Assigned<K>>, a: Assigned<K>, m: int, t: Tables<K>)
    requires m >= 1 && Phases(h, m, t)
    ensures Phases(h + [a], m, Next(t, a, m))
  {
    NextCounted(h, a, m, t);
    NextBuffers(h, a, m, t);
    NextFiles(h, a, m, t);
    NextPhased(t, a, m);
  }

  /** However many pairs the loop has consumed, its dictionaries agree with them. */
  lemma {:induction false} ReplayPhases<K>(h: seq<Assigned<K>>, m: int)
    requires m >= 1
    ensures Phases(h, m, Replay(h, m))
  {
    if h != [] {
      var init := h[..|h| - 1];
      ReplayPhases(init, m);
      NextKeeps(init, h[|h| - 1], m, Replay(init, m));
      assert init + [h[|h| - 1]] == h;
    }
  }

  /**
   * The threshold event: a sample's files appear in the iteration that
   * brings its count to exactly `m`, holding its buffered records followed
   * by the current one; files are never closed early, and a sample's
   * buffers, once deleted, are never made again.
   */
  lemma Threshold<K>(t: Tables<K>, a: Assigned<K>, m: int)
    requires m >= 1 && Ready(t, a.sample, m)
    ensures var u := Next(t, a, m); var s := a.sample;
      s in u.count &&
      ((s !in t.outR1 && s in u.outR1) <==> u.count[s] == m) &&
      (u.count[s] == m ==>
        u.outR1[s] == Get(t.bufferR1, s) + [a.r1] && u.outR2[s] == Get(t.bufferR2, s) + [a.r2]) &&
      t.outR1.Keys <= u.outR1.Keys &&
      (forall x | x in u.bufferR1 :: x in t.bufferR1 || x !in t.count)
  {
  }

  /**
   * After the loop: the samples with their own files are those with at
   * least `m` pairs, and the files hold all of their records; the buffered
   * samples are the others, each buffer holding fewer than `m` records.
   */
  lemma ReplaySummary<K>(h: seq<Assigned<K>>, m: int)
    requires m >= 1
    ensures var t := Replay(h, m);
      t.count.Keys == Samples(h) &&
      t.outR1.Keys == t.outR2.Keys == (set s | s in Samples(h) && CountOf(h, s) >= m) &&
      (forall s | s in t.outR1 :: t.outR1[s] == Routed(h, s, R1) && t.outR2[s] == Routed(h, s, R2)) &&
      t.bufferR2.Keys == t.bufferR1.Keys &&
      (forall s :: s in t.bufferR1 <==> s in Samples(h) && CountOf(h, s) < m) &&
      (forall s | s in t.bufferR1 :: t.bufferR1[s] == Routed(h, s, R1) && t.bufferR2[s] == Routed(h, s, R2)) &&
      (forall s | s in t.bufferR1 :: |t.bufferR1[s]| == CountOf(h, s) < m)
  {
    ReplayPhases(h, m);
    forall s | s in Replay(h, m).bufferR1 ensures |Replay(h, m).bufferR1[s]| < m {
      RoutedLength(h, s, R1);
    }
  }

  /** The total number of records in the files of the samples `keys`. */
  function Sizes<K(==)>(files: map<K, seq<Record>>, keys: seq<K>): nat {
    if keys == [] then 0
    else Sizes(files, keys[..|keys| - 1]) + (var s := keys[|keys| - 1]; if s in files then |files[s]| else 0)
  }

  lemma {:induction false} SizesRouted<K>(h: seq<Assigned<K>>, files: map<K, seq<Record>>, keys: seq<K>, side: Side)
    requires forall s | s in keys :: s in files && files[s] == Routed(h, s, side)
    ensures Sizes(files, keys) == SumCounts(h, keys)
  {
    if keys != [] {
      SizesRouted(h, files, keys[..|keys| - 1], side);
      RoutedLength(h, keys[|keys| - 1], side);
    }
  }

  lemma DistinctConcat<K>(a: seq<K>, b: seq<K>)
    requires Distinct(a) && Distinct(b) && forall x | x in a :: x !in b
    ensures Distinct(a + b)
  {
    forall i, j | 0 <= i < j < |a + b| ensures (a + b)[i] != (a + b)[j] {
      if j >= |a| {
        assert (a + b)[j] == b[j - |a|];
        if i < |a| {
          assert (a + b)[i] == a[i] && a[i] in a;
        } else {
          assert (a + b)[i] == b[i - |a|];
        }
      }
    }
  }

  /**
   * Conservation on one side: with the dedicated files and the drain a run
   * produces, the dedicated files (listed once each, in any order) and the
   * undetermined file together hold exactly one record per consumed pair.
   */
  lemma Conserved<K>(h: seq<Assigned<K>>, m: int, files: map<K, seq<Record>>, pending: seq<K>, done: seq<K>, side: Side)
    requires files.Keys == (set s | s in Samples(h) && CountOf(h, s) >= m)
    requires forall s | s in files :: files[s] == Routed(h, s, side)
    requires Distinct(pending) && forall s :: s in pending <==> s in Samples(h) && CountOf(h, s) < m
    requires Distinct(done) && forall s :: s in done <==> s in files
    ensures Sizes(files, done) + |Drain(h, pending, side)| == |h|
  {
    SizesRouted(h, files, done, side);
    DistinctConcat(done, pending);
    forall s | s in Samples(h) ensures s in done + pending {
      if CountOf(h, s) >= m {
        assert s in files;
      }
    }
    Conservation(h, done, pending, side);
  }

  /** The state of one run of the demultiplexing loop. */
  class Demux {
    const names: map<string, string>
    const minReads: int
    var count: map<string, nat>
    var bufferR1: map<string, seq<Record>>
    var bufferR2: map<string, seq<Record>>
    var outR1: map<string, seq<Record>>
    var outR2: map<string, seq<Record>>
    /** The pairs consumed so far, with the sample id each was given. */
    ghost var history: seq<Assigned<string>>

    function Snapshot(): Tables<string>
      reads this
    {
      Tables(count, bufferR1, bufferR2, outR1, outR2)
    }

    /** The dictionaries are those the pairs consumed so far produce, and every pair went where `get_sample_id` says. */
    ghost predicate Valid()
      reads this
    {
      minReads >= 1 && Snapshot() == Replay(history, minReads) && WellAssigned(history, names)
    }

    constructor (names: map<string, string>, minReads: int)
      requires minReads >= 1
      ensures Valid()
      ensures this.names == names && this.minReads == minReads && history == []
    {
      this.names := names;
      this.minReads := minReads;
      count := map[];
      bufferR1, bufferR2 := map[], map[];
      outR1, outR2 := map[], map[];
      history := [];
    }

    /**
     * One iteration of the loop over read pairs: the Read 1 header names the
     * sample, and the pair is routed to it.
     */
    method Step(r1: Record, r2: Record) returns (id: string)
      requires Valid()
      modifies this
      ensures Valid()
      ensures id == SampleId(r1, names)
      ensures history == old(history) + [Assigned(id, r1, r2)]
    {
      id := SampleId(r1, names);
      ghost var a := Assigned(id, r1, r2);
      AssignedStep(history, a, names);
      ReplayPhases(history, minReads);
      Route(id, r1, r2);
      assert (old(history) + [a])[..|old(history)|] == old(history);
    }

    /**
     * The rest of the iteration, for the pair's sample `id`, on the
     * dictionaries; the phase invariant guarantees every key it looks up.
     */
    method Route(id: string, r1: Record, r2: Record)
      requires minReads >= 1 && Ready(Snapshot(), id, minReads)
      modifies this
      ensures history == old(history) + [Assigned(id, r1, r2)]
      ensures Snapshot() == Next(old(Snapshot()), Assigned(id, r1, r2), minReads)
    {
      ghost var t := Snapshot();
      NextSplit(t, Assigned(id, r1, r2), minReads);
      Admit(id);
      Place(id, r1, r2);
    }

    /** A sample seen for the first time gets count 0 and empty buffers; a known one is left as it is. */
    method Admit(id: string)
      requires minReads >= 1 && Ready(Snapshot(), id, minReads)
      modifies this
      ensures Snapshot() == Enter(old(Snapshot()), id) && history == old(history)
      ensures id in count && Ready(Snapshot(), id, minReads)
    {
      if id !in count {
        count := count[id := 0];
        bufferR1 := bufferR1[id := []];
        bufferR2 := bufferR2[id := []];
      }
    }

    /**
     * The pair goes to its sample's buffers below `minReads`; at `minReads`
     * the buffers are written to freshly opened files and deleted; above it
     * the pair is appended to the files.
     */
    method Place(id: string, r1: Record, r2: Record)
      requires id in count && Ready(Snapshot(), id, minReads)
      modifies this
      ensures history == old(history) + [Assigned(id, r1, r2)]
      ensures Snapshot() == Advance(old(Snapshot()), Assigned(id, r1, r2), minReads)
    {
      var n := count[id] + 1;
      count := count[id := n];
      if n < minReads {
        bufferR1 := bufferR1[id := bufferR1[id] + [r1]];
        bufferR2 := bufferR2[id := bufferR2[id] + [r2]];
      } else if n == minReads {
        var f1 := WriteAll([], bufferR1[id]);
        var f2 := WriteAll([], bufferR2[id]);
        outR1 := outR1[id := f1 + [r1]];
        outR2 := outR2[id := f2 + [r2]];
        bufferR1 := bufferR1 - {id};
        bufferR2 := bufferR2 - {id};
      } else {
        outR1 := outR1[id := outR1[id] + [r1]];
        outR2 := outR2[id := outR2[id] + [r2]];
      }
      history := history + [Assigned(id, r1, r2)];
    }

    /**
     * After the loop: every still-buffered sample, in the order `order`,
     * drained to the undetermined files, and the summary counts of the
     * closing log line.
     */
    method Finalize(order: seq<string>) returns (u1: seq<Record>, u2: seq<Record>, numFastqs: nat, numSamples: nat)
      requires Valid()
      requires Distinct(order) && forall s :: s in order <==> s in bufferR1
      ensures u1 == Drain(history, order, R1) && u2 == Drain(history, order, R2)
      ensures numFastqs == |outR1|
      ensures numSamples == |Samples(history)|
    {
      ReplayPhases(history, minReads);
      u1, u2 := [], [];
      var i := 0;
      while i < |order|
        invariant 0 <= i <= |order|
        invariant u1 == Drain(history, order[..i], R1) && u2 == Drain(history, order[..i], R2)
      {
        assert order[..i + 1][..i] == order[..i];
        u1 := WriteAll(u1, bufferR1[order[i]]);
        u2 := WriteAll(u2, bufferR2[order[i]]);
        i := i + 1;
      }
      assert order[..i] == order;
      var dedicated := set s | s in count && count[s] >= minReads;
      assert dedicated == outR1.Keys;
      numFastqs := |dedicated|;
      numSamples := |count|;
    }
  }

  /** Some duplicate-free listing of a set: the unspecified order of a dict. */
  method Enumerate(keys: set<string>) returns (order: seq<string>)
    ensures Distinct(order) && forall s :: s in order <==> s in keys
  {
    order := [];
    var rest := keys;
    while rest != {}
      invariant Distinct(order)
      invariant forall s :: s in order <==> s in keys && s !in rest
      invariant rest <= keys
      decreases rest
    {
      var s :| s in rest;
      order := order + [s];
      rest := rest - {s};
    }
  }

  /** What a run leaves behind. */
  datatype Outcome = Outcome(
    dedicatedR1: map<string, seq<Record>>,
    dedicatedR2: map<string, seq<Record>>,
    undeterminedR1: seq<Record>,
    undeterminedR2: seq<Record>,
    drainOrder: seq<string>,
    numFastqs: nat,
    numSamples: nat)

  lemma TakeOneMore<T>(s: seq<T>, i: int)
    requires 0 <= i < |s|
    ensures s[..i + 1] == s[..i] + [s[i]]
  {
  }

  /** The loop over read pairs: every pair of `pairs`, in order, through `Step`. */
  method Run(pairs: seq<ReadPair>, names: map<string, string>, minReads: int) returns (d: Demux)
    requires minReads >= 1
    ensures fresh(d) && d.Valid() && d.names == names && d.minReads == minReads
    ensures d.history == Assign(pairs, names)
  {
    ghost var h := Assign(pairs, names);
    d := new Demux(names, minReads);
    var i := 0;
    while i < |pairs|
      invariant 0 <= i <= |pairs|
      invariant fresh(d) && d.Valid() && d.names == names && d.minReads == minReads
      invariant d.history == h[..i]
    {
      var _ := d.Step(pairs[i].r1, pairs[i].r2);
      TakeOneMore(h, i);
      i := i + 1;
    }
    assert h[..i] == h;
  }

  /**
   * `demultiplex`: the pairs of the two record streams, up to the shorter,
   * routed to per-sample files once a sample has `minReads` pairs and
   * otherwise to the undetermined files. With `minReads < 1` the first pair
   * looks up a file that was never opened, and the run fails.
   */
  method Demultiplex(read1: seq<string>, read2: seq<string>, table: Option<seq<string>>, minReads: int)
    returns (r: Result<Outcome, string>)
    ensures var h := Assign(Pairs(read1, read2), Load(table));
      |h| == (if |Records(read1)| <= |Records(read2)| then |Records(read1)| else |Records(read2)|) &&
      (r.Failure? <==> minReads < 1 && |h| > 0) &&
      (r.Success? ==>
        var o := r.value;
        o.dedicatedR1.Keys == o.dedicatedR2.Keys == (set s | s in Samples(h) && CountOf(h, s) >= minReads) &&
        (forall s | s in o.dedicatedR1 :: o.dedicatedR1[s] == Routed(h, s, R1) && o.dedicatedR2[s] == Routed(h, s, R2)) &&
        Distinct(o.drainOrder) &&
        (forall s :: s in o.drainOrder <==> s in Samples(h) && CountOf(h, s) < minReads) &&
        o.undeterminedR1 == Drain(h, o.drainOrder, R1) &&
        o.undeterminedR2 == Drain(h, o.drainOrder, R2) &&
        (forall rec | rec in o.undeterminedR1 :: SampleId(rec, Load(table)) in o.drainOrder) &&
        o.numFastqs == |o.dedicatedR1| &&
        o.numSamples == |Samples(h)|)
  {
    var names := Load(table);
    var pairs := Pairs(read1, read2);
    ghost var h := Assign(pairs, names);
    if minReads < 1 {
      if |pairs| > 0 {
        return Failure("KeyError: no output file for the first sample");
      }
      assert h == [];
      return Success(Outcome(map[], map[], [], [], [], 0, 0));
    }
    var d := Run(pairs, names, minReads);
    var order := Enumerate(d.bufferR1.Keys);
    var u1, u2, numFastqs, numSamples := d.Finalize(order);
    ReplaySummary(h, minReads);
    DrainOnly(h, order, names);
    r := Success(Outcome(d.outR1, d.outR2, u1, u2, order, numFastqs, numSamples));
  }
}
