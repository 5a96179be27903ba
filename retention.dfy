/**
 * The multimap retention engine of the read filter, as a state machine over
 * values. `Step` is one pass of the filter loop over one record, `Flush` is
 * `dumpBufferToBam`, and `EndOfStream` is the dump after the loop. The
 * engine class in module Engine is proved to follow these functions.
 *
 * `dumpBufferToBam` pops a record from a randomly chosen bucket. Here the
 * choice is a parameter `pick`: the bucket named `pick` when it exists, and
 * otherwise some bucket. Every lemma below holds for every choice.
 */
module Retention {
  import opened Wrappers
  import opened Strings
  import opened Alignments
  import opened IntervalIndex

  /** The index and the two first-pass thresholds. */
  datatype Config = Config(index: Index, minIdentity: real, maxNM: int)

  /** `multimapBuffer`: region name to the alignments recorded for it. */
  type Buffer = map<string, seq<Record>>

  /**
   * The locals of the filter loop. `multimapList` holds the locus tokens
   * that the source concatenates, each followed by a space.
   */
  datatype State = State(
    buffer: Buffer,
    dumpBuffer: bool,
    multimapList: seq<string>,
    prevRead: string,
    mapped: nat,
    unmapped: nat,
    filtered: nat,
    written: seq<Record>)

  /** The values the locals start with. */
  const Initial := State(map[], true, [], "", 0, 0, 0, [])

  /** `chr + ":" + str(start) + "-" + str(end)`. */
  function Locus(r: Record): (s: string)
    ensures EndsWithout(s, ' ')
  {
    r.chrom + ":" + NatToString(r.start) + "-" + NatToString(r.end)
  }

  /**
   * The `RD` value: the locus tokens joined by single spaces, which is what
   * `rstrip(" ")` leaves of their space-terminated concatenation.
   */
  function RdValue(loci: seq<string>): (v: string)
    requires forall i :: 0 <= i < |loci| ==> EndsWithout(loci[i], ' ')
    ensures v == RStrip(Terminated(loci, " "), ' ')
  {
    RStripTerminated(loci);
    Join(loci, " ")
  }

  ghost predicate LociWellFormed(s: State) {
    forall i :: 0 <= i < |s.multimapList| ==> EndsWithout(s.multimapList[i], ' ')
  }

  predicate BucketsNonEmpty(b: Buffer) {
    forall k :: k in b ==> |b[k]| > 0
  }

  /** What every reachable state satisfies: no bucket is empty, a suppressed group has buckets, and every token is a locus. */
  ghost predicate Inv(s: State) {
    && BucketsNonEmpty(s.buffer)
    && (!s.dumpBuffer ==> s.buffer != map[])
    && LociWellFormed(s)
  }

  lemma InitialInv()
    ensures Inv(Initial)
  {
  }

  /** The bucket `random.choice` lands on for the choice `pick`. */
  ghost function ChooseKey(b: Buffer, pick: string): (k: string)
    requires b != map[]
    ensures k in b
    ensures pick in b ==> k == pick
  {
    if pick in b then pick else var k' :| k' in b; k'
  }

  /**
   * `dumpBufferToBam`: take the last record of the chosen bucket out of it,
   * tag it `RD` with the locus list, and write it.
   */
  ghost function Flush(s: State, pick: string): (t: State)
    requires s.buffer != map[] && BucketsNonEmpty(s.buffer) && LociWellFormed(s)
  {
    var k := ChooseKey(s.buffer, pick);
    var bucket := s.buffer[k];
    var rec := bucket[|bucket| - 1];
    s.(buffer := s.buffer[k := bucket[..|bucket| - 1]],
       written := s.written + [rec.(rd := Some(RdValue(s.multimapList)))])
  }

  /** The flush as its callers use it: a record written and `filteredReads` incremented. */
  ghost function FlushCounted(s: State, pick: string): (t: State)
    requires s.buffer != map[] && BucketsNonEmpty(s.buffer) && LociWellFormed(s)
  {
    var f := Flush(s, pick);
    f.(filtered := f.filtered + 1)
  }

  /** A flush writes one record: the last one of some bucket, removed from that bucket and tagged with the joined loci. */
  lemma FlushWritesLastOfBucket(s: State, pick: string)
    requires s.buffer != map[] && BucketsNonEmpty(s.buffer) && LociWellFormed(s)
    ensures var t := Flush(s, pick);
      exists k :: k in s.buffer && (pick in s.buffer ==> k == pick) &&
        var bucket := s.buffer[k];
        && t.written == s.written + [bucket[|bucket| - 1].(rd := Some(Join(s.multimapList, " ")))]
        && t.buffer == s.buffer[k := bucket[..|bucket| - 1]]
        && t.buffer.Keys == s.buffer.Keys
        && t == s.(buffer := t.buffer, written := t.written)
  {
    var k := ChooseKey(s.buffer, pick);
    assert k in s.buffer;
  }

  /**
   * The hit loops: for each reported region name, create its bucket when
   * absent and append the record. With `checkNew` (the buffer was not empty
   * before the loop) a newly created bucket also clears `dumpBuffer`.
   */
  function AddHits(b: Buffer, dump: bool, names: seq<string>, r: Record, checkNew: bool): (Buffer, bool)
    decreases |names|
  {
    if names == [] then (b, dump)
    else if names[0] in b then AddHits(b[names[0] := b[names[0]] + [r]], dump, names[1..], r, checkNew)
    else AddHits(b[names[0] := [r]], dump && !checkNew, names[1..], r, checkNew)
  }

  /** The hit loops handle the names one at a time, from the front. */
  lemma AddHitsFirst(b: Buffer, dump: bool, names: seq<string>, r: Record, checkNew: bool)
    requires names != []
    ensures var n := names[0];
      AddHits(b, dump, names, r, checkNew)
        == AddHits(if n in b then b[n := b[n] + [r]] else b[n := [r]], if n in b then dump else dump && !checkNew, names[1..], r, checkNew)
  {
  }

  /** The buckets afterwards are the old ones plus one per reported name. */
  lemma {:induction false} AddHitsKeys(b: Buffer, dump: bool, names: seq<string>, r: Record, checkNew: bool)
    ensures AddHits(b, dump, names, r, checkNew).0.Keys == b.Keys + set n | n in names
    decreases |names|
  {
    if names != [] {
      var n := names[0];
      var b1 := if n in b then b[n := b[n] + [r]] else b[n := [r]];
      var d1 := if n in b then dump else dump && !checkNew;
      AddHitsKeys(b1, d1, names[1..], r, checkNew);
      assert (set m | m in names) == {n} + set m | m in names[1..];
    }
  }

  /**
   * `dumpBuffer` survives the loop unless `checkNew` holds and some
   * reported name had no bucket before the loop.
   */
  lemma {:induction false} AddHitsDump(b: Buffer, dump: bool, names: seq<string>, r: Record, checkNew: bool)
    ensures AddHits(b, dump, names, r, checkNew).1 == (dump && (!checkNew || forall n :: n in names ==> n in b))
    decreases |names|
  {
    if names != [] {
      var n := names[0];
      var b1 := if n in b then b[n := b[n] + [r]] else b[n := [r]];
      var d1 := if n in b then dump else dump && !checkNew;
      AddHitsDump(b1, d1, names[1..], r, checkNew);
      assert forall m :: m in names <==> m == n || m in names[1..];
    }
  }

  /** The contents of bucket `k` before the loop, empty when it has none. */
  function Prior(b: Buffer, k: string): seq<Record> {
    if k in b then b[k] else []
  }

  /** A sequence that is `p + [r]` followed by `c` copies of `r` is `p` followed by `c + 1` copies. */
  lemma ExtendedBy(p: seq<Record>, u: seq<Record>, r: Record, c: nat)
    requires |u| == |p| + 1 + c && u[..|p| + 1] == p + [r]
    requires forall j :: |p| + 1 <= j < |u| ==> u[j] == r
    ensures u[..|p|] == p
    ensures forall j :: |p| <= j < |u| ==> u[j] == r
  {
    assert u[..|p| + 1][..|p|] == u[..|p|];
    assert u[|p|] == u[..|p| + 1][|p|];
  }

  /** Each bucket afterwards is its old contents followed by one copy of the new record per report of its name. */
  lemma {:induction false} AddHitsGains(b: Buffer, dump: bool, names: seq<string>, r: Record, checkNew: bool)
    ensures var t := AddHits(b, dump, names, r, checkNew).0;
      forall k :: k in t ==>
        && |t[k]| == |Prior(b, k)| + multiset(names)[k]
        && t[k][..|Prior(b, k)|] == Prior(b, k)
        && forall j :: |Prior(b, k)| <= j < |t[k]| ==> t[k][j] == r
    decreases |names|
  {
    if names != [] {
      var n := names[0];
      var b1 := if n in b then b[n := b[n] + [r]] else b[n := [r]];
      var d1 := if n in b then dump else dump && !checkNew;
      AddHitsGains(b1, d1, names[1..], r, checkNew);
      var t := AddHits(b, dump, names, r, checkNew).0;
      assert names == [n] + names[1..];
      assert multiset(names) == multiset{n} + multiset(names[1..]);
      forall k | k in t
        ensures |t[k]| == |Prior(b, k)| + multiset(names)[k]
        ensures t[k][..|Prior(b, k)|] == Prior(b, k)
        ensures forall j :: |Prior(b, k)| <= j < |t[k]| ==> t[k][j] == r
      {
        if k == n {
          assert Prior(b1, k) == Prior(b, k) + [r];
          assert multiset(names)[k] == multiset(names[1..])[k] + 1;
          ExtendedBy(Prior(b, k), t[k], r, multiset(names[1..])[k]);
        } else {
          assert Prior(b1, k) == Prior(b, k);
          assert multiset(names)[k] == multiset(names[1..])[k];
        }
      }
    }
  }

  /**
   * Old buckets are only extended; every record in a bucket afterwards is the
   * new one or was there before; the new record is in the bucket of every
   * reported name; and no bucket is empty if none was.
   */
  lemma {:induction false} AddHitsExtends(b: Buffer, dump: bool, names: seq<string>, r: Record, checkNew: bool)
    ensures var t := AddHits(b, dump, names, r, checkNew).0;
      && (forall k :: k in b ==> k in t && b[k] <= t[k])
      && (forall k, x :: k in t && x in t[k] ==> x == r || (k in b && x in b[k]))
      && (forall n :: n in names ==> n in t && r in t[n])
      && (BucketsNonEmpty(b) ==> BucketsNonEmpty(t))
    decreases |names|
  {
    if names != [] {
      var n := names[0];
      var b1 := if n in b then b[n := b[n] + [r]] else b[n := [r]];
      var d1 := if n in b then dump else dump && !checkNew;
      AddHitsExtends(b1, d1, names[1..], r, checkNew);
      var t := AddHits(b, dump, names, r, checkNew).0;
      assert forall k :: k in b ==> b[k] <= b1[k];
      assert b1[n][|b1[n]| - 1] == r && t[n][|b1[n]| - 1] == r;
      assert forall m :: m in names <==> m == n || m in names[1..];
    }
  }

  /**
   * What the hit loops do to the buckets: a bucket whose name is not
   * reported is unchanged; every bucket afterwards is its old contents
   * followed by one copy of the new record per report of its name; the new
   * record is in the bucket of every reported name; and no bucket is empty
   * if none was.
   */
  lemma AddHitsContents(b: Buffer, dump: bool, names: seq<string>, r: Record, checkNew: bool)
    ensures var t := AddHits(b, dump, names, r, checkNew).0;
      && (forall k :: k in b ==> k in t && b[k] <= t[k])
      && (forall k :: k in b && k !in names ==> t[k] == b[k])
      && (forall k :: k in t ==>
            && |t[k]| == |Prior(b, k)| + multiset(names)[k]
            && t[k][..|Prior(b, k)|] == Prior(b, k)
            && forall j :: |Prior(b, k)| <= j < |t[k]| ==> t[k][j] == r)
      && (forall k, x :: k in t && x in t[k] ==> x == r || (k in b && x in b[k]))
      && (forall n :: n in names ==> n in t && r in t[n])
      && (BucketsNonEmpty(b) ==> BucketsNonEmpty(t))
  {
    AddHitsExtends(b, dump, names, r, checkNew);
    AddHitsGains(b, dump, names, r, checkNew);
    var t := AddHits(b, dump, names, r, checkNew).0;
    forall k | k in b && k !in names
      ensures t[k] == b[k]
    {
      assert multiset(names)[k] == 0;
      assert t[k] == t[k][..|Prior(b, k)|];
    }
  }

  /** The three facts about the hit loops, together. */
  lemma AddHitsFacts(b: Buffer, dump: bool, names: seq<string>, r: Record, checkNew: bool)
    ensures var t := AddHits(b, dump, names, r, checkNew);
      && t.0.Keys == b.Keys + (set n | n in names)
      && t.1 == (dump && (!checkNew || forall n :: n in names ==> n in b))
      && (forall k :: k in b ==> k in t.0 && b[k] <= t.0[k])
      && (forall k, x :: k in t.0 && x in t.0[k] ==> x == r || (k in b && x in b[k]))
      && (forall n :: n in names ==> n in t.0 && r in t.0[n])
      && (BucketsNonEmpty(b) ==> BucketsNonEmpty(t.0))
  {
    AddHitsKeys(b, dump, names, r, checkNew);
    AddHitsDump(b, dump, names, r, checkNew);
    AddHitsExtends(b, dump, names, r, checkNew);
  }

  /** The region names an alignment hits. */
  function Hits(cfg: Config, r: Record): seq<string> {
    Query(cfg.index, r.chrom, r.start, r.end)
  }

  /** Lines 85-89: the tally before any gate. */
  function TallyState(s: State, r: Record): (t: State)
  {
    var (m, u) := Tally(s.mapped, s.unmapped, r);
    s.(mapped := m, unmapped := u)
  }

  /**
   * A multimapper whose name differs from the previous one closes the
   * previous group: dump it when it is retainable, then reset `dumpBuffer`
   * and `multimapList`. The buffer is cleared only together with the dump.
   */
  ghost function CloseGroup(s: State, pick: string): (t: State)
    requires Inv(s)
    ensures Inv(t)
  {
    var s1 :=
      if s.dumpBuffer && s.buffer != map[] then FlushCounted(s, pick).(buffer := map[])
      else s;
    s1.(dumpBuffer := true, multimapList := [])
  }

  /** Lines 122-154: buffer a multimapper under the regions it hits and record its locus. */
  ghost function AddMultimapper(cfg: Config, s: State, r: Record): (t: State)
    requires Inv(s)
    ensures Inv(t)
  {
    var hits := Hits(cfg, r);
    AddHitsFacts(s.buffer, s.dumpBuffer, hits, r, s.buffer != map[]);
    var (b, d) := if |hits| > 0 then AddHits(s.buffer, s.dumpBuffer, hits, r, s.buffer != map[]) else (s.buffer, s.dumpBuffer);
    assert |hits| > 0 ==> hits[0] in b;
    s.(buffer := b, dumpBuffer := d, multimapList := s.multimapList + [Locus(r)], prevRead := r.name)
  }

  /** Lines 98-154: a record with mapping quality 0 that passed the gate. */
  ghost function Multimapper(cfg: Config, s: State, r: Record, pick: string): (t: State)
    requires Inv(s)
    ensures Inv(t)
  {
    var s1 := if r.name != s.prevRead && s.prevRead != "" then CloseGroup(s, pick) else s;
    AddMultimapper(cfg, s1, r)
  }

  /** Lines 155-175: a record with positive mapping quality that passed the gate. */
  ghost function UniqueMapper(s: State, r: Record, pick: string): (t: State)
    requires Inv(s)
    ensures Inv(t)
  {
    var s1 :=
      if s.buffer != map[] then
        var s2 := if s.dumpBuffer then FlushCounted(s, pick) else s;
        s2.(buffer := map[], dumpBuffer := true, multimapList := [])
      else s;
    s1.(prevRead := r.name, written := s1.written + [r], filtered := s1.filtered + 1)
  }

  /** One pass of the loop over `read`. */
  ghost function Step(cfg: Config, s: State, r: Record, pick: string): (t: State)
    requires Inv(s)
    ensures Inv(t)
  {
    var s1 := TallyState(s, r);
    if !PassesGate(r, cfg.minIdentity, cfg.maxNM) then s1
    else if r.mq == 0 then Multimapper(cfg, s1, r, pick)
    else UniqueMapper(s1, r, pick)
  }

  /** Lines 179-181: after the loop, dump the last group when it is retainable. */
  ghost function EndOfStream(s: State, pick: string): (t: State)
    requires Inv(s)
  {
    if s.dumpBuffer && s.buffer != map[] then FlushCounted(s, pick) else s
  }

  /** The loop over a whole stream; `picks[i]` is the bucket choice of the i-th pass. */
  ghost function Steps(cfg: Config, s: State, recs: seq<Record>, picks: seq<string>): (t: State)
    requires Inv(s) && |picks| == |recs|
    ensures Inv(t)
    decreases |recs|
  {
    if recs == [] then s
    else
      var n := |recs| - 1;
      Step(cfg, Steps(cfg, s, recs[..n], picks[..n]), recs[n], picks[n])
  }
}
