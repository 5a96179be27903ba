/**
 * What the retention engine of module Retention does to a stream: the
 * tallies, the bookkeeping of `filteredReads`, the effect of each kind of
 * record, the fate of a read group, and where written records come from.
 */
module RetentionProps {
  import opened Wrappers
  import opened Strings
  import opened Alignments
  import opened IntervalIndex
  import opened Retention

  /** The tallies of a whole stream count its mapped and unmapped primary alignments. */
  lemma {:induction false} StepsCounts(cfg: Config, s: State, recs: seq<Record>, picks: seq<string>)
    requires Inv(s) && |picks| == |recs|
    ensures Steps(cfg, s, recs, picks).mapped == s.mapped + CountMapped(recs)
    ensures Steps(cfg, s, recs, picks).unmapped == s.unmapped + CountUnmapped(recs)
    decreases |recs|
  {
    if recs != [] {
      var n := |recs| - 1;
      var m := Steps(cfg, s, recs[..n], picks[..n]);
      StepsCounts(cfg, s, recs[..n], picks[..n]);
      StepTallies(cfg, m, recs[n], picks[n]);
      assert recs[..n] + [recs[n]] == recs;
    }
  }

  /** Every pass tallies its record and changes no counter otherwise. */
  lemma StepTallies(cfg: Config, s: State, r: Record, pick: string)
    requires Inv(s)
    ensures var t := Step(cfg, s, r, pick);
      (t.mapped, t.unmapped) == Tally(s.mapped, s.unmapped, r)
  {
  }

  /** A pass only appends to the output, and `filteredReads` grows by the number of records it appends. */
  lemma StepAppends(cfg: Config, s: State, r: Record, pick: string)
    requires Inv(s)
    ensures var t := Step(cfg, s, r, pick);
      s.written <= t.written && t.filtered == s.filtered + (|t.written| - |s.written|)
  {
  }

  /**
   * The dump after the loop writes one record exactly when the group is
   * retainable and the buffer is not empty, and `filteredReads` counts it.
   */
  lemma EndOfStreamAppends(s: State, pick: string)
    requires Inv(s)
    ensures var t := EndOfStream(s, pick);
      && s.written <= t.written && t.filtered == s.filtered + (|t.written| - |s.written|)
      && |t.written| == |s.written| + (if s.dumpBuffer && s.buffer != map[] then 1 else 0)
  {
  }

  /** Over a whole stream the output only grows, and `filteredReads` grows by exactly the number of records written. */
  lemma {:induction false} StepsAppend(cfg: Config, s: State, recs: seq<Record>, picks: seq<string>)
    requires Inv(s) && |picks| == |recs|
    ensures var t := Steps(cfg, s, recs, picks);
      s.written <= t.written && t.filtered == s.filtered + (|t.written| - |s.written|)
    decreases |recs|
  {
    if recs != [] {
      var n := |recs| - 1;
      StepsAppend(cfg, s, recs[..n], picks[..n]);
      StepAppends(cfg, Steps(cfg, s, recs[..n], picks[..n]), recs[n], picks[n]);
    }
  }

  /** A record that fails the first-pass filters is only tallied. */
  lemma GateRejectOnlyTallies(cfg: Config, s: State, r: Record, pick: string)
    requires Inv(s) && !PassesGate(r, cfg.minIdentity, cfg.maxNM)
    ensures var t := Step(cfg, s, r, pick);
      (t.mapped, t.unmapped) == Tally(s.mapped, s.unmapped, r)
      && t == s.(mapped := t.mapped, unmapped := t.unmapped)
  {
  }

  /**
   * A unique mapper that passes the filters closes the pending group (one
   * record from it is written when the group is retainable) and is then
   * written itself. The buffer ends empty; the flag and the locus list are
   * reset only when the buffer held something.
   */
  lemma UniqueMapperWritten(cfg: Config, s: State, r: Record, pick: string)
    requires Inv(s) && PassesGate(r, cfg.minIdentity, cfg.maxNM) && r.mq > 0
    ensures var t := Step(cfg, s, r, pick);
      t.buffer == map[] && t.prevRead == r.name
      && t.dumpBuffer
      && t.multimapList == (if s.buffer != map[] then [] else s.multimapList)
    ensures var t := Step(cfg, s, r, pick);
      |t.written| == |s.written| + (if s.dumpBuffer && s.buffer != map[] then 1 else 0) + 1
    ensures var t := Step(cfg, s, r, pick);
      t.written[..|s.written|] == s.written && t.written[|t.written| - 1] == r
    ensures var t := Step(cfg, s, r, pick);
      t.filtered == s.filtered + (if s.dumpBuffer && s.buffer != map[] then 1 else 0) + 1
    ensures var t := Step(cfg, s, r, pick);
      s.dumpBuffer && s.buffer != map[] ==>
        exists k :: k in s.buffer &&
          t.written[|s.written|] == s.buffer[k][|s.buffer[k]| - 1].(rd := Some(Join(s.multimapList, " ")))
  {
    var s1 := TallyState(s, r);
    assert Step(cfg, s, r, pick) == UniqueMapper(s1, r, pick);
    if s.dumpBuffer && s.buffer != map[] {
      FlushWritesLastOfBucket(s1, pick);
      var f := FlushCounted(s1, pick);
      assert |f.written| == |s.written| + 1 && f.written[..|s.written|] == s.written;
    }
  }

  /**
   * Another alignment of the read being buffered (or the first multimapper
   * of the stream): it is added to the bucket of every region it hits, its
   * locus is recorded, and nothing is written. The group stays retainable
   * only if it was and, when the buffer already held hits, every region hit
   * now already had a bucket.
   */
  lemma MultimapperSameRead(cfg: Config, s: State, r: Record, pick: string)
    requires Inv(s) && PassesGate(r, cfg.minIdentity, cfg.maxNM) && r.mq == 0
    requires r.name == s.prevRead || s.prevRead == ""
    ensures var t := Step(cfg, s, r, pick);
      var hits := Hits(cfg, r);
      && t.written == s.written && t.filtered == s.filtered && t.prevRead == r.name
      && t.multimapList == s.multimapList + [Locus(r)]
      && t.buffer.Keys == s.buffer.Keys + (set h | h in hits)
      && t.dumpBuffer == (s.dumpBuffer && (s.buffer == map[] || forall h :: h in hits ==> h in s.buffer))
      && (forall k :: k in s.buffer ==> s.buffer[k] <= t.buffer[k])
      && (forall h :: h in hits ==> r in t.buffer[h])
      && (forall k, x :: k in t.buffer && x in t.buffer[k] ==> x == r || (k in s.buffer && x in s.buffer[k]))
  {
    var s1 := TallyState(s, r);
    AddHitsFacts(s1.buffer, s1.dumpBuffer, Hits(cfg, r), r, s1.buffer != map[]);
  }

  /**
   * Another alignment of the read being buffered ends up last in the bucket
   * of every region it hits, and the buckets of the other regions are
   * unchanged.
   */
  lemma MultimapperSameReadBuckets(cfg: Config, s: State, r: Record, pick: string) returns (b: Buffer)
    requires Inv(s) && PassesGate(r, cfg.minIdentity, cfg.maxNM) && r.mq == 0
    requires r.name == s.prevRead || s.prevRead == ""
    ensures b == Step(cfg, s, r, pick).buffer
    ensures b.Keys == s.buffer.Keys + (set h | h in Hits(cfg, r))
    ensures forall h :: h in Hits(cfg, r) ==> |b[h]| > 0 && b[h][|b[h]| - 1] == r
    ensures forall k :: k in s.buffer && k !in Hits(cfg, r) ==> b[k] == s.buffer[k]
  {
    var s1 := TallyState(s, r);
    var hits := Hits(cfg, r);
    assert Step(cfg, s, r, pick).buffer == AddHits(s1.buffer, s1.dumpBuffer, hits, r, s1.buffer != map[]).0;
    AddHitsKeys(s1.buffer, s1.dumpBuffer, hits, r, s1.buffer != map[]);
    AddHitsContents(s1.buffer, s1.dumpBuffer, hits, r, s1.buffer != map[]);
    var t := AddHits(s1.buffer, s1.dumpBuffer, hits, r, s1.buffer != map[]).0;
    forall h | h in hits ensures |t[h]| > 0 && t[h][|t[h]| - 1] == r {
      assert multiset(hits)[h] > 0;
    }
    b := t;
  }

  /**
   * The first alignment of a new read when the previous group is
   * retainable: one record of that group is written, and the buffer starts
   * afresh with the regions this alignment hits.
   */
  lemma MultimapperClosesRetainedGroup(cfg: Config, s: State, r: Record, pick: string)
    requires Inv(s) && PassesGate(r, cfg.minIdentity, cfg.maxNM) && r.mq == 0
    requires r.name != s.prevRead && s.prevRead != ""
    requires s.dumpBuffer && s.buffer != map[]
    ensures var t := Step(cfg, s, r, pick);
      && |t.written| == |s.written| + 1 && t.written[..|s.written|] == s.written
      && (exists k :: k in s.buffer &&
           t.written[|s.written|] == s.buffer[k][|s.buffer[k]| - 1].(rd := Some(Join(s.multimapList, " "))))
      && t.filtered == s.filtered + 1 && t.prevRead == r.name
      && t.multimapList == [Locus(r)]
      && t.buffer.Keys == (set h | h in Hits(cfg, r))
      && t.dumpBuffer
      && (forall k, x :: k in t.buffer && x in t.buffer[k] ==> x == r)
  {
    var s1 := TallyState(s, r);
    FlushWritesLastOfBucket(s1, pick);
    var c := CloseGroup(s1, pick);
    AddHitsFacts(c.buffer, c.dumpBuffer, Hits(cfg, r), r, c.buffer != map[]);
  }

  /**
   * The first alignment of a new read when the previous group is not
   * retainable: nothing is written and the flag is set again, but the
   * buffer is not cleared, so the previous read's buckets stay and this
   * read's hits are checked against them.
   */
  lemma SuppressedBucketsSurvive(cfg: Config, s: State, r: Record, pick: string)
    requires Inv(s) && PassesGate(r, cfg.minIdentity, cfg.maxNM) && r.mq == 0
    requires r.name != s.prevRead && s.prevRead != ""
    requires !(s.dumpBuffer && s.buffer != map[])
    ensures var t := Step(cfg, s, r, pick);
      var hits := Hits(cfg, r);
      && t.written == s.written && t.filtered == s.filtered && t.prevRead == r.name
      && t.multimapList == [Locus(r)]
      && (forall k :: k in s.buffer ==> k in t.buffer && s.buffer[k] <= t.buffer[k])
      && t.buffer.Keys == s.buffer.Keys + (set h | h in hits)
      && t.dumpBuffer == (s.buffer == map[] || forall h :: h in hits ==> h in s.buffer)
      && (forall k, x :: k in t.buffer && x in t.buffer[k] ==> x == r || (k in s.buffer && x in s.buffer[k]))
  {
    var s1 := TallyState(s, r);
    var c := CloseGroup(s1, pick);
    AddHitsFacts(c.buffer, c.dumpBuffer, Hits(cfg, r), r, c.buffer != map[]);
  }

  /** No region buffered, a retainable flag and no loci: the state between groups. */
  ghost predicate Idle(s: State) {
    s.buffer == map[] && s.dumpBuffer && s.multimapList == []
  }

  /**
   * A multimapper seen between groups starts a group of its own, whatever
   * its name: its regions become the buckets, each holding just it.
   */
  lemma MultimapperOnIdle(cfg: Config, s: State, r: Record, pick: string)
    requires Inv(s) && Idle(s) && PassesGate(r, cfg.minIdentity, cfg.maxNM) && r.mq == 0
    ensures var t := Step(cfg, s, r, pick);
      && t.written == s.written && t.filtered == s.filtered && t.prevRead == r.name
      && t.multimapList == [Locus(r)]
      && t.buffer.Keys == (set h | h in Hits(cfg, r))
      && t.dumpBuffer
      && (forall k, x :: k in t.buffer && x in t.buffer[k] ==> x == r)
  {
    var s1 := TallyState(s, r);
    var c := if r.name != s1.prevRead && s1.prevRead != "" then CloseGroup(s1, pick) else s1;
    assert c.buffer == map[] && c.dumpBuffer && c.multimapList == [];
    AddHitsFacts(c.buffer, c.dumpBuffer, Hits(cfg, r), r, c.buffer != map[]);
  }

  /** The regions the alignments of a group hit. */
  function GroupKeys(cfg: Config, g: seq<Record>): (keys: set<string>)
    ensures forall h :: h in keys <==> exists i :: 0 <= i < |g| && h in Hits(cfg, g[i])
    decreases |g|
  {
    if g == [] then {}
    else
      var n := |g| - 1;
      var keys := GroupKeys(cfg, g[..n]) + set h | h in Hits(cfg, g[n]);
      assert forall i :: 0 <= i < n ==> g[..n][i] == g[i];
      keys
  }

  /**
   * The retention rule at group level: once some alignment of the group has
   * hit a region, every later alignment hits only regions already hit.
   */
  predicate GroupConsistent(cfg: Config, g: seq<Record>)
    decreases |g|
  {
    if g == [] then true
    else
      var n := |g| - 1;
      && GroupConsistent(cfg, g[..n])
      && (GroupKeys(cfg, g[..n]) == {} || forall h :: h in Hits(cfg, g[n]) ==> h in GroupKeys(cfg, g[..n]))
  }

  /** The locus tokens of a group, in order. */
  function Loci(g: seq<Record>): (loci: seq<string>)
    ensures |loci| == |g| && forall i :: 0 <= i < |g| ==> loci[i] == Locus(g[i])
  {
    seq(|g|, i requires 0 <= i < |g| => Locus(g[i]))
  }

  lemma LociSnoc(g: seq<Record>, r: Record)
    ensures Loci(g + [r]) == Loci(g) + [Locus(r)]
  {
    assert Loci(g + [r])[..|g|] == Loci(g);
  }

  /** The index of the last alignment of `g` that hits region `k`, or -1 when none does. */
  function LastHit(cfg: Config, g: seq<Record>, k: string): (i: int)
    ensures -1 <= i < |g|
    ensures i >= 0 ==> k in Hits(cfg, g[i])
    ensures forall j :: i < j < |g| ==> k !in Hits(cfg, g[j])
    decreases |g|
  {
    if g == [] then -1
    else if k in Hits(cfg, g[|g| - 1]) then |g| - 1
    else
      var n := |g| - 1;
      assert forall j :: 0 <= j < n ==> g[..n][j] == g[j];
      LastHit(cfg, g[..n], k)
  }

  /** Every bucket ends with the last alignment of `g` that hit its region. */
  ghost predicate LastOnTop(cfg: Config, b: Buffer, g: seq<Record>) {
    forall k :: k in b ==> TopAt(cfg, b, g, k)
  }

  /** Bucket `k` is non-empty and ends with the last alignment of `g` that hit region `k`. */
  ghost predicate TopAt(cfg: Config, b: Buffer, g: seq<Record>, k: string) {
    k in b && |b[k]| > 0 && LastHit(cfg, g, k) >= 0 && b[k][|b[k]| - 1] == g[LastHit(cfg, g, k)]
  }

  /** A buffer of the group's first alignment alone ends, in every bucket, with it. */
  lemma TopStart(cfg: Config, b: Buffer, r: Record)
    requires BucketsNonEmpty(b) && b.Keys == set h | h in Hits(cfg, r)
    requires forall k, x :: k in b && x in b[k] ==> x == r
    ensures LastOnTop(cfg, b, [r])
  {
    forall k | k in b
      ensures TopAt(cfg, b, [r], k)
    {
      assert b[k][|b[k]| - 1] in b[k];
      assert k in Hits(cfg, r);
    }
  }

  /**
   * Appending an alignment to the buckets it hits, and leaving the others
   * alone, keeps every bucket ending with the group's last alignment that
   * hit it.
   */
  lemma TopExtend(cfg: Config, b: Buffer, b': Buffer, g: seq<Record>, r: Record)
    requires LastOnTop(cfg, b, g)
    requires b'.Keys == b.Keys + set h | h in Hits(cfg, r)
    requires forall h :: h in Hits(cfg, r) ==> |b'[h]| > 0 && b'[h][|b'[h]| - 1] == r
    requires forall k :: k in b && k !in Hits(cfg, r) ==> b'[k] == b[k]
    ensures LastOnTop(cfg, b', g + [r])
  {
    var g' := g + [r];
    forall k | k in b'
      ensures TopAt(cfg, b', g', k)
    {
      assert g'[..|g|] == g;
      if k in Hits(cfg, r) {
        assert LastHit(cfg, g', k) == |g|;
      } else {
        assert k in b;
        var i := LastHit(cfg, g, k);
        assert LastHit(cfg, g', k) == i;
        assert b'[k] == b[k];
        assert g'[i] == g[i];
        assert TopAt(cfg, b, g, k);
      }
    }
  }

  /** All alignments of one read `n`, each with mapping quality 0 and passing the filters. */
  ghost predicate GroupOf(cfg: Config, g: seq<Record>, n: string) {
    forall i :: 0 <= i < |g| ==> g[i].name == n && g[i].mq == 0 && PassesGate(g[i], cfg.minIdentity, cfg.maxNM)
  }

  /** What processing the group `g` so far leaves in the state `t`. */
  ghost predicate Buffered(cfg: Config, s: State, t: State, g: seq<Record>, n: string) {
    && t.buffer.Keys == GroupKeys(cfg, g)
    && t.dumpBuffer == GroupConsistent(cfg, g)
    && t.multimapList == Loci(g)
    && t.written == s.written && t.filtered == s.filtered
    && (|g| > 0 ==> t.prevRead == n)
    && (forall k, x :: k in t.buffer && x in t.buffer[k] ==> x in g)
    && LastOnTop(cfg, t.buffer, g)
  }

  /** The regions of a group grow by the regions its next alignment hits. */
  lemma GroupKeysSnoc(cfg: Config, g: seq<Record>, r: Record)
    ensures GroupKeys(cfg, g + [r]) == GroupKeys(cfg, g) + set h | h in Hits(cfg, r)
  {
    assert (g + [r])[..|g|] == g;
  }

  /** A group stays consistent when its next alignment hits only regions already hit, or none was hit before. */
  lemma GroupConsistentSnoc(cfg: Config, g: seq<Record>, r: Record)
    ensures GroupConsistent(cfg, g + [r]) ==
      (GroupConsistent(cfg, g) && (GroupKeys(cfg, g) == {} || forall h :: h in Hits(cfg, r) ==> h in GroupKeys(cfg, g)))
  {
    assert (g + [r])[..|g|] == g;
  }

  /** The first alignment of the read starts what is buffered. */
  lemma GroupStart(cfg: Config, s: State, r: Record, n: string, pick: string)
    requires Inv(s) && Idle(s)
    requires r.name == n && r.mq == 0 && PassesGate(r, cfg.minIdentity, cfg.maxNM)
    ensures Buffered(cfg, s, Step(cfg, s, r, pick), [r], n)
  {
    GroupKeysSnoc(cfg, [], r);
    GroupConsistentSnoc(cfg, [], r);
    LociSnoc([], r);
    assert [] + [r] == [r];
    MultimapperOnIdle(cfg, s, r, pick);
    TopStart(cfg, Step(cfg, s, r, pick).buffer, r);
  }

  /** A further alignment of the read keeps every bucket ending with the group's last alignment that hit it. */
  lemma StepTop(cfg: Config, m: State, g: seq<Record>, r: Record, pick: string)
    requires Inv(m) && LastOnTop(cfg, m.buffer, g)
    requires PassesGate(r, cfg.minIdentity, cfg.maxNM) && r.mq == 0
    requires r.name == m.prevRead || m.prevRead == ""
    ensures LastOnTop(cfg, Step(cfg, m, r, pick).buffer, g + [r])
  {
    var b' := MultimapperSameReadBuckets(cfg, m, r, pick);
    TopExtend(cfg, m.buffer, b', g, r);
  }

  /** A further alignment of the read extends what is buffered. */
  lemma GroupExtend(cfg: Config, s: State, m: State, g: seq<Record>, r: Record, n: string, pick: string)
    requires Inv(m) && Buffered(cfg, s, m, g, n) && |g| > 0
    requires r.name == n && r.mq == 0 && PassesGate(r, cfg.minIdentity, cfg.maxNM)
    ensures Buffered(cfg, s, Step(cfg, m, r, pick), g + [r], n)
  {
    var g' := g + [r];
    var t := Step(cfg, m, r, pick);
    GroupKeysSnoc(cfg, g, r);
    GroupConsistentSnoc(cfg, g, r);
    LociSnoc(g, r);
    MultimapperSameRead(cfg, m, r, pick);
    assert (m.buffer == map[]) == (GroupKeys(cfg, g) == {}) by {
      assert (m.buffer == map[]) == (m.buffer.Keys == {});
    }
    forall k, x | k in t.buffer && x in t.buffer[k] ensures x in g' {
      assert x == r || x in g;
    }
    StepTop(cfg, m, g, r, pick);
  }

  /** One more alignment of the read extends what is buffered. */
  lemma GroupStep(cfg: Config, s: State, m: State, g: seq<Record>, r: Record, n: string, pick: string)
    requires Inv(m) && Idle(s) && Buffered(cfg, s, m, g, n)
    requires |g| == 0 ==> m == s
    requires r.name == n && r.mq == 0 && PassesGate(r, cfg.minIdentity, cfg.maxNM)
    ensures Buffered(cfg, s, Step(cfg, m, r, pick), g + [r], n)
  {
    if |g| == 0 {
      assert g + [r] == [r];
      GroupStart(cfg, s, r, n, pick);
    } else {
      GroupExtend(cfg, s, m, g, r, n, pick);
    }
  }

  /**
   * Feeding one read's multimapping alignments to the engine between groups
   * buffers exactly the regions they hit, keeps the group retainable
   * exactly when it is consistent, records their loci, and writes nothing.
   */
  lemma {:induction false} GroupBuffered(cfg: Config, s: State, g: seq<Record>, n: string, picks: seq<string>)
    requires Inv(s) && Idle(s) && |picks| == |g| && GroupOf(cfg, g, n)
    ensures Buffered(cfg, s, Steps(cfg, s, g, picks), g, n)
    decreases |g|
  {
    if g != [] {
      var k := |g| - 1;
      var g0, p0 := g[..k], picks[..k];
      assert g0 + [g[k]] == g;
      assert GroupOf(cfg, g0, n) by {
        assert forall i :: 0 <= i < k ==> g0[i] == g[i];
      }
      var m := Steps(cfg, s, g0, p0);
      var t := Step(cfg, m, g[k], picks[k]);
      assert Steps(cfg, s, g, picks) == t;
      GroupBuffered(cfg, s, g0, n, p0);
      GroupStep(cfg, s, m, g0, g[k], n, picks[k]);
    }
  }

  /** The record the dump after the loop writes from a retainable buffered group. */
  lemma EmitBufferedRecord(cfg: Config, s: State, t: State, g: seq<Record>, n: string, pick: string)
    requires Inv(t) && t.written == s.written
    requires LastOnTop(cfg, t.buffer, g)
    requires forall i :: 0 <= i < |g| ==> g[i].name == n
    requires t.dumpBuffer && t.buffer != map[]
    ensures var e := EndOfStream(t, pick);
      && |e.written| == |s.written| + 1
      && var w := e.written[|s.written|];
      && w.name == n && w.rd == Some(Join(t.multimapList, " "))
      && exists k :: k in t.buffer && (pick in t.buffer ==> k == pick) &&
           0 <= LastHit(cfg, g, k) && SameAlignment(w, g[LastHit(cfg, g, k)])
  {
    var e := EndOfStream(t, pick);
    assert e == FlushCounted(t, pick);
    FlushWritesLastOfBucket(t, pick);
    var k :| k in t.buffer && (pick in t.buffer ==> k == pick) &&
      e.written == t.written + [t.buffer[k][|t.buffer[k]| - 1].(rd := Some(Join(t.multimapList, " ")))];
    assert SameAlignment(e.written[|s.written|], g[LastHit(cfg, g, k)]);
  }

  /** What the dump after the loop writes from a buffered group. */
  lemma EmitBuffered(cfg: Config, s: State, t: State, g: seq<Record>, n: string, pick: string)
    requires Inv(t) && Buffered(cfg, s, t, g, n) && GroupOf(cfg, g, n)
    ensures var e := EndOfStream(t, pick);
      && s.written <= e.written
      && |e.written| == |s.written| + (if GroupKeys(cfg, g) != {} && GroupConsistent(cfg, g) then 1 else 0)
      && e.filtered == s.filtered + (|e.written| - |s.written|)
    ensures var e := EndOfStream(t, pick);
      |e.written| > |s.written| ==>
        var w := e.written[|s.written|];
        && w.name == n && w.rd == Some(Join(Loci(g), " "))
        && exists k :: k in GroupKeys(cfg, g) && (pick in GroupKeys(cfg, g) ==> k == pick) &&
             exists i :: 0 <= i < |g| && k in Hits(cfg, g[i]) && (forall j :: i < j < |g| ==> k !in Hits(cfg, g[j]))
               && SameAlignment(w, g[i])
  {
    EndOfStreamAppends(t, pick);
    assert (t.buffer == map[]) == (t.buffer.Keys == {});
    if t.dumpBuffer && t.buffer != map[] {
      EmitBufferedRecord(cfg, s, t, g, n, pick);
    }
  }

  /**
   * A group that ends the stream writes one record exactly when it hit some
   * region and is consistent: a copy, tagged with all its loci, of its last
   * alignment that hit the chosen region.
   */
  lemma GroupEmission(cfg: Config, s: State, g: seq<Record>, n: string, picks: seq<string>, pick: string)
    requires Inv(s) && Idle(s) && |picks| == |g| && GroupOf(cfg, g, n)
    ensures var e := EndOfStream(Steps(cfg, s, g, picks), pick);
      && s.written <= e.written
      && |e.written| == |s.written| + (if GroupKeys(cfg, g) != {} && GroupConsistent(cfg, g) then 1 else 0)
      && e.filtered == s.filtered + (|e.written| - |s.written|)
    ensures var e := EndOfStream(Steps(cfg, s, g, picks), pick);
      |e.written| > |s.written| ==>
        var w := e.written[|s.written|];
        && w.name == n && w.rd == Some(Join(Loci(g), " "))
        && exists k :: k in GroupKeys(cfg, g) && (pick in GroupKeys(cfg, g) ==> k == pick) &&
             exists i :: 0 <= i < |g| && k in Hits(cfg, g[i]) && (forall j :: i < j < |g| ==> k !in Hits(cfg, g[j]))
               && SameAlignment(w, g[i])
  {
    GroupBuffered(cfg, s, g, n, picks);
    EmitBuffered(cfg, s, Steps(cfg, s, g, picks), g, n, pick);
  }

  /** Every buffered record is one of `recs` that passed the filters. */
  ghost predicate BufferFrom(cfg: Config, b: Buffer, recs: seq<Record>) {
    forall k, x :: k in b && x in b[k] ==> x in recs && PassesGate(x, cfg.minIdentity, cfg.maxNM)
  }

  /** `w` is, up to its `RD` tag, one of `recs` that passed the filters. */
  ghost predicate Produced(w: Record, recs: seq<Record>, minIdentity: real, maxNM: int) {
    exists y :: y in recs && PassesGate(y, minIdentity, maxNM) && SameAlignment(w, y)
  }

  /** `t` extends the output of `s` with records produced from `recs` only. */
  ghost predicate OutputFrom(cfg: Config, s: State, t: State, recs: seq<Record>) {
    && s.written <= t.written
    && forall i :: |s.written| <= i < |t.written| ==> Produced(t.written[i], recs, cfg.minIdentity, cfg.maxNM)
  }

  /** A flush writes a tagged copy of a buffered record. */
  lemma FlushFrom(cfg: Config, s: State, pick: string, recs: seq<Record>)
    requires s.buffer != map[] && BucketsNonEmpty(s.buffer) && LociWellFormed(s)
    requires BufferFrom(cfg, s.buffer, recs)
    ensures var f := FlushCounted(s, pick);
      && |f.written| == |s.written| + 1 && f.written[..|s.written|] == s.written
      && Produced(f.written[|s.written|], recs, cfg.minIdentity, cfg.maxNM)
  {
    FlushWritesLastOfBucket(s, pick);
    var k :| k in s.buffer && Flush(s, pick).written == s.written + [s.buffer[k][|s.buffer[k]| - 1].(rd := Some(Join(s.multimapList, " ")))];
    var x := s.buffer[k][|s.buffer[k]| - 1];
    assert x in s.buffer[k];
    assert SameAlignment(FlushCounted(s, pick).written[|s.written|], x);
  }

  /** Every record of bucket map `b` is `r` or was already in its bucket of `b0`. */
  ghost predicate DrawnFrom(b: Buffer, b0: Buffer, r: Record) {
    forall k, x :: k in b && x in b[k] ==> x == r || (k in b0 && x in b0[k])
  }

  /** A pass over a passing record buffers nothing but that record and what was buffered. */
  lemma StepBuffersOnly(cfg: Config, s: State, r: Record, pick: string)
    requires Inv(s) && PassesGate(r, cfg.minIdentity, cfg.maxNM)
    ensures DrawnFrom(Step(cfg, s, r, pick).buffer, s.buffer, r)
  {
    if r.mq > 0 {
      UniqueMapperWritten(cfg, s, r, pick);
    } else if r.name == s.prevRead || s.prevRead == "" {
      MultimapperSameRead(cfg, s, r, pick);
    } else if s.dumpBuffer && s.buffer != map[] {
      MultimapperClosesRetainedGroup(cfg, s, r, pick);
    } else {
      SuppressedBucketsSurvive(cfg, s, r, pick);
    }
  }

  /** One pass writes only records of the stream read so far. */
  lemma StepWritesFrom(cfg: Config, s: State, r: Record, pick: string, recs: seq<Record>)
    requires Inv(s) && BufferFrom(cfg, s.buffer, recs) && PassesGate(r, cfg.minIdentity, cfg.maxNM)
    ensures OutputFrom(cfg, s, Step(cfg, s, r, pick), recs + [r])
  {
    var recs' := recs + [r];
    var t := Step(cfg, s, r, pick);
    var s1 := TallyState(s, r);
    assert BufferFrom(cfg, s1.buffer, recs') by {
      assert forall x :: x in recs ==> x in recs';
    }
    if r.mq > 0 {
      UniqueMapperWritten(cfg, s, r, pick);
      assert Produced(r, recs', cfg.minIdentity, cfg.maxNM);
      if s.dumpBuffer && s.buffer != map[] {
        FlushFrom(cfg, s1, pick, recs');
        assert t.written[|s.written|] == FlushCounted(s1, pick).written[|s.written|];
      }
    } else if r.name == s.prevRead || s.prevRead == "" {
      MultimapperSameRead(cfg, s, r, pick);
    } else if s.dumpBuffer && s.buffer != map[] {
      MultimapperClosesRetainedGroup(cfg, s, r, pick);
      FlushFrom(cfg, s1, pick, recs');
      assert t.written[|s.written|] == FlushCounted(s1, pick).written[|s.written|];
    } else {
      SuppressedBucketsSurvive(cfg, s, r, pick);
    }
  }

  /** One pass writes only records of the stream read so far and buffers only such records. */
  lemma StepFrom(cfg: Config, s: State, r: Record, pick: string, recs: seq<Record>)
    requires Inv(s) && BufferFrom(cfg, s.buffer, recs)
    ensures var t := Step(cfg, s, r, pick);
      BufferFrom(cfg, t.buffer, recs + [r]) && OutputFrom(cfg, s, t, recs + [r])
  {
    var recs' := recs + [r];
    var t := Step(cfg, s, r, pick);
    if !PassesGate(r, cfg.minIdentity, cfg.maxNM) {
      GateRejectOnlyTallies(cfg, s, r, pick);
      assert forall x :: x in recs ==> x in recs';
    } else {
      StepBuffersOnly(cfg, s, r, pick);
      forall k, x | k in t.buffer && x in t.buffer[k]
        ensures x in recs' && PassesGate(x, cfg.minIdentity, cfg.maxNM)
      {
        if x != r {
          assert x in recs;
        }
      }
      StepWritesFrom(cfg, s, r, pick, recs);
    }
  }

  /** Over a stream, every record written is a (possibly tagged) alignment of the stream that passed the filters. */
  lemma {:induction false} StepsFrom(cfg: Config, s: State, recs: seq<Record>, picks: seq<string>)
    requires Inv(s) && s.buffer == map[] && |picks| == |recs|
    ensures var t := Steps(cfg, s, recs, picks);
      BufferFrom(cfg, t.buffer, recs) && OutputFrom(cfg, s, t, recs)
    decreases |recs|
  {
    if recs != [] {
      var n := |recs| - 1;
      var m := Steps(cfg, s, recs[..n], picks[..n]);
      StepsFrom(cfg, s, recs[..n], picks[..n]);
      StepFrom(cfg, m, recs[n], picks[n], recs[..n]);
      assert recs[..n] + [recs[n]] == recs;
      var t := Steps(cfg, s, recs, picks);
      forall i | |s.written| <= i < |t.written| ensures Produced(t.written[i], recs, cfg.minIdentity, cfg.maxNM) {
        if i < |m.written| {
          assert Produced(m.written[i], recs[..n], cfg.minIdentity, cfg.maxNM);
          var y :| y in recs[..n] && PassesGate(y, cfg.minIdentity, cfg.maxNM) && SameAlignment(m.written[i], y);
          assert m.written[i] == t.written[i];
          assert y in recs;
        }
      }
    }
  }

  /** The dump after the loop writes, if anything, a tagged copy of a buffered record. */
  lemma EndOfStreamFrom(cfg: Config, s: State, pick: string, recs: seq<Record>)
    requires Inv(s) && BufferFrom(cfg, s.buffer, recs)
    ensures OutputFrom(cfg, s, EndOfStream(s, pick), recs)
  {
    if s.dumpBuffer && s.buffer != map[] {
      FlushFrom(cfg, s, pick, recs);
    }
  }

  /**
   * `out` is what the engine writes for the stream `recs` over an index of
   * `beds`: the loop followed by the final dump, for some bucket choices.
   */
  ghost predicate RetainedOutput(recs: seq<Record>, beds: seq<BedRecord>, minIdentity: real, maxNM: int, out: seq<Record>) {
    InitialInv();
    exists index: Index, picks: seq<string>, pick: string ::
      && Indexes(index, beds) && |picks| == |recs|
      && out == EndOfStream(Steps(Config(index, minIdentity, maxNM), Initial, recs, picks), pick).written
  }

  /** The output of the filter holds only alignments of its input that passed the filters, tagged or not. */
  lemma OutputFromInput(cfg: Config, recs: seq<Record>, picks: seq<string>, pick: string)
    requires |picks| == |recs|
    ensures var e := EndOfStream(Steps(cfg, Initial, recs, picks), pick);
      forall i :: 0 <= i < |e.written| ==> Produced(e.written[i], recs, cfg.minIdentity, cfg.maxNM)
  {
    InitialInv();
    StepsFrom(cfg, Initial, recs, picks);
    EndOfStreamFrom(cfg, Steps(cfg, Initial, recs, picks), pick, recs);
  }

  /** A pass keeps what was written, and writes a passing unique mapper. */
  lemma StepKeepsWritten(cfg: Config, s: State, r: Record, pick: string)
    requires Inv(s)
    ensures var t := Step(cfg, s, r, pick);
      && (forall x :: x in s.written ==> x in t.written)
      && (PassesGate(r, cfg.minIdentity, cfg.maxNM) && r.mq > 0 ==> r in t.written)
  {
    var t := Step(cfg, s, r, pick);
    StepAppends(cfg, s, r, pick);
    forall x | x in s.written ensures x in t.written {
      var i :| 0 <= i < |s.written| && s.written[i] == x;
      assert t.written[i] == x;
    }
    if PassesGate(r, cfg.minIdentity, cfg.maxNM) && r.mq > 0 {
      UniqueMapperWritten(cfg, s, r, pick);
      assert r == t.written[|t.written| - 1];
    }
  }

  /** Every passing unique mapper of the stream is written during the loop. */
  lemma {:induction false} StepsWriteUniques(cfg: Config, s: State, recs: seq<Record>, picks: seq<string>)
    requires Inv(s) && |picks| == |recs|
    ensures var t := Steps(cfg, s, recs, picks);
      forall j :: 0 <= j < |recs| && PassesGate(recs[j], cfg.minIdentity, cfg.maxNM) && recs[j].mq > 0 ==>
        recs[j] in t.written
    decreases |recs|
  {
    if recs != [] {
      var n := |recs| - 1;
      var m := Steps(cfg, s, recs[..n], picks[..n]);
      var t := Step(cfg, m, recs[n], picks[n]);
      assert Steps(cfg, s, recs, picks) == t;
      StepsWriteUniques(cfg, s, recs[..n], picks[..n]);
      StepKeepsWritten(cfg, m, recs[n], picks[n]);
      forall j | 0 <= j < n && PassesGate(recs[j], cfg.minIdentity, cfg.maxNM) && recs[j].mq > 0
        ensures recs[j] in t.written
      {
        assert recs[..n][j] == recs[j];
      }
    }
  }

  /** A unique mapper that passes the filters is written, and the dump after the loop keeps it. */
  lemma StepsKeepUniques(cfg: Config, s: State, recs: seq<Record>, picks: seq<string>, pick: string)
    requires Inv(s) && |picks| == |recs|
    ensures var t := Steps(cfg, s, recs, picks);
      forall j :: 0 <= j < |recs| && PassesGate(recs[j], cfg.minIdentity, cfg.maxNM) && recs[j].mq > 0 ==>
        recs[j] in t.written && recs[j] in EndOfStream(t, pick).written
  {
    var t := Steps(cfg, s, recs, picks);
    StepsWriteUniques(cfg, s, recs, picks);
    EndOfStreamAppends(t, pick);
    var e := EndOfStream(t, pick);
    forall x | x in t.written ensures x in e.written {
      var i :| 0 <= i < |t.written| && t.written[i] == x;
      assert e.written[i] == x;
    }
  }

  /** Every buffered record belongs to the read named `prevRead`, and that name is not empty. */
  ghost predicate Owned(s: State) {
    forall k, x :: k in s.buffer && x in s.buffer[k] ==> x.name == s.prevRead && s.prevRead != ""
  }

  /**
   * What the surviving buckets lead to: when the pending read was marked
   * not retainable and the next read's first multimapper hits no region,
   * the old buckets stay with the flag set again, and the dump after the
   * loop writes an alignment of the previous read tagged with the next
   * read's locus.
   */
  lemma StaleRecordEmitted(cfg: Config, s: State, r: Record, pick: string, pick': string)
    requires Inv(s) && Owned(s) && !s.dumpBuffer
    requires PassesGate(r, cfg.minIdentity, cfg.maxNM) && r.mq == 0 && r.name != s.prevRead
    requires Hits(cfg, r) == []
    ensures var e := EndOfStream(Step(cfg, s, r, pick), pick');
      && |e.written| == |s.written| + 1
      && e.written[|s.written|].name == s.prevRead
      && e.written[|s.written|].name != r.name
      && e.written[|s.written|].rd == Some(Locus(r))
  {
    var k0 :| k0 in s.buffer;
    assert |s.buffer[k0]| > 0;
    var x0 := s.buffer[k0][0];
    assert x0 in s.buffer[k0];
    assert x0.name == s.prevRead;
    assert s.prevRead != "";
    SuppressedBucketsSurvive(cfg, s, r, pick);
    var t := Step(cfg, s, r, pick);
    assert t.buffer == s.buffer;
    FlushWritesLastOfBucket(t, pick');
    var k :| k in t.buffer && EndOfStream(t, pick').written == t.written + [t.buffer[k][|t.buffer[k]| - 1].(rd := Some(Join(t.multimapList, " ")))];
    assert t.buffer[k][|t.buffer[k]| - 1] in s.buffer[k];
  }

  /** An annotation with two regions on `chr1`, `A` over [10, 20] and `B` over [30, 40]. */
  const ExampleConfig := Config(map["chr1" := [Interval(10, 21, "A"), Interval(30, 41, "B")]], 0.8, -1)

  /** An alignment of read `name` with mapping quality 0 over [start, end). */
  function ExampleRead(name: string, start: nat, end: nat): Record {
    Record(name, "chr1", start, end, 0, false, false, false, 1.0, 0, None)
  }

  /** The regions the three example alignments hit. */
  lemma ExampleHits()
    ensures var cfg := ExampleConfig;
      && (set h | h in Hits(cfg, ExampleRead("q1", 12, 15))) == {"A"}
      && (set h | h in Hits(cfg, ExampleRead("q1", 32, 35))) == {"B"}
      && Hits(cfg, ExampleRead("q2", 100, 110)) == []
  {
    var ivs := ExampleConfig.index["chr1"];
    assert ivs[..1] == [ivs[0]] && ivs[..1][..0] == [];
    assert OverlapNames(ivs, 100, 110) == [];
  }

  /** After the first alignment of `q1` the buffer holds it under `A` alone, and nothing is written. */
  lemma ExampleFirst(p0: string)
    ensures var s1 := Steps(ExampleConfig, Initial, [ExampleRead("q1", 12, 15)], [p0]);
      && s1.buffer.Keys == {"A"} && s1.prevRead == "q1" && s1.written == []
      && (forall k, x :: k in s1.buffer && x in s1.buffer[k] ==> x == ExampleRead("q1", 12, 15))
  {
    var a1 := ExampleRead("q1", 12, 15);
    assert [a1][..0] == [] && [p0][..0] == [];
    InitialInv();
    ExampleHits();
    assert Steps(ExampleConfig, Initial, [a1], [p0]) == Step(ExampleConfig, Initial, a1, p0);
    MultimapperOnIdle(ExampleConfig, Initial, a1, p0);
  }

  /** After the two alignments of `q1` the flag is cleared, nothing is written, and only `q1` is buffered. */
  lemma ExampleSuppressed(p0: string, p1: string)
    ensures var s2 := Steps(ExampleConfig, Initial, [ExampleRead("q1", 12, 15), ExampleRead("q1", 32, 35)], [p0, p1]);
      Inv(s2) && Owned(s2) && !s2.dumpBuffer && s2.prevRead == "q1" && s2.written == []
  {
    var cfg := ExampleConfig;
    var a1, a2 := ExampleRead("q1", 12, 15), ExampleRead("q1", 32, 35);
    assert [a1, a2][..1] == [a1];
    assert [p0, p1][..1] == [p0];
    var s1 := Steps(cfg, Initial, [a1], [p0]);
    ExampleFirst(p0);
    ExampleHits();
    var s2 := Step(cfg, s1, a2, p1);
    assert Steps(cfg, Initial, [a1, a2], [p0, p1]) == s2;
    MultimapperSameRead(cfg, s1, a2, p1);
    assert "B" in Hits(cfg, a2) && "B" !in s1.buffer;
  }

  /**
   * Read `q1` maps equally well into regions `A` and `B`, so the filter
   * marks it not retainable; read `q2` follows with one alignment outside
   * both regions. The output is one alignment of `q1`.
   */
  lemma StaleRecordExample(picks: seq<string>, pick: string)
    requires |picks| == 3
    ensures var e := EndOfStream(Steps(ExampleConfig, Initial,
        [ExampleRead("q1", 12, 15), ExampleRead("q1", 32, 35), ExampleRead("q2", 100, 110)], picks), pick);
      |e.written| == 1 && e.written[0].name == "q1"
  {
    var cfg := ExampleConfig;
    var a1, a2, b := ExampleRead("q1", 12, 15), ExampleRead("q1", 32, 35), ExampleRead("q2", 100, 110);
    var recs := [a1, a2, b];
    assert recs[..2] == [a1, a2];
    assert picks[..2] == [picks[0], picks[1]];
    ExampleSuppressed(picks[0], picks[1]);
    ExampleHits();
    var s2 := Steps(cfg, Initial, [a1, a2], [picks[0], picks[1]]);
    assert Steps(cfg, Initial, recs, picks) == Step(cfg, s2, b, picks[2]);
    StaleRecordEmitted(cfg, s2, b, picks[2], pick);
  }
}
