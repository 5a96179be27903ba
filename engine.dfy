/**
 * The retention filter as the source runs it: the locals of
 * `multimapUTRRetainment` are the fields of an engine, and every method is
 * proved to do what the matching function of module Retention says.
 */
module Engine {
  import opened Wrappers
  import opened Strings
  import opened Alignments
  import opened IntervalIndex
  import opened Retention
  import RetentionProps

  class RetentionEngine {
    const cfg: Config
    var multimapBuffer: Buffer
    var dumpBuffer: bool
    /** The locus string, each locus followed by a space. */
    var multimapList: string
    /** The loci that `multimapList` was built from. */
    ghost var loci: seq<string>
    var prevRead: string
    var mappedReads: nat
    var unmappedReads: nat
    var filteredReads: nat
    /** The records written to the output, in order. */
    var written: seq<Record>

    /** The engine as a value of the specification. */
    ghost function State(): State
      reads this
    {
      Retention.State(multimapBuffer, dumpBuffer, loci, prevRead, mappedReads, unmappedReads, filteredReads, written)
    }

    ghost predicate Valid()
      reads this
    {
      Inv(State()) && multimapList == Terminated(loci, " ")
    }

    constructor(cfg: Config)
      ensures Valid() && this.cfg == cfg && State() == Initial
    {
      this.cfg := cfg;
      multimapBuffer := map[];
      dumpBuffer := true;
      multimapList := "";
      loci := [];
      prevRead := "";
      mappedReads, unmappedReads, filteredReads := 0, 0, 0;
      written := [];
    }

    /** Lines 51-56: pop the last record of some bucket, tag it with the stripped locus string, and write it. */
    method DumpBufferToBam() returns (ghost pick: string)
      requires Valid() && multimapBuffer != map[]
      modifies this
      ensures multimapList == old(multimapList) && loci == old(loci)
      ensures State() == Flush(old(State()), pick)
    {
      var k :| k in multimapBuffer;
      pick := k;
      var bucket := multimapBuffer[k];
      var read := bucket[|bucket| - 1];
      multimapBuffer := multimapBuffer[k := bucket[..|bucket| - 1]];
      var rd := RStrip(multimapList, ' ');
      written := written + [read.(rd := Some(rd))];
    }

    /** Lines 130-134: the first hits of a group extend their buckets and leave `dumpBuffer` alone. */
    method RecordFirstHits(read: Record, query: seq<string>)
      requires Valid() && multimapBuffer == map[]
      modifies this
      ensures (multimapBuffer, dumpBuffer) == AddHits(old(multimapBuffer), old(dumpBuffer), query, read, false)
      ensures multimapList == old(multimapList) && loci == old(loci) && prevRead == old(prevRead)
      ensures mappedReads == old(mappedReads) && unmappedReads == old(unmappedReads)
      ensures filteredReads == old(filteredReads) && written == old(written)
    {
      for i := 0 to |query|
        invariant AddHits(multimapBuffer, dumpBuffer, query[i..], read, false)
          == AddHits(old(multimapBuffer), old(dumpBuffer), query, read, false)
        invariant multimapList == old(multimapList) && loci == old(loci) && prevRead == old(prevRead)
        invariant mappedReads == old(mappedReads) && unmappedReads == old(unmappedReads)
        invariant filteredReads == old(filteredReads) && written == old(written)
      {
        var data := query[i];
        assert query[i..][0] == data && query[i..][1..] == query[i + 1..];
        AddHitsFirst(multimapBuffer, dumpBuffer, query[i..], read, false);
        ghost var b0 := multimapBuffer;
        if data !in multimapBuffer {
          multimapBuffer := multimapBuffer[data := []];
        }
        ghost var b1 := multimapBuffer;
        multimapBuffer := multimapBuffer[data := multimapBuffer[data] + [read]];
        if data !in b0 {
          assert b1[data] + [read] == [read];
          assert multimapBuffer == b0[data := [read]];
        }
      }
    }

    /** Lines 136-143: later hits may open new buckets, and a new bucket clears `dumpBuffer`. */
    method RecordMoreHits(read: Record, query: seq<string>)
      requires Valid()
      modifies this
      ensures (multimapBuffer, dumpBuffer) == AddHits(old(multimapBuffer), old(dumpBuffer), query, read, true)
      ensures multimapList == old(multimapList) && loci == old(loci) && prevRead == old(prevRead)
      ensures mappedReads == old(mappedReads) && unmappedReads == old(unmappedReads)
      ensures filteredReads == old(filteredReads) && written == old(written)
    {
      for i := 0 to |query|
        invariant AddHits(multimapBuffer, dumpBuffer, query[i..], read, true)
          == AddHits(old(multimapBuffer), old(dumpBuffer), query, read, true)
        invariant multimapList == old(multimapList) && loci == old(loci) && prevRead == old(prevRead)
        invariant mappedReads == old(mappedReads) && unmappedReads == old(unmappedReads)
        invariant filteredReads == old(filteredReads) && written == old(written)
      {
        var data := query[i];
        assert query[i..][0] == data && query[i..][1..] == query[i + 1..];
        AddHitsFirst(multimapBuffer, dumpBuffer, query[i..], read, true);
        if data !in multimapBuffer {
          ghost var b0 := multimapBuffer;
          multimapBuffer := multimapBuffer[data := []];
          ghost var b1 := multimapBuffer;
          multimapBuffer := multimapBuffer[data := multimapBuffer[data] + [read]];
          assert b1[data] + [read] == [read];
          assert multimapBuffer == b0[data := [read]];
          dumpBuffer := false;
        } else {
          multimapBuffer := multimapBuffer[data := multimapBuffer[data] + [read]];
        }
      }
    }

    /** Lines 84-175: one pass of the loop over `read`. */
    method Consume(read: Record) returns (ghost pick: string)
      requires Valid()
      modifies this
      ensures Valid() && State() == Step(cfg, old(State()), read, pick)
    {
      pick := "";
      if IsPrimary(read) {
        if read.unmapped {
          unmappedReads := unmappedReads + 1;
        } else {
          mappedReads := mappedReads + 1;
        }
      }
      ghost var s1 := State();
      assert s1 == TallyState(old(State()), read);
      if read.unmapped || read.xi < cfg.minIdentity || (cfg.maxNM > -1 && read.nm > cfg.maxNM) {
        assert Step(cfg, old(State()), read, pick) == s1;
        return;
      }
      if read.mq == 0 {
        pick := ConsumeMultimapper(read);
        assert State() == Multimapper(cfg, s1, read, pick);
      } else {
        pick := ConsumeUniqueMapper(read);
        assert State() == UniqueMapper(s1, read, pick);
      }
    }

    /** Lines 100-116: a multimapper of a new read closes the pending group. */
    method CloseGroup(read: Record) returns (ghost pick: string)
      requires Valid()
      modifies this
      ensures Valid() && State() == Retention.CloseGroup(old(State()), pick)
      ensures prevRead == old(prevRead)
    {
      pick := "";
      if dumpBuffer && |multimapBuffer| > 0 {
        pick := DumpBufferToBam();
        filteredReads := filteredReads + 1;
        multimapBuffer := map[];
      }
      dumpBuffer := true;
      multimapList, loci := "", [];
    }

    /** Lines 98-154: a multimapper that passed the filters. */
    method ConsumeMultimapper(read: Record) returns (ghost pick: string)
      requires Valid() && read.mq == 0
      modifies this
      ensures Valid() && State() == Multimapper(cfg, old(State()), read, pick)
    {
      pick := "";
      ghost var s0 := State();
      if read.name != prevRead && prevRead != "" {
        pick := CloseGroup(read);
      }
      assert State() == if read.name != s0.prevRead && s0.prevRead != "" then Retention.CloseGroup(s0, pick) else s0;
      AddMultimapper(read);
    }

    /** Lines 122-154: buffer the multimapper under the regions it hits and record its locus. */
    method AddMultimapper(read: Record)
      requires Valid()
      modifies this
      ensures Valid() && State() == Retention.AddMultimapper(cfg, old(State()), read)
    {
      var query := Query(cfg.index, read.chrom, read.start, read.end);
      if |query| > 0 {
        if |multimapBuffer| == 0 {
          RecordFirstHits(read, query);
        } else {
          RecordMoreHits(read, query);
        }
      }
      assert (multimapBuffer, dumpBuffer) == if |query| > 0 then AddHits(old(multimapBuffer), old(dumpBuffer), query, read, old(multimapBuffer) != map[]) else old((multimapBuffer, dumpBuffer));
      var locus := Locus(read);
      multimapList := multimapList + locus + " ";
      loci := loci + [locus];
      assert multimapList == Terminated(loci, " ") by {
        assert loci[..|loci| - 1] == old(loci);
      }
      prevRead := read.name;
      assert State() == Retention.AddMultimapper(cfg, old(State()), read);
    }

    /** Lines 155-175: a unique mapper that passed the filters. */
    method ConsumeUniqueMapper(read: Record) returns (ghost pick: string)
      requires Valid()
      modifies this
      ensures Valid() && State() == UniqueMapper(old(State()), read, pick)
    {
      pick := "";
      ghost var s0 := State();
      if |multimapBuffer| > 0 {
        if dumpBuffer {
          pick := DumpBufferToBam();
          filteredReads := filteredReads + 1;
          assert State() == FlushCounted(s0, pick);
        }
        ghost var s2 := State();
        multimapBuffer := map[];
        dumpBuffer := true;
        multimapList, loci := "", [];
        assert State() == s2.(buffer := map[], dumpBuffer := true, multimapList := []);
      }
      ghost var s1 := State();
      prevRead := read.name;
      written := written + [read];
      filteredReads := filteredReads + 1;
      assert State() == s1.(prevRead := read.name, written := s1.written + [read], filtered := s1.filtered + 1);
      assert State() == UniqueMapper(s0, read, pick);
    }

    /** Lines 84-176: the loop over a whole stream. */
    method ConsumeAll(recs: seq<Record>) returns (ghost picks: seq<string>)
      requires Valid()
      modifies this
      ensures Valid() && |picks| == |recs| && State() == Steps(cfg, old(State()), recs, picks)
    {
      picks := [];
      for i := 0 to |recs|
        invariant Valid() && |picks| == i
        invariant State() == Steps(cfg, old(State()), recs[..i], picks)
      {
        ghost var before := State();
        var pick := Consume(recs[i]);
        assert recs[..i + 1][..i] == recs[..i] && (picks + [pick])[..i] == picks;
        picks := picks + [pick];
      }
      assert recs[..|recs|] == recs;
    }

    /** Lines 179-181: dump the last group when it is retainable. */
    method DumpLast() returns (ghost pick: string)
      requires Valid()
      modifies this
      ensures State() == EndOfStream(old(State()), pick)
    {
      pick := "";
      if dumpBuffer && |multimapBuffer| > 0 {
        pick := DumpBufferToBam();
        filteredReads := filteredReads + 1;
      }
    }
  }

  /**
   * `multimapUTRRetainment`: index the BED records, run the engine over the
   * stream and dump the last group. A null BED interval is the error the
   * interval tree raises.
   */
  method MultimapUTRRetainment(recs: seq<Record>, beds: seq<BedRecord>, minIdentity: real, nm: int)
    returns (r: Result<(nat, nat, nat, seq<Record>), IndexError>)
    ensures r.Err? <==> exists i :: 0 <= i < |beds| && IsNull(ToInterval(beds[i]))
    ensures r.Ok? ==>
      var (mapped, unmapped, filtered, out) := r.value;
      && mapped == CountMapped(recs) && unmapped == CountUnmapped(recs)
      && filtered == |out|
      && (forall i :: 0 <= i < |out| ==> RetentionProps.Produced(out[i], recs, minIdentity, nm))
      && (forall j :: 0 <= j < |recs| && PassesGate(recs[j], minIdentity, nm) && recs[j].mq > 0 ==> recs[j] in out)
      && RetentionProps.RetainedOutput(recs, beds, minIdentity, nm, out)
  {
    var utrs := BedToIntervalTree(beds);
    if utrs.Err? {
      return Err(utrs.error);
    }
    var cfg := Config(utrs.value, minIdentity, nm);
    var engine := new RetentionEngine(cfg);
    ghost var s0 := engine.State();
    var picks := engine.ConsumeAll(recs);
    ghost var t := engine.State();
    var pick := engine.DumpLast();
    RetentionProps.StepsCounts(cfg, s0, recs, picks);
    RetentionProps.StepsAppend(cfg, s0, recs, picks);
    RetentionProps.EndOfStreamAppends(t, pick);
    assert s0 == Initial && engine.State() == EndOfStream(Steps(cfg, Initial, recs, picks), pick);
    assert engine.written == engine.State().written;
    RetentionProps.OutputFromInput(cfg, recs, picks, pick);
    RetentionProps.StepsKeepUniques(cfg, s0, recs, picks, pick);
    r := Ok((engine.mappedReads, engine.unmappedReads, engine.filteredReads, engine.written));
    assert r.value.3 == engine.written;
    assert Indexes(utrs.value, beds);
    assert r.value.3 == EndOfStream(Steps(cfg, Initial, recs, picks), pick).written;
    assert RetentionProps.RetainedOutput(recs, beds, minIdentity, nm, r.value.3);
  }
}
