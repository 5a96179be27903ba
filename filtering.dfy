/**
 * The `Filter` entry point: the freshness check, the default filter used
 * without a BED file, the retention filter used with one, and the read-group
 * summary written into the output header.
 */
module Filtering {
  import opened Wrappers
  import opened Strings
  import opened Alignments
  import opened IntervalIndex
  import Misc
  import Engine
  import RetentionProps

  // ---------------------------------------------------------------- default filter

  /** The default filter keeps a mapped record of mapping quality at least `mq` that passes the first-pass filters. */
  predicate SimpleKeeps(r: Record, mq: int, minIdentity: real, maxNM: int) {
    PassesGate(r, minIdentity, maxNM) && !(r.mq < mq)
  }

  /** The records the default filter writes, in stream order. */
  function SimpleSelection(recs: seq<Record>, mq: int, minIdentity: real, maxNM: int): seq<Record>
  {
    if recs == [] then []
    else
      var r := recs[|recs| - 1];
      SimpleSelection(recs[..|recs| - 1], mq, minIdentity, maxNM) + (if SimpleKeeps(r, mq, minIdentity, maxNM) then [r] else [])
  }

  /** A record is written by the default filter exactly when it is in the stream and the filter keeps it. */
  lemma {:induction false} SimpleSelectionMembers(recs: seq<Record>, mq: int, minIdentity: real, maxNM: int)
    ensures forall x :: x in SimpleSelection(recs, mq, minIdentity, maxNM) <==> x in recs && SimpleKeeps(x, mq, minIdentity, maxNM)
  {
    if recs != [] {
      var n := |recs| - 1;
      SimpleSelectionMembers(recs[..n], mq, minIdentity, maxNM);
      assert recs == recs[..n] + [recs[n]];
    }
  }

  /** The default filter never writes more records than it reads, and writes all of them exactly when it keeps each one. */
  lemma {:induction false} SimpleSelectionLength(recs: seq<Record>, mq: int, minIdentity: real, maxNM: int)
    ensures var sel := SimpleSelection(recs, mq, minIdentity, maxNM);
      |sel| <= |recs| && (|sel| == |recs| <==> forall i :: 0 <= i < |recs| ==> SimpleKeeps(recs[i], mq, minIdentity, maxNM))
  {
    if recs != [] {
      var n := |recs| - 1;
      SimpleSelectionLength(recs[..n], mq, minIdentity, maxNM);
      assert forall i :: 0 <= i < n ==> recs[..n][i] == recs[i];
    }
  }

  /** Lines 202-221: the default filter loop with its three counters. */
  method SimpleFilter(recs: seq<Record>, mq: int, minIdentity: real, maxNM: int)
    returns (out: seq<Record>, mappedReads: nat, unmappedReads: nat, filteredReads: nat)
    ensures out == SimpleSelection(recs, mq, minIdentity, maxNM)
    ensures mappedReads == CountMapped(recs) && unmappedReads == CountUnmapped(recs)
    ensures filteredReads == CountPrimary(out)
  {
    out := [];
    mappedReads, unmappedReads, filteredReads := 0, 0, 0;
    for i := 0 to |recs|
      invariant out == SimpleSelection(recs[..i], mq, minIdentity, maxNM)
      invariant mappedReads == CountMapped(recs[..i]) && unmappedReads == CountUnmapped(recs[..i])
      invariant filteredReads == CountPrimary(out)
    {
      var read := recs[i];
      assert recs[..i + 1][..i] == recs[..i] && recs[..i + 1][i] == read;
      if IsPrimary(read) {
        if read.unmapped {
          unmappedReads := unmappedReads + 1;
        } else {
          mappedReads := mappedReads + 1;
        }
      }
      if read.unmapped {
        continue;
      }
      if read.mq < mq {
        continue;
      }
      if read.xi < minIdentity {
        continue;
      }
      if maxNM > -1 && read.nm > maxNM {
        continue;
      }
      if IsPrimary(read) {
        filteredReads := filteredReads + 1;
      }
      assert (out + [read])[..|out|] == out;
      out := out + [read];
    }
    assert recs[..|recs|] == recs;
  }

  // ---------------------------------------------------------------- summary

  const SequencedKey := "{'sequenced':"
  const MappedKey := ",'mapped':"
  const FilteredKey := ",'filtered':"

  /** Line 232: the read-group description recording the three counts. */
  function Summary(mapped: nat, unmapped: nat, filtered: nat): string {
    SequencedKey + NatToString(mapped + unmapped) + (MappedKey + NatToString(mapped) + (FilteredKey + NatToString(filtered) + "}"))
  }

  /** Reads `key` followed by a non-empty run of digits; gives the number and what follows. */
  function ParseField(key: string, s: string): (r: Option<(nat, string)>)
    ensures r.Some? ==> |r.value.1| < |s|
  {
    if key <= s then
      var rest := s[|key|..];
      var k := DigitPrefix(rest);
      if k == 0 then None else Some((DigitsToNat(rest[..k]), rest[k..]))
    else None
  }

  /** Reads a description of the form written at line 232 back into `(sequenced, mapped, filtered)`. */
  function ParseSummary(s: string): Option<(nat, nat, nat)> {
    match ParseField(SequencedKey, s)
    case None => None
    case Some((sequenced, r1)) =>
      match ParseField(MappedKey, r1)
      case None => None
      case Some((mapped, r2)) =>
        match ParseField(FilteredKey, r2)
        case None => None
        case Some((filtered, r3)) => if r3 == "}" then Some((sequenced, mapped, filtered)) else None
  }

  lemma ParseFieldOf(key: string, n: nat, rest: string)
    requires rest == [] || !IsDigit(rest[0])
    ensures ParseField(key, key + NatToString(n) + rest) == Some((n, rest))
  {
    var d := NatToString(n);
    var s := key + d + rest;
    assert s[|key|..] == d + rest;
    DigitPrefixOfDigits(d, rest);
    assert (d + rest)[..|d|] == d && (d + rest)[|d|..] == rest;
    NatToStringRoundTrip(n);
  }

  /** The description reads back as `sequenced = mapped + unmapped`, `mapped` and `filtered`. */
  lemma SummaryRoundTrip(mapped: nat, unmapped: nat, filtered: nat)
    ensures ParseSummary(Summary(mapped, unmapped, filtered)) == Some((mapped + unmapped, mapped, filtered))
  {
    var tail3 := "}";
    var tail2 := FilteredKey + NatToString(filtered) + tail3;
    var tail1 := MappedKey + NatToString(mapped) + tail2;
    assert tail1[0] == ',' && tail2[0] == ',' && tail3[0] == '}';
    var text := Summary(mapped, unmapped, filtered);
    assert text == SequencedKey + NatToString(mapped + unmapped) + tail1;
    ParseFieldOf(SequencedKey, mapped + unmapped, tail1);
    assert ParseField(SequencedKey, text) == Some((mapped + unmapped, tail1));
    ParseFieldOf(MappedKey, mapped, tail2);
    ParseFieldOf(FilteredKey, filtered, tail3);
  }

  // ---------------------------------------------------------------- header

  /** The part of the output header the filter touches: the read groups, if the header has any. */
  datatype Header = Header(readGroups: Option<seq<map<string, string>>>)

  /** Lines 230-232: the first read group's `DS` field is set to `ds`, when there is a read group. */
  function WithSummary(h: Header, ds: string): (h': Header)
    ensures h.readGroups.None? || |h.readGroups.value| == 0 ==> h' == h
    ensures h.readGroups.Some? && |h.readGroups.value| > 0 ==>
      var rgs := h.readGroups.value;
      && h'.readGroups.Some? && |h'.readGroups.value| == |rgs|
      && h'.readGroups.value[0].Keys == rgs[0].Keys + {"DS"}
      && h'.readGroups.value[0]["DS"] == ds
      && (forall k :: k in rgs[0] && k != "DS" ==> h'.readGroups.value[0][k] == rgs[0][k])
      && (forall i :: 0 < i < |rgs| ==> h'.readGroups.value[i] == rgs[i])
  {
    if h.readGroups.Some? && |h.readGroups.value| > 0 then
      var rgs := h.readGroups.value;
      Header(Some(rgs[0 := rgs[0]["DS" := ds]]))
    else h
  }

  // ---------------------------------------------------------------- Filter

  /** The freshness check on one input and one output. */
  lemma SingleFile(inputBAM: string, outputBAM: string, fs: Misc.FileSystem)
    ensures Misc.AllExist([inputBAM], fs) <==> inputBAM in fs
    ensures Misc.AllExist([outputBAM], fs) <==> outputBAM in fs
    ensures inputBAM in fs && outputBAM in fs ==>
      (Misc.AllNewer([outputBAM], [inputBAM], fs) <==> fs[outputBAM] > fs[inputBAM])
  {
    assert [inputBAM][0] == inputBAM && [outputBAM][0] == outputBAM;
  }

  datatype FilterError = StepFailed(stepError: Misc.MiscError) | BedFailed(bedError: IndexError)

  /** What a call of `Filter` ends with: skipped by the freshness check, done, or an exception. */
  datatype FilterOutcome = Skipped | Done(records: seq<Record>, header: Header) | Failed(error: FilterError)

  /** The default filter's output and header, as line 232 describes them. */
  ghost predicate SimpleResult(recs: seq<Record>, header: Header, mq: int, minIdentity: real, nm: int, r: FilterOutcome)
    requires r.Done?
  {
    && r.records == SimpleSelection(recs, mq, minIdentity, nm)
    && r.header == WithSummary(header, Summary(CountMapped(recs), CountUnmapped(recs), CountPrimary(r.records)))
  }

  /** The retention filter's output and header. */
  ghost predicate RetentionResult(recs: seq<Record>, beds: seq<BedRecord>, header: Header, minIdentity: real, nm: int, r: FilterOutcome)
    requires r.Done?
  {
    && RetentionProps.RetainedOutput(recs, beds, minIdentity, nm, r.records)
    && r.header == WithSummary(header, Summary(CountMapped(recs), CountUnmapped(recs), |r.records|))
    && (forall i :: 0 <= i < |r.records| ==> RetentionProps.Produced(r.records[i], recs, minIdentity, nm))
    && (forall j :: 0 <= j < |recs| && PassesGate(recs[j], minIdentity, nm) && recs[j].mq > 0 ==> recs[j] in r.records)
  }

  /**
   * Lines 187-232. The freshness check runs only without `printOnly`; the
   * BED file, when given, switches to the retention filter; and the counts
   * go into the first read group of the output header.
   */
  method Filter(inputBAM: string, outputBAM: string, fs: Misc.FileSystem, recs: seq<Record>, header: Header,
                bed: Option<seq<BedRecord>>, mq: int, minIdentity: real, nm: int, printOnly: bool, force: bool)
    returns (r: FilterOutcome)
    ensures r.Skipped? <==> !printOnly && inputBAM in fs && outputBAM in fs && fs[outputBAM] > fs[inputBAM] && !force
    ensures r == Failed(StepFailed(Misc.MissingInput)) <==> !printOnly && inputBAM !in fs
    ensures r.Failed? && r.error.BedFailed? <==>
      (printOnly || inputBAM in fs) && !r.Skipped? &&
      bed.Some? && exists i :: 0 <= i < |bed.value| && IsNull(ToInterval(bed.value[i]))
    ensures r.Failed? ==> r.error.StepFailed? ==> r.error.stepError == Misc.MissingInput
    ensures r.Done? && bed.None? ==> SimpleResult(recs, header, mq, minIdentity, nm, r)
    ensures r.Done? && bed.Some? ==> RetentionResult(recs, bed.value, header, minIdentity, nm, r)
  {
    if !printOnly {
      var c := Misc.CheckStep([inputBAM], [outputBAM], force, fs);
      SingleFile(inputBAM, outputBAM, fs);
      if c.Err? {
        return Failed(StepFailed(c.error));
      }
      if !c.value {
        return Skipped;
      }
    }
    var out: seq<Record>;
    var mapped: nat, unmapped: nat, filtered: nat;
    if bed.None? {
      out, mapped, unmapped, filtered := SimpleFilter(recs, mq, minIdentity, nm);
    } else {
      var res := Engine.MultimapUTRRetainment(recs, bed.value, minIdentity, nm);
      if res.Err? {
        return Failed(BedFailed(res.error));
      }
      var (m, u, f, o) := res.value;
      out, mapped, unmapped, filtered := o, m, u, f;
    }
    var newHeader := WithSummary(header, Summary(mapped, unmapped, filtered));
    r := Done(out, newHeader);
  }
}
