/**
 * Alignment records as the filter sees them, the per-record quality gate
 * shared by both filtering modes, and the mapped/unmapped tallies.
 */
module Alignments {
  import opened Wrappers

  /**
   * One alignment: query name, reference name, half-open span, mapping
   * quality, the three flags the filter reads, the identity (`XI`) and
   * edit-distance (`NM`) tags, and the `RD` tag the retention engine sets.
   */
  datatype Record = Record(
    name: string,
    chrom: string,
    start: nat,
    end: nat,
    mq: nat,
    unmapped: bool,
    secondary: bool,
    supplementary: bool,
    xi: real,
    nm: int,
    rd: Option<string>)

  predicate IsPrimary(r: Record) {
    !r.secondary && !r.supplementary
  }

  /** The first-pass filters: mapped, identity at least `minIdentity`, and edit distance within `maxNM` when `maxNM > -1`. */
  predicate PassesGate(r: Record, minIdentity: real, maxNM: int) {
    && !r.unmapped
    && !(r.xi < minIdentity)
    && !(maxNM > -1 && r.nm > maxNM)
  }

  /** Two records that differ at most in their `RD` tag. */
  predicate SameAlignment(a: Record, b: Record) {
    a.(rd := None) == b.(rd := None)
  }

  /** Primary records that are mapped. */
  function CountMapped(recs: seq<Record>): nat
  {
    if recs == [] then 0
    else CountMapped(recs[..|recs| - 1]) + (var r := recs[|recs| - 1]; if IsPrimary(r) && !r.unmapped then 1 else 0)
  }

  /** Primary records that are unmapped. */
  function CountUnmapped(recs: seq<Record>): nat
  {
    if recs == [] then 0
    else CountUnmapped(recs[..|recs| - 1]) + (var r := recs[|recs| - 1]; if IsPrimary(r) && r.unmapped then 1 else 0)
  }

  /** Primary records. */
  function CountPrimary(recs: seq<Record>): nat
  {
    if recs == [] then 0
    else CountPrimary(recs[..|recs| - 1]) + (if IsPrimary(recs[|recs| - 1]) then 1 else 0)
  }

  /** The tally step: a primary record adds one to exactly one of the two counters, a secondary or supplementary one to neither. */
  function Tally(mapped: nat, unmapped: nat, r: Record): (t: (nat, nat))
    ensures t.0 + t.1 == mapped + unmapped + (if IsPrimary(r) then 1 else 0)
    ensures t.0 >= mapped && t.1 >= unmapped
  {
    if IsPrimary(r) then
      if r.unmapped then (mapped, unmapped + 1) else (mapped + 1, unmapped)
    else (mapped, unmapped)
  }

  /** Tallying a stream gives the counts of its mapped and unmapped primaries. */
  lemma {:induction false} TallyCounts(recs: seq<Record>, r: Record)
    ensures Tally(CountMapped(recs), CountUnmapped(recs), r) == (CountMapped(recs + [r]), CountUnmapped(recs + [r]))
  {
    assert (recs + [r])[..|recs|] == recs;
  }

  /** Every primary record is counted as either mapped or unmapped: `sequenced == mapped + unmapped`. */
  lemma {:induction false} MappedPlusUnmappedIsPrimary(recs: seq<Record>)
    ensures CountMapped(recs) + CountUnmapped(recs) == CountPrimary(recs)
  {
    if recs != [] {
      MappedPlusUnmappedIsPrimary(recs[..|recs| - 1]);
    }
  }
}
