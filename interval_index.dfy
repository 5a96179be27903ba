/**
 * The per-chromosome interval index built from BED records, and the
 * overlap query the retention engine puts to it.
 *
 * Each chromosome holds the intervals of an interval tree as a sequence.
 * The tree library refuses an interval whose end does not exceed its begin,
 * ignores an interval it already holds, and answers a slice query
 * `[begin:end)` with the intervals `iv` such that `iv.begin < end` and
 * `iv.end > begin`, and with nothing when `begin >= end`.
 */
module IntervalIndex {
  import opened Wrappers

  /** A parsed BED line: 0-based start and inclusive stop. */
  datatype BedRecord = BedRecord(chromosome: string, start: int, stop: int, name: string)

  /** A half-open interval carrying a region name. */
  datatype Interval = Interval(begin: int, end: int, data: string)

  type Index = map<string, seq<Interval>>

  datatype IndexError = NullInterval(record: BedRecord)

  /** The interval a BED record is stored as: `[start, stop + 1)`. */
  function ToInterval(b: BedRecord): Interval {
    Interval(b.start, b.stop + 1, b.name)
  }

  predicate IsNull(iv: Interval) {
    iv.end <= iv.begin
  }

  predicate Overlaps(iv: Interval, begin: int, end: int) {
    iv.begin < end && iv.end > begin
  }

  predicate NoDuplicates(ivs: seq<Interval>) {
    forall i, j :: 0 <= i < j < |ivs| ==> ivs[i] != ivs[j]
  }

  /** The chromosomes of `index` are those of `beds`. */
  ghost predicate KeysAre(index: Index, beds: seq<BedRecord>) {
    forall c :: c in index <==> exists b :: b in beds && b.chromosome == c
  }

  /** Every record of `beds` is stored under its chromosome. */
  ghost predicate HoldsAll(index: Index, beds: seq<BedRecord>) {
    forall b :: b in beds ==> b.chromosome in index && ToInterval(b) in index[b.chromosome]
  }

  /** Every stored interval comes from a record of `beds` on that chromosome. */
  ghost predicate HoldsOnly(index: Index, beds: seq<BedRecord>) {
    forall c, iv :: c in index && iv in index[c] ==> exists b :: b in beds && b.chromosome == c && ToInterval(b) == iv
  }

  ghost predicate Deduplicated(index: Index) {
    forall c :: c in index ==> NoDuplicates(index[c])
  }

  /** `index` holds exactly the intervals of the BED records `beds`, once each, under their chromosomes. */
  ghost predicate Indexes(index: Index, beds: seq<BedRecord>) {
    KeysAre(index, beds) && HoldsAll(index, beds) && HoldsOnly(index, beds) && Deduplicated(index)
  }

  /** The tree assignment `utrs[chromosome][start:stop + 1] = name`, creating the chromosome's tree when absent. */
  function Insert(index: Index, b: BedRecord): (r: Index)
    ensures r.Keys == index.Keys + {b.chromosome}
    ensures forall c :: c in index && c != b.chromosome ==> r[c] == index[c]
    ensures ToInterval(b) in r[b.chromosome]
    ensures forall iv :: iv in r[b.chromosome] ==> iv == ToInterval(b) || (b.chromosome in index && iv in index[b.chromosome])
    ensures b.chromosome in index ==> forall iv :: iv in index[b.chromosome] ==> iv in r[b.chromosome]
    ensures Deduplicated(index) ==> Deduplicated(r)
  {
    var before := if b.chromosome in index then index[b.chromosome] else [];
    var iv := ToInterval(b);
    index[b.chromosome := if iv in before then before else before + [iv]]
  }

  lemma InsertKeys(index: Index, beds: seq<BedRecord>, b: BedRecord)
    requires KeysAre(index, beds)
    ensures KeysAre(Insert(index, b), beds + [b])
  {
    var r := Insert(index, b);
    forall c | c in r
      ensures exists b' :: b' in beds + [b] && b'.chromosome == c
    {
      if c != b.chromosome {
        var b' :| b' in beds && b'.chromosome == c;
        assert b' in beds + [b];
      }
    }
  }

  lemma InsertHoldsAll(index: Index, beds: seq<BedRecord>, b: BedRecord)
    requires HoldsAll(index, beds)
    ensures HoldsAll(Insert(index, b), beds + [b])
  {
  }

  lemma InsertHoldsOnly(index: Index, beds: seq<BedRecord>, b: BedRecord)
    requires HoldsOnly(index, beds)
    ensures HoldsOnly(Insert(index, b), beds + [b])
  {
    var r := Insert(index, b);
    forall c, iv | c in r && iv in r[c]
      ensures exists b' :: b' in beds + [b] && b'.chromosome == c && ToInterval(b') == iv
    {
      if c == b.chromosome && iv == ToInterval(b) {
        assert b in beds + [b];
      } else {
        assert c in index && iv in index[c];
        var b' :| b' in beds && b'.chromosome == c && ToInterval(b') == iv;
        assert b' in beds + [b];
      }
    }
  }

  /** Inserting the next record extends what the index holds by that record. */
  lemma InsertIndexes(index: Index, beds: seq<BedRecord>, k: nat)
    requires k < |beds| && Indexes(index, beds[..k])
    ensures Indexes(Insert(index, beds[k]), beds[..k + 1])
  {
    assert beds[..k] + [beds[k]] == beds[..k + 1];
    InsertKeys(index, beds[..k], beds[k]);
    InsertHoldsAll(index, beds[..k], beds[k]);
    InsertHoldsOnly(index, beds[..k], beds[k]);
  }

  /**
   * The loop of `bedToIntervallTree`: inserts the records in order and stops
   * at the first one whose interval is empty, returning its position.
   */
  method InsertRecords(beds: seq<BedRecord>) returns (utrs: Index, k: nat)
    ensures k <= |beds| && Indexes(utrs, beds[..k])
    ensures forall j :: 0 <= j < k ==> !IsNull(ToInterval(beds[j]))
    ensures k < |beds| ==> IsNull(ToInterval(beds[k]))
  {
    utrs, k := map[], 0;
    while k < |beds| && !IsNull(ToInterval(beds[k]))
      invariant 0 <= k <= |beds|
      invariant forall j :: 0 <= j < k ==> !IsNull(ToInterval(beds[j]))
      invariant Indexes(utrs, beds[..k])
    {
      InsertIndexes(utrs, beds, k);
      utrs := Insert(utrs, beds[k]);
      k := k + 1;
    }
  }

  /**
   * `bedToIntervallTree(bed)`: one interval collection per chromosome, each
   * BED record stored under its chromosome as `[start, stop + 1)` with its
   * name; the first record giving an empty interval makes the tree raise.
   */
  method BedToIntervalTree(beds: seq<BedRecord>) returns (r: Result<Index, IndexError>)
    ensures r.Err? <==> exists i :: 0 <= i < |beds| && IsNull(ToInterval(beds[i]))
    ensures r.Err? ==>
      exists i :: 0 <= i < |beds| && r.error == NullInterval(beds[i]) && IsNull(ToInterval(beds[i])) &&
        (forall j :: 0 <= j < i ==> !IsNull(ToInterval(beds[j])))
    ensures r.Ok? ==> KeysAre(r.value, beds) && HoldsAll(r.value, beds) && HoldsOnly(r.value, beds) && Deduplicated(r.value)
  {
    var utrs, k := InsertRecords(beds);
    if k < |beds| {
      r := Err(NullInterval(beds[k]));
    } else {
      assert beds[..k] == beds;
      r := Ok(utrs);
    }
  }

  /** Names of the intervals of `ivs` that overlap `[begin, end)`, one per interval, in order. */
  function OverlapNames(ivs: seq<Interval>, begin: int, end: int): (names: seq<string>)
    ensures forall n :: n in names <==> exists iv :: iv in ivs && iv.data == n && Overlaps(iv, begin, end)
  {
    if ivs == [] then []
    else
      var last := ivs[|ivs| - 1];
      assert forall iv :: iv in ivs <==> iv in ivs[..|ivs| - 1] || iv == last;
      OverlapNames(ivs[..|ivs| - 1], begin, end) + (if Overlaps(last, begin, end) then [last.data] else [])
  }

  /**
   * The region names reported for an alignment on `chromosome` spanning
   * `[begin, end)`; a chromosome without annotation gives the empty result.
   */
  function Query(index: Index, chromosome: string, begin: int, end: int): (names: seq<string>)
    ensures chromosome !in index ==> names == []
    ensures forall n :: n in names <==>
      chromosome in index && begin < end &&
      exists iv :: iv in index[chromosome] && iv.data == n && Overlaps(iv, begin, end)
  {
    if chromosome in index && begin < end then OverlapNames(index[chromosome], begin, end) else []
  }

  /** A region stored from a BED record is reported for every alignment span that meets `[start, stop]`. */
  lemma QueryFindsRecord(index: Index, b: BedRecord, begin: int, end: int)
    requires b.chromosome in index && ToInterval(b) in index[b.chromosome]
    requires begin < end && begin <= b.stop && b.start < end
    ensures b.name in Query(index, b.chromosome, begin, end)
  {
    assert Overlaps(ToInterval(b), begin, end);
  }
}
