/** The correlation step of the MEV notifier (`process_data` in mev_bot.py):
    raw MEV records are left-joined to the validator directory on
    `proposer == pubkey`, their micro-unit values are converted to dollars,
    and only the rows whose dollar value is strictly above the threshold are
    kept, in the order of the records. */
module Correlator {
  import opened Wrappers

  /** The raw `value` field is in micro-units: one dollar is 10^6 of them. */
  const MicroPerDollar: int := 1_000_000

  /** One datapoint of the `raw_mev` endpoint. */
  datatype MevRecord = MevRecord(height: int, proposer: string, value: int)

  /** One entry of the `validator` endpoint. */
  datatype Validator = Validator(pubkey: string, moniker: string)

  /** One row of the merged frame: the record's columns and the moniker of the
      validator it was joined to, absent when no validator matched. */
  datatype Enriched = Enriched(height: int, proposer: string, value: int, moniker: Option<string>)

  /** The `MEV value ($)` column: the raw value divided by 10^6, exactly. */
  function Dollars(micro: int): (d: real)
    ensures d * MicroPerDollar as real == micro as real
  {
    micro as real / MicroPerDollar as real
  }

  /** The filter condition: the dollar value is strictly above the threshold.
      It is a unit conversion, so it can be decided on the raw value. */
  predicate AboveThreshold(micro: int, threshold: int): (above: bool)
    ensures above <==> micro > threshold * MicroPerDollar
  {
    Dollars(micro) > threshold as real
  }

  /** The validator directory is keyed by pubkey: no two entries share one. */
  predicate UniqueKeys(validators: seq<Validator>)
  {
    forall i, j :: 0 <= i < |validators| && 0 <= j < |validators| && validators[i].pubkey == validators[j].pubkey ==> i == j
  }

  /** The right-hand side of the left join: the moniker of the validator whose
      pubkey is `key`, or None when the directory has no such validator. */
  function MonikerOf(validators: seq<Validator>, key: string): (m: Option<string>)
    ensures m.None? <==> forall j :: 0 <= j < |validators| ==> validators[j].pubkey != key
    ensures m.Some? ==> exists j :: 0 <= j < |validators| && validators[j].pubkey == key && validators[j].moniker == m.value
  {
    if validators == [] then None
    else if validators[0].pubkey == key then Some(validators[0].moniker)
    else
      var m := MonikerOf(validators[1..], key);
      assert forall j :: 1 <= j < |validators| ==> validators[j] == validators[1..][j - 1];
      m
  }

  /** With unique pubkeys, the moniker found for a validator's key is that validator's. */
  lemma MonikerOfUnique(validators: seq<Validator>, j: int)
    requires UniqueKeys(validators)
    requires 0 <= j < |validators|
    ensures MonikerOf(validators, validators[j].pubkey) == Some(validators[j].moniker)
  {
  }

  /** One record, left-joined to the directory: the record's columns, and
      the moniker of a validator whose pubkey is the proposer, if any. */
  function Enrich(r: MevRecord, validators: seq<Validator>): (row: Enriched)
    ensures row.height == r.height && row.proposer == r.proposer && row.value == r.value
    ensures row.moniker.None? <==> forall j :: 0 <= j < |validators| ==> validators[j].pubkey != r.proposer
    ensures row.moniker.Some? ==>
              exists j :: 0 <= j < |validators| && validators[j].pubkey == r.proposer && validators[j].moniker == row.moniker.value
  {
    Enriched(r.height, r.proposer, r.value, MonikerOf(validators, r.proposer))
  }

  /** `pd.merge(..., how='left')`: one row per record, in record order. */
  function LeftJoin(records: seq<MevRecord>, validators: seq<Validator>): (joined: seq<Enriched>)
    ensures |joined| == |records|
    ensures forall i :: 0 <= i < |records| ==>
              && joined[i].height == records[i].height
              && joined[i].proposer == records[i].proposer
              && joined[i].value == records[i].value
              && joined[i].moniker == MonikerOf(validators, records[i].proposer)
  {
    seq(|records|, i requires 0 <= i < |records| => Enrich(records[i], validators))
  }

  /** The boolean mask `merged[merged['MEV value ($)'] > threshold]`. */
  function KeepAbove(rows: seq<Enriched>, threshold: int): (kept: seq<Enriched>)
    ensures |kept| <= |rows|
    ensures forall k :: 0 <= k < |kept| ==> AboveThreshold(kept[k].value, threshold) && kept[k] in rows
  {
    if rows == [] then []
    else (if AboveThreshold(rows[0].value, threshold) then [rows[0]] else []) + KeepAbove(rows[1..], threshold)
  }

  /** `process_data` as a value: join, convert, filter. */
  function Correlate(records: seq<MevRecord>, validators: seq<Validator>, threshold: int): (out: seq<Enriched>)
    ensures forall k :: 0 <= k < |out| ==> AboveThreshold(out[k].value, threshold)
  {
    KeepAbove(LeftJoin(records, validators), threshold)
  }

  /** The number of records whose dollar value is above the threshold. */
  function CountAbove(records: seq<MevRecord>, threshold: int): nat
  {
    if records == [] then 0
    else (if AboveThreshold(records[0].value, threshold) then 1 else 0) + CountAbove(records[1..], threshold)
  }

  /** Counting distributes over concatenation. */
  lemma {:induction false} CountAboveAppend(a: seq<MevRecord>, b: seq<MevRecord>, threshold: int)
    ensures CountAbove(a + b, threshold) == CountAbove(a, threshold) + CountAbove(b, threshold)
  {
    if a == [] {
      assert a + b == b;
    } else {
      assert (a + b)[1..] == a[1..] + b;
      CountAboveAppend(a[1..], b, threshold);
    }
  }

  /** Correlating a non-empty batch handles its first record, then the rest. */
  lemma CorrelateCons(records: seq<MevRecord>, validators: seq<Validator>, threshold: int)
    requires records != []
    ensures Correlate(records, validators, threshold)
         == (if AboveThreshold(records[0].value, threshold) then [Enrich(records[0], validators)] else [])
            + Correlate(records[1..], validators, threshold)
  {
    assert LeftJoin(records, validators)[1..] == LeftJoin(records[1..], validators);
  }

  /** Exactly as many rows survive as there are records above the threshold. */
  lemma {:induction false} CorrelateLength(records: seq<MevRecord>, validators: seq<Validator>, threshold: int)
    ensures |Correlate(records, validators, threshold)| == CountAbove(records, threshold)
  {
    if records != [] {
      CorrelateCons(records, validators, threshold);
      CorrelateLength(records[1..], validators, threshold);
    }
  }

  /** Completeness: a record above the threshold survives, joined, at the
      position given by the number of surviving records before it. */
  lemma {:induction false} SurvivorAt(records: seq<MevRecord>, validators: seq<Validator>, threshold: int, i: int)
    requires 0 <= i < |records|
    requires AboveThreshold(records[i].value, threshold)
    ensures CountAbove(records[..i], threshold) < |Correlate(records, validators, threshold)|
    ensures Correlate(records, validators, threshold)[CountAbove(records[..i], threshold)] == Enrich(records[i], validators)
  {
    CorrelateCons(records, validators, threshold);
    if i == 0 {
      assert records[..0] == [];
    } else {
      SurvivorAt(records[1..], validators, threshold, i - 1);
      assert records[..i][1..] == records[1..][..i - 1];
    }
  }

  /** Soundness of origin: every surviving row is the join of a record above
      the threshold, and its position is that record's rank among survivors. */
  lemma {:induction false} SurvivorOrigin(records: seq<MevRecord>, validators: seq<Validator>, threshold: int, k: int)
    requires 0 <= k < |Correlate(records, validators, threshold)|
    ensures exists i :: 0 <= i < |records| && AboveThreshold(records[i].value, threshold)
                        && CountAbove(records[..i], threshold) == k
                        && Correlate(records, validators, threshold)[k] == Enrich(records[i], validators)
  {
    CorrelateCons(records, validators, threshold);
    var head := if AboveThreshold(records[0].value, threshold) then 1 else 0;
    if head == 1 && k == 0 {
      assert records[..0] == [];
      assert AboveThreshold(records[0].value, threshold) && CountAbove(records[..0], threshold) == 0;
    } else {
      SurvivorOrigin(records[1..], validators, threshold, k - head);
      var i :| 0 <= i < |records[1..]| && AboveThreshold(records[1..][i].value, threshold)
               && CountAbove(records[1..][..i], threshold) == k - head
               && Correlate(records[1..], validators, threshold)[k - head] == Enrich(records[1..][i], validators);
      assert records[..i + 1][1..] == records[1..][..i];
      assert CountAbove(records[..i + 1], threshold) == k;
    }
  }

  /** The rank of a surviving record is strictly below that of any later record. */
  lemma RankIncreasing(records: seq<MevRecord>, threshold: int, i: int, j: int)
    requires 0 <= i < j <= |records|
    requires AboveThreshold(records[i].value, threshold)
    ensures CountAbove(records[..i], threshold) < CountAbove(records[..j], threshold)
  {
    assert records[..j] == records[..i] + records[i..j];
    CountAboveAppend(records[..i], records[i..j], threshold);
  }

  /** Order: two surviving records appear in the output in their input order,
      and distinct records occupy distinct rows (each survives exactly once). */
  lemma OrderPreserved(records: seq<MevRecord>, validators: seq<Validator>, threshold: int, i: int, j: int)
    requires 0 <= i < j < |records|
    requires AboveThreshold(records[i].value, threshold) && AboveThreshold(records[j].value, threshold)
    ensures var out := Correlate(records, validators, threshold);
            var p, q := CountAbove(records[..i], threshold), CountAbove(records[..j], threshold);
            p < q < |out| && out[p] == Enrich(records[i], validators) && out[q] == Enrich(records[j], validators)
  {
    SurvivorAt(records, validators, threshold, i);
    SurvivorAt(records, validators, threshold, j);
    RankIncreasing(records, threshold, i, j);
  }

  /** Left-join semantics: a record above the threshold whose proposer is in
      no validator entry is kept, with its moniker absent. */
  lemma UnmatchedRecordKept(records: seq<MevRecord>, validators: seq<Validator>, threshold: int, i: int)
    requires 0 <= i < |records|
    requires AboveThreshold(records[i].value, threshold)
    requires forall j :: 0 <= j < |validators| ==> validators[j].pubkey != records[i].proposer
    ensures Enriched(records[i].height, records[i].proposer, records[i].value, None) in Correlate(records, validators, threshold)
  {
    SurvivorAt(records, validators, threshold, i);
  }

  /** The moniker of a surviving row is that of the validator whose pubkey is
      the row's proposer, and it is absent exactly when there is none. */
  lemma RowMoniker(records: seq<MevRecord>, validators: seq<Validator>, threshold: int, k: int)
    requires UniqueKeys(validators)
    requires 0 <= k < |Correlate(records, validators, threshold)|
    ensures var row := Correlate(records, validators, threshold)[k];
            && (row.moniker.None? <==> forall j :: 0 <= j < |validators| ==> validators[j].pubkey != row.proposer)
            && forall j :: 0 <= j < |validators| && validators[j].pubkey == row.proposer ==> row.moniker == Some(validators[j].moniker)
  {
    SurvivorOrigin(records, validators, threshold, k);
    var row := Correlate(records, validators, threshold)[k];
    forall j | 0 <= j < |validators| && validators[j].pubkey == row.proposer
      ensures row.moniker == Some(validators[j].moniker)
    {
      MonikerOfUnique(validators, j);
    }
  }
}
