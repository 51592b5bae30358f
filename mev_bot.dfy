/** One call of `check_mev_values` from mev_bot.py (defined there, though
    nothing in that file calls it), with its network fetches passed in as
    their results: the block range, the lookback window, the MEV and
    validator data, the correlation of `process_data` on the caller's frame,
    and the decision whether a notification is built and what it lists. */
module MevBot {
  import opened Wrappers
  import opened Correlator

  /** The module-level `settings` the check reads; only the threshold (in
      dollars) is used by the core. */
  datatype Settings = Settings(threshold: int)

  /** The settings the bot starts with: a $300 threshold. */
  const DefaultSettings: Settings := Settings(300)

  /** Each check looks back over this many blocks from the chain head. */
  const LookbackBlocks: int := 50000

  /** With the default settings a block is reported when its raw value
      exceeds 300 * 10^6 micro-units. */
  lemma DefaultThresholdInMicroUnits(micro: int)
    ensures AboveThreshold(micro, DefaultSettings.threshold) <==> micro > 300_000_000
  {
  }

  /** The MEV data frame that `process_data` is given and changes in place:
      its records, and the `MEV value ($)` column it adds to them. A new
      frame holds the fetched records and no dollar column yet. */
  class MevFrame {
    var rows: seq<MevRecord>
    var dollarColumn: Option<seq<real>>

    constructor (rows: seq<MevRecord>)
      ensures this.rows == rows && dollarColumn == None
    {
      this.rows := rows;
      dollarColumn := None;
    }
  }

  /** `process_data`: adds the dollar column to the caller's frame, then
      returns the left join of the frame with the validators, filtered on that
      column against the settings' threshold. */
  method ProcessData(frame: MevFrame, validators: seq<Validator>, settings: Settings) returns (filtered: seq<Enriched>)
    requires UniqueKeys(validators)
    modifies frame
    ensures frame.rows == old(frame.rows)
    ensures frame.dollarColumn.Some? && |frame.dollarColumn.value| == |frame.rows|
    ensures forall i :: 0 <= i < |frame.rows| ==> frame.dollarColumn.value[i] == Dollars(frame.rows[i].value)
    ensures filtered == Correlate(frame.rows, validators, settings.threshold)
  {
    var rows := frame.rows;
    frame.dollarColumn := Some(seq(|rows|, i requires 0 <= i < |rows| => Dollars(rows[i].value)));
    filtered := KeepAbove(LeftJoin(rows, validators), settings.threshold);
  }

  /** A line of the notification: the header naming the threshold, or one
      reported block with its height, dollar value and proposer moniker. */
  datatype Line = Header(threshold: int) | BlockLine(height: int, dollars: real, moniker: Option<string>)

  /** The line reporting one filtered row: its height, its value in
      dollars and its moniker, if the join found one. */
  function LineFor(row: Enriched): (line: Line)
    ensures line.BlockLine? && line.height == row.height && line.moniker == row.moniker
    ensures line.dollars * MicroPerDollar as real == row.value as real
  {
    BlockLine(row.height, Dollars(row.value), row.moniker)
  }

  /** The `message +=` loop: the header, then one line per row, in row order. */
  method BuildMessage(threshold: int, rows: seq<Enriched>) returns (message: seq<Line>)
    ensures |message| == |rows| + 1
    ensures message[0] == Header(threshold)
    ensures forall i :: 0 <= i < |rows| ==> message[i + 1] == LineFor(rows[i])
  {
    message := [Header(threshold)];
    for i := 0 to |rows|
      invariant |message| == i + 1
      invariant message[0] == Header(threshold)
      invariant forall k :: 0 <= k < i ==> message[k + 1] == LineFor(rows[k])
    {
      message := message + [LineFor(rows[i])];
    }
  }

  /** What a notification for `mev` promises: the header naming the
      threshold, then exactly one line per record above the threshold, at the
      position of its rank among those records (so in record order), each
      carrying the record's height, its dollar value and its proposer's
      moniker. */
  ghost predicate ReportsBlocksAbove(message: seq<Line>, threshold: int, mev: seq<MevRecord>, validators: seq<Validator>)
  {
    && |message| == CountAbove(mev, threshold) + 1
    && message[0] == Header(threshold)
    && EveryBlockAboveListed(message, threshold, mev, validators)
    && OnlyBlocksAboveListed(message, threshold, mev, validators)
  }

  /** Each record above the threshold has its line right after the header
      plus its rank among those records. */
  ghost predicate EveryBlockAboveListed(message: seq<Line>, threshold: int, mev: seq<MevRecord>, validators: seq<Validator>)
  {
    forall i :: 0 <= i < |mev| && AboveThreshold(mev[i].value, threshold) ==>
      && CountAbove(mev[..i], threshold) + 1 < |message|
      && message[CountAbove(mev[..i], threshold) + 1] == LineFor(Enrich(mev[i], validators))
  }

  /** Each line after the header is the line of a record above the threshold
      whose rank puts it there. */
  ghost predicate OnlyBlocksAboveListed(message: seq<Line>, threshold: int, mev: seq<MevRecord>, validators: seq<Validator>)
  {
    forall k :: 1 <= k < |message| ==> LineOfBlockAbove(message, threshold, mev, validators, k)
  }

  /** Line `k` of the message is the line of a record above the threshold
      whose rank among those records is `k - 1`. */
  ghost predicate LineOfBlockAbove(message: seq<Line>, threshold: int, mev: seq<MevRecord>, validators: seq<Validator>, k: int)
  {
    && 0 <= k < |message|
    && exists i :: 0 <= i < |mev| && AboveThreshold(mev[i].value, threshold)
                   && CountAbove(mev[..i], threshold) == k - 1
                   && message[k] == LineFor(Enrich(mev[i], validators))
  }

  /** The header followed by one line per correlated row, in row order. */
  ghost predicate ListsRows(message: seq<Line>, threshold: int, rows: seq<Enriched>)
  {
    && |message| == |rows| + 1
    && message[0] == Header(threshold)
    && forall j :: 0 <= j < |rows| ==> message[j + 1] == LineFor(rows[j])
  }

  /** Every record above the threshold has its line, at its rank. */
  lemma {:induction false} ListsEveryBlockAbove(message: seq<Line>, threshold: int, mev: seq<MevRecord>, validators: seq<Validator>, i: int)
    requires ListsRows(message, threshold, Correlate(mev, validators, threshold))
    requires 0 <= i < |mev| && AboveThreshold(mev[i].value, threshold)
    ensures CountAbove(mev[..i], threshold) + 1 < |message|
    ensures message[CountAbove(mev[..i], threshold) + 1] == LineFor(Enrich(mev[i], validators))
  {
    SurvivorAt(mev, validators, threshold, i);
    var r := CountAbove(mev[..i], threshold);
    assert message[r + 1] == LineFor(Correlate(mev, validators, threshold)[r]);
  }

  /** Every line after the header reports a record above the threshold: the
      record `i` returned. */
  lemma {:induction false} ListsOnlyBlocksAbove(message: seq<Line>, threshold: int, mev: seq<MevRecord>, validators: seq<Validator>, k: int)
    returns (i: int)
    requires ListsRows(message, threshold, Correlate(mev, validators, threshold))
    requires 1 <= k < |message|
    ensures 0 <= i < |mev| && AboveThreshold(mev[i].value, threshold)
    ensures CountAbove(mev[..i], threshold) == k - 1
    ensures message[k] == LineFor(Enrich(mev[i], validators))
  {
    SurvivorOrigin(mev, validators, threshold, k - 1);
    i :| 0 <= i < |mev| && AboveThreshold(mev[i].value, threshold)
         && CountAbove(mev[..i], threshold) == k - 1
         && Correlate(mev, validators, threshold)[k - 1] == Enrich(mev[i], validators);
    assert message[(k - 1) + 1] == LineFor(Correlate(mev, validators, threshold)[k - 1]);
  }

  /** A message listing the correlated rows reports exactly the blocks above
      the threshold. */
  lemma MessageReportsBlocksAbove(message: seq<Line>, threshold: int, mev: seq<MevRecord>, validators: seq<Validator>)
    requires ListsRows(message, threshold, Correlate(mev, validators, threshold))
    ensures ReportsBlocksAbove(message, threshold, mev, validators)
  {
    CorrelateLength(mev, validators, threshold);
    assert EveryBlockAboveListed(message, threshold, mev, validators) by {
      forall i | 0 <= i < |mev| && AboveThreshold(mev[i].value, threshold)
        ensures && CountAbove(mev[..i], threshold) + 1 < |message|
                && message[CountAbove(mev[..i], threshold) + 1] == LineFor(Enrich(mev[i], validators))
      {
        ListsEveryBlockAbove(message, threshold, mev, validators, i);
      }
    }
    assert OnlyBlocksAboveListed(message, threshold, mev, validators) by {
      forall k | 1 <= k < |message|
        ensures LineOfBlockAbove(message, threshold, mev, validators, k)
      {
        var i := ListsOnlyBlocksAbove(message, threshold, mev, validators, k);
      }
    }
  }

  /** The block heights whose MEV data is requested. */
  datatype Window = Window(fromHeight: int, toHeight: int)

  /** How one check ends. Every outcome but the first carries the window whose
      MEV data was requested; only the last sends a message. */
  datatype CheckOutcome =
    | RangeUnavailable
    | NoMevData(window: Window)
    | NoneAboveThreshold(window: Window)
    | Notify(window: Window, message: seq<Line>)

  /** `check_mev_values`, given what the three endpoints return: `lastHeight`
      is the chain head, None when the block range could not be fetched;
      `mev` and `validators` are the data returned for the window and the
      directory. */
  method CheckMevValues(settings: Settings, lastHeight: Option<int>, mev: seq<MevRecord>, validators: seq<Validator>)
    returns (outcome: CheckOutcome)
    requires UniqueKeys(validators)
    ensures outcome.RangeUnavailable? <==> lastHeight.None?
    ensures lastHeight.Some? ==> outcome.window == Window(lastHeight.value - LookbackBlocks, lastHeight.value)
    ensures outcome.NoMevData? <==> lastHeight.Some? && mev == []
    ensures outcome.NoneAboveThreshold? <==> lastHeight.Some? && mev != [] && CountAbove(mev, settings.threshold) == 0
    ensures outcome.Notify? <==> lastHeight.Some? && CountAbove(mev, settings.threshold) > 0
    ensures outcome.Notify? ==> ReportsBlocksAbove(outcome.message, settings.threshold, mev, validators)
  {
    if lastHeight.None? {
      return RangeUnavailable;
    }
    var finalHeight := lastHeight.value;
    var window := Window(finalHeight - LookbackBlocks, finalHeight);
    if mev == [] {
      return NoMevData(window);
    }
    var frame := new MevFrame(mev);
    var filtered := ProcessData(frame, validators, settings);
    CorrelateLength(mev, validators, settings.threshold);
    if filtered == [] {
      return NoneAboveThreshold(window);
    }
    var message := BuildMessage(settings.threshold, filtered);
    MessageReportsBlocksAbove(message, settings.threshold, mev, validators);
    outcome := Notify(window, message);
  }
}
