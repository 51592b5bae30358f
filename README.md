# MEV notifier core, modelled in Dafny

`mev_bot.py` defines `check_mev_values`, an async function meant to fetch the
current chain height from a blockchain-analytics service. It then fetches the
per-block MEV (maximal extractable value) records of the last 50,000 blocks and
the validator directory. It joins the records to the directory to name each
block's proposer and keeps the blocks whose value in dollars exceeds a
threshold. If any remain, it sends one Telegram message listing them. Nothing
in `mev_bot.py` calls `check_mev_values`: `main` (mev_bot.py:96-104) registers
only the `/start` command handler, and `run_polling()` polls Telegram for chat
updates, not the analytics service. The model covers one call of
`check_mev_values`.

This project models the part of `mev_bot.py` that decides what is reported:

- `correlator.dfy`, module `Correlator`: `process_data` as pure functions.
  Raw values are exact integers in micro-units; the dollar value is the exact
  rational `value / 10^6` (`Dollars`). The left join on `proposer == pubkey`
  (`MonikerOf`, `Enrich`, `LeftJoin`) and the strict filter `> threshold`
  (`KeepAbove`) compose into `Correlate`. Its lemmas show the filter is exact:
  sound, complete, order-preserving, one row per surviving record. They also
  show the left-join semantics.
- `mev_bot.dfy`, module `MevBot`: the settings (default threshold $300), the
  frame `process_data` changes in place (`MevFrame`, `ProcessData`), the
  `message +=` loop (`BuildMessage`) and the decisions of `check_mev_values`
  (`CheckMevValues`). That function gives up when the block range is
  unavailable. Otherwise it requests the window `[last - 50000, last]`. It
  stops when there is no MEV data or nothing passes the filter. Else it builds
  the message: a header naming the threshold, then one line per surviving
  block, in order.
- `wrappers.dfy`, module `Wrappers`: `Option`.

The network fetches are parameters of `CheckMevValues`: the chain head as an
`Option<int>` (None when the block-range request failed), the MEV records
returned for the window and the validator directory. The message is modelled
as its sequence of lines (`Header(threshold)`, then
`BlockLine(height, dollars, moniker)`), not as rendered text.

Facts about `mev_bot.py` that shape the model:

- There is one global `settings` dictionary, read but never changed. There is no
  subscriber store, no configuration dialog and no polling scheduler.
- A block whose proposer has no directory entry is printed with the pandas
  missing value (`nan`); the model carries `None` for that moniker.
- The threshold is the integer 300; nothing in the file sets another.

## Model

| member | source | states |
|---|---|---|
| `Correlator.Dollars` | mev_bot.py:47 | the `MEV value ($)` of a raw value: the exact amount that, multiplied by 10^6, gives the raw value back |
| `Correlator.AboveThreshold` | mev_bot.py:47-49 | the mask condition: a record's dollar value `value / 10^6` exceeds the threshold exactly when its raw value exceeds `threshold * 10^6` |
| `Correlator.Enrich` | mev_bot.py:48 | one merged row: the record's height, proposer and value, with no moniker exactly when no validator's pubkey equals the proposer, and otherwise the moniker of a validator with that pubkey |
| `Correlator.LeftJoin` | mev_bot.py:48 | the left merge: one row per record, in record order, carrying that record's columns and the moniker `MonikerOf` finds for its proposer |
| `Correlator.MonikerOf` | mev_bot.py:48 | the join finds no moniker exactly when no validator's pubkey equals the proposer; a found moniker belongs to a validator with that pubkey |
| `Correlator.MonikerOfUnique` | mev_bot.py:48 | with unique pubkeys, the moniker found for a validator's pubkey is that validator's moniker |
| `Correlator.KeepAbove` | mev_bot.py:49 | the boolean mask keeps only rows whose dollar value is strictly above the threshold, all taken from its input, never more rows than it was given |
| `Correlator.Correlate` | mev_bot.py:44-49 | every row `process_data` returns has a dollar value strictly above the threshold |
| `Correlator.CorrelateLength` | mev_bot.py:47-49 | the result has exactly as many rows as there are input records above the threshold |
| `Correlator.SurvivorAt` | mev_bot.py:47-49 | completeness: each record above the threshold appears, joined to its validator, at the position equal to the number of records above the threshold before it |
| `Correlator.SurvivorOrigin` | mev_bot.py:47-49 | every result row is the joined form of some record above the threshold, at that record's rank among such records |
| `Correlator.OrderPreserved` | mev_bot.py:48-49 | two surviving records keep their input order in the result, on distinct rows |
| `Correlator.UnmatchedRecordKept` | mev_bot.py:48 | left join: a record above the threshold whose proposer matches no validator pubkey is still in the result, with its moniker absent |
| `Correlator.RowMoniker` | mev_bot.py:48 | with unique pubkeys, a result row's moniker is that of the validator whose pubkey equals the row's proposer, and is absent exactly when no validator has that pubkey |
| `MevBot.DefaultThresholdInMicroUnits` | mev_bot.py:22-26 | under the default settings ($300) a block is reported exactly when its raw value exceeds 300 000 000 micro-units |
| `MevBot.MevFrame.constructor` | mev_bot.py:34 | the frame `process_data` later changes in place starts with the fetched records and no dollar column |
| `MevBot.ProcessData` | mev_bot.py:44-49 | adds the dollar column (`value / 10^6` per row) to the caller's frame, leaves its records unchanged, and returns the correlated rows for the settings' threshold |
| `MevBot.LineFor` | mev_bot.py:90 | the line for one row: a block line with the row's height, its value in dollars (times 10^6 gives the raw value) and its moniker |
| `MevBot.BuildMessage` | mev_bot.py:88-90 | the message is the header naming the threshold, followed by exactly one line per row, in row order, each with the row's height, dollar value and moniker |
| `MevBot.ListsEveryBlockAbove` | mev_bot.py:82-90 | a message listing the correlated rows has a line for every record above the threshold, at its rank after the header |
| `MevBot.ListsOnlyBlocksAbove` | mev_bot.py:82-90 | every line after the header of such a message reports a record above the threshold |
| `MevBot.MessageReportsBlocksAbove` | mev_bot.py:82-90 | such a message reports exactly the blocks above the threshold, one line each, in block-record order |
| `MevBot.CheckMevValues` | mev_bot.py:62-90 | no block range: gives up with nothing requested or sent; otherwise requests the window `[last - 50000, last]`; sends nothing when there are no MEV records or none is above the threshold; else notifies with a message reporting exactly the blocks above the threshold |

## Left out

- The HTTP requests and JSON decoding (mev_bot.py:29-41, 65-68) are network I/O: their results are the parameters of `CheckMevValues`.
- A block-range reply without a `lastHeight` field raises `KeyError`, which the handler at mev_bot.py:70 does not catch, so the check ends with an exception; the model folds every failed block-range fetch into `None` and ends the check quietly.
- `get_mev_data` and `get_validator_data` are called at mev_bot.py:75-76, outside the `try` at 64-72. A request error or a non-JSON reply there raises out of `check_mev_values` uncaught, ending the check with an exception. `CheckMevValues` always receives sequences and has no outcome for this case.
- The Telegram bot, `send_telegram_message`, the `/start` handler, `main` and logging (mev_bot.py:52-59, 92-107) are transport: a `Notify` outcome stands for the one message sent.
- Environment loading (mev_bot.py:12-19) is configuration I/O.
- The unused `auto_notify` and `interval` settings (mev_bot.py:23-24) are read by nothing in the core.
- The pandas coercions `astype(float)` and `astype(int)` (mev_bot.py:45-46): values are exact integers in micro-units and dollars are exact rationals, so no float rounding is modelled.
- The text rendering of a line, with its `:.2f` dollar formatting and `nan` for a missing moniker (mev_bot.py:90): a line carries the exact dollar value and an optional moniker instead.
- Duplicate validator pubkeys make pandas emit one row per matching validator; the model requires unique pubkeys (`UniqueKeys`) instead.
- An empty validator list makes pandas raise `KeyError` in the merge (its frame has no `pubkey` column); the model treats it as a directory with no matches.
- The multi-subscriber settings store, configuration dialog and polling scheduler do not exist in `mev_bot.py` and are not modelled.
