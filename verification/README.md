# A matching engine, its event consumers and its log

The engine keeps a price-time-priority order book per instrument, turns commands into a numbered
stream of events, and keeps commands and events in write-ahead logs. Three parties rely on that
stream without seeing the book: the replay runner, which re-runs the commands and compares events
field for field; the market data projection, which rebuilds a public book and a trade tape from
events alone; and the log itself, one writer and two independently written parsers over the same
bytes, with recovery of a torn tail after a crash.

This project models those parts and proves what they promise each other:

- **The matcher.** `OrderBook.OrderBook` is the book as it is stored: two ordered sequences of price
  levels with first-in-first-out queues, a separate index of active orders, and two counters that
  every emission advances. It is proved to do exactly what `BookModel` says on flat priority lists,
  and that model is proved to be the only greedy fill (`Matching`), to keep the book valid
  (`BookInvariant`), to number and shape its events (`EventGrammar`), to conserve quantity
  (`Conservation`), to respect time priority (`TimePriority`), and to make a replace a cancel
  followed by a new order (`ReplaceLaw`). `CommandLaws` says which commands are taken, and why the others
  are refused, by the codes on the wire.
- **The consumers.** `Projection` is the projection's class with its loops over an unordered map;
  `ProjectionAgreement` proves that it follows the book, `ProjectionLaws` what it makes of any stream at
  all. `Replay` is the comparison and the replay
  loop, with its verdict on any two logs.
- **The log.** `Checksum`, `Codec` and `WalFormat` are bytes, headers and lengths; `ChecksumLaws`,
  `HeaderLaws` and `RecordLaws` fix the checksum by its residue and check value, and every field by its
  place in the file; `WalStream` is the
  input stream with its end-of-file and fail bits; `WalScan` and `WalReader` are the two parsers;
  `WalSegments`, `WalRecovery` and `WalWriter` are what is written, cut, recovered and published;
  `CrashSafety` is runs of appends, commits, stream failures, crashes and reopens; `WalDefects` is
  where the log does not keep its promise. `Pipeline` puts the whole program together.

64-bit sequences and trade ids wrap as they do in the source (`Domain.Add64`); 32-bit length
arithmetic in the log wraps as well.

## What the proofs found

Six promises hold only under a condition. Each has a lemma that states the condition exactly, and an
input on which the promise fails.

- The public book adds quantities in signed 64-bit numbers. Two orders of 2^63 - 1 lots at one price are
  accepted, their sum overflows, and the level vanishes from the public book
  (`ProjectionAgreement.LargeOrdersHidden`). The view is the aggregate of the active orders if and only
  if every per-price sum is below 2^63, which is also exactly when no addition of the rebuild overflows,
  in whatever order the orders are read (`Projection.AggregateIffFits`, `RebuildBook`). Signed overflow
  is undefined in C++; the model wraps in two's complement, and no other outcome could hold the sum.
- A file cut inside the zero bytes behind a payload scans as sound: `ignore` at the end of input sets
  only the end-of-file bit, so the branches meant for a short skip are not taken
  (`src/wal/src/wal_segment_scanner.cpp:92-98`, `src/wal/src/wal_segment_reader.cpp:48-50`). Recovery
  keeps the fragment with offset 2^64 - 1. Records committed before stay readable, but the next record
  appended, although reported appended and committed, is lost, and the following writer refuses the file
  or opens it without that record. `WalDefects.AppendAfterCrash` proves that this happens if and only if
  the cut is in the padding. The theorems of `CrashSafety` allow every crash and forbid only an append
  behind such a fragment; the program's own records of 80 and 96 bytes never leave one
  (`Pipeline.ProgramNeverFragment`).
- Scanner and reader part once sequences wrap past 2^64 - 1, because the reader takes a last sequence of 0
  for "nothing read yet". On any bytes they agree if and only if the segment starts at sequence 1, or no
  accepted sequence wraps, or only the last one does and parsing stops alike behind it
  (`WalReader.ScannerAndReaderAgree`); on a well-formed segment, if and only if it starts at 1 or no
  record follows the one with sequence 0 (`WalDefects.SegmentViews`). Three records from 2^64 - 1 are
  enough to part them (`WalDefects.ParsersPartAfterWrap`).
- The header check accepts one record length up to a payload of 2^32 - 64 bytes, none from 2^32 - 63,
  and again one, with a negative padding, from 2^32 - 7; longer payloads are cut to 32 bits and fall into
  the same ranges (`WalFormat.OwnHeaderAccepted`, `WalFormat.LengthWrapsRound`).
- `validate_invariants` never looks at the id inside an index entry, nor at the instrument the book
  is bound to, so it is exact only up to those (`OrderBook.ValidIffMirrored`,
  `OrderBook.CheckOverlooksEntryId`). On every reachable book it returns true.
- The book accepts order id 0 and the projection rejects it. The projection follows a run if and only
  if no valid new order with id 0 asks for more lots than the other side offers at its price or better
  (`ProjectionAgreement.ProjectionAgrees`); one such order on an empty book is enough
  (`ProjectionAgreement.ZeroIdRefused`).

Two smaller ones. The instrument shown by the public book depends on the iteration order of a hash map
unless all active orders share one (`Projection.InstrumentDetermined`); behind this engine they always do,
and the view names the instrument of the book (`ProjectionAgreement.Publish`). Writing an empty log is
reported as a success even when the stream failed in its header (`Pipeline.WriteLog`). The examples in
`docs/matching_rules.md` list fill events for resting orders; the code emits only trades for them, and
the model follows the code.

## Model

| member | source | states |
|---|---|---|
| Matching.WalkIsGreedy | src/core/src/order_book.cpp:309-352 | What matching takes from the opposite side is a greedy fill: crossing orders only, in priority order, every trade but possibly the last takes a whole resting order, the book keeps the rest with at most its head reduced, and it stops only when the order is filled or the best price no longer crosses |
| Matching.GreedyIsWalk | src/core/src/order_book.cpp:354-397 | ... and no other sizes, remaining book or remainder satisfy that description |
| Matching.WalkTrades | src/core/src/order_book.cpp:399-436 | Trade i, field by field: it answers the command, with the command's order, side and instrument, goes against the i-th order of the opposite side at its price, carries the i-th next event sequence and trade id, and reports the quantity minus all trades so far |
| Matching.WalkLeavesOpen | src/core/src/order_book.cpp:309-352 | What matching leaves open can be told beforehand: the quantity beyond the lots that the crossing front of the other side offers |
| OrderBook.OrderBook.MatchBuyOrderAgainstAsks | src/core/src/order_book.cpp:309-352 | The nested loop over levels and queues does exactly the walk on the flattened asks, and index and queues mirror each other again when it ends although they do not inside |
| OrderBook.OrderBook.MatchSellOrderAgainstBids | src/core/src/order_book.cpp:354-397 | The mirrored loop does the same walk on the flattened bids |
| OrderBook.OrderBook.ApplyNewOrder | src/core/src/order_book.cpp:40-84 | A new order on the stored book is the model's new order, and the book stays valid |
| OrderBook.OrderBook.ApplyCancelOrder | src/core/src/order_book.cpp:86-110 | A cancel on the stored book is the model's cancel; it removes one order and keeps all others in place |
| OrderBook.OrderBook.ApplyReplaceOrder | src/core/src/order_book.cpp:112-134 | A replace on the stored book is the model's replace, through a nested cancel and new order |
| OrderBook.OrderBook.RejectUnsupportedCommand | src/core/src/order_book.cpp:136-140 | An unknown command type is rejected and moves only the event counter |
| OrderBook.OrderBook.ValidateNewOrder | src/core/src/order_book.cpp:192-225 | The reason a new order is refused for, in the order of the checks, decided from the index alone, is the reason the flat book gives |
| OrderBook.OrderBook.ValidateReplaceOrder | src/core/src/order_book.cpp:227-268 | The same for a replace |
| OrderBook.OrderBook.FindOrder | src/core/src/order_book.cpp:517-524 | Looking an id up in the index finds the queued order, and only that |
| OrderBook.OrderBook.RestOrder | src/core/src/order_book.cpp:463-481 | On the stored levels of its own side the remainder ends up behind every order of the same or a better price and before all others, the other side stays as it was, and the index has the order under its id |
| PriceLevels.PushPlaces | src/core/src/order_book.cpp:463-481 | Resting at a level, existing or new, puts the order behind every order of the same or a better price and before all others |
| OrderBook.OrderBook.EraseOrderFromPriceLevels | src/core/src/order_book.cpp:482-504 | Erasing takes exactly the named order out of the flattened side and drops an emptied level; when the order is not queued at its price the two early exits change nothing |
| OrderBook.OrderBook.RemoveCancelledOrder | src/core/src/order_book.cpp:506-515 | An order found in the index is always queued where it claims to be, so the early exits of the erase are never taken, and the book stays valid |
| PriceLevels.FlatInjective | src/core/include/core/order_book.hpp:168-173 | No two valid sets of price levels have the same flattened list, so nothing of the stored book is lost in the model |
| OrderBook.OrderBook.ValidateInvariants | src/core/src/order_book.cpp:168-181 | The runtime check, on any contents of the maps, returns true exactly when every queued order is sound, mirrored in the index and queued once, nothing else is indexed, and the best prices do not cross; it is true of every valid book |
| OrderBook.OrderBook.ValidatePriceLevels | src/core/src/order_book.cpp:536-582 | One side's check, with the ids seen so far, accepts exactly the mirrored levels whose ids are new and distinct |
| OrderBook.OrderBook.ValidateActiveOrdersAreQueued | src/core/src/order_book.cpp:610-624 | The index check accepts exactly when its ids are the queued ones, counted and positive |
| OrderBook.OrderBook.TakeSnapshot | src/core/src/order_book.cpp:147-190 | The order count of the index and the first prices of the maps: as many orders as both sides hold, the highest bid and the lowest ask, or 0 |
| OrderBook.ValidIffMirrored | src/core/src/order_book.cpp:526-624 | The full class invariant holds if and only if the runtime check passes and the two things it overlooks are right |
| OrderBook.CheckOverlooksEntryId | src/core/src/order_book.cpp:584-608 | An index entry with a foreign id passes the check although it is not the queued order |
| OrderBook.InstrumentEngine.Apply | src/core/src/instrument_engine.cpp:17-36 | Dispatch on the command type is one step of the model, on any command |
| BookInvariant.StepOk | src/core/src/order_book.cpp:168-181 | Every command keeps the book valid: ids unique, quantities positive, side, price and bound instrument right, lists sorted, bid below ask |
| BookInvariant.WalkTrims | src/core/src/order_book.cpp:329-343 | Matching removes a prefix of the opposite side, reduces at most the next order, and leaves no crossing order behind an unfilled one |
| EventGrammar.StepGrammar | src/core/src/order_book.cpp:40-140 | A command emits one rejection, or one cancellation described as the order rested, or optionally that cancellation followed by an acceptance, trades within the limit with a running remainder, and one closing event that reports exactly the traded lots as its quantity and is Rested if and only if nothing traded; all fields and type codes of each are given |
| EventGrammar.RunNumbered | src/core/src/order_book.cpp:399-461 | Over any run event sequences have no gap, trade ids count the trades from the first, no other event carries one, and the counters end where the events end |
| EventGrammar.FreshNumbered | src/core/src/order_book.cpp:35-38 | From an empty book events are numbered from the given sequence and trades from 1 |
| CommandLaws.StepVerdict | src/core/src/order_book.cpp:192-300 | A new order is taken if and only if side is 1 or 2, price and quantity are positive, its id does not rest, its instrument is the bound one if any, and time in force is 1; likewise a cancel and a replace; otherwise one rejection carries the reason code of the first failing check and only the event counter moves |
| CommandLaws.AcceptedRests | src/core/src/order_book.cpp:463-481 | An accepted order with open lots rests with exactly the command's id, client, instrument, side and price and those lots; without, its id is not in the book; the book is bound to its instrument |
| Conservation.RunBalanced | src/core/src/order_book.cpp:53-83 | From any valid book, for all orders or for one id: resting before plus accepted equals traded, cancelled and resting after |
| Conservation.Conserved | src/core/src/order_book.cpp:325-343 | From an empty book: accepted = 2 x traded + cancelled + resting, from the event log alone |
| Conservation.ConservedPerId | src/core/src/order_book.cpp:448-461 | The same ledger balances for each order id, however often the id is used again |
| TimePriority.PriceTimePriority | src/core/src/order_book.cpp:463-515 | In every reachable book sides are sorted by price, and orders of one price stand in the order of the events that said they rest; partial fills and cancels of others never change that |
| EventGrammar.ReplacementPasses | src/core/src/order_book.cpp:227-268 | When a replace passes its validation, the nested new order passes its own, on the book the cancel leaves |
| ReplaceLaw.ReplaceIsCancelThenNew | src/core/src/order_book.cpp:112-134 | A replace is all or nothing: events and final book are those of a cancel and then a new order with the replacement id, or one rejection with the reason and an advanced event counter; it rejects if and only if validation fails |
| Projection.MarketDataProjection.Apply | src/projections/src/market_data_projection.cpp:54-91 | Any event whatsoever: the view stays what 64-bit sums make of the active orders, and is their aggregate if and only if every sum fits; the new state is the specified one, and a rejected event leaves every field as it was |
| Projection.MarketDataProjection.ApplyTrade | src/projections/src/market_data_projection.cpp:122-154 | A trade reduces or removes the contra order and joins the tape, or is rejected for exactly the listed reasons with nothing changed |
| Projection.MarketDataProjection.ApplyRested | src/projections/src/market_data_projection.cpp:108-120 | A rested or partially filled order becomes active with its remainder, or is rejected with nothing changed |
| Projection.MarketDataProjection.ApplyCancelled | src/projections/src/market_data_projection.cpp:156-164 | A cancelled order leaves; an unknown one is rejected |
| Projection.MarketDataProjection.ApplyFilled | src/projections/src/market_data_projection.cpp:166-174 | A filled order leaves if it is shown; otherwise nothing happens |
| Projection.MarketDataProjection.UpsertOrder | src/projections/src/market_data_projection.cpp:176-195 | An order with a non-zero id and positive price and quantity becomes active; any other is refused with nothing changed |
| Projection.MarketDataProjection.RebuildBook | src/projections/src/market_data_projection.cpp:204-233 | However the map is iterated, each side lists the prices with a positive 64-bit sum, best first; this is the aggregate of the active orders if and only if every sum is below 2^63, and an addition overflows on the way if and only if it is not |
| Projection.ViewUnique | src/projections/src/market_data_projection.cpp:204-233 | The active orders determine both sides of the view, wrapped sums included, so the iteration order cannot show |
| Projection.AggregateIffFits | src/projections/src/market_data_projection.cpp:206-216 | The view is the aggregate if and only if every per-price sum is below 2^63 |
| Projection.FitsAdd | src/projections/src/market_data_projection.cpp:210-216 | Sums stay in range when one more order is read if and only if they were and this addition does not overflow |
| Projection.OverflowHidesLevel | src/projections/src/market_data_projection.cpp:221-231 | With two orders of 2^63 - 1 lots at the only price the side is shown empty |
| Projection.SumAtPick | src/projections/src/market_data_projection.cpp:208-222 | The per-price sum is the same whichever order is taken out first |
| ProjectionLaws.FedExactly | src/projections/src/market_data_projection.cpp:54-91 | Any stream at all is taken if and only if its sequences go on from the last one without a gap and every event makes sense when it comes: no unknown type, no trade with an order that is not shown or for more than it has left, no cancel of an unknown order, no order resting without id, side, price or quantity |
| ProjectionLaws.TakenEffect | src/projections/src/market_data_projection.cpp:108-202 | A taken event changes the one order it touches, in the way of its type, and no other; a trade lengthens the tape by itself, field by field, and nothing else does |
| Projection.InstrumentDetermined | src/projections/src/market_data_projection.cpp:204-222 | The instrument of the view is independent of the iteration order if and only if all active orders share one |
| ProjectionAgreement.ProjectionAgrees | src/projections/src/market_data_projection.cpp:54-233 | Fed with all events of any run from event 1, a fresh projection rejects nothing if and only if no valid new order with id 0 asks for more than the other side offers; it then shows exactly the book's orders without their clients, exactly the trades, and the book's event counter |
| ProjectionAgreement.StepRestsZero | src/projections/src/market_data_projection.cpp:183-186 | A command puts id 0 in the book if and only if it is a valid new order with id 0 for more lots than the crossing front of the other side offers; a replacement never does |
| ProjectionAgreement.RunRestsZero | src/core/src/order_book.cpp:192-225 | The same over a whole run, told by the commands and the books they meet |
| ProjectionAgreement.ZeroIdRefused | src/projections/src/market_data_projection.cpp:183-186 | One valid order with id 0 on a fresh book rests there, and the projection refuses the stream |
| ProjectionAgreement.LargeOrdersHidden | src/projections/src/market_data_projection.cpp:204-233 | Two buy orders of 2^63 - 1 lots at one price both rest in the book, and every view of it shows no bid |
| ProjectionAgreement.ViewIsDepth | src/projections/src/market_data_projection.cpp:204-233 | A view of a book's orders shows a side's price levels with the sums of their queues, in priority order, if and only if no queue of that side holds 2^63 lots or more |
| ProjectionAgreement.Publish | src/projections/src/market_data_projection.cpp:54-91 | Engine and projection run side by side: after any list of commands index, tape and instrument agree, and each side's levels do if and only if its queues can be counted in 64 bits |
| Replay.Replay | src/core/src/replay.cpp:78-187 | The replay loop with its early returns computes the specified result, failure report with snapshots and event sequence included, from any two logs, readable or not, on a valid engine; no path of it ends in an invariant violation |
| Replay.CompareEvents | src/core/src/replay.cpp:112-155 | Comparing one command's events with the stored log stops at the first that is missing, unreadable or different, says so, and leaves the rest of the log to be read |
| Replay.CompareExact | src/core/src/replay.cpp:25-76 | Two events compare equal exactly when all fields are equal, and no field is named exactly then |
| Replay.CompareNames | src/core/src/replay.cpp:25-76 | Otherwise the field named is the one that differs where all compared before it agree, name by name |
| Replay.ReplayVerdict | src/core/src/replay.cpp:78-187 | On any two logs, readable or not, and any valid engine: the compared events are the longest common prefix of the stored ones with the run of the readable consecutive commands; if they part there, the report names the command, the events, the field and the sequence; otherwise a sequence break, an unreadable command, an extra event and an unreadable event are reported in this order, and with none of them replay succeeds |
| Replay.ReplayLocates | src/core/src/replay.cpp:105-165 | Where the logs part the report gives the number of the command, the index of the event within it and the snapshots before and after it; at a sequence break the snapshot before |
| Replay.ReplayAccepts | src/core/src/replay.cpp:78-187 | With readable logs replay succeeds if and only if command sequences are consecutive and the stored events are exactly the generated ones, and then it counts all of both |
| Checksum.CalculateCrc32 | src/wal/src/wal_checksum.cpp:10-23 | The bitwise loop with its mask computes the register function that the theorems on the checksum are about |
| ChecksumLaws.Residue | src/wal/src/wal_checksum.cpp:10-23 | Any message followed by its own checksum, lowest byte first, leaves the register at 0xDEBB20E3 |
| ChecksumLaws.CheckValue | src/wal/src/wal_checksum.cpp:10-23 | The checksum of the ASCII digits 1 to 9 is 0xCBF43926 |
| ChecksumLaws.EmptyChecksum | src/wal/src/wal_checksum.cpp:10-23 | The checksum of nothing is 0 |
| Checksum.TableAgrees | src/wal/src/wal_checksum.cpp:14-20 | The bitwise function is the table-driven one: the sample code in section 8 of RFC 1952 keeps the byte steps of 0 to 255 in a table; the polynomial is fixed by `ChecksumLaws.Residue` and `ChecksumLaws.CheckValue` |
| Checksum.RegisterInjective | src/wal/src/wal_checksum.cpp:16-19 | Absorbing the same bytes never merges two different registers |
| Checksum.ShortBurstDetected | src/wal/src/wal_checksum.cpp:10-23 | Two inputs that differ only within a window of at most four bytes never share a checksum |
| Codec.UnpackPack | src/wal/src/wal_segment_writer.cpp:134-159 | Fields written little-endian at fixed widths are read back |
| Codec.PackUnpack | src/wal/src/wal_segment_reader.cpp:81-113 | Any bytes of the right length are the encoding of what is read from them |
| Codec.LeFour | src/wal/include/wal/wal_record_header.hpp:23-39 | A 32-bit field is its four digits in base 256, the lowest first |
| Codec.LeEight | src/wal/include/wal/wal_record_header.hpp:23-39 | A 64-bit field is its low half, then its high half |
| WalFormat.LengthFits | src/wal/src/wal_record_header.cpp:13-25 | Up to a payload of 2^32 - 64 bytes the header check accepts exactly one record length, and the padding parsers skip is what the writer pads, 0 to 7 bytes up to a multiple of 8 |
| WalFormat.LengthWraps | src/wal/src/wal_alignment.cpp:10-23 | From 2^32 - 63 the aligned length wraps and the check accepts no record length |
| WalFormat.LengthWrapsRound | src/wal/src/wal_segment_scanner.cpp:89 | From 2^32 - 7 it accepts the bare header length, with a negative padding |
| WalFormat.OwnHeaderAccepted | src/wal/src/wal_segment_writer.cpp:161-178 | For any payload the writer's own header passes the check if and only if the length, cut to 32 bits, is in one of the two good ranges |
| WalFormat.RecordHeaderRoundTrip | src/wal/include/wal/wal_record_header.hpp:23-39 | A record header is read back from its 56 bytes |
| WalFormat.SegmentHeaderRoundTrip | src/wal/include/wal/wal_segment_header.hpp:22-33 | A segment header is read back from its 40 bytes |
| HeaderLaws.RecordHeaderBytes | src/wal/include/wal/wal_record_header.hpp:23-39 | Every field of a record header lies at its offset in the 56 bytes, at its width |
| HeaderLaws.SegmentHeaderBytes | src/wal/include/wal/wal_segment_header.hpp:22-33 | Every field of a segment header lies at its offset in the 40 bytes, at its width |
| HeaderLaws.WrittenRecord | src/wal/src/wal_segment_writer.cpp:134-178 | A written record byte by byte: the constants, lengths and identity of its header, a checksum over the header with the checksum bytes at zero, the payload, and zeros up to a multiple of eight |
| HeaderLaws.WrittenSegmentHeader | src/wal/src/wal_segment_writer.cpp:236-245 | A written segment header byte by byte, its checksum taken with the checksum bytes at zero |
| HeaderLaws.AcceptedIsWritten | src/wal/src/wal_record_header.cpp:13-32 | A parser finds a record only where the bytes are those a writer would have put there for that position, type and payload |
| HeaderLaws.AcceptedHeaderIsWritten | src/wal/src/wal_segment_header.cpp:12-27 | A segment header is accepted only if its bytes are those a writer would have put there, with stream, epoch and first sequence not zero |
| HeaderLaws.RecordHeaderDamage | src/wal/src/wal_record_header.cpp:27-32 | Two record headers with the same checksum field that differ within four consecutive bytes never have the same checksum |
| HeaderLaws.SegmentHeaderDamage | src/wal/src/wal_segment_header.cpp:22-27 | The same for segment headers |
| WalScan.ScanSegment | src/wal/src/wal_segment_scanner.cpp:17-104 | The recovery scan, a loop over a stream with state bits, returns the specified verdict, last position, offset and accepted records on any bytes, and its own error for a file that cannot be opened |
| WalScan.ScanRecord | src/wal/src/wal_segment_scanner.cpp:41-101 | One turn of the loop finds the end, a torn or a corrupted record, or the record that stands there, with the stream behind it |
| WalReader.SegmentReader.constructor | src/wal/src/wal_segment_reader.cpp:15-22 | A reader is opened on any file or none, with its header error kept for the first read |
| WalReader.SegmentReader.ReadSegmentHeader | src/wal/src/wal_segment_reader.cpp:63-79 | The first thing wrong with a segment header is what is reported |
| WalReader.SegmentReader.ReadRecordHeader | src/wal/src/wal_segment_reader.cpp:81-113 | The end of the log, a torn header, or the first thing wrong with a whole one, with the cursor behind it |
| WalReader.SegmentReader.ReadPayload | src/wal/src/wal_segment_reader.cpp:115-130 | A payload is delivered exactly when it is complete and matches its checksum |
| WalReader.SegmentReader.ReadNext | src/wal/src/wal_segment_reader.cpp:24-56 | One read delivers the first record still due and leaves the rest due, or reports why there is none and leaves the cursor where the next read goes on: behind the bad header or payload, at the end, or on a failed stream |
| WalReader.Drain | src/wal/src/wal_segment_reader.cpp:24-56 | Reading to the first result that is not a record delivers everything that was due |
| WalReader.ScannerAndReaderAgree | src/wal/src/wal_segment_scanner.cpp:41-104 | On any bytes with a valid segment header: both parsers accept the same records and last position, with scan ok iff end of log, torn iff torn and corrupted iff the reader reports header, checksum or sequence errors, exactly when the segment starts at sequence 1, or no accepted sequence wraps, or only the last does and parsing stops alike behind it |
| WalDefects.SegmentViews | src/wal/src/wal_segment_reader.cpp:99-112 | On a well-formed segment they agree if and only if it starts at sequence 1 or no record follows the one with sequence 0 |
| WalDefects.ParsersPartAfterWrap | src/wal/src/wal_segment_reader.cpp:99-112 | Three records from sequence 2^64 - 1: the scanner accepts three, the reader stops after two |
| WalSegments.ScanWritten | src/wal/src/wal_segment_writer.cpp:134-159 | Written records are accepted by the scanner, whatever bytes surround them |
| WalSegments.ReadWritten | src/wal/src/wal_segment_writer.cpp:134-159 | Written records are delivered by the reader, whatever bytes surround them |
| WalSegments.NextCut | src/wal/src/wal_segment_scanner.cpp:63-98 | A written record that is cut is torn up to the end of its payload, and whole to the parsers when cut in its padding |
| WalSegments.CutForm | src/wal/src/wal_segment_writer.cpp:134-159 | Every prefix of a segment past its header is some whole records and a proper part of the next |
| WalRecovery.RecoverSegment | src/wal/src/wal.cpp:97-129 | Recovery truncates exactly at the offset of a torn record and touches nothing in every other case, a file that cannot be opened included; its result says so |
| WalRecovery.RecoveredScans | src/wal/src/wal.cpp:97-129 | On any bytes: after a torn tail is cut off, a scan succeeds with the same records and last position |
| WalRecovery.RecoveryIdempotent | src/wal/src/wal.cpp:97-129 | On any bytes: a second recovery changes nothing |
| WalRecovery.CutSegment | src/wal/src/wal_segment_scanner.cpp:41-104 | A well-formed segment cut at any point past its header scans as sound if and only if the cut is at a record boundary or in padding, otherwise as an incomplete trailing record at that record's start; recovery keeps exactly the whole records, except in padding |
| WalRecovery.BurstStopsReader | src/wal/src/wal_segment_reader.cpp:115-130 | A change within four consecutive bytes of a stored payload makes the reader deliver all earlier records and fail at exactly that one, and the scan report a corruption at its offset |
| HeaderLaws.DamagedHeaderStops | src/wal/src/wal_segment_reader.cpp:81-113 | A change within four consecutive bytes of a stored record header, all in the checksum field or none, makes both parsers deliver all earlier records and stop at exactly that one: the reader with a corruption, an invalid header when magic, version or header size changed, a checksum mismatch when they and the lengths did not, the scan with the record's offset |
| HeaderLaws.DamagedSegmentRefused | src/wal/src/wal_segment_reader.cpp:63-79 | Such a change in the segment header makes scanner, reader and reopening writer refuse the file with the same error, an invalid header when magic, version or header size changed, a checksum mismatch when only flags or checksum did |
| HeaderLaws.ShortFileRefused | src/wal/src/wal_segment_reader.cpp:63-79 | A file shorter than a segment header is an invalid header to the scanner and a reopening writer and cannot be read by the reader |
| HeaderLaws.NextForeign | src/wal/src/wal_segment_reader.cpp:101-103 | A sound record of another stream or epoch is refused as an invalid record header |
| WalRecovery.WriteReadRoundTrip | src/wal/src/wal_segment_reader.cpp:24-130 | Whatever is appended to a new segment reads back with its types, payloads and consecutive positions, then the log ends |
| WalWriter.WalSegmentWriter.constructor | src/wal/src/wal_segment_writer.cpp:19-51 | Opening a writer on nothing, on a file that can or cannot be read, or on a directory leaves the specified writer, with its failure latched when the path is not usable |
| WalWriter.WalSegmentWriter.PrepareExistingSegment | src/wal/src/wal_segment_writer.cpp:180-211 | An existing segment is checked, recovered and continued behind its last record, or refused for the first reason |
| HeaderLaws.OpensOwnOnly | src/wal/src/wal_segment_writer.cpp:188-192 | A writer goes on with a well-formed segment if and only if stream, epoch and first sequence are its own; any other is refused as an invalid segment header and left alone; its own it continues behind the last record, which counts as committed |
| WalWriter.WalSegmentWriter.AppendRecord | src/wal/src/wal_segment_writer.cpp:60-74 | One append: header, payload and padding on a stream that may fail at any byte, and the positions it leaves pending |
| WalWriter.WalSegmentWriter.CommitRecords | src/wal/src/wal_segment_writer.cpp:76-96 | One commit: all pending positions become committed after a successful flush, none otherwise |
| WalWriter.WalSegmentWriter.PopCommittedPosition | src/wal/src/wal_segment_writer.cpp:123-132 | Positions are handed out in the order they were committed |
| WalWriter.Publication | src/wal/src/wal_segment_writer.cpp:60-132 | Over any run with failures at any byte: popped, committed and pending positions are one contiguous run, all appended ones are in it, nothing is published that no successful commit covered, and the last position and last committed position are the last one appended and the last one covered |
| WalWriter.FirstFailure | src/wal/src/wal_segment_writer.cpp:76-159 | A healthy writer's append succeeds if and only if the stream takes the whole record, its commit if and only if the flush does; a failure is reported and latched under the operation's own error |
| WalWriter.FailureLatches | src/wal/src/wal_segment_writer.cpp:247-252 | After the first failure nothing is appended, committed or published any more, whatever is tried, and every later append and commit reports that failure |
| CrashSafety.RunSound | src/wal/src/wal_segment_writer.cpp:134-211 | Over any run of appends, commits, pops, stream failures, crashes anywhere behind the flushed bytes, and reopens, with no append behind a fragment of padding: the file is a prefix of a well-formed segment, and all of it, padding perhaps excepted, while the writer is healthy |
| CrashSafety.CommittedSurvive | src/wal/src/wal_segment_writer.cpp:76-96 | Every record reported committed at some point of such a run is there, unchanged, at every later point |
| CrashSafety.CrashSafe | src/wal/src/wal_segment_writer.cpp:19-51 | At every point of such a run with a healthy writer, and so after every crash and reopen, both parsers read the file to its end and find exactly the log, the committed records first, and appending goes on at last surviving sequence + 1 |
| CrashSafety.SurvivorsCut | src/wal/src/wal_segment_scanner.cpp:41-104 | The records a crash leaves are exactly those whose bytes were all kept |
| CrashSafety.UnpaddedNeverFragment | src/wal/src/wal_segment_writer.cpp:145-149 | When all payload lengths are multiples of 8 there is never a fragment, so every append is allowed |
| Pipeline.ProgramNeverFragment | src/app/main.cpp:36-44 | Logs of the program's own commands or events never end in one |
| WalDefects.AppendAfterCrash | src/wal/src/wal_segment_scanner.cpp:92-98 | After a crash that cut the last record, a reopened writer appends and commits the next one, and the file is sound if and only if the cut was not in padding; otherwise that committed record is lost to the parsers, and the next writer refuses the file, or opens it without the record if that has no payload |
| Pipeline.CommandRoundTrip | src/app/main.cpp:36-74 | A command record is read back from its stored bytes |
| Pipeline.EventRoundTrip | src/app/main.cpp:36-74 | An event record is read back from its stored bytes |
| RecordLaws.CommandBytes | src/domain/include/domain/order_command_record.hpp:24-42 | Every field of a command lies at its offset in the 80 bytes, signed ones in two's complement |
| RecordLaws.EventBytes | src/domain/include/domain/execution_event_record.hpp:24-45 | Every field of an event lies at its offset in the 96 bytes, signed ones in two's complement |
| RecordLaws.ReadByType | src/app/main.cpp:46-74 | A delivered record is read as a command exactly when its type is 200 and its size 80, as an event when 300 and 96, and a written one as what it was |
| Pipeline.WriteCommands | src/app/main.cpp:146-172 | Writing commands to a new log on a stream that may fail at any byte or at the flush leaves exactly as much of their segment as the stream took, and reports success exactly when all of it was taken and flushed, or there were none |
| Pipeline.WriteEvents | src/app/main.cpp:174-200 | The same for events |
| Pipeline.RunEngine | src/app/main.cpp:202-214 | Running the commands collects exactly the events of the run |
| Pipeline.ReplayWals | src/app/main.cpp:216-249 | Replaying two log files is the specified replay of what the reader delivers from them |
| Pipeline.RunScenario | src/app/main.cpp:146-249 | Any commands with consecutive non-zero sequences, written, run, written, read back and replayed, end in a successful replay that compares every command and every event |

## Left out

- Ordered maps of price levels are modelled as ordered sequences of levels; insertion finds its place by a scan.
- Both match loops share one step for trading with the front of the best queue; the loops themselves are written out per side. One turn of the scan and the comparison of one command's events are methods of their own.
- Text: the wording of snapshots and error messages, event dumps, scenario files, command-line routing.
- Read-only accessors of the writer and the projection.
- Benchmarks, the log demo, the dummy engine, typed log adapters and commit policies.
- Files, directories, `fsync` and stream buffers: a file is a byte sequence with a flushed length and a nondeterministic failure point.
- A file that can be opened for the header of an existing segment but no longer for its scan or its truncation.
- Memory allocation and exceptions, including a failed allocation for a large payload.
- The four padding bytes at the end of a record header are written as zeros and read back as a field.
- A crash keeps every flushed byte and the segment header; bytes lost from the middle of a file are not modelled, except for changed payload bytes.
- Replay reads both logs to their end before it starts, in `Pipeline.ReplayWals`; the source reads them as it goes, with the same records and endings.
- HeaderLaws.DamagedHeaderStops: says nothing of changes that reach across the edge of the checksum field, since the burst theorem is about bytes the checksum is taken over.
- HeaderLaws.AcceptedIsWritten: speaks of headers whose last four bytes, padding of the struct, are zero; others are accepted too when their checksum covers them.
- CrashSafety.CrashSafe: says nothing of runs that append behind a fragment of padding, where the promise is false; `WalDefects.AppendAfterCrash` says what happens there.
- WalRecovery.WriteReadRoundTrip: payloads of at most 2^32 - 64 bytes and sequences below 2^64; above that the format's own lengths and positions wrap.
- OrderBook.ValidIffMirrored: does not hold of the runtime check alone, which overlooks the id and the instrument in index entries.
- Dual-lane execution, batching, checkpoints, log rotation and ownership checks, which the documentation describes and the code does not contain.
