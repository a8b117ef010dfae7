# Market data and order entry, verified

This Dafny project models the stateful core of a trading client for Borsa
Istanbul and proves what it keeps.

- **Order books.** ITCH add, execute and delete messages arrive in MoldUDP64
  packets. The parser walks the message blocks and drives the order book
  builder, which keeps a map of live orders and, per instrument, two sorted
  vectors of price levels edited in place. The levels are an index of the map:
  the project proves that they agree with it after every event exactly when the
  event is well formed, that they are determined by the live orders alone, and
  that quantity is conserved, from the bytes of the packets to the vectors.
- **Initial sync.** A late joiner keeps a stack of missing sequence numbers and
  asks a rewinder for them. The stack is proved to be a cursor; the project
  states when it is done, when it stalls, and what it requests.
- **TCP framing.** SoupBinTCP frames are cut out of a fixed buffer of 4096 bytes
  that reads refill. Every way of splitting the stream into reads is proved to
  hand out the same frames.
- **Order tokens and slots.** The order manager counts a 14-digit token up and
  keeps orders in slots selected by the token's number. The shipped increment is
  compared with the increment it is meant to be.

Vectors and maps of the C++ code are fields of type `seq` and `map` that methods
reassign; its fixed-size arrays are arrays. Machine words are ranges of integers
and wrap-around is written out.

## Where the code falls short of its intent

Each of these is proved in its exact form, with an input at which the intent fails.

- `nextToken` passes a carry on from every nine, received or not. It agrees with
  the commented reference only on tokens whose nines (other than a leading one)
  all lie at the end (`ShippedIsReferenceIffNinesTrail`). A fresh manager issues
  the token that ends in 191 right after the one that ends in 090, the first
  departure of its stream (`FreshStreamStartsAsReference`,
  `FreshStreamLeavesReference`). The stream of an order manager created without a
  saved token repeats after exactly 10,000 of the 10^14 tokens
  (`FreshStreamPeriod`, `FreshStreamRepeats`). Any 1000 consecutive tokens of any
  stream still differ. A reissued token selects a slot that no acceptance makes
  valid again (`ReissuedTokenStaysInvalid`, and `ReissueAfterDeletion` on an
  actual manager).
- A frame larger than the 4096-byte buffer stops the client: the read is offered
  no room and its 0 is taken for a closed connection. All frames get through
  exactly when none is larger than the buffer (`AllFramesGetThroughIffFitting`);
  a packet of 4095 bytes gets stuck (`OversizedPacketIsStuck`).
- A packet that contains the next missing number and reaches beyond the first
  live one makes the client read the back of an empty vector (`SyncStep`,
  `OverrunIsUndefined`).
- A gap in the live stream is never requested: by the time it is reported the
  expected number has moved past it (`GapsAreNeverRequested`). The request for a
  missing number goes out once, when the cursor of the sync reaches it; if the
  answer to that request is lost, it is not repeated (`LostPacketStallsSync`).
  Only a packet whose number plus count passes 2^64 makes the client ask for a
  gap, and then the next packet with a message reads the back of an empty vector
  (`WrappedGapIsRequested`). The 16-bit request count covers the gap only below
  65,536 numbers (`RequestCoversGap`); a gap of exactly 65,536 asks for none
  (`GapOf65536AsksForNothing`).
- The client applies every packet as it comes, so during a sync live packets are
  applied before earlier messages that they follow. However the two kinds
  alternate, the live orders come out right exactly if, for every order that the
  rewound range leaves live, the live messages about it that arrive before its
  addition execute nothing and do not delete it, or its live deletion arrives
  after its addition (`MergedOrdersAreRightIffUnharmed`, and `JoinLate` for an
  actual client). An order deleted too early comes back and stays, even if the
  packet that started the sync harms nothing (`AcceptedRunKeepsDeletedOrder`).
- An empty packet at number 1 makes a client that has not synced expect number 1
  again, even if it is past it, so that the next packet starts a sync
  (`EmptyPacketRestartsSync`). For a client that begins with number 1 this is the
  only way to a sync (`StartUpRunIsQuietOrSyncs`, and `StartUp` for an actual
  client).
- The constructor's token parses back to the number after the last used one only
  while that number is below 2^31 (`FreshTokenParsesBack`); from 2^31 - 1 on it
  has characters that are no digits (`StartAfterLargestSignedNumber`). Restarting
  from a saved token counts it up under the same condition
  (`RestartIsReferenceIncrement`).
- A replacement that takes more than its level holds is not a deletion followed
  by an addition, unless the price stays the same (`ReplaceIsDeleteThenAdd`,
  `ReplaceOfTooMuch`).

## Reading order

`Words`, `PriceLevels`, `L2Book`, `LiveOrders`, `BuilderModel`,
`OrderbookBuilder`, `ItchWire`, `ItchParser`, `Rewind`, `MarketDataClient`,
`MergedFeed`, `LateJoin`, `SoupBinFraming`, `TcpClient`, `Tokens`, `OrderSlots`,
`OrderManager`. Pure files hold the state machines and their theorems; files with
a class hold the methods, each proved to take the step that the pure file
describes. Byte values, offsets, sizes and initial values are stated as literals
beside the constants that the definitions use. Modules carry the names of their files, except `ItchParsing` in `ItchParser.dfy` and `MarketData` in
`MarketDataClient.dfy`.

`BuilderModel.Step` ends in `Exited` where the code calls `exit(42)` and in
`Undefined` where it would use the reverse end of a vector. Method preconditions
exclude only such undefined steps and reads outside a buffer.

## Model

| member | source | states |
|---|---|---|
| PriceLevels.SortedVectorIsCanonical | lib/core/l2_orderbook.hpp:226-259 | a level vector in the order that Dump checks is determined by the quantities it quotes |
| PriceLevels.AdditionMovesOneQuote | lib/core/l2_orderbook.hpp:41-88 | an addition moves the quote at one price up, modulo 2^64; no other quote changes |
| PriceLevels.DeletionMovesOneQuote | lib/core/l2_orderbook.hpp:90-111 | a deletion moves one quote down, modulo 2^64, and drops it iff it held just that |
| PriceLevels.ExecutionMovesOneQuote | lib/core/l2_orderbook.hpp:146-165 | an execution moves one quote down to zero at most, and drops it iff nothing is left |
| PriceLevels.ReplacementMovesTwoQuotes | lib/core/l2_orderbook.hpp:113-144 | a replacement moves the old quote to zero at most and the new one up; at the same price it moves one quote, which stays even at zero |
| PriceLevels.ReplaceIsDeleteThenAdd | lib/core/l2_orderbook.hpp:113-144 | replacing equals deleting and then adding, iff the price stays or the level holds the replaced quantity |
| PriceLevels.ReplaceOfTooMuch | lib/core/l2_orderbook.hpp:113-144 | both outcomes for 6 replaced on a level of 5 at another price |
| PriceLevels.ExecuteIsDelete | lib/core/l2_orderbook.hpp:146-165 | execution and deletion of the same quantity agree iff the level holds it |
| L2Book.L2Orderbook.GetLevel | lib/core/l2_orderbook.hpp:174-183 | the reverse scan returns the last level with the price, or the reverse end iff there is none |
| L2Book.L2Orderbook.AddOrderImpl | lib/core/l2_orderbook.hpp:41-88 | both scans keep the vector sorted and change the quantity at one price |
| L2Book.L2Orderbook.DeleteOrderImpl | lib/core/l2_orderbook.hpp:90-111 | exits iff the price is not quoted; otherwise subtracts modulo 2^64, drops the level at zero, stays sorted |
| L2Book.L2Orderbook.ExecuteOrderImpl | lib/core/l2_orderbook.hpp:146-165 | reduces a level or drops it when used up, stays sorted |
| L2Book.L2Orderbook.ReplaceOrderImpl | lib/core/l2_orderbook.hpp:113-144 | all three cases of a replacement, stays sorted |
| L2Book.L2Orderbook.AddOrder | lib/core/l2_orderbook.hpp:185-192 | the byte 'B' adds to the bids, every other byte to the asks; the other side is untouched |
| L2Book.L2Orderbook.DeleteOrder | lib/core/l2_orderbook.hpp:194-201 | by literal side byte, the same for deletion; on exit nothing has changed |
| L2Book.L2Orderbook.ReplaceOrder | lib/core/l2_orderbook.hpp:203-210 | by literal side byte, the same for replacement |
| L2Book.L2Orderbook.ExecuteOrder | lib/core/l2_orderbook.hpp:212-219 | by literal side byte, the same for execution |
| L2Book.L2Orderbook.GetBestPrices | lib/core/l2_orderbook.hpp:221-224 | the highest quoted bid and the lowest quoted ask |
| L2Book.L2Orderbook.Dump | lib/core/l2_orderbook.hpp:226-259 | the bad flag stays off iff no level is empty, every bid is below every ask and no price is INT_MAX |
| L2Book.EqualBooksHaveEqualVectors | lib/core/l2_orderbook.hpp:38-39 | books that quote the same hold identical vectors |
| L2Book.ReplaceVersusDeleteAdd | lib/core/l2_orderbook.hpp:203-210 | on two equal books, ReplaceOrder and DeleteOrder then AddOrder leave identical vectors iff the price stays or the level holds the quantity |
| LiveOrders.RestingIffOccupied | lib/core/orderbook_builder.hpp:26-27 | quantity rests at a place iff a live order is there |
| LiveOrders.AdditionRecords | lib/core/orderbook_builder.hpp:62-71 | an addition puts its order on record field by field, even over an order already there |
| LiveOrders.ExecutionCountsDown | lib/core/orderbook_builder.hpp:77-94 | an execution takes its quantity off one order, modulo 2^64, and drops it exactly at zero |
| LiveOrders.OrderFollowsItsHistory | lib/core/orderbook_builder.hpp:62-110 | an order ends up as if the feed had held its own messages only |
| LiveOrders.SameHistoriesSameOrders | lib/core/orderbook_builder.hpp:62-110 | reordering messages of different orders keeps the live orders |
| LiveOrders.SwapKeepsHistories | lib/core/orderbook_builder.hpp:62-110 | swapping two adjacent messages about different orders is such a reordering |
| LiveOrders.SameHistoriesWellFormed | lib/core/orderbook_builder.hpp:62-110 | it keeps the feed well formed iff no level outgrows 64 bits on the way |
| LiveOrders.RunConservesQuantity | lib/core/orderbook_builder.hpp:62-110 | at every place: resting before plus added equals executed plus withdrawn plus resting after |
| BuilderModel.StepMovesOneQuote | lib/core/orderbook_builder.hpp:62-110 | in any state: an event about an unknown order changes nothing, one about a missing level exits or is undefined, any other moves exactly one quote |
| BuilderModel.BooksAreThoseNamed | lib/core/orderbook_builder.hpp:84-106 | in every run, well formed or not, the books are exactly those that an addition has named |
| BuilderModel.StepKeepsAgreementIffWellFormed | lib/core/orderbook_builder.hpp:62-110 | from agreement no event exits or is undefined, and agreement survives iff the event is well formed |
| BuilderModel.AgreesThroughoutIffWellFormed | lib/core/orderbook_builder.hpp:62-110 | levels and live orders agree in every state of a run iff the feed is well formed |
| BuilderModel.WellFormedRunAgrees | lib/core/orderbook_builder.hpp:62-110 | a well-formed run completes in agreement with the orders of the plain map |
| BuilderModel.WellFormedRunIsExact | lib/core/l2_orderbook.hpp:94-105 | in a well-formed run every lookup succeeds and no quantity wraps around |
| BuilderModel.AgreementIsCanonical | lib/core/orderbook_builder.hpp:26-27 | the live orders alone determine every side of every book |
| BuilderModel.InterleavingDoesNotMatter | lib/core/orderbook_builder.hpp:62-110 | feeds with the same messages per order build the same books, however these interleave |
| BuilderModel.SkippedEventsDoNotMatter | lib/protocol/itch/itch_parser.hpp:64-65 | messages of other types can be dropped from the feed |
| BuilderModel.BestQuoteIsBestOrder | lib/core/l2_orderbook.hpp:221-224 | a quote is the best of its side iff it is the best price among the side's live orders |
| BuilderModel.SideTotalIsRestingTotal | lib/core/orderbook_builder.hpp:62-110 | the levels of a side together hold what its live orders have left |
| BuilderModel.LevelsConserveQuantity | lib/core/orderbook_builder.hpp:62-110 | over a well-formed run, added equals executed plus withdrawn plus quoted, per side and per level |
| OrderbookBuilder.ConcreteOrderbookBuilder.BookFor | lib/core/orderbook_builder.hpp:73 | the map subscript creates an absent book empty and changes no other |
| OrderbookBuilder.ConcreteOrderbookBuilder.AddOrder | lib/core/orderbook_builder.hpp:62-75 | the handler takes exactly the Add step, on the map and on one book in place |
| OrderbookBuilder.ConcreteOrderbookBuilder.ExecuteOrder | lib/core/orderbook_builder.hpp:77-94 | the Execute step, including unknown orders and orders executed to zero |
| OrderbookBuilder.ConcreteOrderbookBuilder.DeleteOrder | lib/core/orderbook_builder.hpp:96-110 | the Delete step, including unknown orders and the exit |
| OrderbookBuilder.BestPricesOfLiveOrders | lib/core/l2_orderbook.hpp:221-224 | on an agreeing builder, the highest price among live orders of side 'B' and the lowest among all others of the book |
| OrderbookBuilder.SameStateSameVectors | lib/core/orderbook_builder.hpp:26-27 | two agreeing builders with the same live orders hold identical level vectors |
| Words.BytesRoundTrip | tools/generate_dummy_moldudp64_pcap.py:22-37 | a number that fits its bytes is read back from its big-endian form |
| Words.Load16IsBigEndian | lib/protocol/itch/itch_parser.hpp:52 | the first byte of a length is the more significant one |
| Words.WordsAreBigEndian | lib/protocol/itch/itch_parser.hpp:39 | 32-bit and 64-bit words by their halves, the more significant half first |
| ItchWire.OffsetsFit32Bits | lib/protocol/itch/itch_parser.hpp:47-52 | for any 16-bit count and block lengths the offset stays within 32 bits |
| ItchWire.EventByPosition | lib/protocol/itch/itch_add_order.hpp:31-39 | by literal byte values and offsets, what an A, an E and a D message mean, and that any other type means nothing |
| ItchWire.NextBlockByBytes | lib/protocol/itch/itch_parser.hpp:52 | the walk moves on by two bytes and the big-endian number in them |
| ItchWire.MessageLayout | lib/protocol/itch/itch_order_executed.hpp:25-43 | the wire form of each message, field by field, at the offsets and sizes that the headers assert |
| ItchWire.EncodedEventIsRead | lib/protocol/itch/itch_add_order.hpp:31-56 | an encoded message is decoded in place, whatever surrounds it |
| ItchWire.BlocksAreRead | lib/protocol/itch/itch_parser.hpp:47-67 | the walk over message blocks, anywhere in a buffer, reads what the messages denote and ends where the blocks end |
| ItchWire.PacketRoundTrip | tools/generate_dummy_moldudp64_pcap.py:39-51 | a packet is read back: session, sequence number, count, events, and the exact end |
| ItchWire.MakeMoldPacket | tools/generate_dummy_moldudp64_pcap.py:39-51 | the loop writes the header, SESSION1 first, and the blocks of all messages |
| ItchWire.GeneratedAddOrder | tools/generate_dummy_moldudp64_pcap.py:14-37 | the generator's bytes are the wire form of the order, first byte A, with prices from 2^31 on read as negative |
| ItchWire.AddedOrdersAreOnRecord | test/itch_parser_test.cpp:81-94 | messages that add distinct orders leave exactly these on record, field by field |
| ItchParsing.ItchParser.Parse | lib/protocol/itch/itch_parser.hpp:27-40 | returns sequence number and count, by literal offset, and takes the builder through the packet's events |
| ItchParsing.ItchParser.ParsePayload | lib/protocol/itch/itch_parser.hpp:47-68 | the loop with its 32-bit offset takes the builder through the events of the walk |
| ItchParsing.ItchParser.Handle | lib/protocol/itch/itch_parser.hpp:54-66 | by literal type bytes and offsets: A adds, E executes, D deletes; other types change nothing |
| ItchParsing.FeedingPacketsFoldsMessages | lib/protocol/itch/itch_parser.hpp:27-68 | parsing a series of encoded packets folds the events of all their messages |
| ItchParsing.PacketBoundariesDoNotMatter | lib/protocol/itch/itch_parser.hpp:27-68 | how messages are split into packets does not matter |
| ItchParsing.BytesToAgreement | lib/protocol/itch/itch_parser.hpp:27-68 | the bytes of a well-formed feed lead to agreement with the orders of the plain map |
| ItchParsing.ParseSeries | lib/network/udp_socket.cpp:81-103 | an actual parser takes an actual builder through a series of packets |
| ItchParsing.BuildBooks | test/itch_parser_test.cpp:52-95 | a well-formed feed parsed into a new builder: no exit, the right orders, agreeing levels, and books for exactly the ids added |
| MergedFeed.OnlyTotalsMatter | lib/core/orderbook_builder.hpp:77-110 | executions that fit leave an order the same in any sequence |
| MergedFeed.MergedOrdersAreRightIffUnharmed | lib/client/market_data_client.cpp:125-126 | however live and rewound messages alternate, the orders are those of the numbered feed iff every order live after the rewound range is unharmed by live messages that come before its addition |
| MergedFeed.MergedFeedIsWellFormed | lib/client/market_data_client.cpp:125-126 | such a feed stays well formed as long as no level outgrows 64 bits |
| MergedFeed.LateOrdersAreRightIffUntouched | lib/client/market_data_client.cpp:125-126 | the case in which all live messages come first |
| MergedFeed.DeletedOrderComesBack | lib/core/orderbook_builder.hpp:102-104 | an order deleted before its addition arrives stays on the book |
| MergedFeed.DeletedBetweenRewoundOnes | lib/core/orderbook_builder.hpp:102-104 | the same when the deletion arrives between two rewound messages |
| LateJoin.LateJoinerHasRightOrdersIffUnharmed | lib/client/market_data_client.cpp:125-126 | from the bytes of packets that arrive in turn: no exit, agreeing levels, and the right orders iff unharmed |
| LateJoin.LateJoinerBecomesContinuous | lib/client/market_data_client.cpp:123-186 | whatever live packets come between the rewound ones, the run of a late joiner is defined and ends Continuous |
| LateJoin.JoinLate | lib/client/market_data_client.cpp:123-207 | an actual client that joins late is Continuous with agreeing levels, and has the right orders iff unharmed |
| LateJoin.AcceptedRunKeepsDeletedOrder | lib/client/market_data_client.cpp:123-186 | arrival 3, 1, 4, 2 is accepted and ends Continuous with an order that number 4 deleted |
| Rewind.DrainMovesCursor | lib/client/market_data_client.cpp:132-147 | the stack is a cursor: a packet that contains it moves it to the packet's end, or reads an empty stack if it reaches too far |
| Rewind.GapsAreNeverRequested | lib/client/market_data_client.cpp:189-200 | outside the rewound range nothing is requested unless the sequence number wraps around; only the expected number changes |
| Rewind.StepTracksNumbers | lib/client/market_data_client.cpp:189-196 | in every mode and for every packet: the expected number becomes the end of a packet above the rewound range and stays otherwise; the packet that starts the sync leaves it |
| Rewind.ExpectedFollowsLive | lib/client/market_data_client.cpp:123-207 | over whole runs after the start of a sync, the expected number is the end of the last packet above the rewound range |
| Rewind.LateJoinerExpects | lib/client/market_data_client.cpp:123-207 | after any run of a late joiner at N the expected number is the end of the last packet that starts above N, or 1 |
| Rewind.WrappedPacketIsNoAnswer | lib/client/market_data_client.cpp:24-34 | while syncing, a packet whose numbers pass 2^64 brings nothing that is missing |
| Rewind.WrappedGapIsRequested | lib/client/market_data_client.cpp:189-196 | after the sync, a gap before such a packet is requested, and the next packet with a message reads an empty stack |
| Rewind.SyncOnZero | lib/client/market_data_client.cpp:177-185 | a first packet numbered 0 stacks 2^64 - 1 numbers, asks for none and leaves the client waiting |
| Rewind.SyncStep | lib/client/market_data_client.cpp:123-186 | one packet while syncing: defined iff it does not overrun, done iff the cursor reaches the first live number, requests iff the cursor moved without finishing |
| Rewind.SyncStarts | lib/client/market_data_client.cpp:172-186 | a late joiner stacks all earlier numbers and requests from number 1 |
| Rewind.SyncFollowsCursor | lib/client/market_data_client.cpp:123-186 | the same over whole runs, with the exact list of requests |
| Rewind.SyncedForGood | lib/client/market_data_client.cpp:150-152 | after the sync no packet disturbs it and nothing more is requested |
| Rewind.BelowCursorIsReceived | lib/client/market_data_client.cpp:134-142 | every number below the cursor has been received |
| Rewind.RequestsAreBounded | lib/client/market_data_client.cpp:161-169 | requests start at strictly rising numbers, ask for the rest of the gap modulo 2^16, and are fewer than the missing numbers |
| Rewind.RequestCoversGap | lib/client/market_data_client.cpp:217 | the 16-bit count is exact iff the gap is below 65,536 |
| Rewind.GapOf65536AsksForNothing | lib/client/market_data_client.cpp:217 | a gap of exactly 65,536 numbers is requested with count 0 |
| Rewind.OverrunIsUndefined | lib/client/market_data_client.cpp:134-138 | a run of two packets that reads the back of an empty stack |
| Rewind.LostPacketStallsSync | lib/client/market_data_client.cpp:148-170 | while the number at the cursor, once requested, does not arrive, the client stays put and sends nothing |
| Rewind.DeliveredGapCompletesSync | lib/client/market_data_client.cpp:123-170 | a gap delivered in order completes the sync, with one request after each packet but the last |
| Rewind.EveryRunIsConsistent | lib/client/market_data_client.cpp:123-218 | in every run from start-up all requests lie below the one sync point and start at rising numbers |
| Rewind.NoSyncIffQuiet | lib/client/market_data_client.cpp:172-186 | a client never syncs iff no packet but number 1 comes first or after an empty packet at number 1; then it sends nothing |
| Rewind.StartUpRunIsQuietOrSyncs | lib/client/market_data_client.hpp:51-72 | from start-up: no sync iff number 1 comes first and again after every empty packet at number 1; then nothing is sent and the end of the last packet is expected |
| Rewind.EmptyPacketRestartsSync | lib/client/market_data_client.cpp:172 | a client past number 1 that gets an empty packet at number 1 starts a sync on the next packet |
| Rewind.StartUpRunIsConsistent | lib/client/market_data_client.hpp:51-72 | the start-up state satisfies the invariant, so every run from it keeps it |
| Rewind.LateJoinerSyncs | lib/client/market_data_client.cpp:123-186 | a late joiner is Continuous iff the cursor has gone from 1 to N, has then received 1 to N-1, and has sent at most N-1 requests |
| MarketData.PopulateVector | lib/client/market_data_client.cpp:24-34 | the numbers of a packet, or zeros when the range passes the end of the 64-bit space |
| MarketData.MarketDataClient.constructor | lib/client/market_data_client.hpp:51-72 | a new client is Initial, expects number 1, has nothing missing, requested or sent, and no rewound range |
| MarketData.MarketDataClient.Parse | lib/client/market_data_client.cpp:123-207 | every packet takes the books through its events and the sync state through one step; what it expects next is stated outright |
| MarketData.MarketDataClient.StartInitialSync | lib/client/market_data_client.cpp:177-185 | the loop pushes all numbers from the one before the packet, modulo 2^64, down to 1 |
| MarketData.MarketDataClient.AbsorbRewoundPacket | lib/client/market_data_client.cpp:129-171 | the popping loop and what follows it are the rewinding branch of the step |
| MarketData.MarketDataClient.CalculateNextSequenceNumber | lib/client/market_data_client.cpp:78-91 | reports a gap against the old expectation and then moves it |
| MarketData.MarketDataClient.RequestMissingPackets | lib/client/market_data_client.cpp:209-248 | sends one request and is rewinding, iff the second number is larger |
| MarketData.ReceiveAll | lib/client/market_data_client.cpp:123-207 | any series of packets through an actual client, wrapping ones included |
| MarketData.StartUp | lib/client/market_data_client.cpp:123-207 | an actual new client stays Initial iff number 1 comes first and again after every empty packet at number 1, and then has asked for nothing |
| MarketData.StartLate | lib/client/market_data_client.cpp:123-207 | an actual late joiner at N expects the end of the last packet that starts above N, or 1 |
| SoupBinFraming.FramesAndRest | lib/network/tcp_client.cpp:70-95 | frames and leftover make up the bytes |
| SoupBinFraming.FrameSizeByBytes | lib/network/tcp_client.cpp:73-75 | a frame is two bytes longer than the big-endian number in its first two bytes |
| SoupBinFraming.FramingResumes | lib/network/tcp_client.cpp:70-95 | framing the leftover with what comes next finds the remaining frames of the whole |
| SoupBinFraming.SentPacketsAreFramed | lib/network/tcp_client.cpp:70-88 | a stream of logical packets, cut off anywhere, is framed into exactly these |
| SoupBinFraming.OversizedPacketIsStuck | lib/network/tcp_client.hpp:31-33 | of a complete packet of 4095 bytes the client takes 4096 bytes and hands out nothing |
| SoupBinFraming.FramesFit | lib/network/tcp_client.cpp:80-87 | every frame handed out is at most the buffer long, so its 16-bit length is not truncated |
| SoupBinFraming.RoomUntilReach | lib/network/tcp_client.hpp:31-33 | the leftover is shorter than the buffer until an oversized frame fills it |
| SoupBinFraming.AllFramesGetThroughIffFitting | lib/network/tcp_client.hpp:31-33 | all complete frames get through iff none is larger than the buffer |
| SoupBinFraming.OneReadTakesSmallStream | lib/network/tcp_socket.hpp:24 | a stream that fits the buffer is taken by one willing read |
| TcpClient.TcpClient.ReadFromSocket | lib/network/tcp_socket.hpp:21-36 | a read appends some bytes behind the leftover, within the room there is |
| TcpClient.TcpClient.ProcessBuffer | lib/network/tcp_client.cpp:70-95 | hands out the complete frames, none longer than the buffer, and moves the leftover to the front |
| TcpClient.TcpClient.HandleFrames | lib/network/tcp_client.cpp:72-88 | the loop hands out exactly the complete frames, in order, and reports where they end |
| TcpClient.TcpClient.StartRead | lib/network/tcp_client.cpp:49-60 | for any stream and limits: each read takes as much as limit, stream and room allow; frames and leftover are those of the bytes read, and with willing reads all that the buffer lets through |
| TcpClient.ChunkingDoesNotMatter | lib/network/tcp_client.cpp:49-95 | two choices of read sizes hand out the same frames, and all of them iff they fit the buffer |
| Tokens.IncrementCounts | lib/core/order_manager.hpp:186-206 | the reference increment adds one to the number, and wraps from all nines to zero |
| Tokens.ShippedIsReferenceIffNinesTrail | lib/core/order_manager.hpp:213-218 | the shipped increment is the reference iff all nines but a leading one trail |
| Tokens.NextIsBijective | lib/core/order_manager.hpp:213-218 | every token has exactly one predecessor |
| Tokens.FirstRepeatIsStart | lib/core/order_manager.hpp:184-221 | the first token of a stream to come again is its start |
| Tokens.LowRepeatsEveryThousand | lib/core/order_manager.hpp:213-218 | the last four digits come round every 1000 steps and not in between |
| Tokens.ThousandConsecutiveTokensDiffer | lib/core/order_manager.hpp:184-221 | any 1000 consecutive tokens are pairwise distinct |
| Tokens.FaceStream | lib/core/order_manager.hpp:184-221 | the closed form of the stream of a fresh manager |
| Tokens.FreshStreamPeriod | lib/core/order_manager.hpp:184-221 | that stream returns to its start exactly every 10,000 tokens |
| Tokens.FreshStreamRepeats | lib/core/order_manager.hpp:184-221 | two of its tokens are equal iff their positions differ by a multiple of 10,000 |
| Tokens.FreshStreamLeavesReference | lib/core/order_manager.hpp:213-218 | in every round 191 follows the token that ends in 090, where the reference has 091 |
| Tokens.FreshStreamStartsAsReference | lib/core/order_manager.hpp:184-221 | the token of a new manager and the first 89 it issues are those of the reference |
| Tokens.ReferenceStreamPeriod | lib/core/order_manager.hpp:186-206 | under the reference a stream returns to its start only after all tokens |
| OrderSlots.NextCharsOnDigits | lib/core/order_manager.hpp:213-218 | the character arithmetic of the loop is the digit increment |
| OrderSlots.NextCharsByValue | lib/core/order_manager.hpp:213-218 | by character values: a digit moves on by one modulo ten iff it is the last or stands before a 9 |
| OrderSlots.DigitTokenIndex | lib/core/order_manager.hpp:244-256 | a digit token parses to its value, below 10^14 |
| OrderSlots.ParseIsInjective | lib/core/order_manager.hpp:244-256 | different digit tokens select different indices |
| OrderSlots.FreshTokenParsesBack | lib/core/order_manager.hpp:62-71 | what the constructor's token parses back to, for every last: last plus one iff that is below 2^31; it is all digits iff that or the sum wraps to zero |
| OrderSlots.StartAfterLargestSignedNumber | lib/core/order_manager.hpp:62-71 | a manager started after 2^31 - 1 gets characters that are no digits |
| OrderSlots.RestartIsReferenceIncrement | lib/core/order_manager.hpp:62-89 | for every token, saving it and starting again is the reference increment iff the next number is below 2^31 |
| OrderManager.OrderManager.SavedIndex | lib/core/order_manager.hpp:73-78 | the destructor's loop saves the token's number modulo 2^32 |
| OrderManager.Restart | lib/core/order_manager.hpp:62-89 | the same on actual managers |
| OrderSlots.SlotsAreIndependent | lib/core/order_manager.hpp:91-182 | over every run a slot changes by the responses that select it and nothing else |
| OrderSlots.SlotsAreATokenMap | lib/core/order_manager.hpp:233-299 | with digit tokens the slots are a map keyed by token |
| OrderSlots.AcceptedOrderCountsDown | lib/core/order_manager.hpp:91-171 | after an acceptance and executions within its quantity a slot reads the accepted fields, what is left, and valid iff something is left and it was valid before |
| OrderSlots.InvalidIffEnded | lib/core/order_manager.hpp:91-182 | a slot is invalid iff some response ended its order; no acceptance undoes that |
| OrderSlots.SomeResponseEnds | lib/core/order_manager.hpp:157-182 | an order ended iff some response was a deletion, or an execution of exactly what the earlier ones had left |
| OrderSlots.NewSlotIsValidIffNothingEnded | lib/core/order_manager.hpp:41-53 | from a new manager and over every run, an order reads valid iff none of its responses ended it |
| OrderSlots.EndedOrderKeepsFields | lib/core/order_manager.hpp:157-182 | a deletion keeps all fields but the validity, an execution all but quantity and validity |
| OrderSlots.ReissuedTokenStaysInvalid | lib/core/order_manager.hpp:91-221 | a token reissued after 10,000 selects the ended slot, which stays invalid |
| OrderManager.OrderManager.constructor | lib/core/order_manager.hpp:62-71 | the loop writes the digits of the start index; every slot is empty and valid |
| OrderManager.OrderManager.NextToken | lib/core/order_manager.hpp:184-221 | the in-place loop moves every character on by its carry |
| OrderManager.OrderManager.ParseOrderTokenDecimal | lib/core/order_manager.hpp:244-256 | the accumulating loop computes the index modulo 2^64 |
| OrderManager.OrderManager.OrderAccepted | lib/core/order_manager.hpp:91-105 | fills one of 1024 slots, leaves its validity and all other slots alone; out of range changes nothing |
| OrderManager.OrderManager.OrderExecuted | lib/core/order_manager.hpp:157-171 | subtracts modulo 2^64 in one slot and invalidates exactly at zero |
| OrderManager.OrderManager.OrderDeleted | lib/core/order_manager.hpp:174-182 | invalidates one slot and keeps its other fields |
| OrderManager.AcceptAndExecute | lib/core/order_manager.hpp:91-171 | on an actual new manager: an accepted order and executions within its quantity leave the accepted fields, what is left, and valid iff something is left |
| OrderManager.ReissueAfterDeletion | lib/core/order_manager.hpp:91-221 | on an actual manager: a token issued, accepted and deleted is issued again 10,000 later, and its new order is invalid |
| OrderManager.IssueTokens | lib/client/order_entry_client.cpp:181 | the tokens an actual fresh manager issues are those of the closed form |

## Left out

- Sockets, epoll, threads and the TCP server: a read appends bytes within the free room, a send appends to a log.
- The call of the client's `parse` from the UDP read loop is commented out in the source (lib/network/udp_socket.cpp:95); series of packets are modelled as the loop would feed them.
- Logging, formatters, configuration and parameter files: no state worth proving.
- The message handler behind the TCP framing, login and logout, and the pre-built OUCH send buffers: field copying; the model stops at the frames handed out.
- ITCH message types other than add, execute and delete, beyond being skipped.
- `orderReplaced` and `pendingReplace`: the search loop ends only if the token is present, and the call site is disabled.
- An uncrossed book (bid below ask), which no operation enforces; `Dump` is modelled as the check it is.
- MoldUDP64 end of session (count 65535) and packets shorter than their blocks: the code does not treat them specially, and reading outside the buffer is excluded by precondition.
- Vector reallocation, capacity and the memory model of unaligned casts.
- ParseSeries: the null check on the packet pointer and on the builder pointer is not modelled.
- MarketData.MarketDataClient.Parse: session name handling is not modelled; the vector that a sync on sequence number 0 fills with 2^64 - 1 numbers is unbounded here.
- LateJoin.JoinLate: covers a feed in which no order id is added twice and every execution and deletion names a live order, as the exchange numbers it.
- Rewind.EveryRunIsConsistent: runs in which a sequence number plus its message count passes 2^64 are excluded; WrappedPacketIsNoAnswer and WrappedGapIsRequested state what such a packet does.
- Tokens.FreshStreamPeriod: the exact period is stated for a manager created without a saved token; other starting tokens have other periods, and for them the model states a lower bound of 1000.
