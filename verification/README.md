# Verified models of five small systems

This project models five components of the repository and proves what they are for:

- **Bulk result streaming** (`task1`): a query server cuts a result set into bulks, frames each bulk and writes it in
  sends of at most 1024 bytes; the client reassembles the frames from short reads and stops at the first frame
  without `MSG_CONT`. Files `Frames`, `Socket`, `BulkSplit`, `BulkStream`, `Reply`, `BulkSteps`, `QueryPath`.
- **Row store** (`mem_db`): a byte region, a stack of free slots and a word of live bits that together behave as a table
  of rows. Files `Slots`, `Tables`, `Patches`, `TableOps`, `WideValues`, `Regions`, `CopiedBytes`, `WideUpdates`,
  `Layout`, `LayoutDraft`.
- **Producer and consumer** (`producer-consumer`): a stop-and-wait protocol with numbered messages, acknowledgements,
  crashes and reconnects, as a state machine over the steps of both processes. File `StopAndWait`.
- **Message store** (`MessageStore`): line input from a stream, mailboxes found through a hash of the full name, and the
  prompt loop over both. Files `Device`, `Mailboxes`, `UiTask`.
- **Message-id allocator** (`common/ut`): a compare-and-swap loop run by any number of threads. File `MsgId`.

Objects that the source updates in place are classes with their loops; each method is proved against a function of the
old state, and the properties are lemmas about those functions. The interleaved protocols are state machines over their
steps. Protobuf is a pair of functions of which only `parse(ser(m)) == m` is used. `dafny verify dfyconfig.toml` checks
the whole project.

## Where the source is repaired, and where it is not

Several files are drafts that do not compile or do not do what their comments and tests say. The model follows the
code, with these repairs; where a draft form is worth a statement of its own, both forms are modelled and the exact
condition under which the draft is right is proved.

- `flags` starts as `MSG_CONT | PROTOCOL_PROTOBUF` (task1/src/DataStreamManager.cpp:215 has no left operand), `header`
  outlives the loop body that tests it (task1/src/DataStreamManager.cpp:39,97), and the client calls the receive entry
  point where task1/src/SocketClient.cpp:89 names the sending one.
- Each bulk message keeps its type, the grand total and its own row count, as task1/src/SocketClient.cpp:125-126 asks.
  The code clears the whole message and sets one cumulative count on the last one
  (task1/src/DataStreamManager.cpp:240,276). `Reply.DraftShowsRowsIff` proves that this shows the result set if and only
  if it fits one bulk, that is, if all rows but the last are under the limit.
- `MAX_BIT` is 32, not 0x31 (mem_db/common/inc/data_structs.h:81), as mem_db/ut/src/data_struct_tests.cpp:59-77 expects.
- Slot 0 stays at the bottom of the free stack, which leaves 31 usable slots: popping it would fail the assertion of
  `bit_on` (mem_db/common/inc/data_structs.h:93). `AddEntry` refuses there instead of aborting.
- `findEntry` carries its count of matching columns from row to row (mem_db/server/layouts/inc/layouts.h:340).
  `FindEntry`, `UpdateEntry` and `DelEntry` model both that and a count that restarts. `Tables.CarryingScanExactIff` gives
  the exact condition for the carried count, `TableOps.CarryingScanFalseMatch` a table it gets wrong, and
  `TableOps.DeleteCarriedIff` and `TableOps.CarriedDeleteTakesRow` the same for a delete.
- `updateEntry` never sets its pointer back (mem_db/server/layouts/inc/layouts.h:286-298) and counts rows times columns
  where mem_db/ut/src/layouts_tests.cpp:221-223 expects rows. `UpdateEntry` models both that and a pointer that is set
  back. `LayoutDraft.DraftRightIff` proves that, for every region, the code as written does the same as with the pointer
  set back and the matching rows reported, for all new values of any size, if and only if its scan reports nothing, or
  one row, which does match, and all named columns but the last lie at offset 0. `LayoutDraft.DraftCountIff` proves that
  its count is right if and only if the scan reports nothing or one column is named. `LayoutDraft.DraftMisplaces` is the
  row and the selector of the update test (mem_db/ut/src/layouts_tests.cpp:184-223), which it gets wrong. One thing
  differs: the test makes room for three rows (mem_db/ut/src/layouts_tests.cpp:194), 48 bytes, and its row in slot 31
  would start at byte 496; the lemma takes a region with room for 32 rows, as the model does throughout.
- New values are copied with their own size (mem_db/server/layouts/inc/layouts.h:295), so one wider than its column spills
  over the bytes behind it, and a copy may reach the next row or leave the region. `UpdateEntry` models all of this and
  stops at a copy that leaves the region. `WideUpdates.IsolatedIff` proves that an update stays in the region and spares all
  other rows, for all values of given sizes, if and only if it reports nothing or each value stays in its row;
  `WideUpdates.WideValueCrosses` is one that reaches the next row. `WideUpdates.RawCopyIff` proves when wide values do no
  harm at all, `WideValues.HarmfulSpill` is one that does. `WideUpdates.FoundAgainIff` proves when looking for the new
  values finds every updated row, `WideValues.LostValue` is an update after which it does not.
- The two commented lines of `delEntry` are live (mem_db/server/layouts/inc/layouts.h:324-325); without them it only
  counts.
- An empty option line is a bad option; the code reads past the end of an empty vector there
  (MessageStore/client/src/ClientUiTask.cpp:96-98).
- Kept as written: an empty result set sends no frame at all (`Reply.EndToEnd` says so), and the producer goes on with
  the next id whatever answer it reads. `StopAndWait.EveryMessageAccounted` counts what is lost in every run and
  `StopAndWait.NoneLostIff` proves which runs lose nothing; `StopAndWait.CrashLosesMessage` is one that does.

## Model

| member | source | states |
|---|---|---|
| Frames.HostOfNetwork | task1/src/PracticalSocket.cpp:177-185 | reading a header word in network order gives back every 32-bit value written |
| Frames.NetworkOfHost | task1/src/PracticalSocket.cpp:177-185 | every four bytes are the encoding of the word they are read as |
| Frames.NetworkValue | task1/src/PracticalSocket.cpp:177-185 | four bytes are the word of a number exactly if it is their sum with the first byte counting most |
| Frames.ByteOrder | task1/src/PracticalSocket.cpp:177-185 | comparing two header words byte by byte from the first is comparing the numbers |
| Frames.HasContIff | task1/inc/SocketServer.h:27 | the flag tested is the second-lowest bit, whatever the other bits are |
| Frames.SentHeader | task1/src/DataStreamManager.cpp:311-341 | what goes out for a frame is its size and its flags, each with the highest byte first, and then the payload, in sends of at most 1024 bytes |
| Frames.ReadHeader | task1/src/DataStreamManager.cpp:55-84 | a package is read from any bytes as the size and flags of its header, highest byte first, and that many bytes; none exactly if bytes are missing |
| Frames.DecodeEncode | task1/src/DataStreamManager.cpp:55-84 | a package followed by anything is read back as that package, and what follows is left |
| Frames.EncodeDecode | task1/src/DataStreamManager.cpp:55-84 | whatever is read as a package is its encoding followed by the rest |
| Frames.ParseTerminated | task1/src/DataStreamManager.cpp:35-97 | a chain of packages of which only the last lacks MSG_CONT is parsed as exactly that chain, and nothing behind it is touched |
| Frames.ParseMonotone | task1/src/DataStreamManager.cpp:35-97 | bytes that arrive later never revise what was already parsed |
| Frames.UniquelyDecodable | task1/src/DataStreamManager.cpp:55-97 | two terminated chains at the front of the same bytes are equal and are followed by the same bytes |
| Frames.CutStream | task1/src/DataStreamManager.cpp:35-97 | cut after any byte, a chain gives a proper prefix of its frames and is not taken for finished |
| Frames.ChunksShape | task1/src/DataStreamManager.cpp:332-341 | the send loop makes ceil(n / max) sends, all full but possibly the last, which join to the buffer |
| Frames.WireIsStream | task1/src/DataStreamManager.cpp:306-341 | the sends of all frames, joined, are the byte stream of the frames |
| Sockets.Socket.Send | task1/src/PracticalSocket.cpp:209-214 | a send hands over the whole stretch of the buffer, or throws and hands over nothing |
| Sockets.Socket.Recv | task1/src/PracticalSocket.cpp:216-224 | a receive moves 1 to len bytes from the connection into the buffer, 0 only at its end |
| Sockets.Socket.RecvAll | task1/src/SocketServer.cpp:104-117 | however the reads are cut, the buffer is filled with the next bytes and nothing behind them is taken; a closed connection is reported only when bytes are missing |
| Sockets.Socket.SendAll | task1/src/SocketClient.cpp:62-71 | the sends made are the chunks of the buffer in order, an initial part of them if one throws |
| Sockets.Socket.SendFrame | task1/src/DataStreamManager.cpp:311-341 | the sends made are the chunks of the header and payload, an initial part if one throws |
| Sockets.Socket.RecvFrame | task1/src/DataStreamManager.cpp:41-84 | for every segmentation the package read is the one decoded from the bytes to come, and nothing behind it is read |
| BulkSplit.SplitIffGreedy | task1/src/DataStreamManager.cpp:219-241 | a list of bulks is the sender's cut of its rows if and only if every bulk is non-empty and under the limit without its last row, and every bulk but the last reaches the limit |
| BulkSplit.ConcatSplit | task1/src/DataStreamManager.cpp:219-241 | the bulks joined are the rows in order |
| BulkSplit.BulkCountBound | task1/src/DataStreamManager.cpp:219-241 | k bulks need at least (k - 1) times the limit in row bytes, and no more bulks than rows are made |
| BulkSplit.SingleBulkIff | task1/src/DataStreamManager.cpp:219-226 | one bulk is made exactly if all rows but the last are under the limit |
| BulkStream.BulkDataOutStreamMngr.SendBulk | task1/src/DataStreamManager.cpp:306-345 | a bulk goes out as the chunks of its framed encoding |
| BulkStream.BulkDataOutStreamMngr.FillBulk | task1/src/DataStreamManager.cpp:220-227 | the filling loop takes the next rows, exactly as many as the greedy rule allows, and ends for zero-length rows too |
| BulkStream.BulkDataOutStreamMngr.StreamRows | task1/src/DataStreamManager.cpp:206-241 | the sends made are those of the reply's messages, bulk by bulk, only the last without MSG_CONT; all of them unless a send throws |
| BulkStream.BulkDataOutStreamMngr.HandleProtoBuffSend | task1/src/DataStreamManager.cpp:174-265 | a null result set sends one status package, a result set its bulks, a failed query nothing |
| BulkStream.BulkDataInStreamMngr.HandleProtoBuffRecv | task1/src/DataStreamManager.cpp:31-101 | for every segmentation the consumer gets the messages parsed from the bytes up to the first frame without MSG_CONT; after an exception an initial part that is never the whole of a finished reply |
| Reply.DeliverAll | task1/src/DataStreamManager.cpp:35-99 | a receiver given all frames of a message list consumes exactly those messages, finishes, and leaves the bytes behind them unread |
| Reply.DeliverCut | task1/src/DataStreamManager.cpp:43-80 | a receiver cut inside a reply consumes a proper prefix of its messages and reports a lost connection |
| Reply.EndToEnd | task1/src/DataStreamManager.cpp:31-101 | for every result set and limit the rows shown over all bulks are the rows in order; nothing is sent exactly if there are no rows |
| Reply.CutReply | task1/src/DataStreamManager.cpp:31-101 | with the connection cut after any byte the rows shown are an initial part and the reply is not taken for finished |
| Reply.ReplySays | task1/src/DataStreamManager.cpp:206-241 | every message of a reply is a result with serial number 1, the grand total and its own row count, only the last has the data of the whole result set, and the rows are cut greedily and join to the result set |
| Reply.AnswerSays | task1/src/DataStreamManager.cpp:188-241 | a null result set gives one status message, a result set such messages with a limit of 2 MB, a failed query none |
| Reply.ReplyFlags | task1/src/DataStreamManager.cpp:215-238 | the packages of a reply have the flags 3 and the last one 1 |
| Reply.DeliverIs | task1/src/DataStreamManager.cpp:35-97 | of any bytes a receiver consumes the messages of the packages in them up to the first it cannot read, and it is finished exactly if all can be read and a last one has come |
| Reply.ShownIs | task1/src/SocketClient.cpp:112-136 | nothing is shown of a status, and of a result as many rows as it says it has |
| Reply.DraftSays | task1/src/DataStreamManager.cpp:206-241 | of the draft's messages only the first has its kind and the grand total, and only the last a row count, over all bulks |
| Reply.DraftShowsRowsIff | task1/src/DataStreamManager.cpp:232-240 | the draft's messages show the result set if and only if all rows but the last are under the limit, whatever the schema's default type |
| Reply.DraftLosesRows | task1/src/DataStreamManager.cpp:232-240 | a row of 2 MB, which fills a bulk, and one more row, which the draft does not show |
| BulkSteps.PrefixSafety | task1/src/DataStreamManager.cpp:35-97 | in every interleaving of sends and receives, cut after any byte, the frames consumed are a prefix of those sent, and the receiver is done exactly when it has all, with nothing unread |
| BulkSteps.RunIsParse | task1/src/DataStreamManager.cpp:35-97 | in every interleaving the frames consumed are those parsed from the bytes received, in flight are the bytes sent up to the cut and not received, and a receiver gives up only with every byte received that got through |
| BulkSteps.RecvAsks | task1/src/DataStreamManager.cpp:43-80 | a receive may give any number of the bytes in flight up to those missing of the header or, at most 1024, of the payload |
| BulkSteps.RowsSafety | task1/src/DataStreamManager.cpp:35-101 | in every such interleaving the rows shown are an initial part of the result set, and all of it once the receiver is done |
| BulkSteps.RunsAreFinite | task1/src/DataStreamManager.cpp:333-341 | every interleaving ends, within a number of steps known from the reply |
| BulkSteps.StuckIsOver | task1/src/DataStreamManager.cpp:35-97 | a run that cannot go on has delivered the whole reply, or was cut and the receiver knows it |
| QueryPath.SendQuery | task1/src/SocketClient.cpp:34-71 | the query goes out as the chunks of one package |
| QueryPath.ExecuteTask | task1/src/SocketServer.cpp:61-189 | an SQL query is answered with the reply to what the database gives for it, all of it unless the socket throws, and nothing is sent for a message that cannot be read, is no query or is not SQL; once the request is read, nothing behind it is, whether or not the reply gets out |
| QueryPath.RequestPath | task1/src/SocketServer.cpp:77-117 | for every query and segmentation the server reads back the payload framed, in ceil(n / 1024) sends of which all but the last are full |
| QueryPath.Conversation | task1/src/SocketServer.cpp:61-189 | one query out and one reply back: the rows shown are those the database gave for that query, each message carries their total, and the client finishes exactly if the reply has a message |
| Slots.Stack.Push | mem_db/common/inc/data_structs.h:32-42 | the slot lands on top, or the full stack is unchanged and INV_LOCATION is returned |
| Slots.Stack.Pop | mem_db/common/inc/data_structs.h:44-51 | the last slot pushed comes off, or INV_LOCATION from an empty stack |
| Slots.SwitchBit | mem_db/common/inc/data_structs.h:91-101 | or-ing in a mask adds that bit number to the set that is on and and-ing out removes it, for all other numbers nothing changes |
| Slots.MasksDisjoint | mem_db/common/inc/data_structs.h:94 | the masks of bits 1 to 32 are non-zero and pairwise disjoint |
| Slots.MaskDoubles | mem_db/common/inc/data_structs.h:94 | bit 1 is the lowest, and each next bit is twice as high |
| Slots.BitMap.BitOn | mem_db/common/inc/data_structs.h:91-95 | the set of live bits grows by that number |
| Slots.BitMap.BitOff | mem_db/common/inc/data_structs.h:97-101 | the set of live bits loses that number |
| Slots.BitMap.IsOn | mem_db/common/inc/data_structs.h:103-107 | a bit is on exactly if its number is in the set |
| Tables.MatchesBytes | mem_db/server/layouts/inc/layouts.h:354-361 | a row matches if and only if every byte of every named column is that of the value |
| Tables.SelectedExactly | mem_db/server/layouts/inc/layouts.h:334-379 | the matching slots come out strictly increasing, each live slot whose every named column has the wanted bytes and no other, and at most 31 |
| Tables.RestartingScanExact | mem_db/server/layouts/inc/layouts.h:347-376 | with the count restarted at every row the scan reports exactly the matching slots |
| Tables.CarryingScanMissesNone | mem_db/server/layouts/inc/layouts.h:340-376 | with the count carried on, no matching slot is missed |
| Tables.CarryingScanExactIff | mem_db/server/layouts/inc/layouts.h:340-376 | with the count carried on, the scan is exact if and only if partial matches between two full ones never add up to the number of conditions |
| TableOps.CarryingScanFalseMatch | mem_db/server/layouts/inc/layouts.h:340-376 | after adding two rows that have the wanted number in one of two integer columns each, no row matches but the carried count reports one |
| TableOps.EveryRunConservesSlots | mem_db/server/layouts/inc/layouts.h:196-200 | after every run of operations free slots and rows add up to 32, an add is refused exactly at 31 rows, the slot it gets is not live, and a live slot has room to be freed |
| TableOps.RunOps | mem_db/server/layouts/inc/layouts.h:245-328 | after every run the free stack has no duplicates, is disjoint from the live slots, and the two are all slots |
| TableOps.AddKeeps | mem_db/server/layouts/inc/layouts.h:253-257 | an add keeps the slots conserved and never takes a live slot or slot 0 |
| TableOps.DeleteKeeps | mem_db/server/layouts/inc/layouts.h:321-327 | a delete keeps the slots conserved and removes exactly the matching rows |
| TableOps.BagOfRows | mem_db/server/layouts/inc/layouts.h:245-328 | slots forgotten, an add puts in one copy of its row and a delete takes out every copy of a matching row, and no other row is touched |
| TableOps.AddDelete | mem_db/server/layouts/inc/layouts.h:245-328 | deleting the row just added, when no other row matches, gives back the table, free stack included |
| TableOps.DeleteFrees | mem_db/server/layouts/inc/layouts.h:321-327 | the matching slots, in increasing order, go on top of the stack of free ones and their rows leave |
| TableOps.DeleteThenAdd | mem_db/server/layouts/inc/layouts.h:245-328 | after a delete of several rows the next rows added get their slots, the highest first, and no other slot is taken until these are used up |
| TableOps.DeleteCarriedIff | mem_db/server/layouts/inc/layouts.h:307-328 | a delete over the carried count removes exactly the matching rows if and only if partial matches between two full ones never add up to the number of conditions |
| TableOps.CarriedDeleteTakesRow | mem_db/server/layouts/inc/layouts.h:307-328 | after adding two rows of which none matches, a delete over the carried count takes one |
| Patches.PatchSets | mem_db/server/layouts/inc/layouts.h:289-296 | a byte of an updated row is as the last value to reach it has it |
| Patches.PatchElsewhere | mem_db/server/layouts/inc/layouts.h:289-296 | a byte that no value reaches is as it was |
| Patches.RenewedIff | mem_db/server/layouts/inc/layouts.h:273-300 | for values that fill their columns and stay in the row, every patched row is found by the new values, for all values of these sizes, if and only if no value reaches a column named before it |
| TableOps.FindAfterUpdate | mem_db/server/layouts/inc/layouts.h:273-300 | after an update with such values, looking for the new values finds every row that was updated |
| WideValues.WideSpills | mem_db/server/layouts/inc/layouts.h:292-296 | for columns named from right to left, or one column, every byte that a value spills on is reached by a later value if and only if no value is wider than its column |
| WideValues.HarmlessSpill | mem_db/server/layouts/inc/layouts.h:292-296 | named from left to right, a value wider than its column can be harmless |
| WideValues.HarmfulSpill | mem_db/server/layouts/inc/layouts.h:292-296 | a value of eight bytes for the first of two integer columns overwrites the second |
| WideValues.LostValue | mem_db/server/layouts/inc/layouts.h:273-300 | named from right to left, a value of eight bytes for the first column hides the updated row from a search for the new values |
| CopiedBytes.InsideIff | mem_db/server/layouts/inc/layouts.h:289-298 | with the pointer set back, an update leaves the region if and only if one of its copies ends behind it |
| WideUpdates.IsolatedIff | mem_db/server/layouts/inc/layouts.h:289-298 | for every region and all values of given sizes, the update stays in the region and changes no byte outside the reported rows, if and only if it reports nothing or every value stays in its row |
| WideUpdates.RawCopyIff | mem_db/server/layouts/inc/layouts.h:289-298 | for every region and all values of given sizes, however wide, the update leaves what it would leave with the values cut to their columns, if and only if it reports nothing or each byte a value spills on is reached by a later one |
| WideUpdates.FoundAgainIff | mem_db/server/layouts/inc/layouts.h:273-300 | for every region and all values of given sizes that fill their columns, however wide, a find with the new values contains every updated row, if and only if nothing matched, or no copy leaves the region and no value reaches a column named before it |
| WideUpdates.WideValueCrosses | mem_db/server/layouts/inc/layouts.h:289-298 | after adding two rows, updating one with a value of eight bytes for its second column overwrites the first column of the other, which does not match |
| Layout.GetDefByName | mem_db/server/layouts/inc/layouts.h:79-87 | the first column with that name is found, none exactly if there is none |
| Layout.MakeComparable | mem_db/server/layouts/inc/layouts.h:104-117 | each condition names the first column of its name and compares it with its own value; none is made only if some name is unknown or of a column wider than a raw value |
| Regions.WriteRow | mem_db/server/layouts/inc/layouts.h:257-265 | writing one slot's bytes leaves every other row and the bytes behind the rows alone |
| Layout.ArrayLayout.constructor | mem_db/server/layouts/inc/layouts.h:169-238 | a new layout is the empty table with all slots free |
| Layout.ArrayLayout.AddEntry | mem_db/server/layouts/inc/layouts.h:245-271 | the table gains the row in the slot on top of the stack and no other byte changes, or it is full and unchanged |
| Layout.ArrayLayout.MatchRow | mem_db/server/layouts/inc/layouts.h:354-375 | the early exit of the comparison loop fires exactly if the conditions met, with those carried in, reach the number of conditions |
| Layout.ArrayLayout.FindEntry | mem_db/server/layouts/inc/layouts.h:334-379 | the slots reported are those of the scan, carried or restarted, each live and with its own bytes, fewer than the result buffer holds |
| Regions.CopiedPatches | mem_db/server/layouts/inc/layouts.h:289-298 | with the pointer set back and values that stay in their rows, the copies patch the reported rows and change no other byte |
| Regions.PointerSums | mem_db/server/layouts/inc/layouts.h:286-295 | the pointer never set back stands at the sum of all rows so far, of all offsets once for each row before and of the offsets so far; set back, at the column in its row |
| Layout.ArrayLayout.CopyValues | mem_db/server/layouts/inc/layouts.h:286-299 | the copies are made one by one at the running or the reset pointer, up to one that would leave the region; rows, or in the code copies, are counted |
| Layout.ArrayLayout.UpdateEntry | mem_db/server/layouts/inc/layouts.h:273-300 | for all values, wide ones too, the region is left as by the copies into the reported rows; repaired, and with values that stay in their rows, exactly the matching rows are patched, no other byte of the region changes, and the number of rows is returned (`WideUpdates.IsolatedIff` says for which values other rows are spared) |
| Layout.ArrayLayout.DelEntry | mem_db/server/layouts/inc/layouts.h:307-328 | the reported rows leave the table, over the carried or the restarted count, their slots go back on the stack in order, and their number is returned; with the restarted count these are the matching rows |
| LayoutDraft.DraftRightIff | mem_db/server/layouts/inc/layouts.h:281-298 | for every region, the running pointer does the same as one that is set back for the matching rows, for all new values of any size, if and only if the scan reports nothing, or one row, which matches, with all named columns but the last at offset 0; otherwise some full-width values go wrong |
| LayoutDraft.DraftCountIff | mem_db/server/layouts/inc/layouts.h:287-299 | the draft counts rows times columns, which is the number of matching rows if and only if nothing is reported or one column is named |
| LayoutDraft.DraftMisplaces | mem_db/ut/src/layouts_tests.cpp:184-223 | in every region with room for 32 rows that holds the one row of the update test, whatever its values, the draft counts 2 for 1 and puts the double at the sum of both offsets, so some new values go wrong |
| StopAndWait.AtMostOnceInOrder | producer-consumer/producer_task.cpp:22-73 | in every run, with any crashes and reconnects, handled ids rise, at most one message is outstanding and is the current one, and the n-th answer is n, for a message that was handled, or 0 |
| StopAndWait.AcknowledgedIsRead | producer-consumer/serialization_utils.h:18-30 | in every run the n-th answer is n if and only if some step wrote the acknowledgement of message n, crashes or not, and 0 otherwise |
| StopAndWait.ServedInTurn | producer-consumer/consumer_task.cpp:43-58 | in every run connections are accepted in the order in which they were made, and at most ten wait |
| StopAndWait.WhatCanHappen | producer-consumer/producer_task.cpp:41-73 | in every reachable state exactly these steps are possible: a crash whenever the consumer runs, a failed connect whenever one is tried, a read with data or a closed peer, and the others whenever it is their turn |
| StopAndWait.ZeroMeansClosed | producer-consumer/consumer_task.cpp:65-76 | the hang-up branch is taken only with the producer's end closed and nothing left to read, and a 0 answer is read only with the consumer's end closed |
| StopAndWait.NeverStuck | producer-consumer/consumer_task.cpp:43-79 | in every reachable state some step other than a crash or a failed connect is possible |
| StopAndWait.CrashFreeExact | producer-consumer/producer_task.cpp:24-39 | without a crash the consumer has handled exactly 1 to n and the producer has read 1 to n or 1 to n - 1, however often it reconnects |
| StopAndWait.EveryMessageAccounted | producer-consumer/producer_task.cpp:22-39 | in every run the messages sent are as many as those handled, those lost by a send to a closed end or a crash with the message pending, and the one that may be pending |
| StopAndWait.NoneLostIff | producer-consumer/producer_task.cpp:22-39 | every message sent was handled or is pending if and only if no step of the run sends to a closed end or crashes the consumer while a message is pending |
| StopAndWait.CrashLosesMessage | producer-consumer/producer_task.cpp:32-38 | a run in which a crash loses the first message for good |
| Device.StdStreamIODevice.ReadData | MessageStore/framework/src/StdStreamIODevice.cpp:11-29 | up to len characters are taken, ending behind a newline; past the end of the input the last character is repeated and the stream is no longer good |
| Device.TakenIff | MessageStore/framework/src/StdStreamIODevice.cpp:11-29 | the chunk read is the one that has the characters of the input, past its end the last one again, up to the limit or the first newline |
| Device.StdStreamIODevice.IgnoreTillNewline | MessageStore/framework/src/StdStreamIODevice.cpp:41-44 | exactly the rest of the line goes, newline included |
| Device.StdStreamIODevice.ReadLineFromStream | MessageStore/client/src/ClientUiTask.cpp:221-235 | one whole line is consumed and its first characters up to the limit are returned |
| Device.LineDiscipline | MessageStore/client/src/ClientUiTask.cpp:221-235 | the i-th read gets the i-th line cut to its own limit, however long the lines before were |
| Device.LastLine | MessageStore/client/src/ClientUiTask.cpp:221-235 | behind the last newline there is one more line, padded to its limit, and then nothing |
| Device.LinesOfText | MessageStore/client/src/ClientUiTask.cpp:221-235 | the lines a device sees in a text are the lines the text was made of |
| Mailboxes.UserManager.AddUser | MessageStore/client/src/UserManager.cpp:6-23 | a user whose full name's hash is new gets an empty mailbox under it, one whose hash is known is reported and nothing changes |
| Mailboxes.UserManager.SendToUser | MessageStore/client/src/UserManager.cpp:26-33 | the message is appended to the mailbox under the hash of the receiver's full name and no other changes |
| Mailboxes.UserManager.GetUserMessages | MessageStore/client/src/UserManager.cpp:51-59 | the mailbox under the hash of the full name is handed over and emptied, and no other changes |
| Mailboxes.Conservation | MessageStore/client/src/UserManager.cpp:6-59 | over every run and for every key, what was delivered and then what is pending is what was sent to it, in order |
| Mailboxes.SameKeyIff | MessageStore/client/src/UserManager.cpp:14-15 | two users have the same key under every hash if and only if their first and last names run together alike |
| Mailboxes.NextAnswer | MessageStore/client/src/UserManager.cpp:6-59 | what a request is answered and changes, from the requests before it alone: an add succeeds unless the hash of the full name was added, a send needs both names added, a receive gets what was sent there and not yet delivered |
| Mailboxes.RefinesIffInjective | MessageStore/client/src/UserManager.cpp:14-20 | the index answers every run over a set of users as one mailbox per user would if and only if no two of them share a key |
| Mailboxes.SplitNamesCollide | MessageStore/client/src/UserManager.cpp:45-46 | two different users whose names run together alike share a key under every hash |
| UiTask.ClientUiTask.HandleAddUser | MessageStore/client/src/ClientUiTask.cpp:145-155 | reads one line, adds the user it names and shows the interpreter's answer |
| UiTask.ClientUiTask.HandleSendToUser | MessageStore/client/src/ClientUiTask.cpp:157-185 | stops at the first unknown user; a message reaches the store only for users that exist |
| UiTask.ClientUiTask.HandleRecvForUser | MessageStore/client/src/ClientUiTask.cpp:187-211 | shows the pending messages in order and empties the mailbox |
| UiTask.ClientUiTask.RunUiLoop | MessageStore/client/src/ClientUiTask.cpp:70-143 | on every character stream the loop shows, stores and leaves what the interpreter of its lines does, and ends |
| UiTask.NameInLine | MessageStore/client/src/ClientUiTask.cpp:237-252 | first name, a space and last name are the line, up to a null character; without a space all of it is the first name |
| UiTask.SendTyped | MessageStore/client/src/ClientUiTask.cpp:157-185 | on "2" and lines for two known users and a text, the text, cut to 128, goes to the end of the receiver's mailbox from that sender; otherwise the turn stops at the first unknown user and changes nothing |
| UiTask.AddTyped | MessageStore/client/src/ClientUiTask.cpp:145-155 | on "1" and a line, the user it names gets an empty mailbox, or that it exists is shown |
| UiTask.RecvTyped | MessageStore/client/src/ClientUiTask.cpp:187-211 | on "3" and a line, the waiting texts of the user it names are shown in order and none are left, or that there are none, or that there is no such user |
| UiTask.OtherTyped | MessageStore/client/src/ClientUiTask.cpp:90-143 | "4" says good-bye and ends the session, any other line, the empty one too, is a bad option |
| UiTask.BreaksOff | MessageStore/client/src/ClientUiTask.cpp:70-143 | a turn breaks off only when the input has ended, and then has changed nothing |
| UiTask.SessionIsRun | MessageStore/client/src/ClientUiTask.cpp:70-211 | a session changes the store exactly as the run of the requests it made |
| UiTask.SessionConserves | MessageStore/client/src/ClientUiTask.cpp:70-211 | over a whole session on any input, what was delivered and then what is left is what was sent, in order |
| MsgId.KthIdIsK | common/ut/inc/nwUT.h:166-176 | in every interleaving of any number of threads the k-th successful swap returns k modulo 2^32 |
| MsgId.EveryThreadSteps | common/ut/inc/nwUT.h:166-176 | in every state each thread can take one step, a load outside its loop and a swap inside |
| MsgId.IdsRepeatIff | common/ut/inc/nwUT.h:166-176 | two ids are equal if and only if a multiple of 2^32 swaps lies between them |
| MsgId.FailureMeansOvertaken | common/ut/inc/nwUT.h:171-173 | a swap that fails was overtaken by another thread since its load, and one that was not overtaken gives out an id |
| MsgId.FailuresBounded | common/ut/inc/nwUT.h:169-173 | a thread fails at most as often as the others succeed |

## Left out

- Protobuf encoding, query execution, timing data, column metadata and printing to consoles: library or missing code.
- BulkStream.BulkDataOutStreamMngr.HandleProtoBuffSend: requires that each message encodes to fewer than 2^32 bytes,
  because protobuf itself encodes no larger message.
- `send` is all or an exception, as the wrapper treats it; a partial return of the operating system's call, which the
  wrapper ignores, is not modelled. Buffers always allocate, and reading a row does not throw.
- The byte width of the header fields is 32 bits each; the header that defines their types is not part of this model.
- `addColumnDef`, the shared-memory allocator and `destroy` of the row store. A header has packed columns, and the region
  has room for 32 rows.
- Layout.MakeComparable: answers None for an unknown column name and for a column wider than the eight bytes of a raw
  value, because the source stores a null pointer or reads past the value there.
- Layout.ArrayLayout.UpdateEntry: stops at a copy that would leave the region, because the source writes over whatever
  memory lies behind it.
- Layout.ArrayLayout.FindEntry: puts no bound on the row width, because a row wider than the 1024 bytes of a result
  buffer is copied past its end in the source.
- The producer and consumer are modelled as steps only, not as methods over file descriptors. Messages are their ids,
  which are unbounded; a message is read whole or not at all, and a producer killed by a broken pipe is a run that stops.
- Threads of the message store: `stopUiThread` from another thread, and the destructor.
- `SocketServer::Listen`, the flow manager, the reactor and the remaining directories: operating-system plumbing, code
  written against other versions, or the same loops again.
