# HCAN verification

HCAN is a home-automation bus: AVR boards with a small EEPROM heap (EDS), a boot loader, a heating
controller and a receive interrupt, and a host with flashing tools, a syslog reader, a frame log with a query
language and two daemons. This project models their logic in Dafny and proves what it keeps over all inputs
and all runs. Check everything with `dafny verify dfyconfig.toml`.

| file | part of HCAN |
|---|---|
| `Bytes.dfy` | bytes, byte conversions, overwriting parts of sequences |
| `EdsChain.dfy`, `EdsModel.dfy` | the EDS data space as cells, and as a list of blocks (the reference model) |
| `EdsDevice.dfy`, `EdsHost.dfy` | the firmware's loops over EEPROM cells; the host's walk and field access |
| `Crc16.dfy`, `Flash.dfy` | the firmware CRC; boot loader and boot-time check |
| `FlashLink.dfy` | `cmd_flash` over a bus that loses frames |
| `Query.dfy`, `QueryLaws.dfy` | the query compiler and stack machine; the language from its words to its answers |
| `DataFile.dfy` | the frame log |
| `RxQueue.dfy`, `Syslog.dfy` | receive queue under interrupts; fragmentation and reassembly |
| `Heating.dfy`, `HeatingPwm.dfy`, `HeatingRuns.dfy` | the heating controller; its pulse width over whole periods; what its commands lead to |
| `Hcand.dfy`, `Hid.dfy` | peer table of the bus daemon; serial codec |

Code that works in place is a class with arrays or fields; each method is tied to a function of the old state
(`Step`, `Tick`, `Accept`, ...), and the properties are lemmas about those functions and their runs. `hide`
statements only keep definitions out of the solver's way.

## Findings about the code

- Formatting covers the data area exactly when its length leaves no stub of 1 to 3 cells behind the 130-cell
  chunks; otherwise the result depends on stale bytes (`FormatTilesExactly` gives the exact condition). The two
  configured sizes are fine.
- A failed allocation stores the type byte at address 0 (`EdsDevice.Device.Allocate`).
- A syslog text that fits into one frame is never printed by itself, and a full frame after the first that ends
  in a newline cuts the message (`MessageReassembles` is an if-and-only-if).
- `match` runs at most 32 instructions although the code buffer holds 128, so queries are limited to 31 tokens.
- `sync` computes the last timestamp but writes back only 16 of the 24 bytes of the data block header, so the
  stored last timestamp stays 0 (`SyncedFields`).
- Switching a heater off does not clear a running mode duration: it goes back to automatic mode when the duration
  runs down (`OffIsUndone`; `OffLastsExactly` gives the exact condition).
- An acknowledged line need not be complete: without its first frame the line counter is not restarted, and each
  of the other frames may be acknowledged (`LineAcks` and `AckMeansComplete` give the exact counts). Surplus
  acknowledgements break the page off at the write command, but a line of which only the second frame arrives gets
  exactly the one the host waits for, and the page completes with stale bytes (`UnnoticedLoss`). Completed pages are
  complete exactly if all first frames arrived (`CompletedIsComplete`).
- `cmd_flash` saves the board's CRC before it compares it. After a reported mismatch the boot check therefore
  accepts the wrong flash (`OutcomeMeans`, with a run in `MismatchAccepted`).
- The comment above `cmd_flash` says that the sizes of cached and new image are compared; the code compares CRCs only.
- A field whose last byte is payload byte 254 has index 256 there, which wraps to 0: the NUL of a string filling
  it frees the block, and the high byte of a number becomes its type (`RewriteStr`, `RewriteUint16`).
- A write to a size cell by EDS_WRITE_TO_BLOCK is not refused; `WriteTilesExactly` says when the area stays tiled.
- `match` does not reset the stack: a query that fails with values left over starts the next match on them. No
  later match succeeds because of it (`SessionReturns`).
- The CRC comparison at the end cannot notice that incremental mode was chosen wrongly: the CRC is linear, so a
  board that differs from the cached image on pages left out only, with the same CRC, ends with the CRC of the new
  image (`WrongModeUnnoticed`, with a board in `WrongModeHappens`).
- Neither 'C' nor a size mismatch clears a pending half byte: one stray character on the serial line loses all
  later frames with data, the characters that the reset after a mismatch drains aside (`StrayLosesAll`).
- The comment above the frame record speaks of 22 bytes; the record has 24, which the code uses.

## Model

| member | source | states |
|---|---|---|
| `EdsChain.EncodeOfBlocks` | canix/eds.c:45-48 | reading the blocks along the size bytes and writing them back gives the same cells; the list is gap-free |
| `EdsChain.BlocksOfEncode` | canix/eds.c:45-48 | writing a gap-free block list and walking it with the next-block step gives back the list |
| `EdsChain.LaidTiles` | canix/eds.c:45-48 | every cell of the area lies in exactly one block |
| `EdsChain.WalkThrough` | canix/eds.c:45-48 | each block reached by the walk is the one found at its address, with the walk before and behind it intact |
| `EdsChain.CursorNext` | canix/eds.h:29-35 | type and size cells at a block, and that its end is the next block's address |
| `EdsModel.SpaceRoundTrip` | canix/eds.c:45-48 | a block list survives being stored as cells |
| `EdsModel.MemoryRoundTrip` | canix/eds.c:45-48 | chained cells survive being read as a block list |
| `EdsModel.FirstFit` | canix/eds.c:81-101 | the result is the first free block of size n or at least n+2, or the length when there is none |
| `EdsModel.AllocateMeans` | canix/eds.c:244-252 | the first usable block gets the asked type and size and keeps address and first bytes |
| `EdsModel.AllocateFails` | canix/eds.c:244-252 | without a usable block only cell 0 changes |
| `EdsModel.FreeMeans` | canix/eds.c:106-123 | only the type of the block at the address is cleared |
| `EdsModel.WriteMeans` | canix/eds.c:280-288 | one byte changes: in front of the area, a type, or a payload byte |
| `EdsModel.DefragmentMeans` | canix/eds.c:125-159 | live blocks stay, and no two free neighbours fit into one block |
| `EdsModel.FormatMeans` | canix/eds.c:14-43 | the two magic bytes stand in front of the area and no block is live |
| `EdsModel.StepKeepsLayout` | canix/eds.c:209-294 | every command of the protocol, writes to any cell but a size cell included, keeps the blocks gap-free up to EDS_END + 1 |
| `EdsModel.RunTiles` | canix/eds.c:209-294 | after any run of commands the size bytes lead exactly to EDS_END + 1 and each cell belongs to exactly one block |
| `EdsModel.StepKeepsLive` | canix/eds.c:209-294 | a command not aimed at a live block leaves its address, type, size and payload alone |
| `EdsModel.RunKeepsLive` | canix/eds.c:209-294 | a live block survives every run that neither formats, frees it, nor writes into it |
| `EdsModel.CarveConserves` | canix/eds.c:89-99 | a split changes no live block and conserves the cells of free blocks |
| `EdsModel.CoalesceLaid` | canix/eds.c:125-159 | defragmentation keeps the area tiled |
| `EdsModel.CoalesceConserves` | canix/eds.c:125-159 | defragmentation keeps the sequence of live blocks and the number of cells held by free blocks |
| `EdsModel.CoalesceDefragments` | canix/eds.c:125-159 | no two neighbouring free blocks are left whose sizes plus 2 fit into 255 |
| `EdsModel.CoalesceIdempotent` | canix/eds.c:125-159 | defragmenting twice is defragmenting once |
| `EdsModel.CellsAddUp` | libhcan++/eds_connection.cc:339-379 | free payload, used payload and two cells per block make up the whole area |
| `EdsModel.LiveMeans` | libhcan++/eds_connection.cc:317-337 | the live blocks are those with a type other than 0 |
| `EdsModel.SumsMean` | libhcan++/eds_connection.cc:339-379 | used is the payload of the live blocks, free that of the others, and free cells count their headers |
| `EdsModel.FormattedBlocks` | canix/eds.c:14-43 | a formatted area chains up to the end, all blocks free, old cells as payload |
| `EdsModel.FormatTilesExactly` | canix/eds.c:26-42 | the formatted area chains up if and only if no stub is left or its stale bytes look like a block |
| `EdsModel.ConfiguredSizesFormattable` | canix/eds.h:13-21 | both configured areas are covered completely |
| `EdsDevice.Device.Format` | canix/eds.c:14-43 | the loop writes exactly the formatted cells, from any contents |
| `EdsDevice.Device.Alloc` | canix/eds.c:74-104 | 0 exactly if no free block has the asked size or at least two bytes more; otherwise the first such block, with the asked size afterwards |
| `EdsDevice.Device.Free` | canix/eds.c:106-123 | clears one type byte exactly when the argument is a chain address |
| `EdsDevice.Device.SetSize` | canix/eds.c:145-149 | the enlarged size byte makes one block of two neighbours |
| `EdsDevice.Device.Defragment` | canix/eds.c:125-159 | the in-place pass turns the block list into its greedy coalescing |
| `EdsDevice.Device.Allocate` | canix/eds.c:244-252 | allocation sets the type of the block, or of cell 0 when it failed |
| `EdsDevice.Device.WriteByte` | canix/eds.c:280-288 | a write anywhere in the EEPROM changes one cell; off the size cells that is one type or payload byte of one block, or a cell in front of the area |
| `EdsDevice.Device.GetNextBlock` | canix/eds.c:222-242 | for any 16-bit handle the reply describes the cell behind it, wrapped to 16 bits, or cell 0 behind the area; for a chain handle that is the next block, the first for 0, and 0 behind the last |
| `EdsDevice.WriteTilesExactly` | canix/eds.c:280-288 | a write keeps the area tiled if and only if it hits no size cell or the size it stores leads to a cell from which the old size bytes reach the end |
| `EdsDevice.Device.Handle` | canix/eds.c:209-294 | one command acts on the cells as on the block list; a write changes one cell, allocation replies with the block or 0, freeing with the result code |
| `EdsDevice.Device.Serve` | canix/eds.c:209-294 | a session of commands acts on the cells as the run on the block list |
| `EdsDevice.SplitCells` | canix/eds.c:91-97 | the three cells of a split turn one free block into two |
| `EdsDevice.JoinCells` | canix/eds.c:145-149 | the size byte of a merge makes the neighbour's header payload |
| `EdsHost.MirrorIsLive` | libhcan++/eds_connection.cc:317-337 | with all types known the host's list is exactly the live blocks in address order |
| `EdsHost.MirrorStops` | libhcan++/eds_connection.cc:317-337 | the list ends at the first live block of unknown type |
| `EdsHost.AllKnownIs` | libhcan++/eds_connection.cc:317-337 | the walk succeeds exactly if every live block has a known type |
| `EdsHost.Connection.Update` | libhcan++/eds_connection.cc:317-337 | the walk ends, lists the live blocks up to the first unknown type, and fails exactly if there is one |
| `EdsHost.Connection.Space` | libhcan++/eds_connection.cc:339-379 | the sums over the walk are the free and the used payload |
| `EdsHost.Connection.SpaceReport` | libhcan++/eds_connection.cc:339-379 | used is the payload of the live blocks, free that of the others, and with 2 per block they make the size of the area |
| `EdsHost.Connection.Store` | libhcan++/eds_connection.cc:271-281 | byte writes change the given bytes of one block and nothing else; index 256 wraps to the type byte |
| `EdsHost.Connection.SetFieldStr` | libhcan++/eds_connection.cc:253-289 | the payload holds the string, or its first size - 1 bytes, and a NUL, the NUL over the type byte where its index wraps; nothing is written for a non-char or empty field |
| `EdsHost.Connection.StrField` | libhcan++/eds_connection.cc:174-205 | the replies of four bytes, with truncated index, yield their bytes up to the first NUL |
| `EdsHost.Connection.SetFieldUint16` | libhcan++/eds_connection.cc:227-251 | low byte then high byte are stored for a field of any declared size, the high byte over the type where its index wraps |
| `EdsHost.Connection.Uint16Field` | libhcan++/eds_connection.cc:151-172 | the number made of the two cells |
| `EdsHost.StringRoundTrip` | libhcan++/eds_connection.cc:174-205 | a NUL-free string followed by a NUL at index 255 at most is read as that string |
| `EdsHost.Unterminated` | libhcan++/eds_connection.cc:174-205 | without a NUL the whole window of the field is read |
| `EdsHost.ReplyAbove` | libhcan++/eds_connection.cc:174-205 | a read whose index has wrapped starts at the header of the block |
| `EdsHost.Connection.RewriteStr` | libhcan++/eds_connection.cc:174-289 | storing and reading a NUL-free string gives the string, or its first size - 1 bytes, and keeps the type, unless the NUL falls behind index 255, which makes the block free |
| `EdsHost.Connection.RewriteUint16` | libhcan++/eds_connection.cc:151-251 | a 16-bit field reads back as stored and keeps the type, unless its high byte falls behind index 255 and becomes the type |
| `Crc16.CrcUpdate` | libhcan++/ihexfile.cc:112-127 | the bit loop computes eight register shifts |
| `Crc16.HostCrc` | libhcan++/ihexfile.cc:129-143 | the host's loop computes the CRC over byte pairs |
| `Crc16.BoardCrc` | hcanbl32/main.c:329-351 | the board's loop computes the CRC over little-endian words |
| `Crc16.HostAndBoardAgree` | libhcan++/ihexfile.cc:129-143 | for equal bytes both CRCs are equal |
| `Crc16.WordUpdateBijective` | libhcan++/ihexfile.cc:112-127 | for every word the update is a bijection on CRC states, with its inverse |
| `Crc16.WordUpdateInjective` | libhcan++/ihexfile.cc:112-127 | from one state different words lead to different states |
| `Crc16.OneWordChangeDetected` | hcanbl32/main.c:329-351 | every change of one word changes the CRC |
| `Crc16.CrcLinear` | libhcan++/ihexfile.cc:112-143 | what the CRCs of two images differ by depends only on what the images differ by |
| `Crc16.Collision` | libhcan++/ihexfile.cc:112-143 | two different starts of an image have the same CRC with every continuation |
| `Flash.DeliveredKeeps` | hcanbl32/main.c:483-527 | any frames of the job, with any losses, repetitions and order, leave every page left out and everything behind the image as it was |
| `Flash.FlashedMerges` | libhcan++/board_driver.cc:429-493 | a complete pass puts the image on every page it sends and changes neither the pages left out nor the rest |
| `Flash.FlashingCompletes` | libhcan++/board_driver.cc:401-493 | after any such frames a complete pass leaves exactly the image in front of the old rest if and only if the board held the image on the pages left out |
| `Flash.MergedIsImage` | libhcan++/board_driver.cc:433-456 | image on the pages sent and old flash elsewhere make the image if and only if the pages left out held it |
| `Flash.CachedBoardIsDone` | libhcan++/board_driver.cc:433-456 | a board holding the cached image has all skipped pages in place |
| `Flash.Bootloader.Fill` | hcanbl32/main.c:483-498 | four bytes enter the buffer; acknowledged from line counter 16 on |
| `Flash.Bootloader.Write` | hcanbl32/main.c:499-527 | the page at the address becomes the buffer, word by word |
| `Flash.Bootloader.CrcQuery` | hcanbl32/main.c:540-551 | the CRC over the first bytes read from the flash, also for sizes beyond it |
| `Flash.Bootloader.CheckFirmware` | hcanbl32/main.c:353-370 | decides whether the CRC over the stored size equals the stored CRC, for any EEPROM contents |
| `Flash.Deliver` | hcanbl32/main.c:434-561 | the board processes the frames that got through |
| `Flash.SavedReadsBack` | hcanbl32/main.c:359-363 | the stored words read back as saved |
| `Flash.SavedCells` | libhcan++/board_driver.cc:562-567 | CRC in cells 16 and 17, size in 18 and 19, low bytes first; no other cell changes |
| `Flash.CheckFirmwareDetects` | hcanbl32/main.c:353-370 | after saving, the unchanged flash is accepted and every change within one 16-bit word is rejected |
| `FlashLink.LineAcks` | hcanbl32/main.c:483-498 | for every counter value and every subset of a line's frames: with the first frame one acknowledgement if all four arrive and none otherwise; without it one per frame, except below 16 and at the 16-bit wrap |
| `FlashLink.AckMeansComplete` | hcanbl32/main.c:483-498 | an acknowledged line is a complete line if and only if its first frame arrived or the counter lets none of the others be acknowledged |
| `FlashLink.LostLineAcknowledged` | hcanbl32/main.c:483-498 | behind a complete line, the second frame alone gets exactly one acknowledgement |
| `FlashLink.PageCompletes` | libhcan++/board_driver.cc:458-489 | for all fates of all frames: how a page ends, read off the acknowledgements heard; it completes if and only if every line finds one, none is left over and the write is acknowledged; the page then holds the bytes that arrived and stale ones elsewhere |
| `FlashLink.CompletedIsComplete` | libhcan++/board_driver.cc:463-479 | a page that completes has lost no fill frame if and only if the first frame of each line arrived |
| `FlashLink.LossFreePage` | libhcan++/board_driver.cc:458-489 | a page without losses completes from any line counter |
| `FlashLink.UnnoticedLoss` | libhcan++/board_driver.cc:463-489 | a page of which three frames are lost completes and leaves 12 stale bytes in the flash |
| `FlashLink.PassCompletes` | libhcan++/board_driver.cc:429-493 | a pass completes if and only if every line of every page sent gets its acknowledgement |
| `FlashLink.PassEnds` | libhcan++/board_driver.cc:429-493 | a pass ends as its first page that does not complete, for all fates |
| `FlashLink.PassKeeps` | libhcan++/board_driver.cc:429-493 | any pass, complete or not, leaves every skipped page and everything behind the image as it was |
| `FlashLink.PassHolds` | libhcan++/board_driver.cc:429-493 | what every page holds after a pass that completed in spite of losses |
| `FlashLink.FirstsSuffice` | libhcan++/board_driver.cc:429-493 | a pass that completes with all first frames leaves the flash of a loss-free pass |
| `FlashLink.LossFreeCompletes` | libhcan++/board_driver.cc:429-493 | a pass without losses completes |
| `FlashLink.SendLine` | libhcan++/board_driver.cc:463-479 | the four frames of a line move the page one line on |
| `FlashLink.SendPage` | libhcan++/board_driver.cc:458-489 | the loops over lines and the write command behave as the page model, for all fates |
| `FlashLink.SamePage` | libhcan++/board_driver.cc:437-445 | decides equality of a page with its cached version |
| `FlashLink.FlashPass` | libhcan++/board_driver.cc:429-493 | the loop over the blocks behaves as the pass model, for all fates |
| `FlashLink.TriesKeep` | libhcan++/board_driver.cc:399-548 | whatever is lost in all tries, resets included, every skipped page and everything behind the image stay as they were |
| `FlashLink.OutcomeMeans` | libhcan++/board_driver.cc:497-518 | a success is a flash with the image's CRC, so equal to the image or different in more than one word; a mismatch is not the image; after both the boot check accepts the flash |
| `FlashLink.OneWordChanges` | libhcan++/board_driver.cc:497-518 | every change of the bytes of one word is among those a success excludes |
| `FlashLink.MismatchAccepted` | libhcan++/board_driver.cc:501-509 | a run with lost frames in which the host reports a mismatch and the boot check accepts the flash |
| `FlashLink.TriesMerge` | libhcan++/board_driver.cc:399-548 | the try that ends the command puts the image on all pages sent if all its first frames arrived; a loss-free try always completes; the command gives up only if no try was loss-free |
| `FlashLink.TriesInstall` | libhcan++/board_driver.cc:399-548 | a command that ends with such a try installs exactly the image if and only if the pages left out held it, and then reports it |
| `FlashLink.TriesUsed` | libhcan++/board_driver.cc:399-548 | the command ends with the first try that does not break off with nothing unread and its boot stop answered; it gives up exactly if all break off so, and aborts exactly if a try ends neither complete nor so |
| `FlashLink.RetryInstalls` | libhcan++/board_driver.cc:530-548 | after any number of tries that time out, a loss-free try is made and leaves exactly the image in front of the old rest |
| `FlashLink.ChoiceIsSafe` | libhcan++/board_driver.cc:378-395 | incremental mode is chosen by CRC; a board that holds the cached image of any length, or one of the same length up to one word, has every page left out in place |
| `FlashLink.FlashInstalls` | libhcan++/board_driver.cc:360-548 | for such a board and any earlier losses, a command ended by a loss-free try leaves exactly the image in front of the old rest |
| `FlashLink.SameCrcBehind` | libhcan++/board_driver.cc:378-395 | if board and cached image have the same CRC and differ on pages left out only, result and image have the same CRC |
| `FlashLink.WrongModeUnnoticed` | libhcan++/board_driver.cc:497-509 | the command then reports success, and the flash is the image if and only if the board held the cached image |
| `FlashLink.WrongModeHappens` | libhcan++/board_driver.cc:378-395 | a board on which a loss-free incremental command reports success with a wrong flash |
| `FlashLink.SaveCrc` | libhcan++/board_driver.cc:562-567 | CRC and size are stored as little-endian words, as many bytes of them as get through |
| `FlashLink.CmdFlash` | libhcan++/board_driver.cc:360-549 | mode, three tries with resets that may be lost, and CRC exchange give the outcome, flash and EEPROM of the model for all fates; the flash behind the image stays; what success and mismatch mean for the flash and the boot check |
| `Query.TokenOf` | libhcandata/data_query.cc:88-244 | tokens carry only 24-bit constants and data indices 0 to 7 |
| `Query.DecodeCode` | libhcandata/data_query.cc:262-345 | every compiled code is read back as its token |
| `Query.ExecEvaluates` | libhcandata/data_query.cc:255-352 | the values on the stack are the values of the trees the tokens build |
| `Query.BuildReadsBack` | libhcandata/data_query.cc:255-352 | the trees built read back as exactly the tokens consumed |
| `Query.BuildPostfix` | libhcandata/data_query.cc:255-352 | the postfix form of an expression rebuilds that expression |
| `Query.AcceptedIsPostfix` | libhcandata/data_query.cc:255-352 | a query runs normally if and only if it has at most 31 tokens, is the postfix form of one expression and needs at most 15 slots |
| `Query.AcceptedValue` | libhcandata/data_query.cc:255-352 | the machine leaves exactly the expression's value |
| `Query.PostfixUnique` | libhcandata/data_query.cc:255-352 | the expression behind an accepted query is unique |
| `Query.DataQuery.Compile` | libhcandata/data_query.cc:70-253 | the code array holds the tokens and a stop word; fails exactly from 127 tokens on |
| `Query.DataQuery.Push` | libhcandata/data_query.cc:354-359 | pushes, or fails when slot 15 is taken |
| `Query.DataQuery.Pop` | libhcandata/data_query.cc:361-368 | pops the top, or fails on the empty stack |
| `Query.DataQuery.Execute` | libhcandata/data_query.cc:262-345 | one token acts on the stack as on values, or fails exactly on overflow or underrun |
| `Query.DataQuery.Match` | libhcandata/data_query.cc:255-352 | on the stack it finds, returns normally exactly if the tokens run and leave one value; from the empty stack these are the accepted queries, with the expression's truth and an empty stack; a failed match leaves its values |
| `Query.SessionReturns` | libhcandata/data_query.cc:255-352 | in every session of a query, every match returns normally if the query is accepted and none does if it is not |
| `Query.PrintAll` | hcandq/main.cc:82-88 | without a limit the frames for which the expression is true are printed in file order |
| `Query.SearchBack` | hcandq/main.cc:57-69 | the backward search stacks exactly the last matching frames |
| `Query.QueryFile` | hcandq/main.cc:42-90 | fails exactly when it gets to match a query that is not accepted, otherwise prints exactly the matching frames, or the last ones of them, in file order |
| `QueryLaws.Ask` | libhcandata/data_query.cc:70-352 | compiling words and matching a frame succeeds exactly if the words yield a value, and answers whether it is not 0 |
| `QueryLaws.EqualLaw` | libhcandata/data_query.cc:309-313 | = yields 1 exactly if both values are equal, and fails exactly without room |
| `QueryLaws.NotEqualLaw` | libhcandata/data_query.cc:314-318 | != yields 0 exactly if both are equal |
| `QueryLaws.BothLaw` | libhcandata/data_query.cc:328-332 | && is true exactly if both are |
| `QueryLaws.EitherLaw` | libhcandata/data_query.cc:338-342 | two bars are true exactly if one of them is |
| `QueryLaws.BitAndLaw` | libhcandata/data_query.cc:323-327 | & is the bitwise and |
| `QueryLaws.BitOrLaw` | libhcandata/data_query.cc:333-337 | the single bar is the bitwise or |
| `QueryLaws.NotLaw` | libhcandata/data_query.cc:319-322 | ! is true exactly for 0 |
| `QueryLaws.FieldLaws` | libhcandata/data_query.cc:273-284 | src, dst, proto and size stand for those parts of the frame |
| `QueryLaws.DataLaws` | libhcandata/data_query.cc:285-308 | d0 to d7 stand for the data bytes |
| `QueryLaws.NumberLaw` | libhcandata/data_query.cc:88-96 | a decimal number below 2^24 stands for itself |
| `QueryLaws.LargeNumberLaw` | libhcandata/data_query.cc:88-96 | larger ones saturate at 2^31 - 1 and keep their low 24 bits |
| `QueryLaws.FieldsCompare` | libhcandata/data_query.cc:88-312 | field, number and = are true exactly if the field has that value |
| `QueryLaws.DataCompare` | libhcandata/data_query.cc:88-312 | the same for the data bytes |
| `QueryLaws.OtherWordsSkipped` | libhcandata/data_query.cc:78-244 | every other word is passed over |
| `QueryLaws.AskFile` | hcandq/main.cc:42-90 | from words to output: exactly the frames the words answer for, or the last of them, are printed in file order |
| `QueryLaws.LastOfMeans` | hcandq/main.cc:51-78 | with a limit the last frames are meant, as many as the limit says |
| `RxQueue.ReceiveAdds` | canix/canix.c:285-309 | a frame joins the waiting ones unless all slots are used |
| `RxQueue.TakeRemoves` | canix/mcp2515.c:398-419 | a read removes one waiting frame, and returns nothing exactly when none waits |
| `RxQueue.RunConserves` | canix/canix.c:285-309 | under every interleaving delivered plus waiting frames equal the earlier waiting plus the accepted ones, as multisets |
| `RxQueue.RunAccounts` | canix/canix.c:295-308 | every frame that arrives is accepted or lost |
| `RxQueue.AvailableHolds` | canix/canix.c:535-546 | after a positive check the next read returns a really waiting frame, whatever interrupts come between |
| `RxQueue.Driver.Size` | canix/canix.c:107-117 | the number of waiting frames |
| `RxQueue.FirstIsLowest` | canix/canix.c:123-151 | the slot found is the lowest used or unused one, 0 if there is none |
| `RxQueue.Driver.FindSlot` | canix/canix.c:123-151 | the lowest used or unused slot, 0 if none |
| `RxQueue.Driver.Interrupt` | canix/canix.c:285-309 | stores the frame and counts it, or counts it as lost exactly when the queue is full |
| `RxQueue.Driver.Available` | canix/mcp2515.c:355-364 | true exactly when a frame waits |
| `RxQueue.Driver.Read` | canix/mcp2515.c:398-419 | returns the frame of the first used slot and frees it |
| `Syslog.Send` | canix/syslog.c:58-81 | the nested loops send priority byte, text and newline in frames of eight |
| `Syslog.MessageReassembles` | libhcan++/transport_connection.cc:295-344 | a message is reassembled exactly if and only if its text is clean |
| `Syslog.OrdinaryTextsAreClean` | canix/syslog.c:53-58 | texts of at least eight characters whose only newline is the last are clean |
| `Syslog.OneFrameStaysOpen` | libhcan++/transport_connection.cc:338-343 | a one-frame message is not printed and stays open |
| `Syslog.StreamReassembles` | libhcan++/transport_connection.cc:295-344 | a source's stream is printed as exactly its messages, in order and with nothing left open, if and only if all texts are clean |
| `Syslog.UncleanShows` | libhcan++/transport_connection.cc:295-344 | whatever follows, a message that is not clean is printed too short, too long or not at all |
| `Syslog.RunView` | libhcan++/transport_connection.cc:295-344 | what the host holds and prints for a source depends on that source's frames only |
| `Syslog.OnlySyslogFrames` | libhcan++/transport_connection.cc:295-296 | frames of another protocol than 3 or to another address than 970 change nothing |
| `Syslog.SyslogFramesCount` | libhcan++/transport_connection.cc:295-344 | every other frame with data changes what is held or printed |
| `Syslog.InterleavedStreamsReassemble` | libhcan++/transport_connection.cc:284-344 | for every interleaving a source's messages are printed exactly, priority byte first, if and only if its texts are clean |
| `Syslog.Receiver.Receive` | libhcan++/transport_connection.cc:295-344 | one frame opens, extends or closes its source's message |
| `Syslog.Receiver.Listen` | libhcan++/transport_connection.cc:284-351 | a session is the run over its frames |
| `Heating.StopClosesValve` | firmwares/controllerboard-1612-v01/heizung.c:216-293 | after every tick that leaves the window stop active the width is 0 |
| `Heating.ZeroWidthKeepsPinLow` | firmwares/controllerboard-1612-v01/heizung.c:89-100 | with width 0 the pin is high after a tick if and only if valve care in OFF raised it |
| `Heating.OpenWindowShutsValve` | firmwares/controllerboard-1612-v01/heizung.c:592-632 | with window frames at most 59 ticks apart the pin is high, from the second tick on in every run, exactly where valve care in OFF raises it |
| `Heating.RegulatingTick` | firmwares/controllerboard-1612-v01/heizung.c:161-186 | the width stays 0 or full, and switches only outside the hysteresis band |
| `Heating.ClosedStaysClosed` | firmwares/controllerboard-1612-v01/heizung.c:161-186 | a closed valve stays closed while no value below the band is measured |
| `Heating.OpenStaysOpen` | firmwares/controllerboard-1612-v01/heizung.c:161-186 | an open valve stays open while no value above the band is measured |
| `Heating.SwitchNeedsSwing` | firmwares/controllerboard-1612-v01/heizung.c:149-186 | switching off and on again needs a fall from above to below the band |
| `Heating.DecisionTickSwitches` | firmwares/controllerboard-1612-v01/heizung.c:331-340 | a decision tick with a value outside the band does switch |
| `Heating.TwoPoint` | firmwares/controllerboard-1612-v01/heizung.c:161-186 | the controller opens below, closes above and keeps the valve inside the band |
| `Heating.AutomaticTick` | firmwares/controllerboard-1612-v01/heizung.c:300-330 | stale values change nothing, no zone closes the valve, else the first matching zone's temperature is regulated |
| `Heating.ModeLasts` | firmwares/controllerboard-1612-v01/heizung.c:229-239 | in every run without mode commands a mode ends exactly when its duration has run down |
| `Heating.OffLastsExactly` | firmwares/controllerboard-1612-v01/heizung.c:410-413 | after OFF the heater stays off if and only if no duration was running or it is not used up |
| `Heating.OffIsUndone` | firmwares/controllerboard-1612-v01/heizung.c:229-239 | a concrete run in which OFF is followed by automatic mode |
| `Heating.OpeningTickIsSilent` | firmwares/controllerboard-1612-v01/heizung.c:176-185 | the opening tick sends no heat demand and delays the next |
| `Heating.ValveOpensInSilence` | firmwares/controllerboard-1612-v01/heizung.c:351-380 | in every run the opening tick and the next 209 ticks send no heat demand |
| `HeatingPwm.OnePeriod` | firmwares/controllerboard-1612-v01/heizung.c:89-100 | over a full period the pin is on for exactly floor(period * rate / 100) ticks, and counter, width and rate are back |
| `HeatingPwm.DutyCycle` | firmwares/controllerboard-1612-v01/heizung.c:89-100 | over n periods it is on for exactly n times as many ticks, ending in the state it started from |
| `HeatingPwm.RateQuantised` | firmwares/controllerboard-1612-v01/heizung.c:53-83 | the rate read back is at most the one set and short of it by less than 1 + 100/period |
| `HeatingRuns.ManualTakesEffect` | firmwares/controllerboard-1612-v01/heizung.c:295-298 | from every state without window stop, six seconds after the manual command the width is floor(period * rate / 100) and stays so; without time limit the heater is steady |
| `HeatingRuns.ManualDuty` | firmwares/controllerboard-1612-v01/heizung.c:89-100 | so the command decides the on-ticks of every later period |
| `HeatingRuns.OffTakesEffect` | firmwares/controllerboard-1612-v01/heizung.c:268-294 | six seconds after OFF, and from then on, width and pin are 0, if no valve care is due |
| `HeatingRuns.CareTakesEffect` | firmwares/controllerboard-1612-v01/heizung.c:188-225 | at the time for valve care the valve of a heater that is off opens within six seconds, for 600 seconds |
| `HeatingRuns.RegulationTakesEffect` | firmwares/controllerboard-1612-v01/heizung.c:300-348 | six seconds after a thermostat or automatic command and a frame of the right sensor the valve is where the value calls for it, and stays while the values do |
| `HeatingRuns.StaleTickKeeps` | firmwares/controllerboard-1612-v01/heizung.c:300-348 | without a fresh value nothing moves |
| `HeatingRuns.ForeignIgnored` | firmwares/controllerboard-1612-v01/heizung.c:383-436 | frames for another heater, sensor or window change nothing |
| `HeatingRuns.DemandCarriesRate` | firmwares/controllerboard-1612-v01/heizung.c:351-380 | when a heat-demand message is sent and which rate it carries |
| `HeatingRuns.SteadyMessages` | firmwares/controllerboard-1612-v01/heizung.c:351-380 | a steady heater sends its rate exactly once in 61 seconds |
| `HeatingRuns.EndBounded` | firmwares/controllerboard-1612-v01/heizung.c:53-66 | in no run the PWM period exceeds the configured one |
| `Heating.MatchingZone` | firmwares/controllerboard-1612-v01/heizung.c:131-147 | the first line whose time zone matches |
| `Heating.Device.constructor` | firmwares/controllerboard-1612-v01/heizung.c:14-31 | the initial device state |
| `Heating.Device.UpdateHeizstop` | firmwares/controllerboard-1612-v01/heizung.c:39-51 | an active stop sets width 0 |
| `Heating.Device.SetRate` | firmwares/controllerboard-1612-v01/heizung.c:53-66 | width from the rate, 0 under a stop |
| `Heating.Device.GetRate` | firmwares/controllerboard-1612-v01/heizung.c:73-83 | the rate of the width, 0 in OFF |
| `Heating.Device.HandlePulse` | firmwares/controllerboard-1612-v01/heizung.c:89-100 | one PWM step |
| `Heating.Device.SetRateByTemp` | firmwares/controllerboard-1612-v01/heizung.c:161-186 | the two-point controller |
| `Heating.Device.CheckCare` | firmwares/controllerboard-1612-v01/heizung.c:188-225 | valve care and age of the measurement |
| `Heating.Device.RunDown` | firmwares/controllerboard-1612-v01/heizung.c:229-258 | mode duration and window stop run down |
| `Heating.Device.Switch` | firmwares/controllerboard-1612-v01/heizung.c:264-348 | the mode switch |
| `Heating.Device.TimerHandler` | firmwares/controllerboard-1612-v01/heizung.c:216-381 | one second of the device is one `Tick`, with the demand message sent |
| `Heating.Device.CanCallback` | firmwares/controllerboard-1612-v01/heizung.c:383-436 | the state change of each command frame |
| `Hcand.RunDistinct` | hcand/main.c:70-117 | in every run no address holds two live slots |
| `Hcand.ForwardsToAllOthers` | hcand/main.c:155-196 | in every run an accepted packet goes exactly once to every other live peer and never to its sender, with id 0 to nobody; it is refused exactly when all slots belong to others |
| `Hcand.SenderIsLive` | hcand/main.c:155-171 | the sender, known or new, holds a slot with age 0 after its packet, unless all slots belong to others |
| `Hcand.SilentPeerExpires` | hcand/main.c:95-117 | a silent peer keeps its slot up to age 60 and is gone from second 61 on |
| `Hcand.HeardPeerStays` | hcand/main.c:95-117 | a peer heard at least every 60 seconds keeps its slot in every run |
| `Hcand.Daemon.DoesPeerExist` | hcand/main.c:70-79 | the first slot with the address |
| `Hcand.Daemon.AddPeer` | hcand/main.c:81-93 | the first free slot takes the address |
| `Hcand.Daemon.SigAlarm` | hcand/main.c:95-117 | all live peers age by one, those over the limit are dropped |
| `Hcand.Daemon.Forward` | hcand/main.c:177-191 | sends to all other live peers in slot order |
| `Hcand.Daemon.HandlePacket` | hcand/main.c:148-196 | one turn of the loop updates the table and forwards |
| `DataFile.FrameRoundTrip` | libhcandata/file_format_v1.h:54-62 | a frame record decodes to the frame encoded |
| `DataFile.FrameFormat` | libhcandata/file_format_v1.h:54-62 | the place of every part of a record, low bytes first |
| `DataFile.EncodedFrameAt` | libhcandata/data_file.cc:69-79 | record i of the frame area is frame i |
| `DataFile.HistoryHolds` | libhcandata/data_file_writer.cc:54-175 | after any history of appending, synchronising and reopening the log holds the frames written, in order |
| `DataFile.ImageReadsBack` | libhcandata/data_file.cc:35-79 | the reader accepts every log, counts its frames, returns frame i and refuses other indices |
| `DataFile.ReaderSeesHistory` | libhcandata/data_file.cc:62-79 | for every history count is the number of frames written and index i gives the i-th |
| `DataFile.SyncedFields` | libhcandata/data_file_writer.cc:96-175 | a synchronised file stores block size and first timestamp, last timestamp 0, and unchanged frames |
| `DataFile.RecognisedImage` | libhcandata/data_file_writer.cc:177-218 | every log passes the writer's check on reopening, whatever the read buffers held |
| `DataFile.LogsExactly` | libhcandata/data_file.cc:35-53 | reader and writer accept a file if and only if it has type 1 and the two magic numbers in front and type 2 at the data block, byte by byte |
| `DataFile.Writer.SetupFile` | libhcandata/data_file_writer.cc:75-94 | a new file is an empty log |
| `DataFile.Writer.CheckValid` | libhcandata/data_file_writer.cc:177-218 | the checks on any existing file, ending at its end; a short file leaves old bytes in the structures read |
| `DataFile.Writer.Open` | libhcandata/data_file_writer.cc:14-52 | opening sets up an empty file, keeps an existing log, and leaves any other file as it is, accepted exactly by the check |
| `DataFile.Writer.WriteFrame` | libhcandata/data_file_writer.cc:54-72 | appends one frame to the log |
| `DataFile.Writer.SyncFile` | libhcandata/data_file_writer.cc:96-175 | the seeks and partial rewrite synchronise the log and touch no frame |
| `Hid.ConvertOfHex` | hcanhid/main.c:192-216 | the two hexadecimal characters of a byte convert back to it and are no commands |
| `Hid.IdRoundTrip` | hcanhid/main.c:144-148 | the identifier is rebuilt from its four bytes |
| `Hid.FeedBytes` | hcanhid/main.c:405-427 | the characters of a byte string put exactly those bytes into the buffer |
| `Hid.FeedFrame` | hcanhid/main.c:134-179 | the characters of a frame put exactly that frame into an empty slot, never buffering more than 13 bytes |
| `Hid.SessionDeliversAll` | hcanhid/main.c:364-427 | any list of frames with the slot drained in between arrives as exactly that list |
| `Hid.CommandsAct` | hcanhid/main.c:118-188 | what each command character does, whatever was read before |
| `Hid.FullSlotDrops` | hcanhid/main.c:167-176 | a frame that arrives while the slot is full is dropped |
| `Hid.LineFormat` | hcanhid/main.c:239-255 | the characters of a line, and those of one frame in full |
| `Hid.ShiftedFrame` | hcanhid/main.c:134-155 | a frame read while a half byte is pending is lost, or slips through the size check exactly if it has no data and identifier bits 24 to 27 are 0, and a half byte is pending again |
| `Hid.StrayLosesAll` | hcanhid/main.c:405-427 | one stray character loses every later frame that does not slip through |
| `Hid.SendFrame` | hcanhid/main.c:239-255 | the characters sent for a frame |
| `Hid.Decoder.HandleCommand` | hcanhid/main.c:118-188 | the command characters B, Y, C and F |
| `Hid.Decoder.ReadChar` | hcanhid/main.c:405-427 | one character acts as one decoder step |

## Left out

- Bus frames as raw bytes, sockets, select, serial and EEPROM hardware access, delays and the watchdog: a request and its reply are one step.
- `eds_init`, `eds_read_string` and `eds_find_next_block`: the searches read one cell behind the area, and the others would only add easy members.
- EdsDevice.Device.WriteByte: addresses behind the EEPROM, which the hardware wraps, are not covered; reads there give unspecified values.
- EdsDevice.Device.Serve: runs are considered as long as no write hits a size cell; the effect of such a write is given by `WriteTilesExactly` alone.
- EdsHost.Connection.SetFieldStr: the field lies inside its block, as the block descriptions promise; a field reaching behind it is not covered.
- EdsHost.Connection.SetFieldUint16: the two bytes lie inside the block, likewise.
- Intel HEX parsing and padding: the padded image and the cached image are inputs, the cached one at least as long as the image (a shorter one is read out of bounds in the original), sizes below 64 KiB.
- FlashLink.CmdFlash: an acknowledgement either arrives before the host waits for it or never; the requests before incremental mode are taken as answered, and the frames of the CRC exchange are lost or not as a whole, with the EEPROM writes counted.
- Query.DataQuery.Push: the store behind the last stack slot, undefined in the original (the stack pointer lies there), is left out.
- Query.DataQuery.Match: starts with a stack pointer inside the stack; a run after an underrun or overflow, which starts outside it, is not covered.
- Query splitting into words and the regular expression engine: the query is a list of words; `long` is 32 bits.
- Receive queue order and fairness: the lowest used slot is always served first, so none holds; data lengths above 8 are not covered.
- The printf formatting, the log level command and the printed time stamp of syslog.
- Heating details replies, changes of set points in the EEPROM, 16-bit overflow of set point plus hysteresis, and the calendar behind time zones and valve care, which are inputs.
- The alarm signal of hcand arrives between packets, not inside the handling of one.
- DataFile.Writer.Open: I/O errors are left out.
- Hid.Decoder.HandleCommand: a frame whose size is above 8, which overruns the slot in the original, is not covered.
- Hid.Decoder.ReadChar: characters that run past the receive buffer, undefined in the original, are not covered.
- The reset of the serial interface after a size mismatch drains the line; only the dropped bytes are modelled.
- The time service, dynamic addresses, other devices of the controller boards and the generated transport wrappers.
