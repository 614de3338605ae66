# QEmacs text engine: model and proofs

QEmacs keeps a text in a table of pages of 1 to MAX_PAGE_SIZE bytes, some of them read-only and shared. This
project models that buffer, its undo log and the algorithms built on it, in the imperative form of the C
sources, and proves that each of them agrees with a plain description of what it is for.

| file | what it holds |
|---|---|
| PageText.dfy, PageEdits.dfy, TextCounts.dfy | plain byte sequences: pages, what edits of page lists do to their text, lines, columns, characters |
| UndoLog.dfy | edits and undo steps on a plain text with a list of records, and what any session of them keeps |
| LogBytes.dfy | the bytes of the log records |
| EditBuffer.dfy | the paged buffer: page table, cache, copy on write, insertion, deletion, bulk insertion, log and undo |
| Worlds.dfy, Buffers.dfy | several buffers with their sessions on plain texts, and the same on pages, with shared read-only blocks |
| Utf8.dfy, Bits.dfy, TextIndex.dfy, Positions.dfy, CodeColumns.dfy, GotoCodes.dfy | the UTF-8 codec, stepping by characters, and the index from offsets to lines, columns and characters |
| Colorize.dfy | the cache of colouring states, and whole runs of edits and line requests |
| Tiling.dfy, ResizeExact.dfy, Windows.dfy | rectangles that tile the screen, when a resize keeps the tiling, and the window commands |
| Search.dfy, Brackets.dfy | searching and replacing, matching brackets |
| FillText.dfy, FillGaps.dfy, Fill.dfy | words and paragraphs, what a filled one looks like, and filling one in place |
| Wrap.dfy | breaking lines of glyphs at the edge of a window |
| Path.dfy | canonical paths |

The methods of `EditBuffer` are specified by `State()`: the text, the modified flag and the list of log records
that the pages and the log buffer stand for. What is proved of that plain state in `UndoLog` therefore holds of
the pages. `Valid()` is the invariant of the buffer: page sizes, private and shared blocks, the page cache, the
cached counts, and a log buffer that is, byte for byte, the serialised records. MAX_PAGE_SIZE is any number from
1 on.

Places where the code does less than its name says are stated as they are, with exact conditions and concrete
inputs. `eb_goto_pos` carries columns over from pages that hold newlines, and under UTF-8 counts the bytes
of a character that a page boundary cuts (`GotoExact`, `GotoFails`, `GotoCodesExact`, `GotoCodesFail`); so does
`eb_get_pos` (`ColumnExact`, `ColumnFails`). A write that was undone cannot be redone (`UndoUndone`,
`WriteNotRedone`), and undo with a repeat count takes one record back and puts it back in turn (`RepeatedFlips`). A
backward search that starts past the last place where the pattern fits does not look there (`BackwardExact`,
`BackwardMisses`). An accepted resize next to an empty window, or of one, can make windows overlap
(`ResizeTilesExactly`, `EmptyWindowBreaksResize`): resizing an empty window keeps the tiling only if it lies in the
upper left corner and gets the whole width or height. Inserting a window on the left keeps the tiling if and only if
it is as high as the screen (`InsertLeftKeepsTiling`), which in full screen mode it is not (`InsertLeftLeavesGap`).

## Model

| member | source | states |
|---|---|---|
| `EditBuffers.EditBuffer.FindPage` | buffer.c:36-58 | the page found holds the offset, the offset in it is right, and the cache then names that page and its start |
| `EditBuffers.EditBuffer.UpdatePage` | buffer.c:61-75 | the page is private and its counts are forgotten; a read-only page gets a new block, the shared block is not touched, and no other page changes |
| `PageEdits.MakeRoom` | buffer.c:151-157 | enlarging a block, shifting its end up and filling the gap is an insertion in the page |
| `PageEdits.CloseGap` | buffer.c:376-379 | shifting the end of a block down and cutting it is a deletion in the page |
| `EditBuffers.EditBuffer.NewPages` | buffer.c:159-178 | new pages hold the bytes one after the other, as few as possible, each with 1 to MAX_PAGE_SIZE bytes in a block of its own |
| `EditBuffers.EditBuffer.Insert1` | buffer.c:137-179 | the text from a page on gets the bytes in front of it, wherever they spill; nothing before that page changes, and the page invariants hold |
| `EditBuffers.EditBuffer.InsertAround` | buffer.c:194-221 | an insertion in the middle of a page, with the end of the page moved out if there is no room, is an insertion in the text |
| `EditBuffers.EditBuffer.InsertLowlevel` | buffer.c:182-229 | insertion refines inserting in the plain byte sequence; the total size is right and the cache is dropped |
| `EditBuffers.EditBuffer.RwPages` | buffer.c:92-113 | reading returns the bytes of the text, and writing overwrites exactly those bytes, across any page boundaries; shared blocks are copied first |
| `EditBuffers.EditBuffer.DeletePages` | buffer.c:345-398 | deletion refines deleting from the plain byte sequence, with whole pages dropped and partly deleted ones cut |
| `EditBuffers.EditBuffer.CutAt` | buffer.c:261-281 | the page table is cut at an offset without changing the text |
| `EditBuffers.EditBuffer.CountPages` | buffer.c:289-293 | the number of whole pages in a range, and the bytes that are left |
| `EditBuffers.EditBuffer.CopyPages` | buffer.c:303-317 | copied pages hold the same bytes; read-only ones share their block, others get a new one |
| `EditBuffers.EditBuffer.SplicePages` | buffer.c:261-330 | splicing whole pages and a rest inserts that range of the source text |
| `EditBuffers.EditBuffer.SpliceBuffer` | buffer.c:248-330 | bulk insertion between buffers refines inserting a slice of one byte sequence in another, starting and ending inside pages |
| `PageEdits.SplicePagesText` | buffer.c:282-330 | the text made of the first half, the whole pages, the rest and the second half is one splice |
| `PageEdits.DeletingPart` | buffer.c:374-384 | one step of a deletion inside a page keeps what was deleted so far in agreement with the byte sequence |
| `PageEdits.DeletingPage` | buffer.c:361-371 | so does a step that drops a whole page, although the page is still in the table |
| `PageEdits.MovingStep` | buffer.c:92-111 | one page more read or written: the part done so far is a prefix of the request |
| `EditBuffers.EditBuffer.MapPages` | buffer.c:1198-1219 | the pages of a mapped file: read-only, as few as possible, holding the file |
| `EditBuffers.EditBuffer.MmapBuffer` | buffer.c:1183-1222 | a mapped file is the text of the buffer, and all its pages are read-only |
| `PageText.FlatSplice` | buffer.c:104-107 | changing bytes of one page changes the same bytes of the text |
| `PageText.SpliceMore` | buffer.c:248-256 | two splices side by side are one |
| `EditBuffers.EditBuffer.constructor` | buffer.c:433-459 | a new buffer is empty, with an empty log |
| `EditBuffers.EditBuffer.CallCallbacks` | buffer.c:600-603 | each registered colouring callback lowers its offset to that of the modification |
| `EditBuffers.EditBuffer.AddLog` | buffer.c:593-658 | the modified flag is set and the record of the operation is added to the log in its buffer; with 49 records there the oldest is dropped first |
| `EditBuffers.EditBuffer.TrimLog` | buffer.c:617-629 | dropping the oldest record by the size in its header removes exactly that record; an undo position in the log keeps pointing one past the same record |
| `EditBuffers.EditBuffer.AppendRecord` | buffer.c:631-657 | header, destroyed bytes and trailer are appended to the log buffer and stand for the new record |
| `EditBuffers.EditBuffer.LogReset` | buffer.c:401-411 | the log is empty and the modified flag off; the text is unchanged |
| `EditBuffers.EditBuffer.Rw` | buffer.c:78-113 | reads or overwrites what is there of a range, and logs a write with the overwritten bytes |
| `EditBuffers.EditBuffer.Read` | buffer.c:116-119 | reading returns the bytes that are there, and changes nothing but the cache |
| `EditBuffers.EditBuffer.Write` | buffer.c:122-133 | a write overwrites what is there and inserts the rest, each part logged |
| `EditBuffers.WrittenIs` | buffer.c:122-133 | the text after a write, in slices: what was before, the bytes, and what the text has behind them |
| `EditBuffers.EditBuffer.Insert` | buffer.c:334-342 | text, modified flag, log and callback offsets after an insertion |
| `EditBuffers.EditBuffer.Delete` | buffer.c:345-398 | text, modified flag, log and callback offsets after a deletion; at or after the end nothing happens |
| `EditBuffers.EditBuffer.InsertBuffer` | buffer.c:234-330 | the same for a bulk insertion, whose bytes are those the source had before; the source keeps its text |
| `EditBuffers.EditBuffer.WalkBack` | buffer.c:683-693 | walking back by the trailer lands on the header of the record before, and the header and data are those of that record |
| `EditBuffers.EditBuffer.UndoWrite` | buffer.c:696-706 | taking back a write restores its bytes, then logs a write over the bytes already restored |
| `EditBuffers.EditBuffer.UndoDelete` | buffer.c:707-717 | taking back a deletion puts its bytes back from the log, then logs an insertion |
| `EditBuffers.EditBuffer.UndoInsert` | buffer.c:718-721 | taking back an insertion is a logged deletion |
| `EditBuffers.EditBuffer.Undo` | buffer.c:660-727 | the undo command on pages and serialised log refines one undo step on a plain text and a list of records; it finds a record exactly if one is left |
| `EditBuffers.PointBehindRestored` | buffer.c:696-727 | the new cursor offset: behind the bytes that came back, or where the inserted ones were |
| `LogBytes.IntRoundTrip` | buffer.c:656 | a 32 bit number written to the log is read back |
| `LogBytes.HeaderRoundTrip` | qe.h:506-511 | the four fields of a record header are read back from its twelve bytes |
| `LogBytes.LogAppend` | buffer.c:631-657 | writing header, data and trailer at the end of the log text appends one record, and no earlier position changes |
| `LogBytes.LogDropFirst` | buffer.c:617-629 | deleting the bytes of the first record leaves the text of the others, all positions shifted by its length |
| `LogBytes.LogRecordAt` | buffer.c:683-693 | at the end of a record stands its trailer, before it its data, before that its header |
| `EditBuffers.DropFirst` | buffer.c:617-629 | the header at position 0 gives the length of the first record, and what is left is the log without it |
| `UndoLog.RecordReverts` | buffer.c:616-657 | the record of any edit takes that edit back |
| `UndoLog.EditedIs` | buffer.c:334-398 | the text after each kind of edit, in slices of the text before it |
| `UndoLog.UndoRecordReverts` | buffer.c:695-727 | so does the record of an undo step, except that for a taken back write it changes nothing |
| `UndoLog.UndoStepIsLogged` | buffer.c:695-727 | an undo step written as what it does to the text and what it logs, for each kind of record |
| `UndoLog.StepKeepsOk` | buffer.c:593-727 | every command keeps the log consistent: at most 49 records, each of which can be taken back from the text after the ones above it |
| `UndoLog.RunKeepsOk` | buffer.c:593-727 | the same for any run of edits, undos, saves and other commands |
| `UndoLog.RecordKept` | buffer.c:617-629 | a record is put behind those there are, of which only the oldest goes, and only if there are 49 |
| `UndoLog.EditsFillLog` | buffer.c:617-629 | after any number of edits the log has one record for each more than before, but 49 at most |
| `UndoLog.FullLog` | buffer.c:617-629 | 49 records are reached from an empty buffer, and the fiftieth edit leaves 49 |
| `UndoLog.CommandsAside` | buffer.c:401-411 | saving forgets all records, so that nothing can be undone, and clears the modified flag |
| `UndoLog.UndoFinds` | buffer.c:669-693 | in any session an undo finds a record exactly if one is left, and never meets one it cannot take back |
| `UndoLog.ChainUnwinds` | buffer.c:660-727 | k undos in a row take back the last k records, while they append records of their own and old ones are trimmed |
| `UndoLog.ChainModified` | buffer.c:726 | after k undos the modified flag is the one the last record taken back remembers |
| `UndoLog.EditsThenUndos` | buffer.c:593-727 | after any edits, as many undos, each finding a record, restore the text and the modified flag from before the first edit |
| `UndoLog.FewEditsThenUndos` | buffer.c:593-727 | for up to 25 edits each undo does find a record |
| `UndoLog.UndoDepth` | buffer.c:617-629 | k undos in a row, from the first one on, each find a record if and only if there are k records and k is at most 25: each undo takes one record and, in a full log, pushes one out |
| `UndoLog.UndoUndone` | buffer.c:695-727 | undoing an undo after another command is a redo if and only if the record was no write, or the write changed nothing; and when the modified flag comes back |
| `UndoLog.UndosThenUndos` | buffer.c:660-727 | k undos of insertions and deletions, another command, and k undos again bring the text back |
| `UndoLog.HistoryThenUndos` | buffer.c:593-727 | the same for any history of edits, undos of anything but writes, and other commands: as many undos as it left records, each finding one, bring back the text from before it, and the modified flag if it began with an edit |
| `UndoLog.ShortHistoryThenUndos` | buffer.c:593-727 | if such a history left up to 25 records, each of those undos does find one |
| `UndoLog.WriteNotRedone` | buffer.c:696-706 | in an empty session an insertion, an overwrite, an undo, another command and an undo: the overwrite is not redone |
| `UndoLog.RepeatedFlips` | qe.c:3443-3459 | undo with a repeat count, when the command before was another one: an insertion or deletion is taken back and put back in turn, so that with an even count nothing is undone |
| `UndoLog.RepeatedOverWrite` | qe.c:3443-3459 | a write is taken back once, however large the count |
| `UndoLog.RepeatedInChain` | qe.c:3443-3459 | right after an undo, undo with a repeat count is that many undos |
| `Buffers.MapAmong` | buffer.c:1183-1222 | a buffer opened on a mapped file is separate from all others |
| `Buffers.ChangeAmong` | buffer.c:122-727 | an insertion, write, deletion, undo (that finds a record or none) or log reset on one of several buffers that share read-only blocks: it does there what the session says, no other buffer changes, and all stay consistent and separate |
| `Buffers.CopyAmong` | buffer.c:234-330 | bulk insertion of any size, which shares read-only blocks, keeps all buffers separate: a shared block is never one that some buffer writes to |
| `Buffers.DoAll` | buffer.c:122-727 | any commands on any of the buffers in any order, copies between them included, do to the pages, blocks and logs of all of them what they do to plain texts |
| `Worlds.DeedIs` | buffer.c:122-727 | what each command makes of the text, flag and log of its buffer |
| `Worlds.TextInserted` | buffer.c:334-342 | the text after an insertion, in slices of the text before it, and the modified flag |
| `Worlds.TextWritten` | buffer.c:122-133 | the same after a write |
| `Worlds.TextDeleted` | buffer.c:345-398 | the same after a deletion; at or after the end nothing happens |
| `Worlds.TextCopied` | buffer.c:234-330 | the same after a copy from another buffer |
| `Worlds.LogDropped` | buffer.c:401-411 | after saving the text is the same, the flag off and the log empty |
| `Worlds.DeedsKeepOk` | buffer.c:593-727 | in runs over several buffers no undo ever meets a record that it cannot take back |
| `Worlds.EachAlone` | buffer.c:660-693 | in such a run each buffer fares as in a session of its own, to which the others send nothing but the bytes that are copied |
| `Worlds.UndosAmongOthers` | buffer.c:660-727 | whatever is done to all buffers: if up to 25 records were left in one of them and no write was taken back there, as many undos bring its text back, and the other buffers keep what they have |
| `Utf8.CharsetInit` | charset.c:39-65 | the loops fill the tables as the standard tabulates first octets (section 2 of RFC 2279), entry by entry |
| `Utf8.Encode` | charset.c:177-206 | the coder writes the octets that the standard gives for any code up to 2^31 - 1 |
| `Utf8.Decode` | charset.c:139-173 | if the octets begin with the encoding of an allowed code the decoder returns that code and skips it; and what it accepts is, octet for octet, the encoding of its result, so overlong forms, surrogates, 0xfffe and 0xffff are refused; and how many octets are taken in any case |
| `Utf8.RoundTrip` | charset.c:139-206 | for every code up to 2^31 - 1, decoding what was encoded gives the code back and skips its 1 to 6 octets, whatever follows; for surrogates, 0xfffe and 0xffff it gives 0xfffd |
| `Utf8.EncodingParts` | charset.c:139-206 | first octet, continuation octets and gathered bits of an encoding |
| `Utf8.GatheredIsEncoding` | charset.c:156-162 | octets that pass the tests of the decoder are the encoding of the number it gathers |
| `Utf8.PrefixFree` | charset.c:139-206 | no encoding begins with another one |
| `Bits.LeadOctet` | charset.c:183-194 | the shifts and ors that make a first octet are a division and a sum without carry, on 32 bit words |
| `Bits.TailOctet` | charset.c:195-203 | so are those that make a continuation octet |
| `Bits.LeadPayload` | charset.c:153 | the masks for the payload of a first octet are remainders |
| `Bits.GatherOctet` | charset.c:159 | a shift by six and an or are a product and a sum, and lose no bit |
| `Bits.EncodeWord` | charset.c:177-206 | the coder on 32 bit words, with shifts, masks and ors, writes the octets of the number that the word stands for |
| `Bits.GatherWord` | charset.c:153-160 | the loop of the decoder on words gathers the number that the decoder on numbers does, and shifts nothing out |
| `Bits.GatherAll` | charset.c:150-206 | the bits of a number up to 2^31 - 1, cut into octets and gathered, are the number again |
| `TextIndex.Nextc` | buffer.c:742-766 | the character at an offset and the offset after it, wherever page boundaries fall; newlines past the end. Under UTF-8, for any bytes: the code that begins there, or the invalid character exactly if none does, and how many bytes are taken; only where the text ends inside a form is the result open |
| `TextIndex.Prevc` | buffer.c:771-806 | the character that ends at an offset and where it starts; for any bytes, where the step back goes and what is decoded there: if six octets that only continue a form are found, or nothing else back to the beginning, it goes seven places back |
| `TextIndex.TakenMeans` | charset.c:139-173 | how many bytes a step takes, for any bytes: those that continue the form, at most as many as the first one announces |
| `TextIndex.SteppedBackMeans` | buffer.c:784-797 | a step back goes to the nearest of the six bytes before that is no continuation, and seven places back if there is none |
| `TextIndex.StartBoundary` | buffer.c:742-806 | in well-formed UTF-8 every byte that continues no form begins a character |
| `TextIndex.NextThenPrev` | buffer.c:742-806 | at a character boundary of well-formed UTF-8, one character on and one back is where one was, with the same character both times |
| `TextIndex.PrevThenNext` | buffer.c:742-806 | the same in the other order |
| `TextIndex.StepOver` | buffer.c:742-766 | between two boundaries lies one encoding |
| `TextIndex.StepBack` | buffer.c:771-806 | before a boundary lies one encoding, and it starts at a boundary |
| `Positions.CountPos` | buffer.c:809-843 | the newlines of some bytes, and the columns after the last one |
| `Positions.PagePos` | buffer.c:870-874 | a page count is counted once and cached, and the cached one is right |
| `Positions.GetPos` | buffer.c:893-929 | the line is the number of newlines before the offset, whatever the charset; the column is what the pages give one by one, with 8 bit characters the number of bytes after the last newline |
| `CodeColumns.PartColumns` | buffer.c:829-842 | any part of a well-formed text is counted as one column for each character that begins in it and one for each byte left over from a character before it |
| `CodeColumns.ColumnExact` | buffer.c:893-929 | under UTF-8 the column is the number of characters in the line before the offset if and only if no page begins inside a character there; otherwise it is too large by the bytes that are left over |
| `CodeColumns.ColumnFails` | buffer.c:893-929 | one character of two bytes in two pages is counted as two columns |
| `Positions.GotoPos` | buffer.c:845-891 | where a line and column are found, for every line and column, with 8 bit characters and in well-formed UTF-8 |
| `Positions.GotoExact` | buffer.c:862-886 | that is the true place always for column 0 and in the first line; otherwise if and only if no columns are carried from earlier pages, or they do not matter because the column lies in the page of the line or behind its end |
| `Positions.GotoFails` | buffer.c:862-886 | a text in four pages for which a column of the second line is missed |
| `GotoCodes.StepsCount` | buffer.c:878-884 | under UTF-8 going to a column goes on by that many characters, up to the end of the line |
| `GotoCodes.GotoCodesExact` | buffer.c:845-891 | under UTF-8 the place found is the true one if and only if nothing was counted too much before it (columns of earlier pages, bytes of cut characters), or the line ends before the column even so |
| `GotoCodes.GotoCodesFail` | buffer.c:845-891 | a cut character for which column 2 is missed |
| `GotoCodes.NoSuchLine` | buffer.c:845-891 | a line that is not there is found at the end of the text |
| `Positions.TextBackwardOffset` | qe.c:2803-2809 | the start of the line of an offset |
| `Positions.GotoBol` | buffer.c:1373-1384 | the start of the line of an offset, by walking back; under UTF-8 from between two characters |
| `Positions.StartsAgree` | qe.c:2803-2809 | both ways to the start of a line agree |
| `TextCounts.LineStartOfOffset` | qe.c:2803-2809 | going to the line of an offset and to its start loses exactly the bytes after the last newline |
| `TextCounts.LinesMeans` | buffer.c:819-826 | the number of lines is the number of bytes 10 |
| `TextCounts.LastLineMeans` | buffer.c:819-826 | the last line is what stands behind the last byte 10 |
| `TextCounts.LineStartMeans` | buffer.c:875-878 | line n begins where n bytes 10 are before and the last of them right before |
| `Positions.TrueOffsetMeans` | buffer.c:845-891 | the true place of a line and column: in that line, that many bytes behind its beginning, or at its end if it is shorter |
| `Positions.TrueThereAndBack` | buffer.c:845-929 | from any offset to its line and column and back to the true place of these is the identity |
| `Positions.GetLine` | buffer.c:1324-1345 | the characters up to the next newline, cut to the room there is, and the start of the next line; for any bytes, except that the characters are open if the text ends inside a UTF-8 form in that line |
| `Positions.CharsSpell` | buffer.c:1324-1345 | the characters of well-formed UTF-8 spell it, and it ends inside no form |
| `Positions.AsciiSettles` | buffer.c:1324-1345 | a text that ends with an ASCII byte ends inside no form |
| `Positions.ReadsOn` | buffer.c:1324-1345 | each step reads the next character of a line, whatever its bytes, if the line ends with a newline or inside no form |
| `Positions.LineSpan` | buffer.c:875-886 | whether a line ends before a page does, from the number of newlines up to there |
| `Positions.GetChars` | buffer.c:934-951 | the characters that start in some bytes |
| `Positions.GotoChar` | buffer.c:977-1006 | the offset of a character number, or the end of the text, with counts cached by page |
| `Positions.GetCharOffset` | buffer.c:1010-1041 | the number of characters before an offset |
| `Positions.CharThereAndBack` | buffer.c:977-1041 | character number to offset and back is the identity, for any bytes |
| `Positions.OffsetThereAndBack` | buffer.c:977-1041 | offset of a character start (or the end) to number and back is the identity |
| `TextCounts.CharsBeforeCharPos` | buffer.c:977-1041 | the law behind it on plain bytes |
| `TextCounts.CharsMeans` | buffer.c:934-951 | the characters of some bytes: with 8 bits all of them, under UTF-8 those that are not 0x80 to 0xbf |
| `TextCounts.CharPosMeans` | buffer.c:953-974 | at the offset of a character no byte 0x80 to 0xbf stands |
| `TextCounts.CharPosOfOffset` | buffer.c:977-1041 | and its converse |
| `Colorize.StateInPrefix` | qe.c:2878-2885 | the state before a line depends only on the text before that line |
| `Colorize.LineSettled` | qe.c:2871-2926 | every line can be read unless the text ends inside a form, whatever else is malformed |
| `Colorize.OneColoring` | qe.c:2895-2925 | colouring a text in one pass that hands the state from line to line: line l is the same however far the pass goes, and is what the colouriser makes of it in the state behind the lines before |
| `Colorize.StateMatters` | qe.c:2919-2920 | a colouriser and two texts with the same second line, which comes out inside a comment in one and not in the other |
| `Colorize.StatesLeft` | qe.c:2878-2885 | the states up to the line of the first change are still those of colouring from scratch |
| `Colorize.EditKeepsStates` | qe.c:2929-2939 | lowering the offset keeps the cached states right for the part of the text before it |
| `Colorize.LineColors.constructor` | qe.c:2941-2957 | a colouriser registered on a buffer begins with nothing known |
| `Colorize.LineColors.Propagate` | qe.c:2895-2913 | the states of the lines in between are those of folding the colouriser over all earlier lines |
| `Colorize.LineColors.GetColorizedLine` | qe.c:2871-2926 | the line returned is that line of one pass over the whole text which hands the state from each line to the next, whatever was edited and asked for before |
| `Colorize.Serve` | qe.c:2871-2939 | any requests in any order (edits, undos, saves, lines): every line shown is that line of one pass over the text of that moment, in either charset, with a log or without, and the buffer ends in the state of the plain session |
| `Colorize.UndoIs` | buffer.c:660-727 | an undo changes nothing before the offset of its record, so the offset given to the callbacks is low enough |
| `Tiling.ResizeKeepsTiling` | qe.c:5844-5904 | an accepted resize keeps every cell of the screen covered exactly once, gives the window its size and leaves no touched window below its minimal size |
| `Tiling.ResizableMeans` | qe.c:5844-5886 | a resize is accepted if and only if in the resized layout the window and all that touch the moved edges keep 8 cells, besides their mode lines, and no edge of the screen would move |
| `Tiling.ResizedEdges` | qe.c:5889-5903 | exactly the edges of the window and those that touch them move, to the new right and lower edge |
| `ResizeExact.ResizeTilesExactly` | qe.c:5844-5904 | exactly when an accepted resize keeps the tiling: each other empty window stays empty and inside, and the window itself is not empty, or is an empty one in the upper left corner that gets the whole width or the whole height |
| `ResizeExact.ResizeNonEmpty` | qe.c:5889-5897 | the case of a window that is not empty: the tiling is kept if and only if the empty windows stay empty and inside |
| `ResizeExact.ResizeEmpty` | qe.c:5889-5897 | the case of an empty window: only by growing along the whole upper or left edge of the screen |
| `Tiling.EdgesMovedTile` | qe.c:5889-5897 | moving all edges at one height together opens no gap and no overlap |
| `Tiling.EmptyWindowBreaksResize` | qe.c:5889-5897 | a layout with an empty window on the edge in which an accepted resize makes two windows overlap |
| `Tiling.SplitKeepsTiling` | qe.c:5654-5682 | a split keeps the tiling; both halves are non-empty exactly if the window was at least two cells wide or high |
| `Tiling.HalvesAreEven` | qe.c:5654-5682 | the old window keeps the left or upper half and the new one gets the other, at most one cell larger |
| `Tiling.DeleteKeepsTiling` | qe.c:5595-5626 | giving the place of a deleted window to an aligned neighbour keeps the tiling |
| `Tiling.TakesFirst` | qe.c:5595-5626 | the place goes to the first ordinary window that shares a whole side |
| `Tiling.InsertLeftKeepsTiling` | qe.c:4479-4499 | inserting on the left keeps the tiling if and only if the new window is as high as the screen |
| `Tiling.InsertLeftLeavesGap` | qe.c:4479-4499 | in full screen mode the window inserted on the left leaves a gap below it |
| `Tiling.RescaleKeepsTiling` | qe.c:5507-5514 | scaling absolute edges with rounding down opens no gap and no overlap; no window gets empty when the screen grows |
| `Tiling.RescaledInProportion` | qe.c:5507-5514 | each edge of an ordinary window is, times the old size, the old edge times the new size, rounded down to a whole cell |
| `Tiling.DoubledScreen` | qe.c:5507-5514 | two windows side by side on a screen twice as wide and high |
| `Tiling.CellScaledTo` | qe.c:5507-5514 | each cell of the new screen belongs to the windows of one cell of the old one |
| `Tiling.WholeTiles` | qe.c:5501-5506 | the first layout is a tiling exactly if there is one ordinary window |
| `Windows.Screen.CanResize` | qe.c:5844-5886 | a resize is accepted exactly if sizes, screen edges and neighbours allow it |
| `Windows.Screen.WindowResize` | qe.c:5844-5904 | the window and those beside it get the edges of the resized layout, or nothing changes |
| `Windows.Screen.DoSplitWindow` | qe.c:5654-5682 | the two halves are in the list; the minibuffer is left alone |
| `Windows.Screen.DoDeleteWindow` | qe.c:5579-5630 | the first aligned neighbour takes the place; a single window or the minibuffer stays unless forced |
| `Windows.Screen.InsertWindowLeft` | qe.c:4479-4499 | windows all under the new one are closed, others moved |
| `Windows.Screen.DoRefresh` | qe.c:5461-5531 | the layout is recomputed exactly if some size has changed; every edge of an ordinary window then stands in proportion where it stood, rounded down to a whole cell |
| `Windows.Screen.Perform` | qe.c:5461-5904 | every layout command gives the layout that the plain rules say (resized, split, deleted, inserted, rescaled in proportion, or unchanged); the screen stays tiled if the command leaves no window empty and no gap, and for splitting and inserting only then |
| `Search.EbSearch` | qe.c:4984-5071 | without flags: forward, the first offset from the start on at which the slice of the text is the pattern, backward, the last one before the limit; -1 exactly if there is none, or the pattern is empty or has 1024 bytes or more. With flags the same of matches |
| `Search.PlainMatch` | qe.c:5035-5068 | a match without flags is the pattern itself, as a slice of the text |
| `Search.MatchMeans` | qe.c:5035-5068 | a match with flags: the same bytes, or the two cases of one letter if case is folded; and no letter, digit, underscore or byte from 128 on at either side exactly if words are searched |
| `Search.CaseMatters` | qe.c:4995-5012 | case is folded if it is to be ignored, or with smart case if the pattern has small letters and no capitals |
| `Search.BackwardExact` | qe.c:5015-5022 | the offset returned by a backward search is that of the last match before the start if and only if the search does not start past the last place where the pattern fits with the pattern standing there |
| `Search.BackwardMisses` | qe.c:5015-5022 | a text and a start for which the match is missed |
| `Search.ReplaceAll` | qe.c:5352-5378 | terminates, and the text is the pieces between the matches, cut out from left to right, with the replacement between them, even if that holds the pattern; the count is that of the matches |
| `Search.ReplacedIsJoined` | qe.c:5352-5378 | cutting at the leftmost matches and joining: with the pattern the pieces are the text again, with the replacement they are the result |
| `Search.ReplacingOn` | qe.c:5352-5378 | replacing the next match in the buffer is the next step of the replacement of the original text |
| `Search.ReplacedLength` | qe.c:5352-5360 | the length of the result from the number of matches |
| `Search.ReplacedBySame` | qe.c:5352-5378 | replacing by the pattern itself changes nothing |
| `Brackets.DoMatchParenthesis` | qe.c:761-815 | the cursor goes to the partner of its bracket, the two being ( and ), [ and ] or { and }, and stays exactly if there is none; in either charset |
| `Brackets.PairMeans` | qe.c:774-811 | two brackets belong together if and only if they are of one kind and up to the second one, and to nowhere before, there are as many closing as opening ones of it |
| `Brackets.OnePartner` | qe.c:791-811 | a bracket has at most one partner |
| `Brackets.PairFromBehind` | qe.c:776-811 | scanning from the closing bracket finds the same pairs |
| `Brackets.ThereAndBack` | qe.c:761-815 | matching twice returns to the start |
| `Fill.EbIsEmptyLine` | buffer.c:1386-1398 | whether a line has nothing but spaces, in either charset and for any bytes |
| `Fill.BlankMeans` | buffer.c:1386-1398 | in bytes: only 32 and 9 to 13 up to some newline or the end |
| `Fill.EbNextLine` | buffer.c:1400-1409 | the start of the next line, in either charset and for any bytes: a malformed form swallows no newline |
| `Fill.EbStartParagraph` | qe.c:451-465 | the line after the last blank line at or above the cursor, or the beginning |
| `Fill.StartsMeans` | qe.c:451-465 | that start in terms of newlines and blank lines up to the cursor |
| `Fill.EbNextParagraph` | qe.c:430-449 | the first blank line after a line of text, or the end |
| `Fill.EndsMeans` | qe.c:430-449 | that end in terms of newlines, blank lines and lines of text |
| `Fill.ParagraphBounds` | qe.c:508-510 | a paragraph begins at the start of a line and ends with a newline or at the end of the text |
| `Fill.ParagraphIsWhole` | qe.c:508-510 | a paragraph of well-formed UTF-8 is made of whole characters |
| `Fill.WholeOn` | qe.c:530-549 | a step through a word or a gap stays in it, and counts one column for one character |
| `Fill.ReplaceGap` | qe.c:555-586 | writing, indenting and deleting in place replaces one gap |
| `Fill.DoFillParagraph` | qe.c:499-590 | terminates; replaces exactly the paragraph by its filled form; keeps all words of the buffer; only a line with one word is wider than 76 characters; every gap is one space, or where the next word does not fit a newline and k spaces, k being what the second line begins with, or before the last word or the end a newline; in either charset |
| `Fill.IndentOfIs` | qe.c:513-522 | the indentation, in bytes: none if the second line is blank or not part of the paragraph, else the spaces it begins with, and no more |
| `FillGaps.FillIsSetOut` | qe.c:551-589 | up to its first word the paragraph stays as it is; behind it each gap is a space exactly if the line, with the next word, is at most 76 wide |
| `FillGaps.EveryNewline` | qe.c:556-574 | behind every newline in front of a word there are exactly k spaces, or none if it is the last word |
| `FillText.WordsMean` | qe.c:525-549 | the words of a text are all its bytes that are no spaces, in order, cut at spaces |
| `FillText.FillKeepsWords` | qe.c:525-589 | filling keeps the words of the paragraph |
| `FillText.FillKeepsAllWords` | qe.c:525-589 | and those of the whole text, with no words joined or cut at its ends |
| `FillText.FillIsNarrow` | qe.c:551-576 | whatever lies on one line and holds more than one word is at most 76 characters wide |
| `Wrap.OneWrapping` | qe.c:2578-2622 | there is one way to break glyphs into full lines, so the fragments they come in do not matter |
| `Wrap.WrappedKeepsAll` | qe.c:2578-2622 | each glyph is kept once, in order; each line fits or is one glyph wider than the window |
| `Wrap.LinesAreFull` | qe.c:2582-2622 | no line ends before it is full: it is wider than the window, or would be with the next glyph |
| `Wrap.GlyphsMean` | qe.c:2534-2560 | a TAB (9) shows as a space (32) up to the next stop from its column, any other character as itself, as wide as its font has it |
| `Wrap.DisplayState.Truncate` | qe.c:2585-2600 | the glyphs that fit are a full line |
| `Wrap.DisplayState.KeepLineChars` | qe.c:2479-2488 | the last glyphs are kept, at the start |
| `Wrap.DisplayState.WrapOnce` | qe.c:2582-2622 | one full line is flushed and the rest of the last fragment starts the next one |
| `Wrap.OneColumn` | qe.c:2538-2560 | the column at which a glyph is laid out is determined by the glyphs before it, and so is the width of a TAB |
| `Wrap.DisplayState.FlushFragment` | qe.c:2491-2660 | after a fragment is added all full lines are flushed, and what is left fits; each glyph of the fragment is as wide as the font of its style has it, and a TAB is a space up to the next stop from the column it stands at |
| `Wrap.DisplayState.DisplayChar` | qe.c:2664-2715 | a character joins the fragment in progress or flushes it first; no character and no style is lost |
| `Wrap.DisplayLine` | qe.c:2491-2715 | for any characters and styles, with the widths of the fonts and TABs up to the next stop, the lines drawn and the rest are the wrapping of the glyphs of all characters: each line is as full as it can be, and fits or is one glyph |
| `Path.CanonizePath1` | util.c:128-189 | as long as everything fits on the way, the buffer holds the canonical form; names are cut to 1023 characters |
| `Path.Idempotent` | util.c:128-189 | a canonical path is canonical |
| `Path.MeaningKept` | util.c:128-189 | from any directory the canonical path leads where the path leads |
| `Path.AbsoluteIsPlace` | util.c:150-178 | the canonical form of an absolute path is the place it leads to spelled out: no ".", ".." or empty name |
| `Path.PlaceBelow` | util.c:150-178 | what a place is: one more component leads nowhere else, one up (not above the root), or one down |
| `Path.PlaceFirst` | util.c:150-178 | where a path of one component leads |
| `Path.FormIsTidy` | util.c:150-189 | the form is never empty, begins with a slash exactly if the path does, and has no empty component and no "." unless it is "/" or "." |
| `Path.RelativeBegins` | util.c:150-189 | what is left of a relative path begins with its first component that leads somewhere, even if ".." follows; "." is left exactly if there is none |
| `Path.PathFits` | util.c:128-189 | a buffer with room for the path has room for everything on the way |
| `Path.SameForm` | util.c:150-178 | two absolute paths have the same canonical form if and only if they lead to the same place |
| `Path.WalkStable` | util.c:150-178 | ".." is left only at the beginning of a relative path, after another one, or after its first name |
| `Path.GoUp` | util.c:154-169 | cutting the buffer at its last slash takes away the last component, when it may be |
| `Path.Pstrcat` | cutils.c:106-113 | appends as far as the buffer goes |

## Left out

- Reading and writing files, mapping failures, processes, terminals, timers and the event loop are not modelled; a mapped file is the byte sequence given to `MmapBuffer`.
- malloc and realloc always succeed, and nothing is freed.
- Marks moved by `eb_offset_callback` are not modelled; the only callbacks are those of colouring. Undoing a deletion calls them twice, which changes nothing for those.
- PG_VALID_COLORS is set by nothing in the sources and is left out of the page flags.
- The padding byte pair in a record header is written as 0; its contents are never used.
- Indices into the log are unbounded integers; offsets and sizes in records are limited to 31 bits.
- Buffer arguments are passed as byte sequences, so `eb_insert` of bytes that lie in the same buffer is not a case.
- TextIndex.Prevc: where the octet found begins a form that goes on past `offset`, says only that a code that is complete there is given, and otherwise nothing in the ASCII range, because bytes that were not read decide the result.
- TextIndex.Nextc: where the text ends inside a UTF-8 form, says only that all of that is taken and gives no newline or other ASCII character, because bytes that were not read decide the result.
- Positions.GotoPos: columns above 0 under UTF-8 are stated for well-formed texts. Changing the charset of a buffer, which leaves cached counts behind, is not modelled.
- `EightBit` is ISO 8859-1, whose table maps each byte to itself; other 8 bit tables are left out.
- Positions.GetLine: says nothing of the characters of the last line if the text ends inside a UTF-8 form, and colouring asks that it does not. Walking back to the start of a line (`GotoBol`), filling and going back from a bracket ask for well-formed UTF-8, since a step back over more than five octets that only continue a form passes bytes that it has not looked at (`Prevc`).
- Colorize.Serve: the colouriser is an arbitrary function whose states fit in a byte; the individual colourisers are not modelled.
- Windows.Screen.Perform: popups, borders and client areas are left out; a new screen must have room for some content and the status line, and a window to delete needs an aligned neighbour, since the source goes on with a null window where there is none.
- Search.EbSearch: the abort function is left out. Of the interactive replacement only replacing all is modelled; the key "n" does not advance in the source.
- Brackets.DoMatchParenthesis: the cursor must be on a byte, since the source reads an uninitialised one at the end of the text; walking back from a closing bracket under UTF-8 asks for a well-formed text.
- Fill.DoFillParagraph: with a log, the text must not outgrow a 31 bit size half way (`Fillable`). `isspace` is that of the C locale, and false of codes past 255.
- Wrap.DisplayLine: left-to-right text in WRAP_LINE mode, glyphs one for one, widths of at least 1, windows at most 128 wide, no horizontal displacement. Glyphs and widths are one array of pairs. `keep_line_chars` does not move the hex mode flags, which are left out here.
- Path.CanonizePath1: says nothing of a path for which the buffer is too small on the way; drive letters and URLs are handled before it.
- Utf8.Decode: works on numbers. Its loop is the one on words (`Bits.GatherWord`); its comparisons with bounds are not repeated on words.
- Buffers.DoAll: the set of buffers is fixed; opening one beside the others is `MapAmong`. Getting to another buffer takes a command of its own, so a chain of undos goes on only in the buffer it began in.
- Bidirectional text, word wrapping, styles, drawing, the minibuffer, completion, dired, key and configuration parsing are left out.
