# Adonthell engine: verified model of its stateful cores

A Dafny 4.11 model of five cores of the Adonthell engine, each with proofs about all inputs, all runs or
all reachable states. `dafny verify dfyconfig.toml` verifies the whole project.

## What is modelled

**Records and their XML form** (`Bytes`, `Record`, `Lookup`, `Growth`, `Flat`, `Portability`, `RecordTree`, `XmlText`,
`XmlReader`, `XmlRoundTrip`, `XmlElements`, `XmlWriter`). `flat` appends named, typed fields to a growing byte buffer
and decodes them lazily, turning a buffer of foreign byte order into host order where it lies. `Record` holds the byte
layout as functions with both inverses; the class `Flats.Flat` is the object, an array that is grown, written and
swapped in place, every method proved against those functions; its invariant says that the write pointer is at the end
of the content or there is no room left, so that the next put has to grow. `Growth` is the doubling of its u_int32
capacity, with its wrap-around. `Portability` says what the byte orders come to: a host reads the values that another
host stored, each of the six integer types as it lies in its own memory. `RecordTree` opens records inside records.
`XmlText` holds the conversions between values and text, `XmlReader` the SAX handlers over their stack of contexts,
and `XmlRoundTrip` the result: whatever way a parser delivers the printed document, the record is rebuilt byte for
byte, and the stack is as deep as the open lists. `XmlElements` says of every element name which type it stands for,
and of its text which value.

**Rectangles and lines** (`DrawingArea`, `AreaList`, `AreaChain`, `DrawLine`). The case analysis of `compare` and
the sixteen cases of `subtract_area` with their 16-bit truncation, the list edited under its iterator by
`subtract_from`, the chain of assigned areas, and the integer rasteriser. Cells are the meaning: what is covered,
how often, and how much is left.

**Game time** (`CatchUp`, `TimeQueue`, `TimeRun`, `PausedTime`, `TimeEvents`, `GameDate`). `TimeEvents` and `GameDate`
are the objects: listeners, the sorted list, the clock. `CatchUp` is the loop that moves a u_int32 alarm past the
clock, wrapping around as it may; `TimeQueue` gives one raise as a function, with its termination measure;
`TimeRun` gives whole runs of seconds and shows that every listener is served as if it were alone, exactly at its
alarms; `PausedTime` what a pause in between changes.

**Listeners and factories** (`Factory`, `PauseCounts`, `FactoryState`, `FactoryFile`, `EventTypes`). Nested
pausing and registration, saving a factory into nested records and loading it again through the record object, and
the registry of event types whose ids events cache.

**Surface cache** (`SurfaceCache`). Reference counts, the purge under a memory limit, and the destructor of an erased
entry that calls back into the cache and starts another purge. The invariant every method keeps: each count is the
number of references handed out, every surface with one is in the cache under its own name, and MemUsed is the total
size less what `add_surface_mem` never added.

**UTF-8 text box** (`Utf8`, `Textbox`). Decoding and stepping over UTF-8, and the text box as an editor over bytes
that refines an editor over code points. The encoding is that of section 3 of RFC 3629.

## Where the code does not do what it is for

For each of these there is a lemma that says, for all inputs, exactly when the code meets the property.

- A record adopted from a host of the other byte order and put into before it is parsed receives a block in host
  order under the foreign tag. It is read back correctly exactly if swapping changes neither size nor value
  (`Record.PutIntoForeignRecord`, with an input in `Record.PutIntoForeignRecordFails`).
- A put grows the capacity by doubling a u_int32. The loop ends exactly if one of the first 32 doublings modulo 2^32
  reaches the size needed (`Growth.GrowthEndsIff`): a new record of the default capacity never gets beyond 2^31
  (`Growth.DefaultGrowthStuck`), while a wrapped counter can still get there (`Growth.WrappedGrowthEnds`).
- After a put, a get of the same name returns the field just put exactly if nothing was decoded before and no older
  field has that name (`Flats.PutAndGet`, with an input in `Flats.SecondPutNotFound`).
- A document is read into a record that is only cleared, which keeps a foreign order byte. The fields are decoded again
  exactly if swapping changes none of them (`XmlRoundTrip.ReadIntoForeignIff`, `Record.ForeignTagIff`).
- The conversion of integer text casts to 32 bits before it checks the range, so 4294967296 is read as 0
  (`XmlText.OverflowClampedIff`, `XmlText.SignedOverflowClampedIff`, `XmlText.OverflowNotClamped`); negative text of an
  unsigned type wraps around before it is clamped (`XmlText.NegativeAsUnsigned`).
- Inside the root the reader does not skip an element of unknown type; its end tag closes what is open around it
  (`XmlRoundTrip.UnknownSkippedIff`), which can empty the stack (`XmlRoundTrip.UnknownElementUnderflows`). An element
  inside a value ends the value (`XmlElements.TagInValue`).
- Subtracting an area that ends beyond 32767 and before the other does cuts a piece off at a truncated coordinate: its
  cells are lost and others appear (`DrawingArea.PiecesExactIff`, with an input in `DrawingArea.CellsLost`).
- A line and the same line drawn backwards differ exactly where the ideal line passes halfway between two pixels
  (`DrawLine.ReversedLine`).
- `raise_event` does not end if a due event repeats forever without an interval, or if its alarm, a u_int32, never gets
  past the clock because its interval steps over the end of the range; it ends in all other cases
  (`TimeQueue.RaiseEndsIff`, `CatchUps.CatchUpEndsIff`). Giving an event that repeats forever an interval that is not
  allowed leads to the first (`TimeQueue.RetimedEventSpins`), an alarm close to 2^32 to the second
  (`TimeQueue.WrappedEventSpins`). Where it does get past the clock, the alarm is the next one of its grid exactly if
  that is below 2^32 (`CatchUps.CaughtUpIff`).
- Resuming a factory that is not paused wraps its count around, and so does a pause at 65535
  (`PauseCounts.ResumeNeedsPause`, `PauseCounts.PauseNeedsRoom`).
- A listener loses its event, and is loaded all the same, exactly if the type of the event is not registered while
  loading, although the base class reports the failure (`FactoryState.ListenerRestored`).
- Erasing a cache entry leaves its dead surface with the empty name, so that an entry of that name loses a reference and
  another purge starts, which can delete its surface while it is held. A purge leaves all entries with references alone
  exactly if no entry of that name has some, or nothing is to be erased (`SurfaceCache.PurgeHarmlessIff`, with an input
  in `SurfaceCache.PurgeDeletesHeld`).
- `add_surface_mem` does not count the size a purge later subtracts (`SurfaceCache.MemUsedIsTotalIff`).
- `from_utf16` emits the encoding of its character only from U+0001 to U+07FF and for pairs with the first high
  surrogate (`Utf8.FromUtf16BasicIff`, `Utf8.FromUtf16Bytes`, `Utf8.FromUtf16PairIff`).
- Type ids are 8 bits wide, and names and ids are inverse only up to 256 types
  (`EventTypes.RegisterKeepsInverseIff`); from the 257th type on an id resolves to the type that had it first, and from
  the 256th on the id for "unknown" is that of a type (`EventTypes.NewTypeResolvesIff`,
  `EventTypes.UnknownResolvesIff`).

## Model

| member | source | states |
|---|---|---|
| Bytes.Swap16Reverses | src/base/endians.h:65-67 | the portable 16-bit swap, written back in host order, leaves the two bytes in reverse |
| Bytes.Swap32Reverses | src/base/endians.h:93-95 | the portable 32-bit swap leaves the four bytes in reverse, on hosts of either order |
| Bytes.Swap32ReadsOther | src/base/endians.h:93-95 | swapping what a host reads gives what a host of the other order would have read |
| Record.FieldRoundTrip | src/base/flat.cc:99-115 | a block written in either order, in front of any bytes, decodes to its field and takes exactly its own bytes |
| Record.RecordRoundTrip | src/base/flat.cc:195-269 | any host reads from a record of any order exactly the fields put, in order |
| Record.DecodeIsInverse | src/base/flat.cc:195-269 | a buffer that can be read is the encoding, in the order of its tag, of what is read: nothing is dropped or merged, and every field is one that put can store |
| Record.NameKeptIffNulFree | src/base/flat.cc:99-115 | a field survives a put and a parse exactly if its name has no NUL |
| Record.PutExtends | src/base/flat.cc:99-115 | appending a block in the record's own order is putting one more field, and it is read back after the others |
| Record.PutIntoForeignRecord | src/base/flat.cc:99-115 | a put into an adopted record of the other order is read back exactly if the swap changes neither size nor value |
| Record.PutIntoForeignRecordFails | src/base/flat.cc:99-115 | a concrete put into a foreign record that is not read back |
| Record.ForeignTagIff | src/base/flat.cc:195-269 | a sequence of blocks in host order behind the other order's tag is read back iff swapping changes none of them |
| Portability.RecordCarried | src/base/flat.cc:195-269 | what one host stored another reads, whatever their byte orders: the same names, types and values in order, integers of all six types as in its own memory, everything else byte for byte |
| Portability.IntegerRead | src/base/flat.h:355-425 | the integer read from the memory of a host is the one that was stored, for all six types and their whole ranges |
| Portability.PutIntegerSeen | src/base/flat.cc:229-250 | every integer field, of whatever value and type, put by one host is seen by another as what it would have put itself |
| Portability.RecordBytes | src/base/flat.cc:51-115 | the bytes of a record with one u_int16 in either order, from the letter in front on, and what a host of either order reads |
| Lookup.SearchComplete | src/base/flat.cc:118-167 | the circular search finds a field iff one has the name, and then the next one in circular order |
| Lookup.ReadsAreLookups | src/base/flat.cc:118-167 | with distinct names, reads in any order from any cursor are lookups in a map |
| Lookup.ReadsInWriteOrder | src/base/flat.cc:118-167 | reading names in write order returns the fields one after the other, repeated names or not |
| Growth.GrowthEndsIff | src/base/flat.cc:99-115 | the growth loop ends iff one of the first 32 doublings of the capacity modulo 2^32 reaches the goal, and then within 32 turns |
| Growth.CanGrowIff | src/base/flat.cc:279-294 | a put can grow iff the loop ends and no capacity on the way is too small for the content that is copied |
| Growth.PowerOfTwoEndsIff | src/base/flat.cc:99-115 | from a capacity that is a power of two the loop ends iff the goal is at most 2^31 |
| Growth.DefaultGrowthStuck | src/base/flat.cc:99-115 | in a new record of the default capacity 32 a put that needs 2^31 + 1 bytes in all does not end |
| Growth.WrappedGrowthEnds | src/base/flat.cc:99-115 | from capacity 11 a goal of 0xB8000000 is reached after the counter wrapped around |
| Growth.HalfTheRangeIsReached | src/base/flat.cc:279-294 | every capacity reaches every goal up to 2^31, with room for the content all the way |
| Flats.PutAndGet | src/base/flat.cc:99-167 | a put and then a get of the same name return the field just put iff nothing was decoded before and no older field has its name |
| Flats.SecondPutNotFound | src/base/flat.cc:118-167 | a concrete decoded record in which a second put under the same name is found from no position |
| Flats.PutAllAndParse | src/base/flat.cc:99-269 | any sequence of puts into an empty record, whatever growth they take, is parsed to exactly that sequence, and the buffer is its encoding |
| Flats.Flat.constructor | src/base/flat.cc:51-68 | a new record of any requested size, 0 included, holds the letter of the byte order, 'L' or 'B', and nothing else |
| Flats.Flat.FromBuffer | src/base/flat.cc:71-79 | a record made from a buffer owns a fresh copy of exactly those bytes |
| Flats.Flat.Copy | src/base/flat.cc:91-96 | a copy has the bytes of the source but not its spare capacity, so that the next put has to grow |
| Flats.Flat.SetBuffer | src/base/flat.h:603-613 | an adopted buffer is taken over as it is, with no room to spare and nothing decoded |
| Flats.Flat.Clear | src/base/flat.h:152-158 | only the order byte remains, and the write pointer is right behind it |
| Flats.Flat.Grow | src/base/flat.cc:279-294 | twice the capacity modulo 2^32 with the same content, and the write pointer at its end |
| Flats.Flat.Put | src/base/flat.cc:99-115 | the buffer is its old content followed by the block, whatever growth that took, counters that wrap around included |
| Flats.Flat.Parse | src/base/flat.cc:195-269 | the decoded list is the list of fields of the buffer, and the buffer is now their encoding in host order |
| Flats.Flat.ParseBlock | src/base/flat.cc:207-262 | one turn of the loop decodes one block, leaves its host-order encoding there and touches nothing else |
| Flats.Flat.SwapContent | src/base/flat.cc:229-250 | types 4 and 5 have their two bytes swapped where they lie, 6 and 7 their four; every other type and byte is left alone |
| Flats.Flat.Get | src/base/flat.cc:118-167 | the next field of that name, as a C string, in circular order, with the cursor behind it; a read that finds none leaves the cursor where it was and clears Success unless it is optional |
| Flats.Flat.Next | src/base/flat.cc:170-192 | the field at the cursor, which moves on, or the end |
| Flats.Flat.First | src/base/flat.h:507-510 | the cursor is back at the first field |
| RecordTree.TreeRoundTrip | src/base/flat.h:495-499 | opening records inside records recovers the whole tree, whatever order each of them was written in |
| RecordTree.MixedOrderSameMeaning | src/base/flat.cc:199-258 | a tree of mixed order opens to the same nodes, and has the same size, as one written by the reader |
| XmlText.UintRoundTrip | src/base/diskwriter_xml.cc:124-147 | an unsigned number in range is read back as printed |
| XmlText.SintRoundTrip | src/base/diskwriter_xml.cc:150-179 | a signed number in range is read back as printed |
| XmlText.OverflowClampedIff | src/base/diskwriter_xml.cc:124-147 | a number above the maximum is clamped to it exactly if the low 32 bits of strtoul's result are not below it |
| XmlText.SignedOverflowClampedIff | src/base/diskwriter_xml.cc:150-179 | a signed number beyond a limit is clamped to it exactly if the low 32 bits of strtol's result, taken as a signed number, are at or beyond that limit |
| XmlText.OverflowNotClamped | src/base/diskwriter_xml.cc:124-147 | numbers from 2^32 on are read as if they had wrapped around |
| XmlText.ScanAny | src/base/diskwriter_xml.cc:124-179 | blanks, a sign or none and digits are a number, a whole one iff nothing follows |
| XmlText.NotANumber | src/base/diskwriter_xml.cc:124-179 | text with anything behind the digits is 0 as an unsigned number and -1 as a signed one, whatever the limits |
| XmlText.NegativeAsUnsigned | src/base/diskwriter_xml.cc:124-147 | a negative number as text of an unsigned type wraps around modulo 2^32 before it is clamped |
| XmlText.BoolOfText | src/base/diskwriter_xml.cc:182-268 | of all texts only a whole positive number, cast to 32 bits, is true |
| XmlText.HexRoundTrip | src/base/diskwriter_xml.cc:615-714 | a blob printed as hexadecimal text is read back byte for byte |
| XmlText.BlobToHex | src/base/diskwriter_xml.cc:615-714 | the printing loop yields the hexadecimal text of the blob |
| XmlText.HexToBlob | src/base/diskwriter_xml.cc:182-268 | the reading loop yields the blob of a hexadecimal text |
| XmlText.IntTextRoundTrip | src/base/diskwriter_xml.cc:182-268 | the text of an integer of any of the six types converts back to the same bits |
| XmlText.ValueRoundTripIff | src/base/diskwriter_xml.cc:182-268 | a printed value is read back exactly if it is one the put functions can have stored |
| XmlReader.SaxParser.constructor | src/base/diskwriter_xml.cc:80-117 | a parser starts with one context, waiting for the root element |
| XmlReader.SaxParser.DataStartElement | src/base/diskwriter_xml.cc:286-383 | the stack after a start tag: waiting value of the type `TypeForNameIff` gives, opened list, remembered id, or unchanged |
| XmlReader.SaxParser.DataEndElement | src/base/diskwriter_xml.cc:390-436 | the stack after an end tag: the value or the finished list is put into the record it belongs to |
| XmlReader.SaxParser.DataReadCharacters | src/base/diskwriter_xml.cc:444-455 | text is appended to a waiting value and ignored elsewhere |
| XmlRoundTrip.TypeNamesInvert | src/base/flat.h:540-548 | every type has a name of its own that leads back to it and is not the name of the root |
| XmlElements.TypeForNameIff | src/base/flat.cc:45-48 | each of the 13 names, written out, stands for its type, and any other name for none (a comment promises string) |
| XmlElements.IntegerText | src/base/diskwriter_xml.cc:182-268 | an integer of any of the six types, in the memory of its host, is printed as its decimal text, which is converted back |
| XmlElements.HexTable | src/base/diskwriter_xml.cc:615-714 | two characters of the table 0 to 9, A to F for each byte of a blob, high half first |
| XmlElements.ElementRead | src/base/diskwriter_xml.cc:286-455 | an element of a primitive type, its text in any chunks, becomes a field of the type of its name, called by its id |
| XmlElements.IntegerElement | src/base/diskwriter_xml.cc:182-455 | the element u_int8, s_int8, u_int16, s_int16, u_int32 or s_int32 with the text of a number in its range becomes that integer |
| XmlElements.OtherElements | src/base/diskwriter_xml.cc:182-455 | the same for truth values, characters, strings and blobs |
| XmlElements.IdIsFirst | src/base/diskwriter_xml.cc:328-340 | the id is the value of the first attribute whose name starts with "id", or empty |
| XmlElements.TagInValue | src/base/diskwriter_xml.cc:286-436 | a start tag inside a value is ignored, so that its end tag ends the value |
| XmlElements.NestedRoot | src/base/diskwriter_xml.cc:286-436 | a root element inside a list is passed over |
| XmlRoundTrip.XmlRoundTrip | src/base/diskwriter_xml.cc:286-455 | any delivery of a printed tree rebuilds its record byte for byte; at every moment there is one context more than there are open lists |
| XmlRoundTrip.ReadInto | src/base/diskwriter_xml.cc:541-571 | reading any delivery of a printed tree appends its fields in host order to whatever record is read into |
| XmlRoundTrip.ReadIntoForeignIff | src/base/diskwriter_xml.cc:541-571 | into a cleared record with the other order's byte, they are decoded again iff swapping changes none of them |
| XmlRoundTrip.SaveAndLoad | src/base/diskwriter_xml.cc:541-612 | a record of any mixture of orders, printed and loaded, opens to the same tree; one in host order is the identical buffer |
| XmlRoundTrip.UnknownElementUnderflows | src/base/diskwriter_xml.cc:390-436 | any element of unknown type after any value under the root leads to a pop of the last context |
| XmlRoundTrip.UnknownSkippedIff | src/base/diskwriter_xml.cc:286-436 | an element of unknown type leaves the contexts as they were iff it is outside the root element |
| XmlWriter.RecordToXml | src/base/diskwriter_xml.cc:574-612 | the cursor loop with its recursion prints exactly the tree of the record, decoded before or not |
| DrawingArea.SplitFits | src/gfx/drawing_area.cc:174-379 | if the last cell of the area has 16-bit coordinates, no coordinate or size of any piece is truncated, whatever is subtracted |
| DrawingArea.SplitFitsIff | src/gfx/drawing_area.cc:174-379 | and only then: every other area is cut at a truncated coordinate by some area |
| DrawingArea.BoxesSound | src/gfx/drawing_area.cc:174-379 | before truncation no piece leaves the area or enters what is subtracted, for any two rectangles |
| DrawingArea.BoxesComplete | src/gfx/drawing_area.cc:174-379 | before truncation every cell outside what is subtracted is in a piece, for any two rectangles |
| DrawingArea.BoxesOnce | src/gfx/drawing_area.cc:174-379 | before truncation no two pieces share a cell, for any two rectangles |
| DrawingArea.PiecesExactIff | src/gfx/drawing_area.cc:90-379 | the pieces cover exactly the cells of the one area outside the other iff no piece with cells is cut off at 32768; then they are disjoint |
| DrawingArea.CutsOffIff | src/gfx/drawing_area.cc:174-379 | the coordinates that cut a piece off are exactly those that truncate a piece with cells |
| DrawingArea.AlwaysExactIff | src/gfx/drawing_area.cc:174-379 | an area is split exactly by every other one iff its last cell has 16-bit coordinates or it has no cells |
| DrawingArea.CellsLost | src/gfx/drawing_area.cc:174-379 | a concrete split that loses a cell and covers another that was not there |
| AreaLists.AreaList.SubtractArea | src/gfx/drawing_area.cc:174-379 | the pieces, in the order they are pushed, in front of the unchanged rest of the list |
| AreaLists.AreaList.SubtractFrom | src/gfx/drawing_area.cc:159-166 | the loop that pushes and erases while it iterates ends, visits each old area once and no new piece |
| AreaLists.SubtractAllExact | src/gfx/drawing_area.cc:159-166 | unless a piece is cut off, exactly the cells outside the subtracted area are left, and disjoint lists stay disjoint |
| AreaLists.SafeIff | src/gfx/drawing_area.cc:159-166 | no area cuts anything off a list iff every area in it has a 16-bit last cell or no cells |
| AreaLists.SafeNeverCutOff | src/gfx/drawing_area.cc:159-166 | and then nothing is cut off however many areas are subtracted one after the other |
| AreaLists.SubtractEachExact | src/gfx/drawing_area.cc:159-166 | the same for any number of areas, one after the other |
| AreaLists.OrderDoesNotMatter | src/gfx/drawing_area.cc:159-166 | what is left does not depend on the order in which areas are subtracted |
| AreaLists.AreaIsCellCount | src/gfx/drawing_area.cc:159-166 | for disjoint areas the sum of width times height is the number of cells covered |
| AreaLists.AreaConserved | src/gfx/drawing_area.cc:159-166 | area left plus area of the overlap is the area before |
| AreaChain.Area.AssignDrawingArea | src/gfx/drawing_area.h:171-174 | the area is the next one up the chain, or none is |
| AreaChain.Area.SetupRects | src/gfx/drawing_area.cc:50-66 | the rectangle returned covers exactly the cells common to this area and every area up its chain |
| AreaChain.EmptyIff | src/gfx/drawing_area.cc:50-66 | the rectangle has no width or no height iff no cell is common to the chain |
| AreaChain.EmptyStaysEmpty | src/gfx/drawing_area.cc:50-66 | a rectangle that is empty at some area of the chain is empty at its end |
| DrawLine.Surface.DrawLine | src/gfx/surface.cc:50-142 | the plotted pixels, in order, are those nearest to the ideal line that the clip area lets through; none for a line without length |
| DrawLine.NearestStep | src/gfx/surface.cc:100-140 | the error term decides for the nearest pixel, and its two updates keep its meaning |
| DrawLine.TieStaysBack | src/gfx/surface.cc:100-140 | halfway between two pixels the one further back along the shorter axis is plotted |
| DrawLine.LineShape | src/gfx/surface.cc:50-142 | a line starts and ends at its end points, takes one step of the longer axis per pixel, and stays within half a pixel of the ideal line |
| DrawLine.LineConnected | src/gfx/surface.cc:50-142 | neighbouring pixels are different and touch |
| DrawLine.UnclippedLine | src/gfx/surface.cc:50-142 | without a clip area there is exactly one pixel per step |
| DrawLine.ClippedLine | src/gfx/surface.cc:50-142 | with a clip area exactly the pixels inside it are plotted, each once |
| DrawLine.ReversedLine | src/gfx/surface.cc:50-142 | drawn backwards, a line has the same pixel at a step exactly if the ideal line does not pass halfway between two there |
| CatchUps.CatchUpEndsIff | src/event/time_event.cc:90-94 | the catch-up in u_int32 ends iff U32 - g + time % g is past the clock, with g the largest power of two that divides the interval |
| CatchUps.CaughtUpIff | src/event/time_event.cc:90-94 | it ends at the first alarm after the clock, as without a limit, iff that alarm is below 2^32 |
| CatchUps.OneStep | src/event/time_event.cc:90-94 | one turn of the loop gets one step closer to the same end |
| CatchUps.NeverPast | src/event/time_event.cc:90-94 | a concrete alarm and interval that never get past the clock |
| TimeQueue.TurnShrinks | src/event/time_event_manager.cc:49-70 | every turn of the loop makes the measure over due listeners smaller, whatever goes back into the queue |
| TimeQueue.RaiseEndsIff | src/event/time_event_manager.cc:49-70 | the loop ends iff no due event repeats forever without an interval, and the catch-up of every due event that is called and has one ends |
| TimeQueue.RetimedEventSpins | src/event/time_event.cc:47-58 | an event set to repeat forever and then given an interval that is not allowed is raised without end |
| TimeQueue.WrappedEventSpins | src/event/time_event.cc:86-95 | an event with a count and an interval, due close to the end of the range, is never raised to an end |
| TimeQueue.InsertSorted | src/event/time_event_manager.cc:85-100 | adding keeps the list sorted with the earliest alarm at the back, and adds just that listener |
| TimeQueue.RaiseSorted | src/event/time_event_manager.cc:49-70 | after a raise the list is sorted and no alarm is due |
| TimeQueue.RaiseDecomposes | src/event/time_event_manager.cc:49-70 | a raise does to each listener what it would do to it alone: calls, next alarm, or removal once its count is used up |
| TimeRun.FiresExactlyAtHits | src/event/time_event.cc:86-95 | a listener whose alarms are u_int32 is called exactly at the raises whose window holds an alarm T0 + k * I, at most n times and once per raise, and leaves the queue with the last call |
| TimeRun.CallsEverySecond | src/event/time_event.cc:86-95 | with resolution 1 it is called at min(n, (now - T0) / I + 1) alarms, the k-th at T0 + k * I |
| TimeRun.SecondsDecompose | src/event/time_event_manager.cc:49-70 | over any run of seconds every listener is served as if it were alone |
| TimeRun.ListenerFires | src/event/date.cc:58-77 | the firing times of a listener in any queue, over any run, whatever else is registered |
| TimeRun.SecondsCompose | src/event/date.cc:58-77 | consecutive updates add up: how the cycles are grouped into updates does not matter |
| PausedTime.LateListener | src/event/time_event.cc:86-95 | a listener registered after its alarm is called once at the next raise, however many alarms it missed, and then at the alarms of its old grid |
| PausedTime.PausedListener | src/event/listener.h:228-241 | a listener paused over some seconds in any queue is neither called nor counted down in them, and goes on like that once resumed |
| PausedTime.PauseAffectsNoOther | src/event/listener.cc:57-76 | every other listener is called and left as if there had been no pause |
| TimeEvents.Listener.SetRepeat | src/event/time_event.cc:47-58 | the interval is set, the count only if the interval is positive, and nothing else |
| TimeEvents.Listener.DoRepeat | src/event/time_event.cc:86-95 | the catch-up loop ends where the steps of its interval first get past the clock, wrapped around or not; the count goes down unless it is negative |
| TimeEvents.Listener.RaiseEvent | src/event/listener_cxx.cc:61-82 | the callback runs iff it is set and the event repeats; without one the event is used up; count and alarm after it |
| TimeEvents.TimeEventManager.Add | src/event/time_event_manager.cc:85-100 | the listener is put behind every alarm that is not earlier and in front of every one that is |
| TimeEvents.TimeEventManager.Remove | src/event/time_event_manager.cc:73-82 | the listener, and nothing else, is gone, and the order is kept |
| TimeEvents.TimeEventManager.RaiseEvent | src/event/time_event_manager.cc:49-70 | the loop over the list of objects ends and leaves the queue and the calls of the functional raise |
| GameDate.Date.Update | src/event/date.cc:58-77 | Time * Scale + Ticks grows by exactly the cycles counted, 0 <= Ticks < Scale afterwards, and queue and calls are those of the seconds passed |
| GameDate.Date.Updates | src/event/date.cc:58-77 | over any sequence of updates no cycle is lost, and every listener with an interval is called exactly at the raises whose window holds one of its alarms, and first at the next raise if it was overdue, at most n times |
| GameDate.ClockStep | src/event/date.cc:58-77 | turning cycles into a second changes nothing in their total |
| PauseCounts.StepConsistent | src/event/factory.cc:132-145 | every matched operation keeps each listener's count at factory depth plus own pauses, and in the list exactly once iff that is 0 |
| PauseCounts.RunConsistent | src/event/factory.cc:75-145 | the same over any run of adds, pauses, resumes and deletions |
| PauseCounts.ResumeNeedsPause | src/event/factory.cc:140-145 | a resume of the factory keeps the counts consistent iff the factory was paused |
| PauseCounts.PauseNeedsRoom | src/event/factory.cc:132-137 | a pause of the factory keeps the counts consistent iff every u_int16 count has room |
| PauseCounts.PauseOneNeedsRoom | src/event/listener.cc:57-61 | and a pause of one listener iff its count has |
| PauseCounts.PausesUndone | src/event/factory.cc:132-145 | pauses and resumes that cancel out without overflow, in any order and with adds in between, restore every listener exactly |
| PauseCounts.PauseAddResume | src/event/factory.cc:75-145 | k pauses, any number of adds and k resumes restore the registered set, followed by the new listeners |
| Factories.Listener.PauseAt | src/event/listener.cc:57-61 | the count is raised modulo 2^16, and a listener that was not paused is taken out of its manager's list; nothing else changes |
| Factories.Listener.Resume | src/event/listener.cc:64-76 | the count is lowered, and at 0 the listener is in its manager's list; a resume without a pause only registers it if it is not |
| Factories.Listener.Destroy | src/event/listener.cc:46-54 | a registered listener leaves its manager's list |
| Factories.Manager.Add | src/event/manager.h:78-86 | the flag is set and the listener entered once more |
| Factories.Manager.Remove | src/event/manager.h:48-56 | the flag is cleared and the listener taken out, if it was there |
| Factories.Factory.Add | src/event/factory.cc:75-93 | a new listener is appended, paused as deep as the factory, or registered once if that is not paused; the others are untouched |
| Factories.Factory.Pause | src/event/factory.cc:132-137 | the loop over the objects pauses every listener once, and no other listener of the manager |
| Factories.Factory.Resume | src/event/factory.cc:140-145 | the loop over the objects resumes every listener once, and no other listener of the manager |
| Factories.Factory.Remove | src/event/factory.cc:109-118 | exactly that listener is taken out of the factory, the order of the others is kept |
| FactoryState.ListenerRestored | src/event/listener.cc:79-112 | a listener with an event of any type is loaded by a host of either order with its id, its pause count and the event read from its fields; the event is lost, and the listener accepted all the same, iff its type is not registered |
| FactoryState.TimeListenerRestored | src/event/time_event.cc:61-84 | with time events registered, a saved listener on one is loaded with every value |
| FactoryState.EventRestored | src/event/types.cc:79-86 | the event is created iff its type is registered, and then read in the order it was put |
| FactoryState.FactoryRestored | src/event/factory.cc:148-207 | with time events registered, a saved factory is loaded with its pause count and, in order, exactly the listeners whose repeat is not 0; registered are, in order, exactly those of them with pause count 0 |
| FactoryState.AliveInOrder | src/event/factory.cc:148-160 | saved are, once each and in order, the listeners whose repeat is not 0, negative ones included |
| FactoryState.UnpausedInOrder | src/event/factory.cc:195-199 | registered on loading are, once each and in order, the listeners with pause count 0 |
| FactoryState.RegisteredAreUnpaused | src/event/factory.cc:163-207 | that holds of loading any records at all, also if it stops halfway |
| FactoryState.LoadingStops | src/event/factory.cc:163-207 | loading stops at the first field that is no record or listener that cannot be read, keeping those before it; a listener of unknown type is passed over |
| FactoryState.LoadedIff | src/event/listener.cc:90-112 | a type of 1 is Python's, from 2 on unknown; a C++ listener, which one without a type is taken for, is loaded iff no field of it or of its registered event is missing |
| FactoryState.MissingBlocks | src/event/factory.cc:163-207 | without a record of listeners none is loaded, without a pause count the factory is not paused |
| FactoryState.ListenerFormat | src/event/time_event.cc:61-70 | name, type and bytes of each of the nine fields of a saved listener, written out |
| FactoryFile.PutListenerState | src/event/listener_cxx.cc:85-97 | the record object filled by the calls of put_state holds the fields of the listener, its event and its time event |
| FactoryFile.Factory.PutState | src/event/factory.cc:148-160 | the two blocks of the factory are appended to the file; into an empty file that is the saved factory |
| FactoryFile.GetEventState | src/event/time_event.cc:73-84 | the event of any registered type read through the moving cursor, its success flag included, is that of the value model |
| FactoryFile.GetListenerState | src/event/listener.cc:90-112 | the listener read through the moving cursor is that of the value model |
| FactoryFile.Factory.GetState | src/event/factory.cc:163-207 | pause count, listeners and registered listeners are those loaded, appended to what was there; of those appended exactly the ones with pause count 0 are registered, in order, also if loading stops halfway |
| EventTypes.Types.RegisterType | src/event/types.cc:38-52 | a new name gets the next id modulo 256, its manager and its creator, and an entry at the end; a known one changes nothing |
| EventTypes.Types.RemoveType | src/event/types.cc:55-66 | a known name goes and the entry at its id, and no other, is cleared; an unknown one changes nothing |
| EventTypes.RunInverse | src/event/types.cc:38-66 | over any run with at most 256 registrations names and ids stay inverse on live types |
| EventTypes.RegisterKeepsInverseIff | src/event/types.cc:38-52 | a registration keeps them inverse iff the name is known or fewer than 256 types were registered |
| EventTypes.RemovedTypeGone | src/event/types.cc:55-66 | the name is unknown, its id resolves to nothing from then on, over any run, and every other name and id is what it was |
| EventTypes.OthersResolveIff | src/event/types.cc:55-66 | every other name still resolves to its manager iff none of them shares the id that was cleared |
| EventTypes.NameKept | src/event/types.cc:38-52 | a name keeps the id, manager and creator it was first registered with until it is removed |
| EventTypes.RunKeepsOrClears | src/event/types.cc:38-66 | over any run at all an entry stays where it is or is cleared |
| EventTypes.CachedIdSafe | src/event/event.cc:65-69 | an id an event cached resolves, after any run at all, to the manager it was given for or to none |
| EventTypes.NewTypeResolvesIff | src/event/types.cc:89-95 | a new type resolves to its own manager iff its id did not wrap around onto another |
| EventTypes.UnknownResolvesIff | src/event/types.cc:69-76 | the id for an unknown name resolves to nothing iff no 256th type is live |
| SurfaceCache.CacheNameInjective | src/gfx/surface_cacher.cc:81-88 | different parameters never share a cache entry |
| SurfaceCache.PurgeHarmlessIff | src/gfx/surface_cacher.cc:181-206 | a purge of any cacher, with the purges its destructors start, leaves every entry with references alone iff no entry called "" has some or nothing is to be erased |
| SurfaceCache.PurgeDeletesHeld | src/gfx/surface_cacher.cc:181-206 | a concrete purge that deletes the surface of the entry called "" while it is held |
| SurfaceCache.EraseAlone | src/gfx/surface_cacher.h:46-60 | without an entry of that name the destructor of an erased entry changes nothing else |
| SurfaceCache.EraseKeeps | src/gfx/surface_cacher.cc:181-206 | erasing an entry without references keeps names and counts right |
| SurfaceCache.MemUsedIsTotalIff | src/gfx/surface_cacher.cc:67-78 | MemUsed is the total size of the cached surfaces iff the sizes of add_surface_mem come to nothing modulo 2^32 |
| SurfaceCache.SurfaceCacher.ConditionalPurge | src/gfx/surface_cacher.cc:181-206 | the result is that of the purge over the map in some order: only entries without references go, no more than needed, until memory is below the limit or none is left |
| SurfaceCache.SurfaceCacher.FreeSurface | src/gfx/surface_cacher.cc:151-157 | one reference is released, if there is one, and a purge follows; a surface that is not cached changes nothing |
| SurfaceCache.SurfaceCacher.FreeByName | src/gfx/surface_cacher.cc:131-140 | the same by name |
| SurfaceCache.SurfaceCacher.Purge | src/gfx/surface_cacher.cc:173-178 | exactly the entries with references remain, unchanged |
| SurfaceCache.SurfaceCacher.SetMaxMem | src/gfx/surface_cacher.h:219-223 | the limit is set and enforced |
| SurfaceCache.SurfaceCacher.GetSurfaceMem | src/gfx/surface_cacher.cc:52-64 | one more reference to a cached surface, or nothing |
| SurfaceCache.SurfaceCacher.AddSurfaceMem | src/gfx/surface_cacher.cc:67-78 | the surface is cached with one reference, survives the purges on the way, and is not counted |
| SurfaceCache.SurfaceCacher.GetSurface | src/gfx/surface_cacher.cc:81-118 | the surface cached under the name of exactly these parameters, found or loaded, with the reference returned counted; a loaded one is counted in MemUsed |
| SurfaceCache.SurfaceCacher.GetSurfaceOnly | src/gfx/surface_cacher.cc:121-128 | the bare surface handed out is the one cached under the name of exactly these parameters, and counts as one reference |
| Utf8.ToUtf32 | src/base/utf8.cc:88-152 | code point and iterator are those of the decoding function, malformed and cut-off text included |
| Utf8.DecodeEncode | src/base/utf8.cc:88-152 | at the start of an encoded character decoding yields its code point and consumes exactly its bytes |
| Utf8.RightEncode | src/base/utf8.cc:188-219 | right is the length of the character that starts there |
| Utf8.LeftEncode | src/base/utf8.cc:155-185 | left is the length of the character that ends there |
| Utf8.DecodeAny | src/base/utf8.cc:88-152 | of any bytes, malformed or cut off: a byte that starts no character, and a character whose next byte does not follow, are a question mark, the offending byte consumed; otherwise all bytes announced or left are consumed |
| Utf8.RightAny | src/base/utf8.cc:188-219 | over any bytes, right is what the byte there announces, at most what is left, and 0 for one that starts no character |
| Utf8.LeftAny | src/base/utf8.cc:155-185 | over any bytes, left is the shortest character announced that ends there, or one byte |
| Utf8.FromUtf16BasicIff | src/base/utf8.cc:36-86 | a character of the basic plane is converted correctly iff it is in U+0001 to U+07FF |
| Utf8.FromUtf16Bytes | src/base/utf8.cc:36-86 | what is emitted instead: nothing for U+0000, three bytes without bits 6 to 11 from U+0800 on |
| Utf8.FromUtf16PairIff | src/base/utf8.cc:36-86 | a surrogate pair is converted correctly iff its high half is the first one |
| Textboxes.StepsAtBoundary | src/base/utf8.cc:155-219 | at a character boundary right and left lead to the neighbouring boundaries |
| Textboxes.LeftUndoesRight | src/base/utf8.cc:155-219 | stepping right and then left, or left and then right, returns to the same place |
| Textboxes.DecodesAtBoundary | src/base/utf8.cc:88-219 | decoding at a boundary yields the code point there and consumes what right spans |
| Textboxes.Textbox.Keydown | src/gui/textbox.cc:86-153 | text, position and result after each key, a position behind the text included: one step, one character erased, either end, or nothing |
| Textboxes.Textbox.Input | src/gui/textbox.cc:155-161 | the typed text is inserted at the position, which moves behind it |
| Textboxes.KeyRefines | src/gui/textbox.cc:86-153 | every key does to the bytes what it does to the list of code points |
| Textboxes.InputRefines | src/gui/textbox.cc:155-161 | typing inserts the same code points at the same place |
| Textboxes.SessionRefines | src/gui/textbox.cc:86-161 | over any session the text stays well-formed and the position on a boundary: the text box is an editor over code points |
| Textboxes.SessionFromEmpty | src/gui/textbox.cc:86-161 | and so is one that starts out empty |

## Left out

- XML as text: libxml2, files, directories, zlib and the checksum attribute; the model starts at parser events and
  document elements.
- Float and double fields: their text form is that of the C library. Such fields are stored and parsed, but have no
  text.
- `long` and `unsigned long` are taken to be 64 bits wide.
- Flats.Flat.Parse: takes buffers that are whole records. Excluded are blocks that run past the end, of which the source
  reads the header out of bounds or lists a content longer than the buffer without reading it, and integers of a
  foreign record that are narrower than their type, where the swap changes bytes of the block behind.
- Flats.Flat.Put: does not model that the decoded list of an earlier parse points into the buffer that growing
  frees; the list holds values here. Puts whose growth loop does not end, or passes a capacity smaller than the
  content, which grow then copies out of bounds, are excluded; `Growth` says exactly which these are. So are puts that
  take a record to 2^32 bytes or more, where the sum in the loop's condition wraps around.
- Flats.PutAndGet: is about a record in host order; what a put into a foreign one leads to is
  `Record.PutIntoForeignRecord`.
- XmlReader.SaxParser.DataEndElement: takes values with a defined conversion and lists that are not the last
  context; the source has no defined behaviour otherwise.
- GameDate.Date.Update: takes runs in which the second counter does not overflow a u_int32 and every raise ends. Ticks
  and Scale are real numbers, so that rounding of float and double is not modelled.
- TimeRun.FiresExactlyAtHits: takes listeners whose alarm, as long as they wait for one, is the next of its grid below
  2^32; `CatchUps.CaughtUpIff` says exactly when it is. So do all results that rest on it, for the listener they are
  about and not for the others in the queue.
- TimeEvents.TimeEventManager.RaiseEvent: callbacks are a log of calls; one that registers, pauses, retimes or deletes
  listeners during a raise is not modelled.
- TimeEvents.Listener.DoRepeat: is given the current time instead of asking the clock.
- Factories.Manager.Add: the list of a manager is a multiset, as the order of equal listeners is the concern of
  `TimeEvents`.
- Factories.Manager.Remove: the manager exists; for an event whose type is not registered the source leaves the
  Registered flag alone.
- FactoryFile.Factory.PutState: listeners are values with their event, so that aliasing between listeners is not
  modelled; every listener has a time event, and the record of the listeners has at most 2^31 bytes, which is all its
  default capacity can grow to.
- FactoryState.EventRestored: what an event of another type than time events makes of the fields it reads, such as
  looking up a character or a zone, is not modelled; if one is missing the listener fails, whichever are read after it.
  A registered type is the list of names its events read, taken by name instead of through `EventTypes.Registry`.
- FactoryFile.Factory.GetState: Python listeners, records that cannot be read, and registering a listener without an
  event, which dereferences null, have no modelled outcome.
- FactoryState.FactoryRestored: the typed get functions take a content narrower than its type as missing, where the
  source reads past it.
- The factory's destructor and `clear`, which only hand listeners over to be destroyed by the managers.
- SurfaceCache.PurgeHarmlessIff: an iterator of an outer purge whose entry a nested one erased, which dangles in the
  source, goes on behind that entry.
- SurfaceCache.SurfaceCacher.AddSurfaceMem: takes a name and a surface that are not cached yet and a name that is not
  empty.
- SurfaceCache.SurfaceCacher.ConditionalPurge: takes a cache without an entry called "", and leaves open which entries
  without references go first; the source goes by name. Sizes do not change while cached, counts do not overflow, and
  time stamps are left out.
- DrawLine.Surface.DrawLine: its two loops are methods of their own; the result is the order of the pixels, not their
  colour.
- DrawLine.ClippedLine: the clip area is the one computed before the first pixel, as in the source.
- AreaChain.Area.SetupRects: takes a chain without a cycle; on a cycle the source does not end.
- Textboxes.Textbox.Keydown: takes positions behind the text only for the keys that do not read in front of them, and no
  negative ones. `label::set_string` and drawing are left out.
- Utf8.FromUtf16BasicIff: a pending surrogate followed by anything but its other half has no result, as the source
  returns a buffer it did not write.
- Listeners: alarm, pause count and saved form are modelled with the component that uses them (`TimeEvents`,
  `Factory`, `FactoryState`), not as one object with all three; `PausedTime` joins the first two on values.
- EventTypes.Types.RegisterType: managers and creator functions are opaque numbers.
- Moving, resizing, growing and shrinking of areas, accessors, date arithmetic (day, hour, weekday), fonts, layout,
  audio, input tables, Python bindings: easy members or I/O.
