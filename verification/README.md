# Verified models of an embedded C/C++ library

The repository is a collection of drivers and algorithms for small devices. This project models the
parts of it whose behaviour is hard to see from the code, and proves what they do for every input, every
run and every behaviour of the device at the other end:

- **1-Wire ROM search** (`Words`, `RomOrder`, `SearchMarkers`, `OneWireSearch`). `SearchSensors` walks the
  tree of colliding device addresses with three machine words. The bus is a set of 64-bit ROMs with the
  subset that is still selected; the line is the AND of its drivers. The procedure is that of Maxim
  Application Note 187.
- **Bit-banged I2C master** (`I2cWire`, `I2cGpio`, `I2cRuns`). The two lines are a trace of levels, the slave
  is an arbitrary function of what it has seen, and an independent decoder (NXP UM10204, sections 3.1.3
  to 3.1.6 and 3.1.10) says which transfer the trace shows.
- **Circle rasteriser and window walker** (`CircleArc`, `CircleFits`, `CircleWords`, `Framebuffer`).
- **Two databases in a byte buffer**: `simple_db` (`Bytes`, `DbRecords`, `SimpleDb`, `SimpleDbRuns`) and
  `HashDB` (`HashDb`), both refined to finite maps.
- **Checksums** (`Crc32`, `Crc8`, `Fletcher`): table against bit-serial register, error detection, and sums
  that are reduced only now and then.
- **State machines over whole runs**: the serial receiver `plbus` (`Plbus`, `PlbusRuns`), the stepper queue under two
  interrupts (`Stepper`), and `StateMachine::Machine` (`StateMachine`).
- **Lines and tables of text** (`TextLines`, `CsvTable`) and **filters** (`WindowFilters`, `Kalman`).

`dafny verify dfyconfig.toml` checks everything. Objects that the source updates in place are classes here;
ghost parameters such as the list of records say what a buffer means and are not part of the operation.

## What the proofs found

These promises do not hold of the code as it is; each has its exact condition below.

- ROM search: the marker words have as many bits as `unsigned long`. With 32 bits, 34 devices are enough to
  make the search report one device and miss the others (`MarkerOverrun`); it is correct exactly when no
  device before the last wanted one meets more collisions than a word has bits (`SearchExact`).
- I2C: after a read of zero bytes the slave may still be driving SDA, so that the STOP does not appear on the
  wire and every later call returns -EBUSY. No other call can do this, whatever the slave does (`RunCalls`,
  `ZeroReadHangs`).
- Circle: all values stay within 16 bits exactly for radii up to 10936 and from 10942 to 10947 (`FitsExactly`).
  An overflow in the middle of a turn does no harm, because the stores wrap around; the circle is drawn
  exactly for radii up to 11002, and from 11003 on the loop leaves it or does not end (`DrawnExactly`).
- Window: `SetWindow` does not reset the column counter. After an unfinished fill the next window goes on in
  the column where that one stopped, and so does every later one; its pixels are in their places exactly when
  the counter is 0, or the window is empty, one pixel wide or as wide as the screen (`FlushWindow`,
  `SlotsRight`, `StaleDiffers`).
- `simple_db`: a search does not go past an entry with an empty tag, so an entry can be read back after it was
  written exactly when no such entry was there before (`LookupAppended`, `WriteThenRead`).
- `db_delete` takes out as many bytes as the entry has elements, in 16-bit arithmetic; it removes the entry
  and nothing else exactly for entries of one-byte elements (or no data) whose whole record is shorter than
  65536 bytes (`DeleteOutcome`, `WriteThenDelete`).
- `HashDB`: rewriting a key in place keeps the chain exactly when the size stays the same (`Replaced`), and it
  is refused when there is no room for another entry (`RunWrites`).
- `plbus`: a frame counts as complete modulo 65536 bytes: it has exactly 8 + size bytes if and only if the
  counter has not wrapped around (`CompleteFrame`), and the token with 65543 zero bytes is such a frame that is
  not complete (`WrappedFrame`). Both checksums cover four bytes beyond the payload, which are not
  transmitted (`Transfer`). A receiver that has counted past the end of its frame ignores everything until the
  counter wraps around (`Deaf`). After a complete frame the next one is received if and only if the first was
  polled before the next byte came, was for this receiver, and passed its checksum (`NextFrame`); of a stream,
  exactly the frames before the first bad one are delivered (`Receive`).
- `stepper`: a phase of zero steps runs for a full turn of the counter; the requested number of steps is made
  exactly when no phase is empty (`PlanLength`, `PlanAllLength`, `Deliver`). A finished task stays at the head of
  the queue with its counters at zero; after another task is added, `stepper_run` makes 3 * 65536 steps before
  those of the new task (`FinishThenAdd`). The steps owed are those of the new task exactly when the queue was
  empty, as after `stepper_clean_tasks` (`AddAndRun`).
- `splitString` drops the last character of the last field, whatever it is. That is the line break in an
  LF file; with CR LF line endings the CR stays in the last field (`SplitExact`, `SplitOfPrint`).

Where the comments and the code disagree, the model follows the code: `devices_found` of `SearchSensors` is
tested for null and then dereferenced anyway, so it is always present here; `crc32` starts from 0, not from
all ones; `db_get_nof_tags` counts up to a record tagged `DEADBEEF`, if there is one; the comment in `plbus`
that the checksum covers size and error value is not what is computed.

## Model

| member | source | states |
|---|---|---|
| SearchMarkers.SearchExact | Common/DS18B20.cpp:125-184 | for every set of ROMs, word width and table size: the search returns the first min(number of devices, max_devices) ROMs in LSB-first order if and only if no ROM before the last wanted one meets more collisions than a marker word has bits |
| SearchMarkers.SmallBusSuffices | Common/DS18B20.cpp:125-184 | a bus with at most one device more than a marker word has bits is always searched completely |
| SearchMarkers.WideWordsSuffice | Common/DS18B20.cpp:125-184 | with marker words of 64 bits every bus is searched completely |
| SearchMarkers.MarkerOverrun | Common/DS18B20.cpp:155-163 | for every word width below 64 there is a bus with exactly width + 2 devices, one more than always suffices, on which only the all-zero ROM is reported |
| SearchMarkers.NextZeroIffLast | Common/DS18B20.cpp:158-173 | after a pass, next is 0 if and only if the ROM just found is the greatest one on the bus |
| SearchMarkers.CleanPass | Common/DS18B20.cpp:142-177 | a pass whose collisions fit the marker word leads to the immediate successor, or ends the search at the last device |
| SearchMarkers.OverrunPass | Common/DS18B20.cpp:155-177 | a pass with more collisions than marker bits leaves next equal to path: it is repeated, or ends the search when the path was 0 |
| SearchMarkers.PassAdvances | Common/DS18B20.cpp:173-177 | the loop continues exactly while the predicted result has more entries, for both kinds of passes |
| SearchMarkers.CollisionBit | Common/DS18B20.cpp:155-163 | at a collision the marker test gives the address bit of the ROM being followed, and next, pos again encode the decisions taken so far |
| SearchMarkers.QuietBit | Common/DS18B20.cpp:153-165 | without a collision the markers stay valid and the selected devices are those that share one more bit |
| RomOrder.Successor | Common/DS18B20.cpp:158-161 | turning the last 0 decision of a ROM into a 1 and dropping the later ones gives the decisions of its immediate successor in the order |
| RomOrder.CollisionsBounded | Common/DS18B20.cpp:144-171 | collisions met plus devices still selected never exceed the number of devices, so a pass meets at most n - 1 collisions |
| RomOrder.SortedLists | Common/DS18B20.cpp:125-184 | every set of ROMs has a strictly increasing listing, the reference that the search is compared with |
| OneWireSearch.PackByteBits | Common/DS18B20.cpp:146-169 | bit k of a stored byte is set if and only if it was among the bits stored so far and the ROM has it |
| OneWireSearch.PackInjective | Common/DS18B20.cpp:146-169 | the eight stored bytes determine the ROM |
| OneWireSearch.OneWireBus.Reset | Common/DS18B20.cpp:137-139 | a reset selects all devices and fails exactly on an empty bus |
| OneWireSearch.OneWireBus.ReadBit | Common/DS18B20.cpp:153-154 | two reads give the AND of the selected devices' bits, then of their complements |
| OneWireSearch.OneWireBus.WriteBit | Common/DS18B20.cpp:165 | a written bit deselects the devices that disagree |
| OneWireSearch.DS18B20Multi.FollowBit | Common/DS18B20.cpp:153-165 | one bit of a pass: the bit written is that of the ROM being followed, and the markers keep their meaning |
| OneWireSearch.DS18B20Multi.StoreBit | Common/DS18B20.cpp:168-169 | one more bit of the byte is stored and no other table entry changes |
| OneWireSearch.DS18B20Multi.SearchByte | Common/DS18B20.cpp:146-170 | a byte of the ROM is stored, all others stay |
| OneWireSearch.DS18B20Multi.SearchPass | Common/DS18B20.cpp:137-171 | a pass ends with exactly one device selected, whose ROM is the one stored; next encodes the decisions that follow it |
| OneWireSearch.DS18B20Multi.SearchSensors | Common/DS18B20.cpp:125-184 | the search terminates with exactly the predicted ROMs in the table, in order, which are the first min(number of devices, max_devices) ROMs if and only if the marker words suffice; it reports NoDevice, Success or NotAllDevicesFound accordingly and leaves unused rows alone |
| I2cWire.Pulse | Common/I2C_GPIO.cpp:98-101 | one clock pulse shows the decoder exactly the bit that is on SDA |
| I2cWire.MakeStart | Common/I2C_GPIO.cpp:59-62 | SDA falling while SCL is high decodes as START |
| I2cWire.MakeStop | Common/I2C_GPIO.cpp:79-84 | the stop sequence decodes as STOP if the slave lets go of SDA, otherwise the lines stay hung |
| I2cGpio.BitsDetermineByte | Common/I2C_GPIO.cpp:89-103 | the eight bits on the wire determine the byte |
| I2cGpio.AddressBits | Common/I2C_GPIO.cpp:184 | the address bytes show the lower seven bits of the address, most significant first, and then the direction |
| I2cGpio.WriteOpens | Common/I2C_GPIO.cpp:182-184 | every decoded write transfer opens with START and these seven address bits and a 0 |
| I2cGpio.ReadOpens | Common/I2C_GPIO.cpp:247-252 | so does every decoded read transfer, which goes on with START, the address bits and a 1 once the register bytes are acknowledged |
| I2cGpio.I2cMaster.StartCondition | Common/I2C_GPIO.cpp:49-64 | -EBUSY if and only if a line is held low, and then nothing happened on the wire; otherwise one START |
| I2cGpio.I2cMaster.RepeatStartCondition | Common/I2C_GPIO.cpp:66-75 | the decoder sees a START within the transfer and no STOP |
| I2cGpio.I2cMaster.StopCondition | Common/I2C_GPIO.cpp:77-85 | one STOP and free lines, unless the slave keeps SDA low |
| I2cGpio.I2cMaster.WriteByte | Common/I2C_GPIO.cpp:87-114 | the decoder sees one frame with the bits of the byte, MSB first, acknowledged if and only if 0 is returned |
| I2cGpio.I2cMaster.ReadByte | Common/I2C_GPIO.cpp:116-146 | the byte returned is the one the decoder sees, with the requested acknowledge; SDA is released after a NACK |
| I2cGpio.I2cMaster.WriteMany | Common/I2C_GPIO.cpp:172-180 | the bytes appear up to and including the first one refused; -EIO if and only if there is one |
| I2cGpio.I2cMaster.ReadMany | Common/I2C_GPIO.cpp:237-245 | exactly the slave's bytes are stored; all but the last are acknowledged |
| I2cGpio.I2cMaster.Begin | Common/I2C_GPIO.cpp:182-185 | START, address with W and register bytes up to the first refusal |
| I2cGpio.I2cMaster.Write | Common/I2C_GPIO.cpp:148-195 | for every slave the trace decodes to START, a frame with the seven address bits and a 0, the bytes up to and including the first NACK, STOP; the result is 0 if and only if all were acknowledged, -EIO on a NACK, -EBUSY with nothing on the wire |
| I2cGpio.I2cMaster.Continue | Common/I2C_GPIO.cpp:251-253 | repeated START, address with R, then the data if it was acknowledged; the buffer stays unchanged otherwise |
| I2cGpio.I2cMaster.Read | Common/I2C_GPIO.cpp:197-262 | for every slave the trace decodes to the write part, a repeated START, a frame with the seven address bits and a 1, and the slave's bytes, then STOP; the STOP can be missing only after an acknowledged read of zero bytes |
| I2cRuns.ScanWriteTransfer | Common/I2C_GPIO.cpp:182-189 | a write transfer, complete or refused, is one START closed by one STOP |
| I2cRuns.ScanReadTransfer | Common/I2C_GPIO.cpp:247-256 | a read transfer, complete or refused, is closed if and only if the slave released SDA |
| I2cRuns.RunCall | Common/I2C_GPIO.cpp:148-262 | a call keeps the wire a sequence of closed transfers; only a read of zero bytes can leave it open |
| I2cRuns.RunCalls | Common/I2C_GPIO.cpp:148-262 | over any sequence of calls: both lines are released at every return, all transfers are well formed and closed, up to a read of zero bytes that hangs; from then on every call is -EBUSY |
| I2cRuns.ZeroReadHangs | Common/I2C_GPIO.cpp:237-256 | for every address and register there is a slave on which a read of zero bytes reports success and the next call reports -EBUSY |
| CircleArc.StaysOnArc | Linux/framebuffer.c:141-146 | the squared distance from the circle stays within the larger coordinate, from turn to turn |
| CircleArc.ErrorFollows | Linux/framebuffer.c:142-146 | the updates keep err equal to (x+1)^2 + (y+1)^2 - r^2 |
| CircleArc.WithinRadius | Linux/framebuffer.c:133-148 | y never exceeds r |
| CircleArc.ClosesAtTop | Linux/framebuffer.c:146-147 | when x is 0 the arc is exactly at (0, r) |
| CircleArc.NoCorner | Linux/framebuffer.c:142-146 | two turns in a row never lead where one diagonal turn does: the arc is thin, which is what the test for the diagonal is for |
| CircleArc.ReachesTop | Linux/framebuffer.c:136-147 | for every radius the walk, with unbounded numbers, ends at (0, r) |
| CircleArc.WalkIsArc | Linux/framebuffer.c:133-148 | the walk from (-r, 0) to its end is an 8-connected arc without corners that ends at (0, r) and deviates from the circle by at most r in squares |
| CircleArc.EntersRow | Linux/framebuffer.c:142-143 | for every radius and row: the walk steps into the row not later than in the last column at which it may |
| CircleArc.ArcMeetsAll | Linux/framebuffer.c:133-148 | the arc has no gap: it meets every row and every column of its quadrant |
| CircleFits.RowFits | Linux/framebuffer.c:142-143 | for a harmless radius the step into a row keeps err within 16 bits, because no square lies where it would have to |
| CircleFits.TurnFits | Linux/framebuffer.c:135-146 | for a harmless radius no value of x, y or err leaves 16 bits, in the middle of a turn included |
| CircleFits.Overflow | Linux/framebuffer.c:142-143 | for every other radius the walk has a turn in which err leaves 16 bits |
| CircleFits.FitsExactly | Linux/framebuffer.c:133-148 | all values of all turns fit 16 bits if and only if r is at most 10936 or from 10942 to 10947 |
| CircleWords.TurnedExactly | Linux/framebuffer.c:141-146 | with err in range at its head, a turn with wrapping stores ends where the unbounded one does |
| CircleWords.NextHeadFits | Linux/framebuffer.c:141-147 | up to radius 11002, err is in range again whenever the loop goes on |
| CircleWords.DrawsWalk | Linux/framebuffer.c:133-148 | up to radius 11002 the loop ends and draws exactly the points of the unbounded walk |
| CircleWords.BadHead | Linux/framebuffer.c:141-147 | an err out of range at the head of a turn sends the loop to a point off the circle |
| CircleWords.TooSmall | Linux/framebuffer.c:141-147 | for radii from 11003 to 11025 err is too small in the second column |
| CircleWords.TooLarge | Linux/framebuffer.c:141-147 | for radii from 11026 on err is too large in the top row |
| CircleWords.DrawnExactly | Linux/framebuffer.c:133-148 | with wrapping stores, for every radius from 0 to 32767: the loop ends and its points are an arc if and only if r is at most 11002; the arc is then thin |
| CircleWords.TurningTurns | Linux/framebuffer.c:136-147 | each turn comes closer to the end or completes the drawing, which for a negative radius is after one turn |
| Framebuffer.Screen.DrawPixel32 | Linux/framebuffer.c:112-115 | exactly the pixel at these coordinates changes |
| Framebuffer.Screen.DrawMirrored | Linux/framebuffer.c:137-140 | exactly the pixels whose mirrored offset is this one change |
| Framebuffer.Screen.CircleStep | Linux/framebuffer.c:141-146 | the statements with their 16-bit variables are the turn with wrapping stores, for all values |
| Framebuffer.Screen.CircleTurn | Linux/framebuffer.c:136-147 | a turn paints the mirror images of its point and either comes closer to the end or completes the drawing |
| Framebuffer.Screen.DrawCircle32 | Linux/framebuffer.c:133-148 | terminates; for r from 0 to 11002 the painted pixels are exactly the mirror images of the walk, a thin 8-connected arc from (-r, 0) to (0, r) whose points deviate from the circle by at most r in squares; for a negative r they are the two points on the horizontal axis; nothing else changes |
| Framebuffer.Screen.SetWindow | Linux/framebuffer.c:77-82 | the window pointer and width are set and the column counter is not |
| Framebuffer.Screen.FillWindow | Linux/framebuffer.c:84-96 | one pixel is written; the pointer goes on in the row or to the next row of the window |
| Framebuffer.Screen.FlushWindow | Linux/framebuffer.c:98-103 | from every state of the column counter: the pixels go to their slots and nothing else changes, the counter comes back to the column it started in; the picture is shown in its rectangle when the counter is 0 or the width makes it irrelevant |
| Framebuffer.Screen.SlotNext | Linux/framebuffer.c:88-95 | how the pointer moves from one pixel to the next |
| Framebuffer.Screen.SlotsRight | Linux/framebuffer.c:77-103 | the slots are those of a window from column 0 if and only if the counter is 0, the window is empty or one pixel wide, or it is as wide as the screen |
| Framebuffer.Screen.PlacedShows | Linux/framebuffer.c:98-110 | pixels in the slots of a window from column 0 show the picture as DrawPic32 does |
| Framebuffer.Screen.StaleDiffers | Linux/framebuffer.c:77-103 | otherwise every picture of new and distinct colors is shown wrong |
| Framebuffer.Screen.DrawPic32 | Linux/framebuffer.c:105-110 | the two-dimensional loops show the picture in its rectangle and leave everything else |
| Framebuffer.Screen.PictureDetermined | Linux/framebuffer.c:98-110 | there is one such buffer, so FlushWindow and DrawPic32 write the same |
| Framebuffer.Screen.ShowsNext | Linux/framebuffer.c:98-110 | pixel number sx * row + col of the picture belongs to (x0 + col, y0 + row) |
| SimpleDb.Appended | Common/simple_db.c:91-120 | writing the bytes of a record at the end gives a buffer with this record added and all others kept |
| SimpleDb.Removed | Common/simple_db.c:278-283 | closing the gap of a record gives a buffer with exactly the other records |
| DbRecords.FreshBuffer | Common/simple_db.c:66-71 | a buffer of zeros and an erased one hold no record, and the first record goes to position 8 |
| DbRecords.FindsFirst | Common/simple_db.c:28-46 | without empty tags a search finds the first record with the tag and looks at all records before it |
| SimpleDb.DeletedBytesExact | Common/simple_db.c:274-276 | the number of bytes taken out is never too large, and is the length of the record if and only if its elements are bytes (or it is empty) and it is shorter than 65536 |
| SimpleDb.DeleteOutcome | Common/simple_db.c:263-286 | the buffer after a delete holds exactly the other records if and only if the record deletes cleanly |
| SimpleDb.LookupAppended | Common/simple_db.c:82-123 | an added record is found under its tag if and only if no record before it has an empty tag; no other look-up changes |
| SimpleDb.LookupRemoved | Common/simple_db.c:263-286 | a removed record changes the look-up of its own tag only |
| SimpleDb.Database.UpdateDb | Common/simple_db.c:6-14 | the header holds the size and, with a checksum function, the checksum of the records; the records stay |
| SimpleDb.Database.FindData | Common/simple_db.c:16-49 | finds the position of the record of a tag or returns 0, and counts the records looked at, for empty tags too |
| SimpleDb.Database.Locate | Common/simple_db.c:157-172 | the type and size fields behind the tag are those of the record |
| SimpleDb.Database.Write | Common/simple_db.c:82-123 | DB_TagExist with nothing changed if the tag is there; otherwise a record with 4, 2 or 1 bytes per element, counted in 16 bits, is added and the header is valid |
| SimpleDb.Database.StoreRecord | Common/simple_db.c:94-116 | the pieces written one after the other are the encoding of the record, and no other byte changes |
| SimpleDb.Database.Overwrite | Common/simple_db.c:134-143 | the old record is replaced by the new one at the end, all others kept; refused when the delete uncovers a second record with the tag |
| SimpleDb.Database.Read | Common/simple_db.c:152-183 | the bytes stored under the tag and a quarter, half or all of their number by type, or 0 |
| SimpleDb.Database.GetType | Common/simple_db.c:191-205 | the stored type, or DB_TypeError |
| SimpleDb.Database.GetEntrySize | Common/simple_db.c:213-241 | a quarter, half or all of the number of stored bytes by type, or 0 |
| SimpleDb.Database.GetNofTags | Common/simple_db.c:292-298 | the number of records, counted up to a record with an empty tag or tagged DEADBEEF |
| SimpleDb.Database.Validate | Common/simple_db.c:248-254 | success if and only if there is a checksum function, and the header holds a used size and the checksum of the records |
| SimpleDb.Database.Delete | Common/simple_db.c:263-286 | DB_TagNotFound with nothing changed; otherwise exactly the other records remain if and only if the record deletes cleanly, and the header is valid in any case, for db_validate too |
| SimpleDbRuns.RunOp | Common/simple_db.c:82-143 | one operation does to the records what it does to a finite map, and its result code is given by membership in the map; a refused one changes no byte |
| SimpleDbRuns.RunOps | Common/simple_db.c:6-286 | over any run of writes, overwrites and deletes on a large enough buffer, in which tags are not empty and only cleanly deletable entries are deleted or replaced, the records are the finite map of the operations, every result code is that of the map, and the header is valid from the first success on, also from a blank buffer |
| SimpleDbRuns.RunAndValidate | Common/simple_db.c:248-254 | db_validate succeeds after every such run in which some operation succeeded, if there is a checksum function |
| SimpleDbRuns.WriteThenRead | Common/simple_db.c:82-183 | what was written is read back if and only if no entry with an empty tag was there before; it is reported with as many elements if and only if their bytes can be counted in 16 bits |
| SimpleDbRuns.WriteThenDelete | Common/simple_db.c:263-286 | deleting what was just written restores the records if and only if the entry deletes cleanly; a 16-bit value leaves a stray byte |
| HashDb.Appended | Common/hash_db.cpp:95-106 | a new entry extends the chain up to the new used size |
| HashDb.EntryThere | Common/hash_db.cpp:81-87 | an entry holds its key, its size and its data, in this order |
| HashDb.Replaced | Common/hash_db.cpp:95-109 | an in-place rewrite keeps the chain if and only if the size is unchanged |
| HashDb.LookupAppended | Common/hash_db.cpp:74-109 | a new entry changes the look-up of its key only |
| HashDb.LookupReplaced | Common/hash_db.cpp:74-109 | a rewritten entry changes the look-up of its key only |
| HashDb.HashDB.constructor | Common/hash_db.cpp:57-72 | a database with its name and an empty chain |
| HashDb.HashDB.Walk | Common/hash_db.cpp:76-88 | the walk ends at the entry with the key, or at the used size |
| HashDb.HashDB.Write | Common/hash_db.cpp:74-109 | ENOSPC exactly when a new entry would not fit (for rewrites too), with no byte changed; otherwise the entry is added and the used size grows by it, or it is rewritten with the chain intact if and only if the size is the same |
| HashDb.HashDB.StoreEntry | Common/hash_db.cpp:95-103 | key, size and data are placed as the encoding of the entry |
| HashDb.HashDB.Read | Common/hash_db.cpp:111-131 | ENOENT, EINVAL or the stored bytes, exactly by presence and size |
| HashDb.RunWrite | Common/hash_db.cpp:74-109 | one write does to the chain and its used size what it does to a finite map with a size |
| HashDb.RunWrites | Common/hash_db.cpp:74-131 | over any run of writes with one size per key, the chain stays well formed within the memory and holds the last successful write of every key; every result code is determined by the size that the earlier writes used |
| Crc32.RegisterJoin | Common/crc.c:127-134 | the register composes over concatenation |
| Crc32.ByteIsBits | Common/crc.c:131-132 | a byte entered at once and shifted eight times is its eight bits taken one by one, the lowest first |
| Crc32.RegisterIsSerial | Common/crc.c:127-134 | over a whole message the register is the bit-serial one for polynomial 0xEDB88320 |
| Crc32.OneByteDetected | Common/crc.c:127-134 | messages of one length that differ in exactly one byte leave different registers |
| Crc32.ChecksumsDiffer | Common/crc.c:127-134 | so their checksums differ |
| Crc32.ByteStepLinear | Common/crc.c:131-132 | eight bit steps are linear over exclusive or |
| Crc32.TableCombined | Common/crc.c:48-91 | all 256 table entries are the exclusive or of the eight one-bit entries that their index selects |
| Crc32.LookupIsEightSteps | Common/crc.c:131-132 | one table look-up equals eight steps of the bit-serial register for polynomial 0xEDB88320 |
| Crc32.Crc32 | Common/crc.c:127-134 | for every buffer the table-driven checksum is the complement of the bit-serial register, started from 0, after all bits of the message, low bit of each byte first |
| Crc8.Crc8Dallas | Common/crc.c:145-156 | the nested loops compute the bit-serial register for 0x8C, started from 0, after all bits of the message, low bit of each byte first |
| Crc8.RegisterIsSerial | Common/crc.c:145-156 | byte by byte the register is the bit-serial one |
| Crc8.OneByteDetected | Common/crc.c:145-156 | messages of one length that differ in exactly one byte have different checksums, for every length |
| Crc8.OwnChecksum | Common/crc.c:145-156 | a message followed by one byte has checksum 0 if and only if that byte is the checksum of the message |
| Crc8.ReadScratchpad | Common/DS18B20.cpp:109-121 | CrcMissmatch if and only if the checksum is not 0; otherwise the raw value of the first two bytes, or NotReady |
| Crc8.CorruptionRejected | Common/DS18B20.cpp:109-113 | every corruption of a single byte of a valid scratchpad is rejected |
| Fletcher.Fletcher32 | Common/crc.c:171-193 | no 32-bit sum overflows; both halves lie in 1..65535 and are congruent modulo 65535 to the sum and to the position-weighted sum of all words |
| Fletcher.Block | Common/crc.c:177-187 | up to 360 words without a reduction keep both sums in 32 bits and congruent, and give the unbounded sums, reduced |
| Fletcher.SumOfSumsWeighted | Common/crc.c:182-183 | the running sum of sums weighs every word by its distance from the end |
| Fletcher.BlockIsLargest | Common/crc.c:177 | 360 is the largest block: the unbounded sum of 360 words 0xFFFF fits 32 bits and that of 361 does not |
| Fletcher.WorstRun | Common/crc.c:180-184 | the exact sums that the inner loop makes of n words 0xFFFF |
| Plbus.Receiver.Put | Common/plbus.c:113-130 | synchronises on the token, otherwise stores the byte if it fits; every stored byte is the newest with its index |
| Plbus.Receiver.Poll | Common/plbus.c:132-168 | accepts exactly complete frames for this address whose checksum agrees, with the payload they hold, and stores the callback's result in the error field; a checksum error is counted and changes nothing else |
| Plbus.Receiver.CompleteFrame | Common/plbus.c:140-142 | a complete frame is judged on the size field that came after its own token, and has exactly 8 + size bytes if and only if the 16-bit counter did not wrap |
| Plbus.Receiver.CompletePayload | Common/plbus.c:140-165 | the payload is what followed the header of this frame |
| Plbus.NotComplete | Common/plbus.c:140-142 | no proper prefix of a frame is taken for a whole one, whatever the buffer held before |
| Plbus.Send | Common/plbus.c:170-187 | the bytes transmitted are the frame of the data, with the checksum over the data and the four bytes behind it |
| Plbus.Feed | Common/plbus.c:113-142 | a frame put byte by byte, with any number of polls before each byte, is not accepted early and ends complete in the buffer |
| Plbus.Transfer | Common/plbus.c:113-187 | sent to an out-of-sync receiver under any interleaving of polls, exactly the data is delivered if and only if the address matches and both checksums, with the four bytes behind the payload, agree |
| Plbus.Deaf | Common/plbus.c:125-142 | a receiver that has counted past the end of its frame ignores all bytes under any polling until the counter wraps |
| Plbus.FramePolls | Common/plbus.c:132-159 | of several polls at a complete frame the first decides; synchronisation is kept unless the frame was delivered |
| Plbus.NextFrame | Common/plbus.c:113-168 | before the counter wraps, the frame after a complete frame is received if and only if that one was polled in time, was for this receiver and passed its checksum; otherwise every poll finds nothing |
| Plbus.WrappedFrame | Common/plbus.c:113-142 | the token and 65543 zero bytes are taken for a complete frame without payload, and accepted if and only if four zero bytes have checksum 0 |
| PlbusRuns.FeedOne | Common/plbus.c:113-168 | a frame to an out-of-sync receiver is delivered, and synchronisation given up, if and only if it is polled at its end, is for this receiver and its checksum agrees |
| PlbusRuns.DeafTo | Common/plbus.c:113-168 | a receiver still in sync after a frame delivers none of the frames that follow before the counter wraps |
| PlbusRuns.Receive | Common/plbus.c:113-168 | of any stream of frames, polled in any way, exactly the payloads before the first bad frame are delivered, in order; a stream of good frames is delivered completely, whatever its length |
| Stepper.PlanLength | Common/stepper.c:182-205 | a task makes 65536 steps for every empty phase and the requested ones for the others, so it makes exactly the requested number if and only if no phase is empty |
| Stepper.PlanInOrder | Common/stepper.c:182-205 | the steps come in the order acceleration, run, deceleration, each phase as long as requested |
| Stepper.PlanAllLength | Common/stepper.c:182-205 | the same for a whole queue |
| Stepper.FinishedPlan | Common/stepper.c:182-205 | a task with its counters at zero makes a full turn of the counter in each phase |
| Stepper.OwedStep | Common/stepper.c:182-205 | a rising edge is the first of the steps owed by the task |
| Stepper.AdvanceTakesNext | Common/stepper.c:182-205 | a rising edge takes exactly the next step off what the whole queue owes, over the change to the next task too |
| Stepper.Motor.AddTask | Common/stepper.c:92-106 | refused when the ramps leave no step to run; otherwise the task is appended with the split of its steps |
| Stepper.Motor.Run | Common/stepper.c:131-142 | starting an idle queue owes exactly the plan of all its tasks |
| Stepper.Motor.Isr1 | Common/stepper.c:169-209 | edges made plus steps owed stay the same sequence of phases; every second call makes an edge; the last edge leaves one finished task with its counters at zero |
| Stepper.Motor.Isr2 | Common/stepper.c:219-240 | a stop leaves nothing owed; without one the queue stays |
| Stepper.Motor.CleanTasks | Common/stepper.c:161-166 | empties the queue |
| Stepper.Motor.Interrupts | Common/stepper.c:169-247 | over any interleaving without stop the edges are exactly the owed phases in order, complete after two isr1 calls per step; a queue that owes nothing, as after a stop, never makes an edge again |
| Stepper.Deliver | Common/stepper.c:92-247 | requests queued on a motor without tasks, run under any long enough interleaving without stop, make exactly the phases of the accepted ones in order; the edges are as many as these asked for if and only if no accepted one has an empty ramp |
| Stepper.AddAndRun | Common/stepper.c:99-142 | a task added to a motor that owes nothing and started owes exactly its own steps if and only if the queue was empty; behind a finished task it waits for 3 * 65536 steps, behind a stopped one it does not start |
| Stepper.FinishThenAdd | Common/stepper.c:99-209 | every motor that has run its queue to the end is in that state: the next task waits for 3 * 65536 steps |
| StateMachine.Machine.FindStateByHash | Common/state_machine.cpp:95-103 | the first state with the hash, or none if and only if no state has it |
| StateMachine.Machine.DoStep | Common/state_machine.cpp:49-93 | a step makes exactly the calls that belong to it; it fails with -EINVAL if and only if the last of them returned the hash of no state, and then the current state stays; otherwise the next state is the one named last, and the trace stays within the protocol; the trailing exit block is never reached |
| StateMachine.Machine.WorkAndExit | Common/state_machine.cpp:63-92 | the same for the part of a step from work on |
| StateMachine.Machine.RunSteps | Common/state_machine.cpp:49-93 | for any number of steps and any callbacks: the run stops only at a callback that returned the hash of no state, and up to there the trace is within the protocol |
| StateMachine.WorkBetween | Common/state_machine.cpp:49-93 | in a trace within the protocol an enter is followed by an enter of the state it names, or by work on the same state; work goes on until it names a state, then comes one exit, then an enter of the state named by exit or, if exit is silent, by that work |
| TextLines.Open | Common/file_ops.cpp:374-408 | fails exactly on an empty file and on unequal numbers of CR and LF; otherwise determines the line ending and the line count |
| TextLines.LineEndIs | Common/file_ops.cpp:410-437 | a line ends after the first LF, or in CRLF mode one character after the first CR, or with the file |
| TextLines.LinesConcat | Common/file_ops.cpp:410-437 | the lines concatenate to the whole file, and none is empty |
| TextLines.LinesBounded | Common/file_ops.cpp:388-437 | there is at most one line more than line breaks |
| TextLines.LinesFit | Common/file_ops.cpp:439-452 | the vector of GetLineCount() entries is never exceeded, from any position on |
| TextLines.TextFile.ReadLine | Common/file_ops.cpp:410-437 | the next line with its line break, or nothing at the end of the file |
| TextLines.TextFile.ReadLines | Common/file_ops.cpp:439-452 | all remaining lines, then empty entries; together they are the rest of the file |
| CsvTable.SplitString | Common/file_ops.cpp:59-75 | the loop gives the comma-separated fields of the text without its last character, or of the whole text when that ends in a comma |
| CsvTable.SplitExact | Common/file_ops.cpp:59-75 | the substr arithmetic loses exactly the last character of a line, unless the line ends in a comma |
| CsvTable.FieldsOfJoin | Common/file_ops.cpp:59-75 | splitting at commas undoes joining with commas |
| CsvTable.SplitOfPrint | Common/file_ops.cpp:59-75 | a printed LF row splits into exactly its fields; a CR LF row never comes back, as the CR stays in the last field |
| CsvTable.LinesOfPrint | Common/file_ops.cpp:410-437 | the lines of a printed table are its rows with their line breaks, for LF and CR LF |
| CsvTable.Parse | Common/file_ops.cpp:478-509 | one row per line with the columns of that line, then empty rows up to GetLineCount() |
| CsvTable.RoundTrip | Common/file_ops.cpp:374-509 | parsing a printed table of fields without comma, CR and LF gives the table back, followed by one empty row; with CR LF the last field of each row keeps its CR |
| WindowFilters.RingStep | Common/filters.h:120-127 | overwriting the oldest cell and advancing the index keeps the ring equal to the last samples |
| WindowFilters.MovingAverageFilter.Update | Common/filters.h:118-130 | returns the mean of the last min(n, W) samples |
| WindowFilters.Averages | Common/filters.h:118-130 | the same for every output of every stream and window size |
| WindowFilters.MedianUnique | Common/filters.h:206-216 | the order-free definition of a median, by counting smaller and not larger elements, admits one value only |
| WindowFilters.MedianPermuted | Common/filters.h:206-216 | the median does not depend on the order in which the ring holds the samples |
| WindowFilters.LowerRank | Common/filters.h:214-216 | the maximum of the part before the middle has the rank just below the middle |
| WindowFilters.MedianOf | Common/filters.h:206-216 | partial ordering around the middle gives the median, for odd and even counts |
| WindowFilters.MedianFilter.Update | Common/filters.h:200-217 | returns the median of the last min(n, W) samples |
| WindowFilters.Medians | Common/filters.h:200-217 | the same for every output of every stream and window size |
| Kalman.GainBounds | Common/filters.h:86 | the gain lies strictly between 0 and 1 |
| Kalman.ErrorBounds | Common/filters.h:83-88 | the new error is the parallel combination of predicted error and measurement noise, strictly between 0 and either of them |
| Kalman.KalmanFilter.Update | Common/filters.h:80-91 | with predicted error p: the new estimate is the mean of the old one, weighted by R, and the measurement, weighted by p; the new error is p R / (p + R), in (0, R) |
| Kalman.EstimateInHull | Common/filters.h:80-91 | after any number of measurements the estimate lies in every interval that contains 0 and all of them |
| Kalman.Estimates | Common/filters.h:80-91 | a whole stream through the filter gives these estimates |
| Kalman.Contracts | Common/filters.h:83-88 | one update brings two errors closer by at least the factor R / (R + Q), keeping their order |
| Kalman.InitialErrorForgotten | Common/filters.h:83-88 | the influence of the initial error decays geometrically |

## Left out

- OneWireSearch.OneWireBus.Write: knows the SEARCH ROM command; the effect of other commands, bus timing and a device that appears or disappears during a search are not modelled.
- OneWireSearch.DS18B20Multi.SearchSensors: `max_devices` is 1 to 255, the range of the counter; the count it returns on a failed reset is 0, where the source leaves `*devices_found` alone.
- The rest of the DS18B20 driver: Init, StartConversion, MATCH ROM access and the conversion to float.
- I2cGpio.I2cMaster.Write: clock stretching during a transfer and the durations of DelayFunc are not modelled; a line held before a call is. The same holds for Read.
- Framebuffer.Screen.DrawCircle32: circles that lie on the screen; drawing past the edge writes to other rows or past the buffer.
- Framebuffer initialisation, fonts, lines, filled shapes and rectangles.
- Framebuffer.Screen.FlushWindow: the slots lie in the buffer, as the source has no bound to test against.
- SimpleDb.Database.Write: tags are shorter than 65536 bytes and the buffer has room, as the source has no bound to test against; the type field is one byte, as the layout comment says, and the copy in delete is one that allows overlap.
- SimpleDb.Database.Overwrite: stated for an old entry that deletes cleanly; what follows an unclean delete is bytes without a record structure.
- SimpleDb.Database.Validate: with a checksum function the used size is at least 8, since the source subtracts 8 from it without a test and would read 4 GB.
- HashDb.HashDB.Write: the sum of sizes is not taken modulo 2^32, which matters on 32-bit machines only for sizes near 2^32; allocation, destruction and the hashing of names are left out.
- The checksums crc16, crc8 and fletcher32_string: crc16 combines a reflected table with an update that is not, so there is no simple reference for it; it is a parameter in Plbus.
- Plbus.Receiver.Poll: the buffer must hold the checksum range of a frame that is complete and addressed to this receiver, which the source does not test.
- Plbus.Send: sender and receiver have separate buffers; sending from an object in the middle of a reception overwrites the received bytes.
- Stepper.Motor.AddTask: the ramp lengths are parameters instead of floating point; duty, speed and direction outputs are left out, counters are 16 bits wide, and the linked list is a sequence, so adding one task object twice is not captured.
- Stepper.Motor.Run: with an empty queue the source follows a null pointer; the model requires a task, and Deliver an accepted request.
- StateMachine.Machine.DoStep: user data is part of what the callbacks may depend on; the C variant of the machine is left out.
- TextLines.Open: files, descriptors and memory mapping; the content of the file is a parameter and does not change between calls.
- CsvTable.Parse: columns stay text; the conversion to numbers is left out.
- WindowFilters.MovingAverageFilter.Update: exact reals, so that rounding does not accumulate in the running sum; the other filters of the file and the reset methods are left out.
- WindowFilters.NthElement: stands for std::nth_element and promises what the C++ standard does; the algorithm of the library is not modelled.
- Kalman.KalmanFilter.Update: exact reals, Q > 0, R > 0 and a non-negative initial error.
- Sensor, display and radio drivers, sockets, threads, loggers, GPIO and SPI wrappers, PID, argument parsing, random numbers and vendor files: operating-system or register access, or members with easy properties only.
