# Verified models of the NMEA pipeline, the vector-tile codec and the logger

This project models four components of the repository in Dafny and proves what they are for.

* **NMEA 0183** (`Nmea*.dfy`). A generator turns satellite, position and motion state into checksummed sentences
  (NMEA 0183, sections 5.2.3 and 5.3). A stream parser takes arbitrary chunks of bytes, cuts sentences out of a bounded
  buffer, scans them with its own format machine, queues packets in a linked list and folds them back into the state.
  Proved: for every set of sentence types the generator's output, if it fits, is read back into exactly the packets it
  was made of; chunks make no difference; damaged sentences and noise are skipped and exactly the good sentences
  recovered; the queue is first-in first-out in every run and holds exactly the packets of the bytes pushed.
* **Vector tiles** (`Tile*.dfy`). The generated codec for tiles, layers, features and values (Mapbox Vector Tile
  Specification 2.1, sections 4.1 and 4.2, on the Protocol Buffers wire format). The messages are first described on
  values, by the effect of one wire record on a message; then the four classes, with presence bits, nested objects and
  cached sizes, are proved against that. Proved: parsing inverts serialising, exactly for the tiles that fit the format;
  concatenating encodings is merging messages; the two-pass encoder with its cached sizes writes the one-pass encoding.
* **Backtrace** (`LogRing.dfy`, `LogBacktrace.dfy`). The overwriting queue of the logger, and the logger as a state
  machine. Proved: the queue's accounts in every run, and what exactly a dump replays to each sink.
* **Format patterns** (`LogPattern.dfy`, `LogFormat.dfy`). The compiler from patterns to formatters, padding, and the
  formatter with its cached times. Proved: compiling inverts printing a pattern, with the exact condition; padding has
  the promised length; caching is transparent, with the exact condition.

Code that works by changing things in place is modelled by classes, arrays and loops, each proved against a function of
its inputs or its old state; the theorems are lemmas about these functions. `Options.dfy`, `Decimals.dfy` and
`Machine.dfy` (the C int and the size type) are shared.

Where the code does not do what one would expect, the code is followed; a lemma gives an input, and another one says
exactly when the code does it:

* `nmea_printf` writes outside its room when the body alone is longer: the room left for the tail is negative and
  becomes a huge size (`NmeaPrintf.OverrunOfOneByte`, `NmeaPrintf.StaysInRoomExactly`). So does the generator, for
  example with ten bytes or less for a GSA sentence (`NmeaGenerate.TenBytesAreOverrun`,
  `NmeaGenerate.FillStaysInRoomExactly`).
* A sentence that fits its buffer exactly loses its line feed (`NmeaOutput.WholeExactlyWhenItFits`).
* A GSV packet whose index overflows in the 32-bit product writes in front of the satellite table, and the parser
  delivers such packets (`NmeaRoundTrip.GsvLeavesTableAfterParsing`, `NmeaPackets.GsvStaysInTableExactly`). A GSA packet
  is looked up past the table if a GSV packet claimed more satellites than there are slots (`NmeaPackets.InfoTable.AddGSA`).
* A clock time or a date is read back exactly if its numbers print in two characters (three for the fraction) and the
  year is between 1991 and 2089 (`NmeaRoundTrip.GgaRoundTrip`, `NmeaRoundTrip.RmcRoundTrip`).
* A `*` left in the buffer of the NMEA parser blocks the sentence that arrives next (`NmeaFraming.RecoveredExactly`,
  `NmeaFraming.LoneStarBlocks`).
* The push loop of the NMEA parser never moves on in its input, and bytes kept are dropped when they and the new ones
  would just fill the buffer (`NmeaRuns.PushLosesInput`, `NmeaRuns.PushLosesNothingExactly`).
* The generator puts GSA before GSV, so a reader marks satellites by the numbers it knew before: after one reading the
  flags are right exactly if these happened to name the satellites in use, on an empty table exactly if there are none
  (`NmeaInUse.FirstReading`, `NmeaInUse.FirstReadingOfEmptyTable`); after two readings exactly if the first one has not
  marked another satellite (`NmeaInUse.SecondReading`).
* A tile with a nested message or string beyond the runtime's length limit is written but not read back
  (`TileLimits.TileRoundTripExactly`).
* A backtrace for the largest size wraps around and keeps nothing (`LogRing.KeepsNewestExactly`).
* A flag can be swallowed by its own padding (`LogPattern.OnlyDistinctFlagsPrint`), and a user flag `%` breaks escaped
  text (`LogPattern.EscapedTextShowsItself`).
* Messages in second 0 of the epoch are formatted with a blank date until another second was seen
  (`LogFormat.CachingIsTransparent`, `LogFormat.FormatEach`).

## Model

| member | source | states |
|---|---|---|
| NmeaText.CalcCrc | nmea/src/tok.c:30-39 | The loop computes the exclusive-or of all bytes, taken as signed chars |
| NmeaText.CrcBound | nmea/src/tok.c:30-39 | The checksum of a text of ASCII characters stays within two hex digits, so it can be printed as such |
| NmeaText.CrcDetectsChange | nmea/src/tok.c:30-39 | Replacing any one byte of any text by another one changes its checksum |
| NmeaText.AtoiPrintInt | nmea/src/tok.c:44-58 | Every C int, printed with any width below 200, fits the conversion buffer and is read back |
| NmeaText.AtoiHex2 | nmea/src/tok.c:44-58 | The two hex digits of a checksum are read back |
| NmeaScanf.TokenEnd | nmea/src/tok.c:148-175 | Where a conversion ends: fixed width, next separator or end of input, with the failure when a width runs over |
| NmeaScanf.Scanf | nmea/src/tok.c:117-250 | The format loop with its token states stores, in order, what the recursive definition of the format language says |
| NmeaScanf.RunLiteral | nmea/src/tok.c:137-143 | Text of the format outside conversions is matched and skipped, whatever follows |
| NmeaScanf.RunField | nmea/src/tok.c:148-245 | A conversion followed by a separator takes exactly the text up to that separator |
| NmeaScanf.RunChar | nmea/src/tok.c:158-189 | A character conversion takes one character |
| NmeaScanf.ScanInvertsPrint | nmea/src/tok.c:117-250 | For every list of fields: scanning the printed fields with the matching format stores all of them, whatever follows the star |
| NmeaScanf.JoinIsPlain | nmea/src/tok.c:82-112 | A printed body never holds a framing character |
| NmeaFraming.FindTailIn | nmea/src/parse.c:135-177 | The scan over the buffer has the three outcomes frame, skip and wait of its definition, told apart by length and checksum result |
| NmeaFraming.FrameExactly | nmea/src/parse.c:135-177 | A prefix is taken as a sentence if and only if it is framed: quiet body, star, two characters that `nmea_atoi` reads as the checksum, CR LF |
| NmeaFraming.ScanStable | nmea/src/parse.c:135-177 | What is decided about the bytes so far stays decided when more bytes arrive |
| NmeaFraming.ReframeConcat | nmea/src/parser.c:145-249 | Cutting a stream in two parts, the bytes left over going in front of the second, gives the sentences and the rest of cutting it at once |
| NmeaFraming.FramesAreFrames | nmea/src/parser.c:145-249 | Nothing but framed sentences is ever cut out of any stream |
| NmeaFraming.DamagedIsSkipped | nmea/src/parse.c:147-174 | A sentence with one body byte changed to another than `$` or `*` is skipped as a whole, whatever follows it |
| NmeaFraming.NoiseIsSkipped | nmea/src/parse.c:147-174 | Bytes without a star in front of a dollar make no difference |
| NmeaFraming.Resynchronises | nmea/src/parser.c:145-249 | Of any series of good sentences, damaged sentences and star-free noise exactly the good ones are recovered, in order |
| NmeaFraming.RecoveredExactly | nmea/src/parse.c:154-174 | After arbitrary bytes a sentence is recovered at once if and only if these bytes leave no star in the buffer |
| NmeaFraming.LoneStarBlocks | nmea/src/parse.c:154-174 | Such bytes exist: one star in front of any sentence blocks it |
| NmeaPackets.ParseTime | nmea/src/parse.c:66-91 | Which time fields are accepted, by the length of their text and the numbers scanned, and the time of day that is put into the date |
| NmeaPackets.ParseSentence | nmea/src/parse.c:186-368 | The five parse functions on the scanning loop accept and fill, field by field, what their definition on the scanned slots says, with the 32-bit count of the GSV fields and the corrections of year and month |
| NmeaPackets.InfoTable.constructor | nmea/src/info.c:15-21 | A new table has the time of now, bad signal and fix, and everything else zero |
| NmeaPackets.InfoTable.AddGGA | nmea/src/parse.c:375-389 | Time of day, signal, precision, elevation and the signed position are taken over, the date is kept |
| NmeaPackets.GsvStaysInTableExactly | nmea/src/parse.c:428-448 | A GSV packet of C ints touches only slots of the table and of the packet if and only if a closed condition on index and satellite count holds, which includes every index that the guard is meant for |
| NmeaPackets.GsvLeavesTable | nmea/src/parse.c:428-448 | One packet that gets past the guard and writes eight slots in front of the table |
| NmeaPackets.FieldsNeededOverflows | nmea/src/parse.c:274-282 | One satellite count that is refused only because the number of fields overflows |
| NmeaPackets.InfoTable.AddGSV | nmea/src/parse.c:428-456 | Folding in place writes the packet's slots of the satellite table and keeps their in-use flags, or reports that the source would leave the table, exactly for the packets that do not stay in it |
| NmeaPackets.InfoTable.MarkRow | nmea/src/parse.c:406-417 | One satellite number marks all satellites in view that carry it, and counts them; it looks past the table exactly if it is not 0 and more satellites are in view than there are slots |
| NmeaPackets.InfoTable.AddGSA | nmea/src/parse.c:396-421 | The double loop marks exactly the listed satellites in view and counts the matches, or reports that the source would look past the table, exactly if more satellites are in view than it has slots and a number is not 0 |
| NmeaPackets.InfoTable.AddRMC | nmea/src/parse.c:463-486 | Time, signed position, speed and direction are taken over, and signal and fix follow the status |
| NmeaPackets.InfoTable.AddVTG | nmea/src/parse.c:493-501 | Direction, declination and speed are taken over |
| NmeaPackets.InfoTable.Add | nmea/src/parser.c:94-111 | The dispatch over packet types updates the whole table as the folding function says, for GGA, GSA, GSV, RMC and VTG |
| NmeaParser.FlowIsCutAndDecode | nmea/src/parser.c:145-249 | Decoding each sentence when it is cut is the same as cutting everything first and decoding then |
| NmeaParser.HeaderIsInSentence | nmea/src/parser.c:163-165 | Looking up the packet type in all remaining bytes never reads past the sentence |
| NmeaParser.Parser.constructor | nmea/src/parser.c:39-60 | A new parser has an empty buffer and an empty queue |
| NmeaParser.Parser.AddBytes | nmea/src/parser.c:138-143 | Bytes are added within the buffer; old bytes are dropped when they and the new ones reach the buffer's size |
| NmeaParser.Parser.DecodeAt | nmea/src/parser.c:163-237 | The sentence at a position yields a node for exactly the packet it holds, of that packet's type, or none |
| NmeaParser.Parser.Append | nmea/src/parser.c:239-247 | Linking a node behind the last keeps the list a chain from top to end |
| NmeaParser.Parser.Enqueue | nmea/src/parser.c:161-247 | A sentence in the buffer adds its packet, if it has one, to the end of the queue |
| NmeaParser.Parser.CutSentences | nmea/src/parser.c:145-249 | The re-framing loop ends, consumes what can be consumed and queues all packets in order |
| NmeaParser.Parser.Compact | nmea/src/parser.c:152-158 | The bytes not consumed move to the front unchanged |
| NmeaParser.Parser.RealPushBytes | nmea/src/parser.c:123-254 | One push leaves exactly the residue and the queue of its definition and reports the bytes consumed |
| NmeaParser.Parser.PushBytes | nmea/src/parser.c:269-288 | The loop over pieces of the buffer's size, for inputs of any length |
| NmeaParser.Parser.Peek | nmea/src/parser.c:338-352 | The first packet and its type, which is never the type for "none" unless the queue is empty |
| NmeaParser.Parser.Pop | nmea/src/parser.c:313-331 | The first packet leaves the queue; the rest stays in order; the buffer is untouched |
| NmeaParser.Parser.ClearQueue | nmea/src/parser.c:395-401 | The queue is emptied, the buffer untouched |
| NmeaParser.Parser.Drain | nmea/src/parser.c:90-114 | All queued packets are folded into the table in order, none is left, and their number is returned, unless one of them leaves the table |
| NmeaParser.Parser.ParseBytes | nmea/src/parser.c:77-117 | Pushing and folding on objects do what the definition on values says, for the buffer, queue, table and count |
| NmeaRuns.PacketsConcat | nmea/src/parser.c:123-254 | The packets of a stream in two parts are those of the first, then those of its rest with the second |
| NmeaRuns.ChunkIndependence | nmea/src/parser.c:123-288 | Two pushes leave the same queue and residue as one push of both, and report the same total, below the buffer size |
| NmeaRuns.ParseIsChunkIndependent | nmea/src/parser.c:77-117 | For every division of a stream into chunks the information, the total count and the residue are the same |
| NmeaRuns.RunsAreFifo | nmea/src/parser.c:123-331 | In every run of pushes and pops: the residue fits and nothing in it could be consumed, and what was fetched and is queued only grows at its end |
| NmeaRuns.RunsLoseNothing | nmea/src/parser.c:123-331 | In every run in which each push finds room, the packets fetched and queued are exactly those in all the bytes pushed, in order, and the residue is the rest of these bytes |
| NmeaRuns.PushLosesNothingExactly | nmea/src/parser.c:123-288 | For chunks of a given length nothing is ever lost if and only if the chunk is no longer than the buffer and, behind bytes kept, leaves one byte free |
| NmeaRuns.PushLosesInput | nmea/src/parser.c:138-143 | Two inputs that lose bytes: one longer than the buffer, and one that would just fit behind the bytes kept |
| NmeaRuns.OnlyThePrefixIsRead | nmea/src/parser.c:273-285 | Inputs longer than the buffer that agree on its size are treated alike, because the loop never advances its input |
| NmeaPrintf.SentenceIsFrame | nmea/src/tok.c:82-112 | A plain body with its tail is a framed sentence |
| NmeaPrintf.Printf | nmea/src/tok.c:82-112 | On the caller's buffer, with the size of the tail's room converted from a negative int: the whole buffer afterwards, inside and outside the room, and the length returned |
| NmeaPrintf.PrintedInRoom | nmea/src/tok.c:82-112 | What that means inside the room: what was in front is kept, then follow the sentence, the sentence without its line feed, or blanks, as long as the length returned |
| NmeaPrintf.StaysInRoomExactly | nmea/src/tok.c:92-107 | Bytes outside the room are left alone, whatever they were, if and only if there is no room or the body is no longer than the room (or too long for an int) |
| NmeaPrintf.OverrunOfOneByte | nmea/src/tok.c:92-107 | One byte of room for a body of two: six bytes behind the room are overwritten, with a checksum that was read there |
| NmeaGenerate.GsvPackCount | nmea/src/generate.c:109-117 | The smallest number of packets of four that holds the satellites, but one instead of none; negative exactly from -4 down |
| NmeaGenerate.FillGSV | nmea/src/generate.c:119-138 | For every satellite count: the packet holds the four satellites of its index, where the table has them |
| NmeaGenerate.EveryPackIsThere | nmea/src/generate.c:119-138 | The table has them for every packet that the generator asks for, and the index stays within the packet count |
| NmeaGenerate.FillGSA | nmea/src/generate.c:91-107 | The loop lists the numbers of the satellites in use at their positions |
| NmeaGenerate.BodiesAreValid | nmea/src/generate.c:20-74 | For every information and mask: no body of the five types holds a framing character, and each opens with a dollar |
| NmeaGenerate.GenerateOne | nmea/src/generate.c:185-222 | One sentence goes into the room that is left: what is still to be filled afterwards completes the whole output |
| NmeaGenerate.GenerateGSV | nmea/src/generate.c:199-208 | The GSV loop fills packet after packet until all are written or the room is used up, for every satellite count |
| NmeaGenerate.GenerateType | nmea/src/generate.c:181-221 | The sentences of one type, made from the information, for each of the types |
| NmeaGenerate.Generate | nmea/src/generate.c:167-229 | For every mask and size the loop ends and leaves the whole buffer as sentence after sentence in the fixed order does |
| NmeaGenerate.FilledIsEmitted | nmea/src/generate.c:167-229 | The bytes up to the count returned are exactly the output, behind what was in the buffer |
| NmeaGenerate.FillStaysInRoomExactly | nmea/src/generate.c:167-229 | Nothing outside the room is written, whatever the memory holds, if and only if no body is longer than the room it meets |
| NmeaGenerate.TenBytesAreOverrun | nmea/src/generate.c:190-195 | Any GSA sentence does that to a room of ten bytes or less |
| NmeaOutput.GenerationIsBounded | nmea/src/generate.c:167-229 | Every output is a number of whole sentences and then nothing, blanks to the end of the room, or one sentence without its line feed |
| NmeaOutput.WholeExactlyWhenItFits | nmea/src/tok.c:92-107 | All sentences come out whole if and only if they leave at least one byte of the room |
| NmeaOutput.SentencesAreCut | nmea/src/parser.c:145-249 | Every output of whole sentences is cut back into exactly these sentences, also behind star-free bytes |
| NmeaRoundTrip.GsvRoundTrip | nmea/src/parse.c:252-285 | For every GSV packet of C ints: all 19 fields are scanned, and the packet comes back, counted from one, unless its counts overflow so that more fields are asked for |
| NmeaRoundTrip.GsvLeavesTableAfterParsing | nmea/src/parse.c:252-448 | The packet that writes in front of the table is one that the parser delivers |
| NmeaRoundTrip.GsaRoundTrip | nmea/src/parse.c:223-243 | Every GSA packet of C ints, numerals and a mode letter that separates nothing comes back |
| NmeaRoundTrip.TimeIsReadBackExactly | nmea/src/parse.c:66-91 | A printed time of day is read back into any date if and only if its numbers print in two characters, the fraction in three at most |
| NmeaRoundTrip.GgaRoundTrip | nmea/src/parse.c:186-214 | A GGA packet comes back, with its time of day, if and only if that time is valid in this sense |
| NmeaRoundTrip.VtgRoundTrip | nmea/src/parse.c:339-368 | A VTG packet comes back if its units are the standard ones, and is refused otherwise |
| NmeaRoundTrip.RmcRoundTrip | nmea/src/parse.c:294-330 | An RMC packet comes back if and only if its time is valid, its day and month print in two characters, and its year is between 1991 and 2089 |
| NmeaLoopback.EverySentenceArrives | nmea/src/generate.c:167-229 | For every mask: the sentences decode to exactly the packets made from the information, in order |
| NmeaLoopback.OutputIsReadBack | nmea/src/parser.c:77-117 | For every mask, output that fits, table, and parser with star-free bytes: exactly these packets are folded, and nothing stays in the buffer |
| NmeaLoopback.CycleUpdates | nmea/src/parse.c:428-456 | Folding packets of one cycle, in any order and with repetitions, updates exactly the slots of these packets |
| NmeaLoopback.FoldingIsOrderIndependent | nmea/src/parse.c:428-456 | Two such series with the same members leave the same table |
| NmeaLoopback.CompleteCycleRestores | nmea/src/parse.c:428-456 | A complete cycle restores every satellite in view and leaves the other slots and all in-use flags alone |
| NmeaLoopback.EndToEnd | nmea/src/parser.c:77-117 | For every mask with GSV, output that fits restores number, elevation, azimuth and signal of all satellites in view of the sender, and their count, in any table; with GSV alone the in-use flags stay; the fold leaves the table exactly if a GSA sentence is looked up past it |
| NmeaLoopback.Loopback | nmea/src/generate.c:167-229 | The same on the objects, for every mask with GSV: generator, buffer, parser and table |
| NmeaInUse.CountsInUse | nmea/src/parse.c:406-419 | The double loop counts every satellite in use exactly once |
| NmeaInUse.GsvThenGsa | nmea/src/parse.c:396-421 | On a table with the sender's satellites, the GSA packet counts those in use and adds their flags to the ones already set |
| NmeaInUse.CycleThenGsa | nmea/src/parse.c:396-456 | A complete cycle in any order and then the GSA packet restore everything about the satellites |
| NmeaInUse.GsaComesFirst | nmea/src/generate.c:187-208 | With GSA and GSV in the mask the generator's output is the GSA sentence and then the cycle, and so it arrives |
| NmeaInUse.FirstReading | nmea/src/parser.c:77-117 | One reading of this output, on a table without flags, restores count and flags if and only if the numbers the table held before name, slot by slot, the satellites in use, and as many |
| NmeaInUse.FirstReadingOfEmptyTable | nmea/src/parser.c:77-117 | On an empty table: if and only if no satellite is in use |
| NmeaInUse.SecondReading | nmea/src/parser.c:77-117 | A second reading restores everything about the satellites if and only if the first has not marked a satellite that is not in use |
| TileWire.ReadVarintBack | mbtiles/src/vector_tile.pb.cc:638-652 | Every number that fits the length limit is read back from its varint, whatever follows |
| TileWire.ReadRecBack | mbtiles/src/vector_tile.pb.cc:254-345 | Every valid record, of all four wire types, is read back from its bytes with its exact length |
| TileWire.ReadAllBack | mbtiles/src/vector_tile.pb.cc:254-345 | A list of records is read back in front of any bytes |
| TileWire.ReadAllConcat | mbtiles/src/vector_tile.pb.cc:1358-1403 | Bytes that end with a record can be continued: the records of a concatenation are those of both parts |
| TileWire.ReadPackedBack | mbtiles/src/vector_tile.pb.cc:654-662 | The numbers of a packed field are read back |
| TileMessages.ParseStep | mbtiles/src/vector_tile.pb.cc:1358-1403 | Parsing, for all four messages, reads one record, applies it and goes on behind it, with stop tags and malformed records |
| TileMessages.ValueParsingIsMerging | mbtiles/src/vector_tile.pb.cc:478-511 | Parsing bytes into a value is parsing them into an empty one and merging, also when parsing stops or fails |
| TileMessages.FeatureParsingIsMerging | mbtiles/src/vector_tile.pb.cc:844-866 | The same for features |
| TileMessages.LayerParsingIsMerging | mbtiles/src/vector_tile.pb.cc:1241-1265 | The same for layers |
| TileMessages.TileParsingIsMerging | mbtiles/src/vector_tile.pb.cc:1462-1471 | The same for tiles |
| TileMessages.ConcatenationIsMerge | mbtiles/src/vector_tile.pb.cc:1358-1471 | If two byte strings parse as tiles, their concatenation parses as the merge of both |
| TileMessages.ConcatenationIsMergeOfParts | mbtiles/src/vector_tile.pb.cc:254-1265 | The same for values, features and layers |
| TileRoundTrip.ValueRoundTrip | mbtiles/src/vector_tile.pb.cc:254-406 | Parsing the serialisation of any value gives the value back, with the presence of every field and its unknown fields |
| TileRoundTrip.FeatureRoundTrip | mbtiles/src/vector_tile.pb.cc:638-767 | The same for features with their packed lists |
| TileRoundTrip.LayerRoundTrip | mbtiles/src/vector_tile.pb.cc:996-1151 | The same for layers with their nested messages |
| TileRoundTrip.TileRoundTrip | mbtiles/src/vector_tile.pb.cc:1358-1429 | The same for whole tiles |
| TileLimits.TileRoundTripExactly | mbtiles/src/vector_tile.pb.cc:1358-1429 | A tile comes back if and only if all its strings, lists and nested messages are within the length limit |
| TileLimits.TileMustFit | mbtiles/src/vector_tile.pb.cc:1358-1429 | Otherwise parsing what was written fails |
| TileRoundTrip.ParsedTileIsWellFormed | mbtiles/src/vector_tile.pb.cc:1358-1403 | Whatever bytes a tile was parsed from, its unknown fields are such that it can be written and read again |
| TileRoundTrip.ReencodingIsFaithful | mbtiles/src/vector_tile.pb.cc:1358-1429 | Any input that parses can be written and parsed again to an equal tile, if it still fits the length limits |
| TileRoundTrip.AlternativeEncodings | mbtiles/src/vector_tile.pb.cc:654-686 | Tags and geometry in any mixture of packed and unpacked pieces parse to the concatenated lists |
| TileRoundTrip.OutOfRangeKind | mbtiles/src/vector_tile.pb.cc:664-675 | A geometry type out of range leaves the type alone, is kept as unknown field, and comes back after re-encoding |
| TileObjects.ValueObject.Clear | mbtiles/src/vector_tile.pb.cc:234-252 | Resetting only what is present leaves an empty value with default fields |
| TileObjects.ValueObject.InternalParse | mbtiles/src/vector_tile.pb.cc:254-345 | The loop over the pointer with presence bits has the outcome and the message of the definition on records |
| TileObjects.ValueObject.ParseField | mbtiles/src/vector_tile.pb.cc:262-334 | Each case of the switch, also for unexpected wire types |
| TileObjects.ValueObject.MergeFrom | mbtiles/src/vector_tile.pb.cc:478-511 | Merging objects field by field is merging messages |
| TileObjects.ValueObject.ByteSizeLong | mbtiles/src/vector_tile.pb.cc:408-470 | The computed and cached size is the exact length of the encoding |
| TileObjects.ValueObject.InternalSerialize | mbtiles/src/vector_tile.pb.cc:347-406 | The writer appends the encoding of the message |
| TileObjects.FeatureObject.Clear | mbtiles/src/vector_tile.pb.cc:617-636 | Resetting leaves an empty feature with default fields |
| TileObjects.FeatureObject.InternalParse | mbtiles/src/vector_tile.pb.cc:638-715 | As for values, with packed and single numbers |
| TileObjects.FeatureObject.MergeFrom | mbtiles/src/vector_tile.pb.cc:844-866 | Lists are appended and present fields replaced |
| TileObjects.FeatureObject.ByteSizeLong | mbtiles/src/vector_tile.pb.cc:769-836 | Total and both list sizes are cached as the exact lengths |
| TileObjects.FeatureObject.InternalSerialize | mbtiles/src/vector_tile.pb.cc:717-767 | With measured sizes the lists get the right length prefixes and the encoding is written |
| TileObjects.FeatureSizeIs | mbtiles/src/vector_tile.pb.cc:769-836 | The sum of the parts that the size pass adds up is the length of the encoding |
| TileLayers.LayerObject.Clear | mbtiles/src/vector_tile.pb.cc:974-994 | Resetting leaves an empty layer whose extent and version are back at 4096 and 1 |
| TileLayers.LayerObject.ParseRepeated | mbtiles/src/vector_tile.pb.cc:1013-1051 | The inner loops over consecutive fields of one tag do the same as the outer loop would |
| TileLayers.LayerObject.ParseField | mbtiles/src/vector_tile.pb.cc:1004-1082 | Each case of the switch |
| TileLayers.LayerObject.InternalParse | mbtiles/src/vector_tile.pb.cc:996-1092 | The layer with its owned features and values ends as the definition on records says |
| TileLayers.LayerObject.MergeFeatures | mbtiles/src/vector_tile.pb.cc:1249 | The other layer's features are copied behind one's own, none shared |
| TileLayers.LayerObject.MergeFrom | mbtiles/src/vector_tile.pb.cc:1241-1265 | Merging layer objects is merging messages, nested ones included |
| TileLayers.LayerObject.MeasureFeatures | mbtiles/src/vector_tile.pb.cc:1197-1202 | Every nested feature caches its size, and the sum is the length of all their records |
| TileLayers.LayerObject.ByteSizeLong | mbtiles/src/vector_tile.pb.cc:1153-1233 | The size of a layer is exact, and everything below it is measured |
| TileLayers.LayerObject.WriteFeatures | mbtiles/src/vector_tile.pb.cc:1107-1112 | Tags, cached lengths and contents make up the records of the features |
| TileLayers.LayerObject.InternalSerialize | mbtiles/src/vector_tile.pb.cc:1094-1151 | A measured layer is written as its one-pass encoding |
| TileLayers.LayerObject.IsInitialized | mbtiles/src/vector_tile.pb.cc:1274-1282 | Complete means that name and version are present |
| TileWhole.TileObject.InternalParse | mbtiles/src/vector_tile.pb.cc:1358-1403 | The tile with its owned layers ends as the definition on records says |
| TileWhole.TileObject.MergeFrom | mbtiles/src/vector_tile.pb.cc:1462-1471 | Merging tile objects is merging tiles, with copied layers |
| TileWhole.TileObject.IsInitialized | mbtiles/src/vector_tile.pb.cc:1480-1487 | A tile is complete if and only if all its layers are |
| TileWhole.TileObject.ByteSizeLong | mbtiles/src/vector_tile.pb.cc:1431-1454 | The first pass measures the whole tree and returns the exact size |
| TileWhole.TileObject.InternalSerialize | mbtiles/src/vector_tile.pb.cc:1405-1429 | The second pass over a measured tree writes the one-pass encoding of the tile |
| TileWhole.TileObject.Serialize | mbtiles/src/vector_tile.pb.cc:1405-1454 | Both passes, for every tile: as many bytes as announced, and the encoding of the tile |
| TileWhole.Transmit | mbtiles/src/vector_tile.pb.cc:1358-1454 | A tile object sent through both passes and the parser arrives as an equal tile of fresh objects |
| TileWhole.ReceiveBoth | mbtiles/src/vector_tile.pb.cc:1358-1471 | Parsing two written tiles one after the other gives their merge |
| LogRing.RunKeepsNewest | include/spdlog/details/circular_q.h:49-102 | In every run of pushes and valid pops the queue is a final stretch of what was pushed, and pushes = pops + size + overruns modulo the size type |
| LogRing.FrontIsOldestKept | include/spdlog/details/circular_q.h:66-74 | The next pop takes the element pushed after all those popped and overrun |
| LogRing.OnlyPushes | include/spdlog/details/circular_q.h:49-62 | Without pops exactly the newest elements that fit are kept |
| LogRing.KeepsNewestExactly | include/spdlog/details/circular_q.h:27-62 | A queue made for n elements keeps the newest n if and only if n plus one does not wrap around, or nothing is pushed |
| LogRing.CircularQ.Disabled | include/spdlog/details/circular_q.h:24-25 | The default queue is valid, empty and disabled |
| LogRing.CircularQ.constructor | include/spdlog/details/circular_q.h:27-30 | A new queue is empty and has one slot more than asked for |
| LogRing.CircularQ.MoveFrom | include/spdlog/details/circular_q.h:37-46 | A move transfers the contents and leaves a valid disabled queue |
| LogRing.CircularQ.PushBack | include/spdlog/details/circular_q.h:49-62 | On the circular vector: the element is appended, and the oldest one dropped and counted if the queue was full |
| LogRing.CircularQ.PopFront | include/spdlog/details/circular_q.h:97-102 | The oldest element leaves, the others stay in order |
| LogRing.CircularQ.Front | include/spdlog/details/circular_q.h:64-74 | The oldest element |
| LogRing.CircularQ.At | include/spdlog/details/circular_q.h:89-95 | The element at a position counted from the oldest |
| LogRing.CircularQ.Size | include/spdlog/details/circular_q.h:76-87 | The number of elements, wherever head and tail are |
| LogRing.CircularQ.Empty | include/spdlog/details/circular_q.h:104-107 | True if and only if there is no element |
| LogRing.CircularQ.Full | include/spdlog/details/circular_q.h:109-117 | True if and only if the next push overruns |
| LogBacktrace.EachSinkFilters | include/spdlog/logger-inl.h:178-196 | Of any messages each sink gets exactly those its own level lets through, in order, whatever is flushed |
| LogBacktrace.KeptExactly | include/spdlog/details/backtracer-inl.h:33-38 | A backtrace for n messages holds the newest n if and only if its size does not wrap around, or there is no message |
| LogBacktrace.RingHoldsNewestTraced | include/spdlog/logger-inl.h:166-176 | Over any run, an enabled backtrace holds the newest messages logged since it was enabled or dumped, of any level |
| LogBacktrace.DumpReplays | include/spdlog/logger-inl.h:210-219 | A dump sends start marker, these messages in order and end marker, to each sink what its level lets through, and empties the ring |
| LogBacktrace.EnableAndDumpStartAfresh | include/spdlog/details/backtracer-inl.h:33-38 | Enabling and dumping both leave an enabled, empty backtrace |
| LogBacktrace.DisabledDumpIsSilent | include/spdlog/logger-inl.h:210-219 | After a disable a dump does nothing at all |
| LogBacktrace.Backtracer.Enable | include/spdlog/details/backtracer-inl.h:33-38 | Enabling replaces the ring by an empty one of the new size |
| LogBacktrace.Backtracer.PushBack | include/spdlog/details/backtracer-inl.h:51-55 | A message enters the ring |
| LogBacktrace.Logger.constructor | include/spdlog/logger.h:319-325 | A new logger logs from info on, does not flush by level, and has no backtrace |
| LogBacktrace.Logger.SinkIt | include/spdlog/logger-inl.h:178-196 | The calls of the sinks for one message, in order, with the flushes its level asks for |
| LogBacktrace.Logger.FlushSinks | include/spdlog/logger-inl.h:198-208 | Every sink is flushed once, in order |
| LogBacktrace.Logger.Log | include/spdlog/logger.h:146-170 | A message reaches the sinks only at the logger's level, and the ring whenever the backtrace is enabled |
| LogBacktrace.Logger.EnableBacktrace | include/spdlog/logger-inl.h:108-111 | Tracing is on with an empty ring of the new size, whatever was held before; nothing is sent |
| LogBacktrace.Logger.DisableBacktrace | include/spdlog/logger-inl.h:114-117 | Tracing is off, and the messages stay in the ring |
| LogBacktrace.Logger.Replay | include/spdlog/details/backtracer-inl.h:58-67 | Popping until the ring is empty sends every message once, oldest first |
| LogBacktrace.Logger.DumpBacktrace | include/spdlog/logger-inl.h:210-219 | If tracing is on: markers around the replay, the ring empty afterwards, and nothing else changed; otherwise nothing |
| LogBacktrace.Logger.SetLevel | include/spdlog/logger-inl.h:67-70 | Only the logger's own level changes |
| LogBacktrace.Logger.FlushOn | include/spdlog/logger-inl.h:130-133 | Only the flush level changes |
| LogBacktrace.Logger.Flush | include/spdlog/logger-inl.h:125-128 | Every sink is flushed once, nothing else changes |
| LogPattern.FlagsAreToldApart | include/spdlog/pattern_formatter-inl.h:1061-1254 | Two flags with their paddings become the same formatter if and only if they are the same flag, or two built-in names of one field, and have the same padding where padding counts: user flags are never taken for built-in ones, nor known flags for unknown ones |
| LogPattern.UserCharsComeFirst | include/spdlog/pattern_formatter-inl.h:1312-1357 | Plain characters read so far are shown in front of what the rest of the pattern compiles to |
| LogPattern.ReadPaddingBack | include/spdlog/pattern_formatter-inl.h:1259-1310 | Every printed padding in front of a flag that is told apart from it is read back, its width clamped to 64 |
| LogPattern.CompileInvertsPrint | include/spdlog/pattern_formatter-inl.h:1312-1357 | Every printable list of texts and flags compiles to formatters that stand for exactly these texts and flags |
| LogPattern.OnlyDistinctFlagsPrint | include/spdlog/pattern_formatter-inl.h:1259-1310 | A flag with a padding survives printing and compiling if and only if it is no digit, side or mark that its padding would take |
| LogPattern.EscapedTextShowsItself | include/spdlog/pattern_formatter-inl.h:1312-1357 | A text with its percent signs doubled shows itself if and only if it has none or no user flag took the percent sign |
| LogFormat.PadTextIsExact | include/spdlog/pattern_formatter-inl.h:35-91 | Exact length, the text whole with spaces on the side asked for, or its beginning |
| LogFormat.PaddedAsMeant | include/spdlog/pattern_formatter-inl.h:35-91 | A field is padded as meant if and only if its length was announced rightly, or neither length needs padding |
| LogFormat.OpenPadder | include/spdlog/pattern_formatter-inl.h:38-60 | The spaces in front and the number still to come |
| LogFormat.PadIt | include/spdlog/pattern_formatter-inl.h:82-90 | Never more than the 64 spaces there are to copy from |
| LogFormat.AppendField | include/spdlog/pattern_formatter-inl.h:112-116 | Opening, writing and closing together, for any announced length |
| LogFormat.CompiledPatternShowsItems | include/spdlog/pattern_formatter-inl.h:1028-1043 | A line made with a printed pattern is its texts and padded fields one after the other |
| LogFormat.EscapedTextFormatsToItself | include/spdlog/pattern_formatter-inl.h:1028-1043 | The line of an escaped text is the text |
| LogFormat.CompiledAreNew | include/spdlog/pattern_formatter-inl.h:1259-1357 | No compiled width exceeds the spaces there are, and nothing is cached at first |
| LogFormat.CachingIsTransparent | include/spdlog/pattern_formatter-inl.h:1028-1043 | Over any run of messages each gets its own calendar time if and only if the first is not in second 0 of the epoch, or that second is blank anyway |
| LogFormat.FormatEach | include/spdlog/pattern_formatter-inl.h:1028-1043 | Formatting a series of messages one after the other gives each the line for the time that was used; if the first one is not in second 0, or a time is cached already, that is for each the line that a fresh formatter gives it |
| LogFormat.PatternFormatter.constructor | include/spdlog/pattern_formatter-inl.h:995-1005 | A new formatter is that of its compiled pattern |
| LogFormat.PatternFormatter.Default | include/spdlog/pattern_formatter-inl.h:1008-1016 | The shortcut for the default pattern makes what compiling it would make |
| LogFormat.PatternFormatter.AddFlag | include/spdlog/pattern_formatter.h:95-99 | A new user flag leaves the formatter as it was compiled |
| LogFormat.PatternFormatter.SetPattern | include/spdlog/pattern_formatter-inl.h:1045-1049 | The new pattern is compiled with the user flags of now |
| LogFormat.PatternFormatter.Clone | include/spdlog/pattern_formatter-inl.h:1018-1026 | A copy has the same pattern and nothing cached |
| LogFormat.PatternFormatter.Format | include/spdlog/pattern_formatter-inl.h:1028-1043 | The buffer gets the line of the message and the end of line, with date texts equal to fresh ones for the time used |
| LogFormat.PatternFormatter.FormatOne | include/spdlog/pattern_formatter-inl.h:914-986 | One formatter appends what it shows; the full formatter's cached date is that of the message's second |
| LogFormat.PatternFormatter.HandlePadspec | include/spdlog/pattern_formatter-inl.h:1259-1310 | The padding in front of a flag and the position behind it |
| LogFormat.PatternFormatter.CompilePattern | include/spdlog/pattern_formatter-inl.h:1312-1357 | The loop over the pattern makes the formatters of the recursive definition |

## Left out

- NmeaPackets.ParseSentence: doubles are kept as the texts given to `strtod`; a time field longer than the source's buffer, which it overruns, and a missing one, for which it reads an unset buffer, are taken as any other text.
- NmeaScanf.Scanf: null targets and negative widths, which no format of the library uses.
- NmeaPackets.InfoTable.AddGSV: what happens once the source has left the table is not described, here and in `InfoTable.AddGSA`, `Parser.Drain` and `Parser.ParseBytes`: they report that it does, and when.
- NmeaPrintf.Printf: the text of the body is a parameter, as the C library makes it; the memory is a buffer that the writes outside the room still reach.
- NmeaGenerate.Generate: doubles print as the numerals they are kept as; the absolute values of the position and the speed in knots, which the generator computes, are parameters with their signs.
- NmeaGenerate.FillGSV: a negative index of the table, which no caller asks for.
- NmeaLoopback.EndToEnd: of times outside the two-character range only the sentences are followed (`NmeaRoundTrip.GgaRoundTrip`, `NmeaRoundTrip.RmcRoundTrip`), not the whole output.
- NMEA parser: allocation failures, packets leaked on rejected sentences, trace and error callbacks; overlapping copies are modelled as moves.
- nmea/src/gmath.c, nmea/src/generator.c and nmea_time_now: floating point, randomness and clocks.
- Vector tiles: the runtime's arenas, streams, recursion limit and groups (a start-group tag counts as malformed); extensions, of which none is registered, are unknown fields; sizes are not cut to the int of the cached size.
- TileObjects.ValueObject.InternalParse: what a failed parse leaves in the message is not said, and start-group tags, which the runtime reads, count as malformed.
- TileObjects.ValueObject.ParseField: start-group tags count as malformed.
- TileObjects.FeatureObject.InternalParse: as for values.
- TileLayers.LayerObject.ParseField: start-group tags count as malformed.
- TileLayers.LayerObject.InternalParse: as for values.
- TileWhole.TileObject.InternalParse: as for values.
- Vector tiles: swapping, copying constructors and the accessors of single fields, which would only add easy members.
- LogBacktrace.Logger.Log: locks and atomics (each call is one step), exceptions of sinks (caught in the source, so that the loop goes on), and formatting of arguments into the payload.
- LogBacktrace: copying and swapping loggers and backtracers, the registry, the thread pool, and what sinks do with messages.
- LogFormat.PatternFormatter.Format: user flags and the texts of fields other than name, level and payload are parameters that depend on message and time only, so the caches of the time zone flag and of the elapsed-time flags are not modelled, nor the colour range of the message.
- LogFormat.PatternFormatter.FormatOne: the same; fields announce the length of their text, but the date flags that announce a fixed length (such as `%c`, `%D` and `%E`) may not have it, and `LogFormat.PaddedAsMeant` says what happens then.
- Utilities in common/src/Utils.cpp, network, file, signal and database wrappers: input and output, or easy members.
