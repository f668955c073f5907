# Verified model of binary_log and of its bundled decimal printer

binary_log splits a sequence of log calls over three byte streams. The *index* stream describes each
call site once: format string, argument types, and the values of constant arguments. The *log* stream
holds a two-byte site index, where one is due, and the non-constant argument bytes of every call. The
*run-length* stream holds a record (index, count) for every run of more than one call to the same
site. The unpacker maps the three files and rebuilds the calls. It prints with a bundled copy of fmt,
whose arbitrary-precision and fixed-precision decimal algorithms are the second half of this project.

This project models both in Dafny 4.11 and proves what they are for. `dafny verify dfyconfig.toml`
checks everything.

## What is proved

**The log codec.** `Args` takes numbers by value: what each overload writes of every number of its C++
type reads back as that number. `IndexFile` and `LogFile` define the byte layout and what the parsers
make of any bytes at all (a read past the end is `None`); `Layout` writes a small session out in bytes. `RunLength` defines the run-length codec as a
state machine over log calls and flushes, and proves for *every* such sequence that decoding gives
back the logged calls, each with its row of the index table, if and only if no index was left out by
a flush and no single-call run is mistaken for a later, longer one; the decoder then reaches the end
of both streams. `Decodability` restates both halves on the call sequence itself, and proves that
flushing does not turn a decodable sequence into another one.
`Packers`, `RingbufferPackers`, `BinaryLogs` and `Unpacker` are the classes, with their buffers,
cursors and loops, proved against those specifications; `EndToEnd` runs a whole program through
logger, files and unpacker, and `PackersAgree` runs the two packers side by side over registrations
and calls.

Four conditions on which the code depends come out exactly:

- a whole program's calls come back, each with its row of the index table, if and only if all strings
  have fewer than 65536 bytes, all calls fewer than 256 arguments, no flush is followed by a call that
  continues a counted run of a non-zero index, and no single-call run shares its index with the next
  longer run (`EndToEnd.UnpackedExactly`, for at most 256 call sites). The unpacker prints the format
  string, the numbers and the strings but not the row: for the printed lines, compared with what the
  program meant to log, the condition always suffices, and it is exact where no two sites share a format string (`EndToEnd.PrintedExactly`); where they do, a mistaken
  row need not show (`SharedFormats.TheftDoesNotShow`);
- the copy loop of the run-length file starts over at the first byte of the record in every round, so
  a record survives a buffer of `size` bytes if and only if it repeats with period `size`
  (`Packers.SlabsExactly`; from 10 bytes on this is every record);
- an entry is evicted from the ring buffer if and only if it began a capacity or more ago
  (`PackersAgree.RetainedExactly`);
- `compare` gives the sign of the difference of two normalised numbers if and only if neither is the
  other with zeros appended below (`Bigints.CompareIsSign`), and a division leaves a remainder smaller
  than the divisor if and only if the divisor is not the dividend so extended
  (`Bigints.Bigint.DivmodAssign`).

**The decimal printer.** `Bigits`, `Convolution` and `Bigints` are fmt's `bigint`: a base 2^32 number
with a word exponent and all its in-place operations. `FormatDragon` proves that the digits written
for a value are the value divided by the power of ten of the last place, rounded to nearest, ties to
even, including the carry through nines and the case of no digits. `Grisu` proves that digits
accepted by `grisu_gen_digits` are within half a unit of the last place of every real number within
the error, in 64-bit arithmetic that never overflows, and exactly when it gives up. Both contracts
leave one answer (`FormatDragon.AnswerUnique`, `Grisu.CorrectUnique`). `TrailingZeros` proves the divisibility tables
and both forms of trailing-zero removal; `Integers` the digit counters, the integer printer and
parser, and that they are inverse to each other.

**Two small components.** `IsoWeek` proves fmt's week dates against a recursively defined Gregorian
calendar and the Thursday rule of section 2.2.10 of ISO 8601:2004; `DecimalLiteral` proves that
argparse's recogniser accepts exactly the strings derivable from its grammar.

## Where code and documentation disagree

- The layout follows the headers under `include/`: string lengths and log indices have two bytes. The
  dump in the repository's README and the expectations in `test/source/test_packer.cpp` show an older
  layout with one byte.
- A comment in `index_file_parser::parse_entry` says one byte for the length of the format
  string; the code reads two.
- `write_arg_value_to_index_file` for `std::string` cuts the length to 16 bits but not the characters.
  The model does the same, which is one reason for the size condition of the round trip.
- `IsoWeek.WeekOfDate` shows the only dates on which fmt's week is wrong: the last week of a long year
  before year 0, because C++ division truncates.

## Model

| member | source | states |
|---|---|---|
| Bytes.LeDigit | include/binary_log/detail/packer.hpp:48-65 | byte k of a stored number is its digit at 256 to the k |
| Args.TypeNumbers | include/binary_log/detail/args.hpp:11-28 | a type is stored as its position among the enumerators, and any other byte names none |
| Args.WidthsAgree | include/binary_log/detail/args.hpp:30-66 | the reader's width of every integer type is the size its C++ range needs, and holds exactly as many numbers |
| Args.NumberRoundTrip | include/binary_log/detail/packer.hpp:219-290 | for every integer type and every number in its range, the bytes written have the reader's width and read back as the number |
| Args.DataShows | tools/unpacker/log_file_parser.hpp:176-227 | stored bytes reach the formatter as the value they were stored for |
| Args.ShownTells | tools/unpacker/log_file_parser.hpp:176-227 | values of the right size that look the same have the same type and bytes |
| IndexFile.RowDescribes | include/binary_log/detail/packer.hpp:376-441 | a row has each argument's own type and constness, and a constant's bytes show its value |
| IndexFile.ParseEntryRoundTrip | tools/unpacker/index_file_parser.hpp:48-102 | an entry written by the packer is self-delimiting: parsed in front of any further bytes it gives back format, types, constness and constant bytes, and leaves those bytes |
| IndexFile.ParseRoundTrip | tools/unpacker/index_file_parser.hpp:116-122 | the concatenation of any entries parses to the table of them all, in registration order |
| IndexFile.ParseBounded | tools/unpacker/index_file_parser.hpp:48-122 | whatever bytes it reads, the parser never yields a longer string or more arguments than the layout can hold, and every constant has its type's size |
| IndexFile.IndexRoundTripExactly | include/binary_log/detail/packer.hpp:376-454 | the index file gives back the table if and only if all its strings and argument counts fit the layout |
| LogFile.DecodeLogIsDecodeRecs | tools/unpacker/log_file_parser.hpp:93-121 | decoding against the bytes of the run-length file is decoding against its list of records |
| LogFile.DecodeCalls | tools/unpacker/log_file_parser.hpp:137-173 | decoding a run of calls gives back each call's argument bytes and stops where they end |
| LogFile.DecodeConserves | tools/unpacker/log_file_parser.hpp:82-174 | whatever the decoder is fed, the log bytes are exactly two for every entry not counted by a record it used up, and the bytes of the decoded arguments |
| LogFile.LinesTellRows | tools/unpacker/log_file_parser.hpp:82-174 | where formats are distinct, equal printed lines come from equal table rows and bytes |
| LogFile.ValuesMean | tools/unpacker/log_file_parser.hpp:137-173 | the k-th value to be found has the k-th argument's own type and shows what that argument is |
| Layout.EntryInBytes | include/binary_log/binary_log.hpp:45-72 | the entry of `"{}"` with an int32_t and a constant "hi", byte by byte |
| Layout.CallsInBytes | include/binary_log/detail/packer.hpp:300-374 | log and run-length bytes of calling it twice with -5, one by one |
| LogFile.DecodeBounded | tools/unpacker/log_file_parser.hpp:82-174 | no decoded string is longer than 16 bits can say, and every other value has its type's size, from any bytes |
| RunLength.CodecMatchesPieces | include/binary_log/detail/packer.hpp:300-368 | after every sequence of calls and flushes the streams are those of its division into counted pieces |
| RunLength.FinalStreams | include/binary_log/detail/packer.hpp:187-206 | after a final flush they hold every piece and every record of more than one call |
| RunLength.PiecesCoverCalls | include/binary_log/detail/packer.hpp:330-374 | the pieces together are exactly the logged calls, in order |
| RunLength.UnambiguousDecodes | tools/unpacker/log_file_parser.hpp:93-121 | pieces that all carry their index, none stealing a record, decode to their calls, to the end of both streams |
| RunLength.AmbiguousMisdecodes | tools/unpacker/log_file_parser.hpp:101-115 | where a single call shares its index with the next longer run, decoding gives something else |
| RunLength.LostHeaderMisdecodes | include/binary_log/detail/packer.hpp:355-357 | where a piece lacks its index, decoding gives something else |
| RunLength.DecodesExactly | include/binary_log/detail/packer.hpp:300-374 | for every sequence of calls and flushes: the decoder returns the logged calls if and only if the sequence is decodable, and then leaves no run-length record unread |
| Decodability.HeadersKeptExactly | include/binary_log/detail/packer.hpp:300-327 | no index is lost if and only if no flush of a counted run is followed by the same non-zero index |
| Decodability.UnambiguousExactly | tools/unpacker/log_file_parser.hpp:101-115 | the decoder's attribution is right if and only if no run of length 1 has the index of the first later run of length > 1 |
| Decodability.RunsAreMaximal | include/binary_log/detail/packer.hpp:343-367 | without flushes the pieces are the maximal runs of equal indices, each with its index |
| Decodability.FlushFreeDecodesExactly | tools/unpacker/log_file_parser.hpp:93-121 | without flushes the calls come back if and only if no run of one call has the index of the first later run of several |
| Decodability.MergedPieces | include/binary_log/detail/packer.hpp:187-206 | leaving out the flushes joins neighbouring pieces of one index, and does nothing else |
| Decodability.MergeUnambiguous | tools/unpacker/log_file_parser.hpp:101-115 | joining pieces never makes a single call take a later record |
| Decodability.FlushTransparency | include/binary_log/detail/packer.hpp:187-206 | for every sequence that flushes at safe points only and decodes: leaving out its flushes, whatever it does to the pieces, decodes to the same calls |
| Decodability.SingleCallTakesLaterRecord | tools/unpacker/log_file_parser.hpp:101-115 | the calls A B A A are not decoded to themselves, for any A and B |
| Decodability.FlushLosesHeader | include/binary_log/detail/packer.hpp:326 | two calls, a flush and a third call to the same non-zero index are not decoded to themselves |
| Packers.SlabsExactly | include/binary_log/detail/packer.hpp:311-324 | what the copy loop writes is the record if and only if the record repeats with the buffer's size as period |
| Packers.Packer.constructor | include/binary_log/detail/packer.hpp:90-131 | three empty streams, no run |
| Packers.Packer.BufferOrWrite | include/binary_log/detail/packer.hpp:48-65 | file plus live buffer grow by exactly the input, of any size; every copy stays inside the buffer; the loop ends |
| Packers.Packer.BufferOrWriteIndexFile | include/binary_log/detail/packer.hpp:67-87 | the same for the index stream, from two bytes of buffer on |
| Packers.Packer.CopyRecord | include/binary_log/detail/packer.hpp:311-324 | for every buffer size the run-length stream grows by the restarted slabs of the record |
| Packers.Packer.WriteCurrentRunlengthToRunlengthFile | include/binary_log/detail/packer.hpp:300-328 | the new state is the codec's: a record for a run of more than one call, and the counter reset |
| Packers.Packer.PackFormatStringIndex | include/binary_log/detail/packer.hpp:330-368 | the new state is the codec's; the index stream is untouched |
| Packers.Packer.WriteArgValueToLogFile | include/binary_log/detail/packer.hpp:208-290 | the log stream grows by the argument's bytes, strings behind a 16-bit length |
| Packers.Packer.UpdateLogFile | include/binary_log/detail/packer.hpp:370-374 | the log stream grows by all non-constant arguments, in order |
| Packers.Packer.WriteArgValueToIndexFile | include/binary_log/detail/packer.hpp:397-421 | the index stream grows by the constant's bytes |
| Packers.Packer.UpdateIndexFile | include/binary_log/detail/packer.hpp:436-441 | the index stream grows by all types, then all constness flags with constant values |
| Packers.Packer.WriteFormatStringToIndexFile | include/binary_log/detail/packer.hpp:443-449 | the index stream grows by the length-prefixed format string |
| Packers.Packer.WriteEntry | include/binary_log/binary_log.hpp:60-69 | the index stream grows by one whole entry, and nothing else changes |
| Packers.Packer.FlushLogFile | include/binary_log/detail/packer.hpp:164-172 | the buffer empties and the stream stays the same |
| Packers.Packer.FlushRunlengthFile | include/binary_log/detail/packer.hpp:187-199 | the open run is written, and the buffer empties |
| Packers.Packer.FlushAll | include/binary_log/detail/packer.hpp:201-206 | afterwards each file is its whole stream, and the state is the codec's after a flush |
| RingbufferPackers.SuffixDrops | include/binary_log/detail/ringbuffer_packer.hpp:56-68 | popping the distance between the two oldest offsets leaves the suffix that begins at the new front |
| RingbufferPackers.OwnOffsetPopped | include/binary_log/detail/ringbuffer_packer.hpp:56-60 | with nothing older left, eviction goes on exactly if the entry fills the capacity by itself, and then empties the queue it reads next |
| RingbufferPackers.EntryAsLargeAsCapacity | include/binary_log/detail/ringbuffer_packer.hpp:56-60 | four bytes into a ring of four do so |
| RingbufferPackers.RingbufferPacker.DropOldest | include/binary_log/detail/ringbuffer_packer.hpp:57-67 | one round evicts one entry and keeps the suffix invariant |
| RingbufferPackers.RingbufferPacker.MakeRoom | include/binary_log/detail/ringbuffer_packer.hpp:56-68 | eviction ends with the queue non-empty and room for the input; the last entry dropped could not have been kept |
| RingbufferPackers.RingbufferPacker.BufferOrWrite | include/binary_log/detail/ringbuffer_packer.hpp:50-75 | all bytes ever written grow by the input, and the retained bytes stay their suffix, below capacity |
| RingbufferPackers.RingbufferPacker.PackFormatStringIndex | include/binary_log/detail/ringbuffer_packer.hpp:272-315 | a new entry offset is queued, the codec steps as in the file packer, or the packer aborts exactly when the record does not fit |
| RingbufferPackers.RingbufferPacker.WriteCurrentRunlengthToRunlengthFile | include/binary_log/detail/ringbuffer_packer.hpp:251-270 | writes the record, or aborts exactly when it does not fit |
| RingbufferPackers.RingbufferPacker.UpdateLogFile | include/binary_log/detail/ringbuffer_packer.hpp:317-321 | all non-constant arguments are written, possibly evicting older entries |
| RingbufferPackers.RingbufferPacker.WriteEntry | include/binary_log/binary_log.hpp:60-69 | the index buffer grows by one whole entry, or the packer aborts exactly when it does not fit |
| RingbufferPackers.RingbufferPacker.FlushAll | include/binary_log/detail/ringbuffer_packer.hpp:147-157 | the codec's flush, or an abort exactly when the record does not fit |
| BinaryLogs.BinaryLog.LogIndex | include/binary_log/binary_log.hpp:45-72 | one whole entry is written, and the number returned is the counter before, modulo 256 |
| BinaryLogs.BinaryLog.Log | include/binary_log/binary_log.hpp:74-95 | one call steps the codec, even where the packing of all-constant arguments is skipped |
| BinaryLogs.ConstantsLeaveNothing | include/binary_log/detail/packer.hpp:292-298 | a call whose arguments are all constants has no bytes |
| BinaryLogs.Program.LogCall | include/binary_log/binary_log.hpp:103-113 | a call site registers on its first call only, and logs with the number it got then |
| Unpacker.IndexFileParser.ParseEntry | tools/unpacker/index_file_parser.hpp:48-102 | the cursor and table move exactly as the parse of one entry says |
| Unpacker.IndexFileParser.Parse | tools/unpacker/index_file_parser.hpp:116-122 | the table returned is the specification's, for any file |
| Unpacker.LogFileParser.ParseHeader | tools/unpacker/log_file_parser.hpp:90-121 | which index and run length the two cursors give, and where they move |
| Unpacker.LogFileParser.PrintRun | tools/unpacker/log_file_parser.hpp:137-173 | one run is printed as decoded |
| Unpacker.LogFileParser.ParseAndPrint | tools/unpacker/log_file_parser.hpp:255-261 | what is printed is the decoding of the two files, for any files; the log is read to its end, and what is left of the run-length file is what the decoding leaves |
| EndToEnd.UnpackedExactly | include/binary_log/binary_log.hpp:45-95 | for every sequence of calls and flushes over at most 256 sites: unpacking the three streams gives exactly the logged calls with their table rows, in order, if and only if the sequence is readable, and then both streams are read to the end |
| EndToEnd.ExpectedMeans | tools/unpacker/log_file_parser.hpp:137-227 | the entries to be found print as the format strings, numbers and strings of the calls |
| EndToEnd.PrintedExactly | tools/unpacker/log_file_parser.hpp:137-173 | the printed lines are the logged calls' format strings, numbers and strings if the sequence is readable; where no two sites share a format string, only then |
| EndToEnd.RunProgram | include/binary_log/binary_log.hpp:103-113 | running a program leaves the streams of all its calls and the table of all its sites |
| EndToEnd.Session | tools/unpacker/log_file_parser.hpp:255-261 | both results with the classes, and for every program what its streams unpack to: log through the buffers, flush, read the files back |
| SharedFormats.SameStreams | tools/unpacker/log_file_parser.hpp:101-115 | the calls A B A A and A A B A without arguments leave the same streams |
| SharedFormats.TheftDoesNotShow | tools/unpacker/log_file_parser.hpp:101-115 | A B A A at two sites of one format string: not readable, and yet printed right |
| PackersAgree.RetainedExactly | include/binary_log/detail/ringbuffer_packer.hpp:56-68 | an entry is gone if and only if it began a capacity or more ago |
| PackersAgree.RingHolds | include/binary_log/detail/ringbuffer_packer.hpp:50-75 | the ring's bytes are the log from the oldest entry that began less than a capacity ago |
| PackersAgree.RunRing | include/binary_log/detail/ringbuffer_packer.hpp:272-321 | over every sequence of registrations and calls that each fit, the ring packer follows the codec and the index, or aborts exactly when the index or run-length buffer is full |
| PackersAgree.RunFile | include/binary_log/detail/packer.hpp:330-374 | over every sequence of registrations and calls the file packer follows the codec and the index |
| PackersAgree.RunBoth | include/binary_log/detail/ringbuffer_packer.hpp:251-315 | after the same registrations and calls and a flush the files are what index layout and codec say; the ring aborts exactly when index or run-length bytes reach its buffer sizes; else both have the same index and run-length bytes, and the ring holds the newest part of the file's log, all of it if nothing was evicted |
| Convolution.ConvIsProduct | tools/unpacker/fmt/format-inl.h:564-584 | the sum of convolution terms at their places is the product |
| Convolution.AddExact | tools/unpacker/fmt/format-inl.h:360-363 | the two-word accumulator adds like one 128-bit sum |
| Convolution.ShiftExact | tools/unpacker/fmt/format-inl.h:356-369 | and shifts by a word like one |
| Bigints.Bigint.Multiply | tools/unpacker/fmt/format-inl.h:417-426 | the value is multiplied by a 32-bit number |
| Bigints.Bigint.MultiplyWide | tools/unpacker/fmt/format-inl.h:428-446 | and by a 64-bit number, without overflow of the carry |
| Bigints.Bigint.Assign | tools/unpacker/fmt/format-inl.h:455-461 | a copy, digit for digit |
| Bigints.Bigint.AssignInt | tools/unpacker/fmt/format-inl.h:463-471 | the value is n, in at most two normalised digits |
| Bigints.Bigint.ShiftLeft | tools/unpacker/fmt/format-inl.h:477-490 | the value is multiplied by a power of two |
| Bigints.Bigint.RemoveLeadingZeros | tools/unpacker/fmt/format-inl.h:399-404 | zeros at the top go, the value stays |
| Bigints.Bigint.Compare | tools/unpacker/fmt/format-inl.h:498-512 | the sign of the difference, except that equal values are ordered by the number of stored digits |
| Bigints.CompareIsSign | tools/unpacker/fmt/format-inl.h:498-512 | for normalised operands that is the sign of the difference if and only if neither is the other with zeros appended below; non-zero lowest digits are enough |
| Bigints.TieBroken | tools/unpacker/fmt/format-inl.h:604 | the dividend compares as less than an equal divisor exactly where the divisor is the dividend with zeros appended below; never if the divisor's lowest digit is not zero |
| Bigints.EqualButGreater | tools/unpacker/fmt/format-inl.h:510 | 2^32 as two digits and as one digit with exponent 1: equal, and compared as 1 |
| Bigints.Bigint.AddCompare | tools/unpacker/fmt/format-inl.h:515-536 | the sign of lhs1 + lhs2 - rhs, with all early exits |
| Bigints.Bigint.Square | tools/unpacker/fmt/format-inl.h:558-584 | the exact square |
| Bigints.Bigint.AssignPow10 | tools/unpacker/fmt/format-inl.h:539-556 | exactly 10 to the exponent, for every exponent below 2^30 |
| Bigints.Bigint.Align | tools/unpacker/fmt/format-inl.h:587-600 | the exponents meet, the value stays |
| Bigints.Bigint.SubtractBits | tools/unpacker/fmt/format-inl.h:393-397 | one digit and the borrow out of it |
| Bigints.Bigint.SubtractAligned | tools/unpacker/fmt/format-inl.h:406-415 | the difference, up to the exact error of the trailing borrow loop that does not move |
| Bigints.StuckBorrow | tools/unpacker/fmt/format-inl.h:413 | 1 taken from 2^64, two digits longer, leaves too much by (2^32 - 1) 2^32 |
| Bigints.Bigint.DivmodAssign | tools/unpacker/fmt/format-inl.h:602-617 | the quotient returned and the remainder left account for the dividend; they are those of integer division if and only if the divisor is not the dividend with zeros appended below |
| FormatDragon.FinerUnit | tools/unpacker/fmt/format-inl.h:2299-2310 | moving the unit of a value by powers of ten multiplies its fraction by them |
| FormatDragon.SetUp | tools/unpacker/fmt/format-inl.h:2223-2267 | numerator and denominator are the value over its power of ten, in all three branches, and comparable |
| FormatDragon.LeadingDigits | tools/unpacker/fmt/format-inl.h:2306-2311 | the digits so far and the remainder account for the whole value |
| FormatDragon.CarryNines | tools/unpacker/fmt/format-inl.h:2315-2327 | carrying keeps the number, or leaves a tenth of it when all digits were nines |
| FormatDragon.LastDigit | tools/unpacker/fmt/format-inl.h:2312-2331 | the last digit and the carry leave the value rounded half to even |
| FormatDragon.NoDigits | tools/unpacker/fmt/format-inl.h:2299-2305 | without digits, one digit says whether the value rounds up to the next power of ten |
| FormatDragon.FormatDragon | tools/unpacker/fmt/format-inl.h:2220-2332 | exactly the digits asked for, the value rounded at their last place, to nearest, ties to even; the exponent is that place, one more only where nines were carried, and for no digits the next power of ten's |
| FormatDragon.AnswerUnique | tools/unpacker/fmt/format-inl.h:2220-2332 | one string of digits and one exponent meet that |
| Grisu.RoundDirectionExact | tools/unpacker/fmt/format-inl.h:622-637 | up or down is answered exactly when that neighbour is right for the whole error interval, unknown exactly when no multiple of the unit is |
| Grisu.WholeIntervalCorrect | tools/unpacker/fmt/format-inl.h:686-691 | integer bounds on the interval's ends mean every real number inside is within half a unit |
| Grisu.GenDigitsHandler.RoundUp | tools/unpacker/fmt/format-inl.h:671-681 | one more in the last place; a fixed format grows by a digit, the others scale by ten |
| Grisu.GenDigitsHandler.OnDigit | tools/unpacker/fmt/format-inl.h:654-683 | more, done or error, each under its exact condition; done leaves digits right for the whole interval, a rounding error means no digits are |
| Grisu.IntegralDigits | tools/unpacker/fmt/format-inl.h:720-770 | the digits written and the rest account for the whole value, all in 64 bits; an error is undecided at its place |
| Grisu.FractionalDigits | tools/unpacker/fmt/format-inl.h:771-780 | the same after the point, where an error may also be as large as the rest; the loop ends after at most 18 further digits |
| Grisu.NoDigitsOf | tools/unpacker/fmt/format-inl.h:704-718 | a fixed precision that ends above the first digit is answered by nothing, 0 or 1, rightly for the whole interval; an error exactly where the value is too near to half |
| Grisu.GrisuGenDigits | tools/unpacker/fmt/format-inl.h:691-781 | on done, the digits are within half a unit of the last place of every real within the error of the input, as many and at the place asked for, with or without digits; on error, exactly where the target place is undecided or out of reach, the exponent handed on is the value's |
| Grisu.CorrectUnique | tools/unpacker/fmt/format-inl.h:691-781 | one string of digits, one exponent and one power of ten meet that |
| TrailingZeros.ModularInverse | tools/unpacker/fmt/format-inl.h:950-996 | multiplying by the inverse modulo a power of two gives at most the largest quotient if and only if the divisor divides, and is then the quotient |
| TrailingZeros.Entry32 | tools/unpacker/fmt/format-inl.h:959-965 | every entry of the 32-bit table is such an inverse and such a bound |
| TrailingZeros.Entry64 | tools/unpacker/fmt/format-inl.h:970-994 | the same for the 64-bit table |
| TrailingZeros.DivisibleByPowerOf5In32 | tools/unpacker/fmt/format-inl.h:957-967 | true exactly for the multiples of the power of five |
| TrailingZeros.DivisibleByPowerOf5In64 | tools/unpacker/fmt/format-inl.h:968-996 | the same for 64 bits |
| TrailingZeros.RemoveTrailingZeros32 | tools/unpacker/fmt/format-inl.h:1923-1948 | the input is the result followed by s zeros, as many as there are, up to 7 |
| TrailingZeros.RemoveTrailingZeros64 | tools/unpacker/fmt/format-inl.h:1951-2032 | the same up to 16, for every input up to (2^64 - 1) / 1000 |
| TrailingZeros.FromQuotient | tools/unpacker/fmt/format-inl.h:1969-1984 | more than eight zeros: the 32-bit quotient is shortened further |
| TrailingZeros.FromRemainder | tools/unpacker/fmt/format-inl.h:1986-2031 | fewer: the chain of eight returns stops at the right one |
| Integers.CountDigitsFallback | tools/unpacker/fmt/format.h:914-926 | the loop returns the number of decimal digits |
| Integers.RowCounts | tools/unpacker/fmt/format.h:940-951 | a table row and one comparison decide the number of digits of every number of that bit length |
| Integers.DoCountDigits64 | tools/unpacker/fmt/format.h:937-952 | equals the number of decimal digits for every 64-bit number |
| Integers.DoCountDigits32 | tools/unpacker/fmt/format.h:988-1007 | the same for every 32-bit number, by the carry into the upper half |
| Integers.DecimalDenotes | tools/unpacker/fmt/format.h:1083-1104 | the decimal representation has proper digits that denote n and no superfluous zero |
| Integers.FormatDecimal | tools/unpacker/fmt/format.h:1083-1104 | the decimal representation, right-aligned, and nothing else in the buffer changes |
| Integers.ParseNonnegativeInt | tools/unpacker/fmt/core.h:2247-2268 | consumes the whole run of digits; its value if it has at most ten digits and is at most 2^31 - 1, else the error value, although the arithmetic wraps |
| Integers.IntHas31Bits | tools/unpacker/fmt/core.h:2247-2268 | the greatest int is 2^31 - 1 |
| Integers.ParsesWhatIsPrinted | tools/unpacker/fmt/core.h:2247-2268 | parsing what was printed, in any surroundings, gives the number back exactly below 2^31 |
| IsoWeek.YearWeeks | tools/unpacker/fmt/chrono.h:946-957 | the number of weeks is that of the year's Thursdays from year 0 on, and always 52 before |
| IsoWeek.WeekOfDate | tools/unpacker/fmt/chrono.h:958-975 | for every date of every year: week and week-year are those of the week's Thursday, if and only if that is not week 53 of a year before 0 |
| IsoWeek.WeekFromYearOne | tools/unpacker/fmt/chrono.h:962-975 | from year 1 on they always are |
| IsoWeek.LongYearMissed | tools/unpacker/fmt/chrono.h:946-957 | a date on which they are not |
| DecimalLiteral.PostDecimalPointGreedy | tools/unpacker/argparse.hpp:719-720 | a digit sequence with an optional exponent is recognised by taking all digits first |
| DecimalLiteral.PostEGreedy | tools/unpacker/argparse.hpp:726-730 | the same for sign and digits of an exponent |
| DecimalLiteral.IsDecimalLiteral | tools/unpacker/argparse.hpp:704-844 | accepts exactly the strings derivable from the grammar, of any length |

## Left out

- File opening, buffering of the C library, path handling and memory mapping: files are byte sequences.
- `fmt::print`, `vformat` and `update_store`: the result of unpacking is the list of lines, each a format string and its argument values; floats and doubles are opaque 4- and 8-byte values, a `char` counts as its byte, and 128-bit integers, which have enumerators but no overloads, may be logged.
- Overloads and templates: an argument is a tagged value; constants are passed as temporaries and stay the same at one call site, and a call site uses one logger.
- More than 256 call sites: the number of a site is its position modulo 256, and `EndToEnd` assumes they are distinct. Counts of 2^64 calls and more.
- Malformed files: where the parsers would read past the end, the specification says `None`; the code has no check there.
- What the ring buffer's bytes decode to after an eviction: the index of a run may be gone with its first entry.
- The single-header copy under `single_include/`, whose flush differs.
- EndToEnd.PrintedExactly: where sites share a format string, it is not said which unreadable programs happen to be printed right.
- RingbufferPackers.RingbufferPacker.BufferOrWrite: requires that the entry being written fits below the capacity; `RingbufferPackers.OwnOffsetPopped` shows what becomes of the queue otherwise.
- Bigints.Bigint.DivmodAssign: asks for a normalised divisor and a dividend at most one digit longer, as every caller has them; a longer one can meet the stuck borrow of `Bigints.StuckBorrow`.
- Bigints.Bigint.AssignPow10: the assertion in the destructor that a bigint never outgrew its 32 inline digits (tools/unpacker/fmt/format-inl.h:449) is not modelled; digits are an unbounded sequence.
- FormatDragon.FormatDragon: asks for an exponent that is exactly the value's, as its caller intends; the shortest mode with lower and upper bounds is not modelled.
- Grisu.GrisuGenDigits: the scaling by cached powers of ten before it, and the claim that their error is at most 1, are not modelled.
- Integers.FormatDecimal: the 200-character literal of digit pairs is replaced by the two digits it holds.
- Dragonbox, locales, wide characters, the other parts of fmt and argparse, benchmarks, examples and build files.
