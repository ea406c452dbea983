# Verified models of codecs and state machines of the mail and chat clients

This project models the parts of the repository whose correctness rests on bit regrouping, resumable
state, strided slices or lists kept in step with each other, and proves properties of them. It is
written in Dafny 4.11; `dafny verify dfyconfig.toml` checks all of it.

* **UTF-7 and Modified UTF-7** (`Utf7*.dfy`, `Buffers.dfy`; `mailnews/intl`). Encoder and decoder are
  classes with the fields of the original that write into an array. Each method is proved against
  functions on sequences (`Utf7EncoderSpec`, `Utf7DecoderSpec`). About those it is proved that a stopped
  call can be resumed with any buffer sizes, that every text of 16-bit units survives any splitting on
  either side, and that the encoder produces exactly the encoding of RFC 2152 (Rules 1 to 3) and RFC 3501
  (section 5.1.3), written down separately as base64 (RFC 2045, section 6.8) of maximal runs over the
  standards' own alphabets and char sets as literals (`Utf7Standard`). The decoder is proved to read every
  text of RFC 2152, not only the encoder's own (`Utf7AnyText`), and what it makes of any bytes at all is
  stated without its states (`Utf7AnyBytes`).
* **PNG samples** (`Png*.dfy`, `PySlices.dfy`, `Arithmetic.dfy`; `im/app/png.py`). Packing, the five
  filters of section 9.2 of the PNG specification, Adam7 (section 8.2), re-chunking, chunk framing
  (section 5.3), headers, palettes and depth rescaling (section 12.5). Writer and reader are proved inverse
  for every size, every depth and every legal number of planes, interlaced or not, down to whole files:
  a written file reads back exactly under two conditions on its options and one on its chunks
  (`PngFile.WrittenFileIsRead`). Since a round trip says nothing about an error made on both sides, filters,
  filter unit, packing, passes, chunk layout and rescaling are also stated in plain arithmetic or against
  literals of the specification (`PngFilter.FilteredExactly`, `PngPacking.PackedLayout`, `PngPattern`,
  `PngRescale.RescaleIsNearest`).
* **ConfigObj** (`Interpolation*.dfy`, `Section*.dfy`; `config/configobj.py`). Interpolation with its
  backtrail is proved to be full substitution, with an exact condition for its loop error, and a look-up to
  stop at the nearest section that has the key; section trees survive printing and parsing, and what any
  lines are read as is said without the parser's state (`SectionReading`); a section's key lists and comment
  tables stay in agreement.
* **Tree view** (`TreeView*.dfy`; `im/content/jsTreeView.js`). The row array is always the listing of the
  forest under its open flags: exactly the items below open ones, in their order (`TreeViewOrder`).
* **Search-engine manager** (`EngineLog.dfy`, `EngineManager.dfy`; `im/content/engineManager.js`). The
  recorded operations, replayed on the service's list, always give the list the user sees.
* **Conversation list** (`ConvOrder.dfy`, `ConvList.dfy`; `im/components/ibConvStatsService.js`). The
  sorted list and the maps that index it agree after every event.

`Lists.dfy` and `Wrappers.dfy` hold the shared list functions and result types.

## Where the code does not do what one expects

Each of these is modelled as the code has it and settled by a lemma or a contract.

* The encoder asks for one free byte before it writes the two bytes of an escaped escape character
  (`nsUnicodeToUTF7.cpp:87`). The buffer is overrun by exactly one byte, exactly when the modified variant
  meets its escape character with one byte left (`Utf7EncoderSpec.OverrunExactly`, `OverrunExample`). The
  array of the modified variant is therefore one byte longer than the capacity it is called with.
* The decoder writes the escape character of an escape sequence without looking at its capacity
  (`nsUTF7ToUnicode.cpp:178`): `Utf7DecoderSpec.OverrunExactly`, `OverrunExample`. With a capacity of one
  unit per byte, as the constructor announces, it never happens.
* `filter_scanline` returns the bare line for "up" on a first line, without the filter-type byte
  (`png.py:1048`). A straight stream can be read back exactly when its first line does not use that filter
  (`PngStraight.FirstLineUpIsUnreadable`), an interlaced one exactly when no pass uses it on its first row
  (`PngTruncated.FirstUpIsUnreadable`).
* A writer with a palette takes a background of three values and up to 256 colours at any depth, but the
  reader expects one background byte and no more colours than the depth has values (`png.py:713`,
  `png.py:1800`, `png.py:1809`). Everything else the writer lets through is read
  (`PngMetadata.MetadataIsReadExactly`).
* A chunk of 2**31 bytes or more is written but refused by the reader; a file reads back exactly when no
  IDAT chunk is that long (`PngFile.FileRoundTrip`).
* `pop` interpolates a value that has left its section and may report a loop where there is none
  (`InterpolationMeaning.PopReportsFalseLoop` is an example). A value with a full expansion is refused exactly
  when a chain of its references leads to an option with the mark of the one interpolated, that is, with
  its key and found at a section with the owner's name (`FalseLoopExactly`, `PopIsExact`). An option that can
  be read is popped with the same result, and options read in place never get the false error
  (`PopIsExact`, `GetItemIsExact`).
* `_restoreOpenStates` inverts the flags of the persisted items it meets instead of setting them. From any
  view it shows the items that were either open or persisted but not both, so the rows are those of the
  persisted items exactly when no container shown there was open before
  (`TreeView.View.RestoreOpenStates`, `RestoresPersistedExactly`). Its callers (`abTrees.js`, `_rebuild`)
  use it on newly made, closed items, where it does what its name says; on a view whose persist map is in
  step with its flags it would close everything.
* Setting a new key to a refused value, and renaming a key to another existing key, break the agreement of
  the key lists (`SectionKeys.Section.SetItem`, `Rename` say exactly when).
* `_removeChatsForAccount` drops queued chats only if the account already has a chat in the list
  (`ConvList.ConvStatsService.RemoveChatsForAccount`), and `contact-no-longer-dummy` keeps list and map in
  agreement exactly when the new number was free (`ContactNoLongerDummy`).
* Repositioning two changed conversations can leave the list unsorted (`ConvOrder.RepositionTwoExample`);
  one conversation is repositioned correctly exactly when the others are in order (`RepositionSortsExactly`),
  several exactly when at some turn all but the one of that turn are (`ConvList.RepositionAllSortsExactly`).
* A wrong PNG signature is remembered as if it had been checked, so only the first call fails
  (`PngChunks.Reader.ValidateSignature`), and a file that ends inside a checksum raises `NameError`, not
  the intended `ValueError` (`png.py:1398`).

## Model

| member | source | states |
|---|---|---|
| Utf7Alphabet.Variant.AlphabetInverse | mailnews/intl/nsUnicodeToUTF7.cpp:183-196 | reading the char written for a six-bit value gives the value, in both variants |
| Utf7Alphabet.Variant.AlphabetExact | mailnews/intl/nsUTF7ToUnicode.cpp:140-153 | a char has a value below 64 exactly when it is the char of that value, and 0xffff otherwise; '-' is outside the alphabet |
| Utf7Standard.ValueToCharIsStandard | mailnews/intl/nsUnicodeToUTF7.cpp:183-196 | the char written for every value is that of the standard's own alphabet string, the last one '/' in the plain and ',' in the modified variant |
| Utf7Standard.CharToValueIsStandard | mailnews/intl/nsUTF7ToUnicode.cpp:140-153 | the value read for any byte is its place in that string, or 0xffff if it does not occur there |
| Utf7Standard.OutsideAlphabet | mailnews/intl/nsUTF7ToUnicode.cpp:140-153 | a byte ends a run exactly when it is none of the 64 chars of the string |
| Utf7Standard.Escape | mailnews/intl/nsUnicodeToMUTF7.cpp:11-14 | the escape char is '+' in the plain and '&' in the modified variant |
| Utf7Standard.IsDirect | mailnews/intl/nsUnicodeToUTF7.cpp:277-299 | the direct chars are, in the modified variant, printable ASCII, and in the plain one letters, digits, set D, blanks and eight chars of set O as RFC 2152 lists them |
| Utf7Encoder.BasicUtf7Encoder.constructor | mailnews/intl/nsUnicodeToUTF7.cpp:18-24 | a new encoder is in direct mode with nothing pending |
| Utf7Encoder.BasicUtf7Encoder.Reset | mailnews/intl/nsUnicodeToUTF7.cpp:260-266 | back to direct mode with nothing pending |
| Utf7Encoder.BasicUtf7Encoder.ShiftEncoding | mailnews/intl/nsUnicodeToUTF7.cpp:26-64 | flushes the pending bits and writes the mark as far as there is room; bytes, state and status of every stop |
| Utf7Encoder.BasicUtf7Encoder.EncodeDirect | mailnews/intl/nsUnicodeToUTF7.cpp:66-110 | writes direct units up to the first that is not, with the one-byte check of line 87 |
| Utf7Encoder.BasicUtf7Encoder.EncodeDirectUnit | mailnews/intl/nsUnicodeToUTF7.cpp:80-102 | one turn: the unit, or the escape char and '-' behind a check for one free byte |
| Utf7Encoder.BasicUtf7Encoder.EncodeBase64 | mailnews/intl/nsUnicodeToUTF7.cpp:112-181 | the loop writes what the run of non-direct units encodes to and stops where the room ends |
| Utf7Encoder.BasicUtf7Encoder.EncodeBase64Unit | mailnews/intl/nsUnicodeToUTF7.cpp:132-174 | one turn of the three-step cycle: two or three chars, and the bits left pending |
| Utf7Encoder.BasicUtf7Encoder.ConvertNoBuffNoErr | mailnews/intl/nsUnicodeToUTF7.cpp:207-252 | one call writes the bytes, consumes the units and leaves the state of the unit-by-unit specification, touches nothing else, and overruns by one byte exactly in the described case |
| Utf7Encoder.BasicUtf7Encoder.FinishNoBuff | mailnews/intl/nsUnicodeToUTF7.cpp:254-258 | ends base64 mode within the capacity, or stops so that it can be called again |
| Utf7EncoderSpec.ConvertOneRun | mailnews/intl/nsUnicodeToUTF7.cpp:222-247 | a call is the mode switch and one run of units in that mode followed by the same call on the rest, and every such turn that succeeds consumes something |
| Utf7EncoderSpec.ConvertByRuns | mailnews/intl/nsUnicodeToUTF7.cpp:222-247 | the two inner loops together do what the unit-by-unit specification does |
| Utf7EncoderSpec.ShiftResumes | mailnews/intl/nsUnicodeToUTF7.cpp:26-64 | a mode switch that ran out of room, even between the pending bits and the mark, leaves the state from which exactly the missing bytes follow |
| Utf7EncoderSpec.ConvertResumes | mailnews/intl/nsUnicodeToUTF7.cpp:112-181 | for every capacity, what a stopped call wrote followed by what the unread units still encode to is the unbounded encoding |
| Utf7EncoderSpec.ConvertProgresses | mailnews/intl/nsUnicodeToUTF7.cpp:207-252 | with three free bytes a call always writes something |
| Utf7EncoderSpec.ConvertFills | mailnews/intl/nsUnicodeToUTF7.cpp:207-252 | a call stops early only when the room left is smaller than what the next unit needs |
| Utf7EncoderSpec.OverrunExactly | mailnews/intl/nsUnicodeToUTF7.cpp:83-98 | no call writes more than one byte too many, and it does so exactly when an escape char is reached with one byte left |
| Utf7EncoderSpec.OverrunExample | mailnews/intl/nsUnicodeToUTF7.cpp:87-91 | a concrete call that overruns its buffer |
| Utf7EncoderSpec.Base64Values | mailnews/intl/nsUnicodeToUTF7.cpp:132-174 | every value handed to ValueToChar is below 64, two values at the start of the cycle and three otherwise |
| Utf7Reference.EncoderMeetsStandard | mailnews/intl/nsUnicodeToUTF7.cpp:207-258 | a text with its end marked is the standard's encoding, defined over the literal alphabets: direct chars as they are, every maximal run of other units as one non-empty base64 run of its octets between the marks, so no two runs touch |
| Utf7Reference.TextOfRun | mailnews/intl/nsUnicodeToUTF7.cpp:112-181 | a text without direct chars is base64 of its octets between the two marks |
| Utf7Reference.StandardExample | mailnews/intl/nsUnicodeToUTF7.cpp:207-258 | the example of RFC 3501, U+53F0 U+5317, is written `&U,BTFw-` |
| Utf7Reference.FiveBytesPerUnit | mailnews/intl/nsUnicodeToUTF7.cpp:18-24 | the announced bound: five bytes per unit, end included |
| Utf7AnyText.Base64IsRun | mailnews/intl/nsUnicodeToUTF7.cpp:132-174 | base64 of the octets of any units is the three-step cycle unit by unit with the pending bits at the end |
| Utf7AnyText.RunDecodes | mailnews/intl/nsUTF7ToUnicode.cpp:60-138 | a base64 run of any units, direct ones included, reads back as these units without a '-' |
| Utf7AnyText.AnyTextDecodes | mailnews/intl/nsUTF7ToUnicode.cpp:158-212 | every text of the standard, over the literal alphabets, decodes to what it stands for: direct chars in base64, runs ended by '-', by a char outside the alphabet or by the end of the text, and escaped escape chars |
| Utf7AnyText.ReferenceIsText | mailnews/intl/nsUnicodeToUTF7.cpp:207-258 | the encoder's text is one of these, with maximal runs |
| Utf7AnyBytes.RunReads | mailnews/intl/nsUTF7ToUnicode.cpp:60-138 | any sextets, a multiple of eight or not, give three units for eight of them, each a sum of its sextets times powers of two; what completes no unit is dropped |
| Utf7AnyBytes.AnyBytesRead | mailnews/intl/nsUTF7ToUnicode.cpp:158-212 | what the decoder makes of every byte string, legal or not, said without its states: direct bytes, runs of alphabet chars, the '-' behind them, and the escaped escape char |
| Utf7Session.EncoderRunIsEncode | mailnews/intl/nsUnicodeToUTF7.cpp:207-252 | over any interleaving of input arriving and calls with any capacities, bytes written and bytes still owed make up the encoding of everything supplied |
| Utf7Session.EncoderDrains | mailnews/intl/nsUnicodeToUTF7.cpp:207-252 | calls with three free bytes each consume everything after at most as many calls as there are bytes |
| Utf7Session.FinishIsShift | mailnews/intl/nsUnicodeToUTF7.cpp:254-258 | finishing in any number of calls writes the end of the run once, and two calls with one free byte suffice |
| Utf7Decoder.BasicUtf7Decoder.constructor | mailnews/intl/nsUTF7ToUnicode.cpp:14-20 | a new decoder is in direct mode; the fresh flag is not initialised |
| Utf7Decoder.BasicUtf7Decoder.Reset | mailnews/intl/nsUTF7ToUnicode.cpp:214-220 | back to direct mode; the fresh flag keeps its value |
| Utf7Decoder.BasicUtf7Decoder.DecodeDirect | mailnews/intl/nsUTF7ToUnicode.cpp:22-58 | copies bytes up to the escape char or the end of the room |
| Utf7Decoder.BasicUtf7Decoder.AcceptSextet | mailnews/intl/nsUTF7ToUnicode.cpp:84-127 | one of the eight steps: a unit is written if the sextet completes one and there is room, otherwise nothing changes |
| Utf7Decoder.BasicUtf7Decoder.DecodeBase64 | mailnews/intl/nsUTF7ToUnicode.cpp:60-138 | reads sextets up to the first char outside the alphabet or the end of the room |
| Utf7Decoder.BasicUtf7Decoder.ConvertTurn | mailnews/intl/nsUTF7ToUnicode.cpp:170-206 | one turn of the outer loop, with the mode change it ends in |
| Utf7Decoder.BasicUtf7Decoder.ConvertNoBuff | mailnews/intl/nsUTF7ToUnicode.cpp:158-212 | one call writes, consumes and leaves what the byte-by-byte specification says, never fails, consumes everything unless it ran out of room, and overruns exactly in the described case |
| Utf7DecoderSpec.NoCarry | mailnews/intl/nsUTF7ToUnicode.cpp:84-127 | adding a sextet below bits that are zero does not carry and keeps the lower bits zero |
| Utf7DecoderSpec.AcceptKeepsBits | mailnews/intl/nsUTF7ToUnicode.cpp:84-127 | the pending bits stay below 2^16 with the unfilled low bits zero |
| Utf7DecoderSpec.AcceptIsLossless | mailnews/intl/nsUTF7ToUnicode.cpp:92-126 | the cast to 16 bits drops nothing and no sum carries into bits already read |
| Utf7DecoderSpec.DecodeConcat | mailnews/intl/nsUTF7ToUnicode.cpp:158-212 | decoding two pieces one after the other is decoding them together |
| Utf7DecoderSpec.ConvertResumes | mailnews/intl/nsUTF7ToUnicode.cpp:170-211 | for every capacity a stopped call can be resumed without loss; no byte string is illegal; never more units than bytes |
| Utf7DecoderSpec.ConvertProgresses | mailnews/intl/nsUTF7ToUnicode.cpp:14-20 | one free unit suffices to make progress, and a unit per byte to consume everything |
| Utf7DecoderSpec.ConvertFills | mailnews/intl/nsUTF7ToUnicode.cpp:158-212 | a call stops early only when the buffer is full and the next byte completes a unit |
| Utf7DecoderSpec.ConvertOneTurn | mailnews/intl/nsUTF7ToUnicode.cpp:170-207 | the mode-switching loop is the byte-by-byte specification, and every turn reads a byte or leaves base64 mode |
| Utf7DecoderSpec.OverrunExactly | mailnews/intl/nsUTF7ToUnicode.cpp:177-182 | a call writes more units than it has room for exactly when '-' right after the escape char meets a full buffer |
| Utf7DecoderSpec.OverrunExample | mailnews/intl/nsUTF7ToUnicode.cpp:178-180 | a concrete call that does |
| Utf7RoundTrip.RoundTrip | mailnews/intl/nsUTF7ToUnicode.cpp:158-212 | decoding an encoded text from any decoder in direct mode gives the text and ends in direct mode, for every sequence of 16-bit units and both variants |
| Utf7RoundTrip.EncodeTextIsInjective | mailnews/intl/nsUnicodeToUTF7.cpp:207-258 | different texts have different encodings |
| Utf7RoundTrip.UnitSynced | mailnews/intl/nsUnicodeToUTF7.cpp:132-174 | the three-step cycle and the eight-step cycle stay in step: after every unit the decoder has everything but the unit whose last bits are still pending |
| Utf7Session.DecoderRunIsDecode | mailnews/intl/nsUTF7ToUnicode.cpp:158-212 | over any interleaving of bytes arriving and calls, units written and units still owed make up the decoding of everything supplied |
| Utf7Session.EndToEnd | mailnews/intl/nsUTF7ToUnicode.cpp:158-212 | a text encoded in arbitrary calls, finished, and decoded in arbitrary calls comes out unchanged |
| PngFilter.PaethIsNearest | im/app/png.py:1029-1035 | the Paeth predictor is a neighbour nearest to the initial estimate, ties broken left, above, upper left |
| PngFilter.MeanRoundsDown | im/app/png.py:1011-1015 | the average predictor is the greatest integer not above half the sum |
| PngFilter.FilteredExactly | im/app/png.py:982-1063 | a scanline and a line belong together exactly when every byte satisfies the equation of section 9.2 for the filter type, in plain arithmetic on the neighbours: for filtering and for undoing, all five types |
| PngFilter.FilterLine | im/app/png.py:982-1063 | filtering a line, with the special cases of a first line, gives the filtered form of the specification |
| PngFilter.PaethFilter | im/app/png.py:1018-1039 | the Paeth loop predicts every byte from its unfiltered neighbours |
| PngFilter.UndoFilter | im/app/png.py:1430-1540 | undoing a filter in place gives the reconstructed line, and unknown filter types are refused |
| PngFilter.UndoPaeth | im/app/png.py:1511-1535 | the Paeth loop predicts every byte from bytes it has already reconstructed |
| PngFilter.UnfilterInvertsFilter | im/app/png.py:1430-1540 | undoing any filter restores the line, for any previous line and any filter unit |
| PngFilter.FilterInvertsUnfilter | im/app/png.py:982-1063 | every scanline is the filtered form of the line it is undone to |
| PngFilter.PaethIsSubOnFirstLine | im/app/png.py:1051-1052 | without a previous line Paeth and Sub are the same |
| PngFilter.ZeroLineAbove | im/app/png.py:1049-1050 | a line of zeros above is as good as none when filtering |
| PngFilter.ZeroLineAboveUndone | im/app/png.py:1473-1474 | and when undoing a filter |
| PngPacking.Extend | im/app/png.py:725-749 | the extend function of every bit depth appends the packed row |
| PngPacking.PackGroups | im/app/png.py:738-749 | padding, grouping and folding give the packed row of depths 1, 2 and 4 |
| PngPacking.ReduceGroup | im/app/png.py:747-748 | the reduction of a group is its bits side by side |
| PngPacking.DecomposeWords | im/app/png.py:730-732 | 16-bit samples become two bytes each, the high one first |
| PngPacking.PackedLength | im/app/png.py:740-749 | a packed row has the least number of bytes that holds its bits |
| PngPacking.ByteCountIsLeast | im/app/png.py:1783 | the bytes of a row are the least whole number that holds its bits |
| PngPacking.PackedLayout | im/app/png.py:725-749 | where every sample of a packed row is: its byte, or two with the high one first, or its bits counted from the high end |
| PngPacking.PaddingIsZero | im/app/png.py:738-744 | the bits behind the last sample are zero, and fewer than a byte |
| PngPacking.SampleAt | im/app/png.py:1600-1618 | unpacking any bytes takes each sample from its bits, high end first |
| PngPacking.WordAt | im/app/png.py:1605-1607 | and 16-bit samples from two bytes, high one first |
| PngPacking.ToValues | im/app/png.py:1600-1618 | the bit extraction of asvalues, cut at the width |
| PngPacking.ToFlat | im/app/png.py:1622-1647 | serialtoflat, which starts anew at every row boundary |
| PngPacking.SerialIsValues | im/app/png.py:1594-1647 | on one row of any bytes both ways of unpacking give the same samples |
| PngPacking.UnpackInvertsPack | im/app/png.py:1594-1647 | both ways of unpacking give back a packed row |
| PngPacking.FlatRowsOfPacked | im/app/png.py:1642-1646 | serialtoflat on packed rows one after the other finds every row boundary exactly |
| PngStraight.WritePasses | im/app/png.py:762-813 | whatever the chunk limit, the bytes handed to the compressor are the rows in order, each behind a zero byte; all pieces but the last exceed the limit; no rows fail |
| PngStraight.IterStraight | im/app/png.py:1649-1675 | however the stream is cut, the rows and the ending are those of the whole stream |
| PngStraight.StatusExactly | im/app/png.py:1668-1675 | reading fails for bytes left over exactly when the stream is no whole number of rows, and for a filter type exactly when a complete row has an unknown one |
| PngStraight.FilteredStreamIsLined | im/app/png.py:1662-1667 | rows filtered in any allowed way are found and restored |
| PngStraight.LinedIsUnfiltered | im/app/png.py:1659-1668 | in any stream, valid or not, every row yielded satisfies with its scanline and the row before it the equations of section 9.2 |
| PngStraight.FirstLineUpIsUnreadable | im/app/png.py:1041-1048 | a filtered stream can be read exactly when its first line does not use "up" |
| PngStraight.StraightRoundTrip | im/app/png.py:1594-1620 | for any re-chunking, every row of samples comes back, for every depth |
| PngInterlace.PassesPartition | im/app/png.py:192-198 | every pixel lies in exactly one of the seven passes |
| PngPattern.PassesArePattern | im/app/png.py:192-198 | the pass table selects the pixels that the eight-by-eight pattern of the standard (section 8.2) numbers with the pass |
| PngPattern.InterlacedRowsArePattern | im/app/png.py:923-957 | the rows written are, pass by pass, the non-empty rows of the pixels the pattern gives to the pass, from the top and from the left |
| PngInterlace.FilterUnitIsPixelSize | im/app/png.py:1463-1467 | the filter unit is the bytes of a whole pixel, or one when a pixel has less than eight bits |
| PngInterlace.StridesMatch | im/app/png.py:945-956 | both sides of every strided slice assignment have as many elements as the pass has pixels in a row |
| PngInterlace.BuildReducedRow | im/app/png.py:948-957 | filling a row plane by plane over arbitrary earlier contents gives the pixels of the pass |
| PngInterlace.ArrayScanlinesInterlace | im/app/png.py:923-957 | the rows are those of the seven reduced images in order, empty passes left out |
| PngInterlace.WholeRow | im/app/png.py:944-946 | the shortcut for the last pass yields the same row as the general case |
| PngInterlace.IndexSurjective | im/app/png.py:936-957 | every array position is a plane of a pixel of the image |
| PySlices.StrideOfRestride | im/app/png.py:1590-1591 | reading back what was assigned to a strided slice gives the values |
| PngDeinterlace.PlaceRow | im/app/png.py:1581-1591 | places a row, or fails where a slice assignment of unequal lengths would |
| PngDeinterlace.DeinterlaceRow | im/app/png.py:1573-1591 | the body of the row loop: undoes the filter, unpacks and places one row, or fails as the code does |
| PngDeinterlace.RowIsUnfiltered | im/app/png.py:1573-1580 | every row of a pass satisfies with its scanline and the row before it the equations of section 9.2, the byte to the left being one whole pixel away |
| PngDeinterlace.Deinterlace | im/app/png.py:1542-1592 | the loops do what the row-by-row specification does, errors included |
| PngDeinterlace.InterlacedRoundTrip | im/app/png.py:1542-1592 | for every size, depth, number of planes and image, and any choice of filters row by row without "up" on the first row of a pass, deinterlacing the seven passes gives the image back |
| PngDeinterlace.InterlacedStreamUnfiltered | im/app/png.py:785-792 | with filter type 0 everywhere that stream is the one the writer makes of the interlaced rows |
| PngTruncated.SamplesOfLine | im/app/png.py:1622-1647 | a line gives as many samples as its row has exactly when it is complete |
| PngTruncated.PlacedRow | im/app/png.py:1581-1591 | a short row is refused, except in the last pass, where it shrinks the array |
| PngTruncated.ReadPassesSize | im/app/png.py:1542-1592 | from any stream, valid or not, that is too short no array of the image's size is made |
| PngTruncated.InterlacedStreamLength | im/app/png.py:982-1063 | every first row filtered with "up" makes the stream a byte too short |
| PngTruncated.FirstUpIsUnreadable | im/app/png.py:1041-1048 | for any choice of filters an interlaced stream reads back as the image exactly when no pass has "up" on its first row |
| PngImage.ArrayScanlines | im/app/png.py:909-921 | the rows of the flat array |
| PngImage.WriteArray | im/app/png.py:815-824 | the IDAT bytes are the stream of the file's rows |
| PngImage.CollectValues | im/app/png.py:1594-1620 | the rows' values in order |
| PngImage.ReadFlat | im/app/png.py:1893-1932 | reading depends only on the bytes, not on how they arrive; an incomplete last row of an interlaced image is dropped |
| PngImage.StraightRowIsUnfiltered | im/app/png.py:1656-1668 | for a straight image of any shape, every row of the stream is the unfiltered scanline of least size, the byte to the left being one whole pixel away |
| PngImage.GroupRows | im/app/png.py:1901-1902 | the grouping into rows keeps whole rows only |
| PngImage.ImageRoundTrip | im/app/png.py:815-824 | reading what was written gives the pixels, interlaced or not |
| PngRescale.ShiftUndoesRescale | im/app/png.py:750-755 | a rescaled sample fits the target depth and shifted right by the difference of depths is the sample again |
| PngRescale.NoTies | im/app/png.py:750-755 | the quotient rounded is never halfway between two integers, so the direction of rounding does not matter |
| PngRescale.RescaleIsNearest | im/app/png.py:750-755 | a rescaled sample is the one integer nearest to the rational, always less than a half away |
| PngRescale.RescaleOfExtremes | im/app/png.py:750-755 | zero stays zero and the greatest sample becomes the greatest |
| PngRescale.ApplySbitMeans | im/app/png.py:2041-2058 | the sBIT chunk is refused exactly when it holds a zero or exceeds the depth; otherwise its greatest entry is the depth and every sample is divided, rounding down |
| PngRescale.TargetDepthIsLegal | im/app/png.py:542-563 | the depth chosen is the least that PNG allows for the kind of image and is not below the source depth, so it is larger exactly when that is not allowed |
| PngRescale.RowSurvivesRescaling | im/app/png.py:2041-2058 | applying the sBIT chunk to a rescaled row gives the row and its depth back, without error |
| PngChunks.WriteChunk | im/app/png.py:959-973 | length, type, data and checksum, and failure for lengths that do not fit |
| PngChunks.WriteChunks | im/app/png.py:975-980 | the signature and all chunks in order, or failure at the first that is too long |
| PngChunks.SignatureIsStandard | im/app/png.py:190 | the signature is 0x89, PNG, CR, LF, 0x1a, LF |
| PngChunks.WrittenParts | im/app/png.py:966-973 | a written chunk is its length, type, data and checksum, in this order |
| PngChunks.ChecksumCoversTypeAndData | im/app/png.py:969-973 | continuing the checksum of the type over the data is the checksum of both, type first |
| PngHeader.PackIsBigEndian | im/app/png.py:966 | the four bytes of a number are its digits to base 256, highest first |
| PngHeader.TagsAreNames | im/app/png.py:667-723 | the types are the codes of their four letters |
| PngHeader.UnpackInvertsPack | im/app/png.py:966-973 | a length is read as written |
| PngHeader.IhdrReadBack | im/app/png.py:1734-1767 | a written header is read back exactly when the standard allows its depth for its colour type |
| PngHeader.HeadersExactly | im/app/png.py:1734-1767 | a header chunk is accepted as a header exactly when its bytes are those written for it and the standard allows it |
| PngHeader.HeaderExample | im/app/png.py:668-671 | the bytes of one header, number by number |
| PngHeader.AcceptedLengths | im/app/png.py:1792-1846 | which lengths of gAMA, PLTE, bKGD, sBIT and tRNS are accepted, for every colour type and depth |
| PngHeader.ParsedIsAllowed | im/app/png.py:1734-1783 | any accepted header is an allowed one and has the planes of its colour type |
| PngHeader.ProcessedKeepsHeader | im/app/png.py:1727-1846 | processing a chunk keeps the header an allowed one, and leaves it alone unless the chunk is a header |
| PngMetadata.PaletteRead | im/app/png.py:1792-1836 | written palette chunks are read byte for byte, or refused exactly when the palette is too large for the depth |
| PngMetadata.MetadataIsReadExactly | im/app/png.py:667-717 | what the writer makes of its options is accepted exactly when a palette fits the depth and has no background, and what the reader then holds is said option by option |
| PngMetadata.RecordedNumbers | im/app/png.py:675-714 | gamma, transparent colour and background come out as the numbers given |
| PngMetadata.RescaledRowIsRead | im/app/png.py:681-684 | the sBIT chunk that announces a rescaling makes the reader undo it on every row |
| PngMetadata.MetadataOrder | im/app/png.py:675-714 | the chunks come in the order gAMA, sBIT, PLTE, tRNS, bKGD, each at most once |
| PngMetadata.PaletteIsRead | im/app/png.py:1934-1955 | after reading the metadata the palette is the writer's, alpha values included |
| PngChunks.Reader.ChunkLenType | im/app/png.py:1708-1725 | the next length and type, the end of the file, or one of the two format errors |
| PngChunks.Reader.ValidateSignature | im/app/png.py:1677-1686 | accepts exactly the PNG signature on the first call and anything but an empty file's on later ones |
| PngChunks.Reader.NextOf | im/app/png.py:1384-1417 | the loop of chunk: the next chunk, or the first of the wanted type, with every error of a short or damaged file |
| PngChunks.Reader.ReadChunk | im/app/png.py:1370-1417 | the same behind the signature check |
| PngChunks.Reader.ReadChunks | im/app/png.py:1419-1428 | yields the chunks up to the first IEND, also from a header already taken |
| PngChunks.Reader.ProcessChunk | im/app/png.py:1727-1846 | takes note of the next chunk, or fails on reading or on what it says |
| PngChunks.Reader.ReadPreamble | im/app/png.py:1688-1706 | processes the chunks and stops with the header of the first IDAT chunk taken, or fails if there is none |
| PngChunks.ChunkReadBack | im/app/png.py:1384-1417 | a written chunk is read back, whatever follows, exactly when its length has 31 bits |
| PngChunks.CutShort | im/app/png.py:1388-1408 | a chunk cut anywhere fails with the error of the place where it is cut |
| PngChunks.WrongChecksum | im/app/png.py:1410-1417 | a chunk with any other checksum is refused |
| PngChunks.HeaderTaken | im/app/png.py:1388-1391 | reading on is the same whether or not the header was taken before |
| PngChunks.ChunksReadBack | im/app/png.py:1419-1428 | reading any written list of chunks gives the list up to its first IEND |
| PngChunks.SeekFindsFirst | im/app/png.py:1386-1400 | looking for a type finds its first chunk, or fails if there is none |
| PngChunks.PreambleThenChunks | im/app/png.py:1688-1706 | the preamble processes exactly the chunks in front of the first IDAT, up to the first it refuses, and the chunks from the first IDAT on are left |
| PngPalette.CheckPalette | im/app/png.py:266-292 | accepts exactly 1 to 256 entries of three or four values from 0 to 255 with those of four first |
| PngPalette.MakePalette | im/app/png.py:600-617 | the colours, and the alpha values if there are any |
| PngPalette.ColourAt | im/app/png.py:607-614 | the three bytes of entry i are at 3i, 3i + 1 and 3i + 2, red, green and blue |
| PngPalette.PaletteOfAny | im/app/png.py:1934-1955 | from any palette chunks: the two errors, and every entry read, with its alpha, an opaque one or none |
| PngPalette.PaletteRoundTrip | im/app/png.py:1934-1955 | the reader's palette is the writer's, every entry with its own alpha, missing ones opaque |
| PngFile.AllowedIsLegal | im/app/png.py:1750-1783 | every allowed header announces an image of a shape the row layer handles, unless it is empty |
| PngFile.WriteFile | im/app/png.py:662-824 | signature, header, metadata, the stream of the rows in IDAT chunks, and the end; or failure for a chunk too long |
| PngFile.IterIdat | im/app/png.py:1858-1874 | the data of the IDAT chunks up to IEND, other chunks skipped |
| PngFile.ReadFile | im/app/png.py:1893-1932 | reading a file is the preamble, the IDAT pieces and the image data, each with its errors |
| PngFile.PreambleSkips | im/app/png.py:1688-1706 | the preamble runs over written chunks up to the first it does not accept |
| PngFile.PiecesReadBack | im/app/png.py:1858-1874 | the IDAT pieces come back exactly when each length has 31 bits |
| PngFile.FileRoundTrip | im/app/png.py:644-824 | a whole file gives back header and pixels exactly when the reader accepts the metadata and no piece is too long, however the stream was cut |
| PngFile.WrittenFileIsRead | im/app/png.py:644-824 | the same for the metadata of any writer: exactly when a palette fits the depth and has no background, and no piece is too long |
| InterpolationSyntax.SearchIsLeftmost | config/configobj.py:330-347 | searching finds the leftmost place where the pattern matches |
| InterpolationSyntax.MatchHereExactly | config/configobj.py:413-430 | what the two patterns match, in plain terms: the text up to the first closing bracket, the longest name, or the escaped dollar sign |
| InterpolationEngine.Interpolator.FetchOption | config/configobj.py:359-390 | the loop over the section and its parents gives the value and the section of the specification, or its error |
| InterpolationEngine.Interpolator.RecursiveInterpolate | config/configobj.py:312-352 | the while loop rewriting the value in place does what the piecewise specification does, the backtrail is restored on success, and the recursion ends because it uses up marks |
| InterpolationEngine.Interpolator.Interpolate | config/configobj.py:311-357 | starts with an empty backtrail |
| InterpolationSpec.Fetch | config/configobj.py:368-390 | the section reported is the owner or one of its ancestors |
| InterpolationSpec.FetchIsNearest | config/configobj.py:368-390 | on the chain of sections up to the root: found exactly at the nearest one that has the key itself or in its DEFAULT section, with its own value before the default; missing exactly when none has it and none has a DEFAULT of the wrong type; otherwise the other error |
| InterpolationSpec.LookupIsNearest | config/configobj.py:359-390 | the value and the mark of a reference are those of that section |
| InterpolationMeaning.ScanIsExpand | config/configobj.py:330-352 | a successful interpolation is the full substitution of references by their full values |
| InterpolationMeaning.ExpandMonotone | config/configobj.py:340-343 | more depth never changes a full substitution |
| InterpolationMeaning.InterpolationIsExact | config/configobj.py:311-357 | succeeds exactly when every reference reached resolves and no chain of references closes or meets the option itself, and reports a loop exactly when all resolve and one does |
| InterpolationMeaning.ExpandsExactly | config/configobj.py:311-357 | a value has a full expansion exactly when everything it refers to resolves and no chain of its references comes back to itself |
| InterpolationMeaning.InterpolatedExactly | config/configobj.py:311-357 | for any value, in its section or not: interpolation succeeds exactly when there is a full expansion and no chain leads to the mark of the option, and gives that expansion |
| InterpolationMeaning.FalseLoopExactly | config/configobj.py:322-325 | a value with a full expansion gets the loop error exactly when everything resolves, no chain closes and one leads to the mark of the option; the error blames that option |
| InterpolationMeaning.GetItemIsExact | config/configobj.py:530-535 | reading an option succeeds exactly when its value has a full expansion; if everything resolves the error is a loop |
| InterpolationMeaning.PopIsExact | config/configobj.py:619-632 | pop succeeds exactly when the value expands without the option and no chain leads to its mark; an option that can be read is popped with the same value |
| InterpolationMeaning.CycleNeverExpands | config/configobj.py:322-325 | an option that refers back to itself has no expansion |
| InterpolationMeaning.PopReportsFalseLoop | config/configobj.py:619-632 | a concrete popped value that has an expansion and still gets the loop error |
| SectionTree.StepIsValid | config/configobj.py:1446-1490 | every line keeps the links between sections, their depths and the uniqueness of keys |
| SectionReading.StepExactly | config/configobj.py:1446-1490 | in terms of the lines read so far: a marker is refused exactly when its brackets differ in number, when it is more than one level too deep or when its name repeats in the section it belongs to; an entry exactly when its key does; otherwise it is filed there |
| SectionReading.ParseExactly | config/configobj.py:1410-1578 | a file is read exactly when no line is at fault and the sections are those its lines describe; otherwise the error is that of the first line at fault |
| SectionTree.ParseIsWellFormed | config/configobj.py:1410-1578 | whatever the lines, a parsed tree has correct depths and no repeated key |
| SectionTree.TreeIsRead | config/configobj.py:1922-1948 | the lines of a tree read into a new section make it that tree, touch no other section and end below it |
| SectionTree.PrintParse | config/configobj.py:1922-1948 | printing and parsing gives a tree back exactly when its depths are those of its nesting and no section has a key twice |
| SectionTree.ParsePrintParse | config/configobj.py:1410-1578 | parsing what was printed from a parsed tree gives the same tree |
| SectionParser.ConfigObj.MatchDepth | config/configobj.py:1580-1596 | the loop finds the ancestor of the given depth, and fails only if the section is not that deep |
| SectionParser.ConfigObj.ParentFor | config/configobj.py:1456-1479 | dropping back, siblings and children all go to the nearest section one level up; deeper markers are errors |
| SectionParser.ConfigObj.ParseLine | config/configobj.py:1419-1565 | one line changes the sections as specified or fails without a change |
| SectionParser.ConfigObj.Parse | config/configobj.py:1410-1578 | the loop over the lines, up to the first error |
| SectionParser.ConfigObj.Write | config/configobj.py:1922-1948 | the recursion prints the tree, scalars before subsections, in order |
| SectionParser.ConfigObj.Reread | config/configobj.py:1893-1903 | what the documentation of write promises: reading the written lines gives an equal configuration |
| SectionKeys.Section.SetItem | config/configobj.py:537-593 | new keys go to the end of their list and the key leaves the defaults; the lists still agree with the dictionary exactly when the value is accepted or the key was there |
| SectionKeys.Section.DelItem | config/configobj.py:595-603 | removes the key from its list, the dictionary and the comment tables and leaves everything else, defaults included, or fails without a change |
| SectionKeys.Section.Pop | config/configobj.py:619-632 | gives the value, the default or an error, removes the key from its list, dictionary and comments, and leaves everything else |
| SectionKeys.Section.PopItem | config/configobj.py:634-642 | takes the first key, scalars before sections, and leaves the other lists and the defaults |
| SectionKeys.Section.Clear | config/configobj.py:644-657 | empties everything but the defaults |
| SectionKeys.Section.Rename | config/configobj.py:754-781 | the key keeps its place; the lists still agree exactly when the new name was not another key |
| SectionKeys.AgreeReplaced | config/configobj.py:770-774 | replacing a listed key keeps the lists free of repetitions exactly when the new key is the old one or new |
| TreeViewSpec.RowsDistinct | im/content/jsTreeView.js:209-212 | different rows show different items |
| TreeViewOrder.RowsExactly | im/content/jsTreeView.js:122-134 | the rows are exactly the items all of whose ancestors are open, every item before those below it and below siblings of lower number |
| TreeViewOrder.SiblingExactly | im/content/jsTreeView.js:73-82 | an item has a next sibling exactly when its parent has a child of the next number |
| TreeViewSpec.LevelsAround | im/content/jsTreeView.js:73-82 | the row after an item and all below it tells by its level whether the item has a next sibling |
| TreeView.ToggleTwice | im/content/jsTreeView.js:140-189 | toggling an item twice restores the rows |
| TreeView.ToggleChangesBelow | im/content/jsTreeView.js:140-189 | closing removes exactly the rows below the item, opening inserts exactly those its open descendants call for |
| TreeView.BelowIsDeeper | im/content/jsTreeView.js:151-157 | the rows below an item are those that follow with a higher level |
| TreeView.View.constructor | im/content/jsTreeView.js:209-218 | a view of closed items shows the roots |
| TreeView.View.RecursivelyAddToMap | im/content/jsTreeView.js:122-134 | inserts the rows below an item, in order, and returns how many |
| TreeView.View.ToggleOpenState | im/content/jsTreeView.js:140-189 | the rows stay the listing of the forest under the flags, the persist map follows, and the reported row and change of count are the real ones |
| TreeView.View.RemoveBelow | im/content/jsTreeView.js:146-157 | the rows counted by level and removed are exactly those below the item |
| TreeView.View.HasNextSibling | im/content/jsTreeView.js:73-82 | right from any row of the item's subtree |
| TreeView.View.RestoreOpenStates | im/content/jsTreeView.js:220-226 | from any view: the rows become those of the items that were open or persisted but not both, with the flags and the persist map to match; on closed items the persisted ones are shown and the map is kept, on a view in step with its map everything is closed |
| TreeView.RestoresPersistedExactly | im/content/jsTreeView.js:220-226 | the rows restored are those of the persisted items exactly when no container shown there was open before |
| TreeView.SameRowsExactly | im/content/jsTreeView.js:122-134 | two sets of open items show the same rows exactly when they agree on the containers shown |
| EngineLog.ReplayBefore | im/content/engineManager.js:323-325 | an engine added at the end does not disturb operations recorded before |
| EngineLog.ShowThenMove | im/content/engineManager.js:225-240 | unhiding and moving puts an engine into its place wherever the service shows it first |
| EngineLog.ApplyExactly | im/content/engineManager.js:327-373 | each operation by its outcome alone: a moved or shown engine has exactly the place asked for, a removed one is gone, and the others keep their order |
| EngineLog.RestoreStep | im/content/engineManager.js:358-370 | after a turn one more default engine is in place and the others keep their order |
| EngineLog.RestoreAll | im/content/engineManager.js:355-373 | the default engines come first, in their order, and the others keep theirs |
| EngineLog.NotRemoved | im/content/engineManager.js:211-223 | an engine still in the list at the end was never removed, unless it was restored |
| EngineLog.ActKeeps | im/content/engineManager.js:323-373 | every action keeps the log in agreement with the list |
| EngineLog.ReplayIsExact | im/content/engineManager.js:309-373 | after any actions in any order, the recorded operations carried out on the engines visible at the start followed by the added ones give the list |
| EngineManager.EngineStore.constructor | im/content/engineManager.js:259-270 | the log starts empty; restoring is offered exactly when a default engine is missing |
| EngineManager.EngineStore.GetEngineByName | im/content/engineManager.js:288-294 | the first clone of that name, or none |
| EngineManager.EngineStore.AddEngine | im/content/engineManager.js:323-325 | the engine comes last and no operation is recorded |
| EngineManager.EngineStore.MoveEngine | im/content/engineManager.js:327-342 | both errors; otherwise the list and the log are those of the move, and no clone is lost |
| EngineManager.EngineStore.RemoveEngine | im/content/engineManager.js:344-353 | the error; otherwise the list and the log are those of the removal, and removing a default engine offers to restore it |
| EngineManager.EngineStore.RestoreEngine | im/content/engineManager.js:358-370 | the clone found by name is the one of the default engine, so the right engine is moved; missing ones are shown again |
| EngineManager.EngineStore.RestoreDefaultEngines | im/content/engineManager.js:355-373 | the loop restores all defaults and returns how many were added |
| EngineManager.EngineStore.Commit | im/content/engineManager.js:309-321 | afterwards the service shows exactly the list, and the current engine has not changed if it is still there |
| ConvOrder.CompareIsLexicographic | im/components/ibConvStatsService.js:268-280 | the comparator is higher score, then higher status, then smaller name; comparing signs first is redundant |
| ConvOrder.CompareIsTransitive | im/components/ibConvStatsService.js:268-280 | it is a transitive order |
| ConvOrder.SortedInTiers | im/components/ibConvStatsService.js:271-277 | in a sorted list the positive scores come first, then the zeros, then the negative ones |
| ConvOrder.PositionIsUpperBound | im/components/ibConvStatsService.js:251-266 | in a sorted list the position is behind all equals and before everything greater |
| ConvOrder.UpperBoundIsUnique | im/components/ibConvStatsService.js:251-266 | there is only one such position |
| ConvOrder.InsertKeepsSorted | im/components/ibConvStatsService.js:188-189 | inserting there keeps the list sorted |
| ConvOrder.RepositionSortsExactly | im/components/ibConvStatsService.js:283-291 | repositioning an item sorts the list exactly when the other items are in order |
| ConvOrder.RepositionTwoExample | im/components/ibConvStatsService.js:282-294 | two changed items that leave the list unsorted |
| ConvList.ConvStatsService.GetPositionToInsert | im/components/ibConvStatsService.js:251-266 | the binary search, with its shortcut at the end |
| ConvList.ConvStatsService.AddContact | im/components/ibConvStatsService.js:184-191 | a known contact changes nothing; a new one is listed in place and indexed |
| ConvList.ConvStatsService.RemoveContact | im/components/ibConvStatsService.js:193-199 | the contact's conversation leaves the list and the map |
| ConvList.ConvStatsService.AddPendingChat | im/components/ibConvStatsService.js:212-227 | the last chat of the queue is added in place, or refreshed by a new conversation; every other chat keeps its conversation and the list is otherwise the same |
| ConvList.ConvStatsService.AddPendingChats | im/components/ibConvStatsService.js:208-228 | chats are taken from the end of the queue, at least one; exactly those taken become known, and all others keep their conversation |
| ConvList.ConvStatsService.RemoveChatsForAccount | im/components/ibConvStatsService.js:241-249 | if the account has a chat, its chats leave list, map and queue and everything else stays in order; if not, nothing changes, not even the queue |
| ConvList.ConvStatsService.ContactNoLongerDummy | im/components/ibConvStatsService.js:490-498 | list and map still agree exactly when the new number was free |
| ConvList.ConvStatsService.NewText | im/components/ibConvStatsService.js:441-457 | a new score leaves all other conversations in order and marks the conversation, also one that has left the list |
| ConvList.ConvStatsService.MoveToPosition | im/components/ibConvStatsService.js:283-291 | takes a conversation out and puts it where the search says, if it is still there |
| ConvList.ConvStatsService.RepositionConvsWithUpdatedStats | im/components/ibConvStatsService.js:282-294 | a permutation that keeps list and maps in agreement and does to the list what repositioning one marked conversation after the other does |
| ConvList.ConvStatsService.Observe | im/components/ibConvStatsService.js:499-518 | the contact and account events keep list and maps in agreement and the list sorted; the whole new list, map and queue are stated event by event |
| ConvList.RepositionSorts | im/components/ibConvStatsService.js:282-294 | repositioning the only changed conversation sorts the list exactly when all others are in order |
| ConvList.RepositionAllSortsExactly | im/components/ibConvStatsService.js:282-294 | repositioning several conversations sorts the list exactly when it was sorted already or at some turn all but the one of that turn are in order |
| ConvList.RepositionAllSorts | im/components/ibConvStatsService.js:282-294 | in particular when all but the first one repositioned are in order |
| ConvList.ListInTiers | im/components/ibConvStatsService.js:271-277 | a sorted list holds all conversations with stats, then the contacts without, then the chats without |
| ConvList.AgreeIsUnordered | im/components/ibConvStatsService.js:127-133 | list and maps agree whatever the order of the list |
| ConvList.OthersInOrder | im/components/ibConvStatsService.js:241-249 | dropping the chats of an account from two lists one behind the other drops them from each, so the others keep their order |
| ConvList.PendingInOrder | im/components/ibConvStatsService.js:241-249 | and so it is with the queue |

## Left out

- UTF-7: the XPCOM base classes behind the codec (`nsUCSupport.h` is not part of this model); of them only the announced length factors appear. Chars are signed bytes, sign-extended when they are copied to units.
- PNG compression is the identity on bytes and the checksum is a parameter; pieces are written as they are, so the final flush of the compressor adds nothing.
- PNG: the warnings of `process_chunk`, what `read` reports besides size and pixels, the conversions asRGB, asRGBA, asFloat and the tRNS part of asDirect, PNM and PAM files, the command line.
- PngFile.ReadFile: an image without pixels counts as an error; for straight images the source unpacks rows while it reads chunks, so when both are damaged the error raised may be the other one.
- PngFile.WriteFile: the constructor's checks are a precondition (`PngMetadata.Checked`), and the rounding of gamma is left out.
- PngChunks.Reader.ProcessChunk: after a refused chunk the source may keep part of what it said; the model says nothing of the metadata then.
- PngPalette.CheckPalette: values are integers; the refusal of fractions is left out.
- PngStraight.WritePasses: does not include rescaling, which is a function on the rows beforehand (PngRescale), nor the retry with converted values for NumPy integers.
- PngRescale.ShiftUndoesRescale: computes with exact rationals, as floating-point rounding is not modelled.
- PngPacking.ToFlat: a row shorter than its width at the end of the data is cut as in the source, but array typecodes are not modelled.
- Interpolation: values are texts, subsections or neither; the switching of `main.interpolation` around a look-up has no effect here, and other exceptions inside `get` are not modelled.
- InterpolationSyntax.SearchIsLeftmost: the two patterns are written out as matchers, not derived from the regular expressions.
- ConfigObj lines: regular expressions, quoting, comments, multi-line values, lists, encodings, `unrepr`, `validate` and defaults. Lines come split into their parts. Errors are raised, not stored.
- SectionTree.MarkerLine: a subsection of depth 0 prints a line without brackets, taken to be neither a marker nor an entry; a name that contains `=` would read as an entry.
- SectionParser.ConfigObj.Parse: sections are numbered records of one configuration, not separate heap objects.
- SectionKeys.Section.Pop: the value is the raw one; what interpolation makes of it when the option is on is said in `InterpolationMeaning.PopIsExact`.
- SectionKeys.Section.PopItem: reads the value raw, where the source goes through `__getitem__` and, with interpolation on, gives the interpolated text or raises before anything is deleted.
- SectionKeys.Section.Rename: keeps the raw value, where the source reads it through `__getitem__` and, with interpolation on, stores the interpolated text or raises before anything is changed.
- SectionKeys.Section.SetItem: a dictionary assigned to a key counts as one value; the section built from it is not followed, and a key that changes between scalar and section stays in the list it is in, as in the source.
- Tree view: painting, cell text, selection and the loading of the persist map; of the notifications only the row index and count are modelled. The items of the forest are values, their open flags a set of ids.
- Engine manager: `changeEngine`, icons, drag and drop, prompts and the dialogs. The search service is a list of visible engines with one current engine; engines have unique names and added engines are new to the service.
- Conversation list: scores, status and collation order are abstract keys; log sweeping, stats files, timers and `getFilteredConvs` are left out.
- ConvList.ConvStatsService.ContactNoLongerDummy: an old number the map does not know is excluded; the source throws then, after it has filed an undefined value under the new number.
- ConvList.ConvStatsService.RepositionConvsWithUpdatedStats: the contract does not promise a sorted list, because with several changed conversations that is false; when it holds is said in `ConvList.RepositionAllSortsExactly`.
