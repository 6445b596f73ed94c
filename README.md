# NEX file codec in Dafny

This project models the byte-level codec for NeuroExplorer `.nex` files and proves properties of the model.

A `.nex` file has three parts:

- a 544-byte file header;
- a directory of `NumVars` variable headers of 208 bytes each;
- the variables' payloads, each at the `DataOffset` its header names.

The model covers four pieces of the repository:

- **Layouts** (`NexFile`): the type codes, the packed file header and variable header, the directory, and the rules for reading header fields by file and header version.
- **Payloads and reading** (`NexPayload`, `NexReader`):
  - the payload layout of each kind: neuron/event, interval, waveform, continuous (three blocks) and marker (field-major);
  - the per-kind readers (`Read*Data`), each proved equal to one pure decoder;
  - `ReadAllFromNexFile`, which reads the header, then the directory, then every variable through its header.
- **Writing** (`NexWriter`, `NexFileVariables`):
  - the writers thread a running `DataOffset` through the header writes, then emit the payloads in header order;
  - `WriteNexFile` is generalised from its six hard-coded variables to any list of variables;
  - the `Neuron` class keeps its offset and timestamps as fields;
  - `SkeletonCodeToWriteNexFile` drives a list of neurons.
- **The MATLAB engine's selection** (`NexEngine`): `readVariableData` and the event, marker and continuous channel readers it calls.
  - It filters the directory by type, in file order.
  - An empty channel list means every filtered variable.
  - Channel `c` resolves to `varIndices[c]`.

The headline theorem is the write-then-read round trip. `NexWriter.WriteThenRead` and `NexReader.ReadAllOfImage` state it for the reader:

- the file header and every variable header read back as written;
- every `DataOffset` points exactly at its payload (`NexWriter.PayloadAtOffset`);
- every payload decodes to the written ticks, samples and strings.

`NexEngine.SelectFromImage` states the same for the engine. Requesting event, marker or continuous data from a written file returns exactly the variables of that type, in the order they were written.

How the model represents the program:

- Files are byte sequences.
- A file opened for reading is the `NexStream` class: the bytes plus a cursor that `Seek` and `Read` move.
- A file opened for writing is the `OutputFile` class, whose `Write` appends.
- The imperative readers and writers are methods on these streams. Each is proved equal to a pure function, and the lemmas are stated about those functions.

The C code checks none of the reads it makes. Where it would throw, fail silently or read past the data it was given, the model returns an error instead (`NexPayload.ReadError`, `NexEngine.EngineError`). The one exception is an unterminated variable name; it is listed under "Left out". The errors are:

- `NegativeSize`: a negative count makes `std::vector::resize` throw.
- `BadOffset`: a negative offset makes `fseek` fail.
- `Truncated`: the file is too short for a read.
- `UnsupportedType`: a population-vector or unknown type code.
- `BadChannel`: a channel index outside the filtered list.
- `InvalidType`: the engine's `barf` on a type with no reader.

Where the program and its description disagree, the model follows the code:

- The magic number is never checked when reading, so the model reads files whatever their tag. `FileHeader.HasMagic` states the tag, and the writers prove they set it.
- The loop in `readVariableData` (nexengine.cpp:553-556) uses `nIndices` and `indices`, which are never declared. The model reads them as `channels.size()` and `channels`, the only lists of channel indices in scope.

## Model

| member | source | states |
|---|---|---|
| Bytes.Int32RoundTrip | master_installer/deps/spikenex/+spikenex/+nex/src/HowToReadAndWriteNexFiles.cpp:545-547 | a 32-bit `int` written as 4 little-endian bytes reads back as the same value |
| Bytes.Int32BytesRoundTrip | master_installer/deps/spikenex/+spikenex/+nex/src/HowToReadAndWriteNexFiles.cpp:126-128 | any 4 bytes read as an `int` write back as the same 4 bytes |
| Bytes.Int32FromBytes | master_installer/deps/spikenex/+spikenex/+nex/src/HowToReadAndWriteNexFiles.cpp:126-128 | the `int` read from 4 bytes is negative exactly when the top bit of the last byte is set |
| Bytes.Int16RoundTrip | master_installer/deps/spikenex/+spikenex/+nex/src/HowToReadAndWriteNexFiles.cpp:556 | a `short` written as 2 little-endian bytes reads back as the same value |
| Bytes.Int16BytesRoundTrip | master_installer/deps/spikenex/+spikenex/+nex/src/HowToReadAndWriteNexFiles.cpp:221 | any 2 bytes read as a `short` write back as the same 2 bytes |
| Bytes.Int32sToBytesAt | master_installer/deps/spikenex/+spikenex/+nex/src/HowToReadAndWriteNexFiles.cpp:545 | element `i` of an `int` array occupies bytes `4i..4i+4` of the written block |
| Bytes.Int32sFromBytes | master_installer/deps/spikenex/+spikenex/+nex/src/HowToReadAndWriteNexFiles.cpp:128 | an array filled from `4n` bytes has `n` elements and writes back as those bytes |
| Bytes.Int32sRoundTrip | master_installer/deps/spikenex/+spikenex/+nex/src/HowToReadAndWriteNexFiles.cpp:128 | an `int` array written and read back is unchanged |
| Bytes.Int16sToBytesAt | master_installer/deps/spikenex/+spikenex/+nex/src/HowToReadAndWriteNexFiles.cpp:556 | element `i` of a `short` array occupies bytes `2i..2i+2` of the written block |
| Bytes.Int16sFromBytes | master_installer/deps/spikenex/+spikenex/+nex/src/HowToReadAndWriteNexFiles.cpp:221 | an array filled from `2n` bytes has `n` elements and writes back as those bytes |
| Bytes.Int16sRoundTrip | master_installer/deps/spikenex/+spikenex/+nex/src/HowToReadAndWriteNexFiles.cpp:221 | a `short` array written and read back is unchanged |
| Bytes.PadField | master_installer/deps/dynamical_inputs/+dynamical_inputs/+nex/src/NexFileVariables.h:40-43 | `strcpy` into a zeroed fixed-width field: the text, then NULs up to the width |
| Bytes.CutAtNul | master_installer/deps/dynamical_inputs/+dynamical_inputs/+nex/src/nexengine.cpp:316-330 | a C string read from a field: the longest NUL-free prefix, stopped by a NUL or by the field's width |
| Bytes.CutPadField | master_installer/deps/dynamical_inputs/+dynamical_inputs/+nex/src/NexFileVariables.h:40-43 | a name copied into a zeroed field reads back as the same name |
| Streams.NexStream.Open | master_installer/deps/spikenex/+spikenex/+nex/src/HowToReadAndWriteNexFiles.cpp:78 | a file opened for reading starts at position 0 over its bytes |
| Streams.NexStream.Seek | master_installer/deps/spikenex/+spikenex/+nex/src/HowToReadAndWriteNexFiles.cpp:126 | `fseek` to a non-negative offset moves there; a negative one fails and leaves the position |
| Streams.NexStream.Read | master_installer/deps/spikenex/+spikenex/+nex/src/HowToReadAndWriteNexFiles.cpp:128 | `fread` of `n` bytes returns the `n` bytes at the position and advances past them, or on a short file returns the rest |
| Streams.OutputFile.Write | master_installer/deps/spikenex/+spikenex/+nex/src/HowToReadAndWriteNexFiles.cpp:458 | `fwrite` appends its bytes to the file |
| Streams.WindowSplit3 | master_installer/deps/spikenex/+spikenex/+nex/src/HowToReadAndWriteNexFiles.cpp:217-221 | three reads in a row read one contiguous window, split in three |
| NexFile.KindOf | master_installer/deps/dynamical_inputs/+dynamical_inputs/+nex/src/NexFile.h:4-10 | a stored code names a kind exactly when it is 0..6, and that kind's code is the stored code |
| NexFile.KindOfTypeCode | master_installer/deps/dynamical_inputs/+dynamical_inputs/+nex/src/NexFile.h:4-10 | the seven kinds have distinct codes: the kind a code names is the kind that wrote it |
| NexFile.MagicIsNex1 | master_installer/deps/dynamical_inputs/+dynamical_inputs/+nex/src/NexFile.h:17 | the text "NEX1" read as a little-endian `int` is 827868494 = 0x3158454E, and back |
| NexFile.EncodeFileHeader | master_installer/deps/dynamical_inputs/+dynamical_inputs/+nex/src/NexFile.h:12-35 | a file header packs to exactly 544 bytes |
| NexFile.FileHeaderLayout | master_installer/deps/dynamical_inputs/+dynamical_inputs/+nex/src/NexFile.h:15-35 | MagicNumber at 0, NexFileVersion 4, Comment 8, Frequency 264, Beg 272, End 276, NumVars 280, NextFileHeader 284, Padding 288 |
| NexFile.DecodeFileHeader | master_installer/deps/dynamical_inputs/+dynamical_inputs/+nex/src/NexFile.h:15-35 | the header read from 544 bytes is well formed and packs back to those bytes |
| NexFile.FileHeaderRoundTrip | master_installer/deps/dynamical_inputs/+dynamical_inputs/+nex/src/NexFile.h:12-35 | a file header packed and read back is unchanged |
| NexFile.FileHeader.CommentText | master_installer/deps/dynamical_inputs/+dynamical_inputs/+nex/src/NexFile.h:26 | the comment text has no NUL and fits its 256-byte field |
| NexFile.EncodeVarHeader | master_installer/deps/dynamical_inputs/+dynamical_inputs/+nex/src/NexFile.h:38-73 | a variable header packs to exactly 208 bytes |
| NexFile.VarHeaderLayout | master_installer/deps/dynamical_inputs/+dynamical_inputs/+nex/src/NexFile.h:38-73 | Type at 0, Version 4, Name 8, DataOffset 72, Count 76, WireNumber 80, UnitNumber 84, Gain 88, Filter 92, XPos 96, YPos 104, WFrequency 112, ADtoMV 120, NPointsWave 128, NMarkers 132, MarkerLength 136, MVOffset 140, PrethresholdTimeInSeconds 148, Padding 156 |
| NexFile.DecodeVarHeader | master_installer/deps/dynamical_inputs/+dynamical_inputs/+nex/src/NexFile.h:38-73 | the header read from 208 bytes is well formed and packs back to those bytes |
| NexFile.VarHeaderRoundTrip | master_installer/deps/dynamical_inputs/+dynamical_inputs/+nex/src/NexFile.h:12-75 | a variable header packed and read back is unchanged |
| NexFile.VarHeader.NameText | master_installer/deps/dynamical_inputs/+dynamical_inputs/+nex/src/NexFile.h:45 | the variable name has no NUL and fits its 64-byte field |
| NexFile.Interpreted | master_installer/deps/dynamical_inputs/+dynamical_inputs/+nex/src/NexFile.h:18-24 | the version rules the header documents, as a function that yields a well-formed header; no reader in the source applies them (nexengine.cpp passes MVOffset through as stored), and neither do the model's readers |
| NexFile.FileVersion105KeepsMVOffset | master_installer/deps/dynamical_inputs/+dynamical_inputs/+nex/src/NexFile.h:23 | in a file of version 105 MVOffset counts as stored and the pre-threshold time reads as zero |
| NexFile.HeaderVersion101KeepsWire | master_installer/deps/dynamical_inputs/+dynamical_inputs/+nex/src/NexFile.h:43 | a version-101 header reports its wire and unit numbers, but no pre-threshold time |
| NexFile.InterpretedKeepsLayout | master_installer/deps/dynamical_inputs/+dynamical_inputs/+nex/src/NexFile.h:18-24 | the version rules never change the type, name, data offset or sizes |
| NexPayload.VersionRulesKeepPayload | master_installer/deps/dynamical_inputs/+dynamical_inputs/+nex/src/NexFile.h:18-24 | applying the version rules first would change no payload a reader reads |
| NexFile.OldFileVersionsZeroOffsets | master_installer/deps/dynamical_inputs/+dynamical_inputs/+nex/src/NexFile.h:21-22 | in files of versions 100, 101 and 104, MVOffset and PrethresholdTimeInSeconds read as zero |
| NexFile.HeaderVersion100Zeroes | master_installer/deps/dynamical_inputs/+dynamical_inputs/+nex/src/NexFile.h:42-44 | a version-100 header has no valid wire, unit or pre-threshold time |
| NexFile.CurrentVersionsKeepEverything | master_installer/deps/dynamical_inputs/+dynamical_inputs/+nex/src/NexFile.h:23-24 | in a version-106 file a header of version 102 or later is read as stored |
| NexFile.InterpretedIdempotent | master_installer/deps/dynamical_inputs/+dynamical_inputs/+nex/src/NexFile.h:18-24 | applying the version rules twice changes nothing more |
| NexFile.EncodeDirectory | master_installer/deps/dynamical_inputs/+dynamical_inputs/+nex/src/nexengine.cpp:528-529 | the directory of `n` headers is `208n` bytes |
| NexFile.DirectorySlice | master_installer/deps/dynamical_inputs/+dynamical_inputs/+nex/src/nexengine.cpp:528-529 | header `i` occupies bytes `208i..208i+208` of the directory |
| NexFile.DecodeDirectory | master_installer/deps/dynamical_inputs/+dynamical_inputs/+nex/src/nexengine.cpp:528-529 | the `n` headers read from `208n` bytes are well formed and pack back to those bytes |
| NexFile.DirectoryRoundTrip | master_installer/deps/spikenex/+spikenex/+nex/src/HowToReadAndWriteNexFiles.cpp:85-86 | a directory written and read back gives the same headers in the same order |
| NexFile.DirectoryAppend | master_installer/deps/spikenex/+spikenex/+nex/src/HowToReadAndWriteNexFiles.cpp:353-355 | writing one more header appends its 208 bytes to the directory |
| NexFile.TimeRange | master_installer/deps/dynamical_inputs/+dynamical_inputs/+nex/src/NexFile.h:29-30 | Beg is the smallest tick and End one past the largest, so every tick lies in [Beg, End) |
| NexFile.RangeCovers | master_installer/deps/dynamical_inputs/+dynamical_inputs/+nex/src/NexFile.h:29-30 | a header with that Beg and End covers every tick and nothing just outside |
| NexPayload.PayloadSize | master_installer/deps/spikenex/+spikenex/+nex/src/HowToReadAndWriteNexFiles.cpp:461-541 | the payload size is non-negative whenever the header's sizes are |
| NexPayload.ValueBuffers | master_installer/deps/spikenex/+spikenex/+nex/src/HowToReadAndWriteNexFiles.cpp:572-576 | each marker value goes in a buffer of exactly MarkerLength bytes whose text up to the first NUL is the value |
| NexPayload.EncodeMarkerField | master_installer/deps/spikenex/+spikenex/+nex/src/HowToReadAndWriteNexFiles.cpp:566-584 | one marker field is a 64-byte name and Count values of MarkerLength bytes |
| NexPayload.DecodeMarkerField | master_installer/deps/dynamical_inputs/+dynamical_inputs/+nex/src/nexengine.cpp:316-330 | a field read from its block has one value per timestamp |
| NexPayload.MarkerValueRoundTrip | master_installer/deps/spikenex/+spikenex/+nex/src/HowToReadAndWriteNexFiles.cpp:269-276 | value `j` of a field is read back from bytes `64 + j*MarkerLength` onwards unchanged |
| NexPayload.MarkerFieldRoundTrip | master_installer/deps/spikenex/+spikenex/+nex/src/HowToReadAndWriteNexFiles.cpp:264-277 | a marker field written and read back is unchanged |
| NexPayload.EncodeMarkerFields | master_installer/deps/spikenex/+spikenex/+nex/src/HowToReadAndWriteNexFiles.cpp:566-584 | the fields are written one after another, field-major |
| NexPayload.FieldBlocks | master_installer/deps/spikenex/+spikenex/+nex/src/HowToReadAndWriteNexFiles.cpp:566-584 | field `f`'s block is its encoding, 64 + Count*MarkerLength bytes |
| NexPayload.DecodeMarkerFields | master_installer/deps/spikenex/+spikenex/+nex/src/HowToReadAndWriteNexFiles.cpp:264-277 | NMarkers fields read in order, each with Count values |
| NexPayload.DecodeFieldsParts | master_installer/deps/spikenex/+spikenex/+nex/src/HowToReadAndWriteNexFiles.cpp:264-277 | reading the concatenated field blocks reads each block in turn |
| NexPayload.FieldBlockAt | master_installer/deps/spikenex/+spikenex/+nex/src/HowToReadAndWriteNexFiles.cpp:566-584 | field `f` occupies its own slice of the marker block |
| NexPayload.MarkerFieldsRoundTrip | master_installer/deps/spikenex/+spikenex/+nex/src/HowToReadAndWriteNexFiles.cpp:249-276 | marker fields written field-major and read back in the same order are unchanged |
| NexPayload.DecodeWindow | master_installer/deps/spikenex/+spikenex/+nex/src/HowToReadAndWriteNexFiles.cpp:120-287 | the values read from a payload have the shape the header describes |
| NexPayload.DecodeTimestamps | master_installer/deps/spikenex/+spikenex/+nex/src/HowToReadAndWriteNexFiles.cpp:120-155 | a neuron or event payload gives Count timestamps |
| NexPayload.DecodeIntervals | master_installer/deps/spikenex/+spikenex/+nex/src/HowToReadAndWriteNexFiles.cpp:157-176 | an interval payload gives Count starts then Count ends |
| NexPayload.DecodeWaveforms | master_installer/deps/spikenex/+spikenex/+nex/src/HowToReadAndWriteNexFiles.cpp:178-202 | a waveform payload gives Count timestamps then Count*NPointsWave samples |
| NexPayload.DecodeContinuous | master_installer/deps/spikenex/+spikenex/+nex/src/HowToReadAndWriteNexFiles.cpp:204-239 | a continuous payload gives Count fragment timestamps, Count fragment indexes and NPointsWave samples |
| NexPayload.DecodeMarkers | master_installer/deps/spikenex/+spikenex/+nex/src/HowToReadAndWriteNexFiles.cpp:241-287 | a marker payload gives Count timestamps and NMarkers fields of Count values each |
| NexPayload.DecodeAs | master_installer/deps/spikenex/+spikenex/+nex/src/HowToReadAndWriteNexFiles.cpp:120-287 | a payload reads exactly when its sizes are non-negative, its offset is non-negative and the file holds all its bytes; a negative size, a negative offset and a short file are told apart |
| NexPayload.DecodeAsWindow | master_installer/deps/spikenex/+spikenex/+nex/src/HowToReadAndWriteNexFiles.cpp:126-128 | the reader's values come from the bytes at DataOffset and nowhere else |
| NexPayload.DecodeVariable | master_installer/deps/spikenex/+spikenex/+nex/src/HowToReadAndWriteNexFiles.cpp:89-116 | the reader dispatches on Type; population vectors and unknown codes are skipped as unsupported |
| NexPayload.KindOfVar | master_installer/deps/spikenex/+spikenex/+nex/src/HowToReadAndWriteNexFiles.cpp:450-541 | every variable the writer emits has a kind with a payload layout |
| NexPayload.HeaderOf | master_installer/deps/spikenex/+spikenex/+nex/src/HowToReadAndWriteNexFiles.cpp:450-541 | the header written for a variable has its type code, Version 100, its name, the offset and Count, its sample or marker sizes, and zero everywhere else |
| NexPayload.PayloadSizeOfVariable | master_installer/deps/spikenex/+spikenex/+nex/src/HowToReadAndWriteNexFiles.cpp:461-541 | the payload written is exactly as long as the amount the offset advances: 4c, 8c, 4c+2c*npw, 8c+2npw, 4c+nm*(64+c*ml) |
| NexPayload.PayloadRoundTrip | master_installer/deps/spikenex/+spikenex/+nex/src/HowToReadAndWriteNexFiles.cpp:543-584 | decoding the payload the writer emits returns the written ticks, samples and strings |
| NexPayload.WaveformSampleAt | master_installer/deps/spikenex/+spikenex/+nex/src/HowToReadAndWriteNexFiles.cpp:184-198 | sample `p` of wave `i` is read back at index `i*NPointsWave + p` |
| NexPayload.FirstFragmentLength | master_installer/deps/spikenex/+spikenex/+nex/src/HowToReadAndWriteNexFiles.cpp:226-232 | the first fragment holds `indexes[1]` points when there are several fragments, otherwise all points |
| NexPayload.FragmentLengthsSum | master_installer/deps/spikenex/+spikenex/+nex/src/HowToReadAndWriteNexFiles.cpp:217-232 | the fragment lengths add up to all the points after the first index |
| NexPayload.DemoFragments | master_installer/deps/spikenex/+spikenex/+nex/src/HowToReadAndWriteNexFiles.cpp:395-404 | indexes {0, 5} over 8 points give fragments of 5 and 3 points |
| NexReader.ReadTimestampData | master_installer/deps/spikenex/+spikenex/+nex/src/HowToReadAndWriteNexFiles.cpp:120-155 | `ReadNeuronData`/`ReadEventData`: seek to DataOffset and read Count timestamps, as `DecodeAs` says |
| NexReader.ReadIntervalData | master_installer/deps/spikenex/+spikenex/+nex/src/HowToReadAndWriteNexFiles.cpp:157-176 | `ReadIntervalData`: seek, then the starts block and the ends block |
| NexReader.ReadWaveformData | master_installer/deps/spikenex/+spikenex/+nex/src/HowToReadAndWriteNexFiles.cpp:178-202 | `ReadWaveformData`: seek, then the timestamps and all samples |
| NexReader.ReadContinuousData | master_installer/deps/spikenex/+spikenex/+nex/src/HowToReadAndWriteNexFiles.cpp:204-239 | `ReadContinuousData`: seek, then timestamps, indexes and samples as three back-to-back blocks |
| NexReader.ReadMarkerField | master_installer/deps/spikenex/+spikenex/+nex/src/HowToReadAndWriteNexFiles.cpp:265-276 | one field: its 64-byte name, then Count values of MarkerLength bytes, each cut at its first NUL |
| NexReader.ReadMarkerFields | master_installer/deps/spikenex/+spikenex/+nex/src/HowToReadAndWriteNexFiles.cpp:264-277 | the field loop reads NMarkers field blocks in order, or reports a short file |
| NexReader.ReadMarkerData | master_installer/deps/spikenex/+spikenex/+nex/src/HowToReadAndWriteNexFiles.cpp:241-287 | `ReadMarkerData`: seek, the timestamps, then the fields |
| NexReader.ReadVariable | master_installer/deps/spikenex/+spikenex/+nex/src/HowToReadAndWriteNexFiles.cpp:89-116 | the `switch` of `ReadAllFromNexFile` picks the reader of the header's Type |
| NexReader.ReadAll | master_installer/deps/spikenex/+spikenex/+nex/src/HowToReadAndWriteNexFiles.cpp:71-118 | a file reads exactly when it holds the 544-byte header and NumVars >= 0 headers; every variable is then read through its header |
| NexReader.ReadAllFromNexFile | master_installer/deps/spikenex/+spikenex/+nex/src/HowToReadAndWriteNexFiles.cpp:71-118 | reading the header, the directory and every variable through the stream gives `ReadAll` |
| NexReader.ReadVariables | master_installer/deps/spikenex/+spikenex/+nex/src/HowToReadAndWriteNexFiles.cpp:89-116 | one result per header, in directory order; a variable that fails does not stop the others |
| NexReader.ReadAllOfImage | master_installer/deps/spikenex/+spikenex/+nex/src/HowToReadAndWriteNexFiles.cpp:371-588 | reading back the written file returns the file header, the written headers and every variable's values unchanged |
| NexWriter.NewFileHeader | master_installer/deps/spikenex/+spikenex/+nex/src/HowToReadAndWriteNexFiles.cpp:432-440 | the written file header carries "NEX1", version 100, the comment, Beg, End, NumVars and no next header |
| NexWriter.FirstOffset | master_installer/deps/spikenex/+spikenex/+nex/src/HowToReadAndWriteNexFiles.cpp:447 | the first payload starts at 544 + 208*NumVars |
| NexWriter.DataOffset | master_installer/deps/spikenex/+spikenex/+nex/src/HowToReadAndWriteNexFiles.cpp:447-541 | no payload starts inside the headers |
| NexWriter.DataOffsetsAdvance | master_installer/deps/spikenex/+spikenex/+nex/src/HowToReadAndWriteNexFiles.cpp:461-541 | each DataOffset is the previous one plus that variable's payload size |
| NexWriter.Headers | master_installer/deps/spikenex/+spikenex/+nex/src/HowToReadAndWriteNexFiles.cpp:450-541 | one well-formed header per variable, in order |
| NexWriter.PayloadAtOffset | master_installer/deps/spikenex/+spikenex/+nex/src/HowToReadAndWriteNexFiles.cpp:543-584 | each payload lies in the file exactly at its header's DataOffset |
| NexWriter.FileHeaderReadBack | master_installer/deps/spikenex/+spikenex/+nex/src/HowToReadAndWriteNexFiles.cpp:443 | the file begins with the written file header |
| NexWriter.DirectoryReadBack | master_installer/deps/spikenex/+spikenex/+nex/src/HowToReadAndWriteNexFiles.cpp:450-541 | the headers follow the file header back to back |
| NexWriter.HeadersReadBack | master_installer/deps/spikenex/+spikenex/+nex/src/HowToReadAndWriteNexFiles.cpp:443-541 | the file header and the directory read back as written |
| NexWriter.VariableReadBack | master_installer/deps/spikenex/+spikenex/+nex/src/HowToReadAndWriteNexFiles.cpp:543-584 | variable `i` read through its header gives its written values |
| NexWriter.AllVariablesReadBack | master_installer/deps/spikenex/+spikenex/+nex/src/HowToReadAndWriteNexFiles.cpp:543-584 | every variable read through its header gives its written values |
| NexWriter.WriteThenRead | master_installer/deps/spikenex/+spikenex/+nex/src/HowToReadAndWriteNexFiles.cpp:371-588 | the headline round trip: header, directory and every payload read back as written |
| NexWriter.HeaderRecords | master_installer/deps/spikenex/+spikenex/+nex/src/HowToReadAndWriteNexFiles.cpp:450-541 | the header records concatenate to the directory |
| NexWriter.WriteVariableHeader | master_installer/deps/spikenex/+spikenex/+nex/src/HowToReadAndWriteNexFiles.cpp:450-458 | writes one header and returns the offset advanced by its payload size |
| NexWriter.WriteVariableHeaders | master_installer/deps/spikenex/+spikenex/+nex/src/HowToReadAndWriteNexFiles.cpp:447-541 | the running-offset loop writes exactly the directory |
| NexWriter.WriteVariableData | master_installer/deps/spikenex/+spikenex/+nex/src/HowToReadAndWriteNexFiles.cpp:543-584 | the payloads are written back to back in header order |
| NexWriter.WriteNexFile | master_installer/deps/spikenex/+spikenex/+nex/src/HowToReadAndWriteNexFiles.cpp:371-588 | the file written is the file header, the directory, then the payloads |
| NexWriter.DemoHeader | master_installer/deps/spikenex/+spikenex/+nex/src/HowToReadAndWriteNexFiles.cpp:432-440 | the demo header is well formed, tagged "NEX1" and announces 6 variables |
| NexWriter.DemoMarkerFields | master_installer/deps/spikenex/+spikenex/+nex/src/HowToReadAndWriteNexFiles.cpp:419-427 | two fields of three values that fit 16-byte values |
| NexWriter.DemoVariables | master_installer/deps/spikenex/+spikenex/+nex/src/HowToReadAndWriteNexFiles.cpp:385-427 | the six demo variables are well formed |
| NexWriter.DemoPayloadSizes | master_installer/deps/spikenex/+spikenex/+nex/src/HowToReadAndWriteNexFiles.cpp:461-541 | the demo payloads are 12, 8, 16, 32, 60 and 236 bytes |
| NexWriter.DemoLayout | master_installer/deps/spikenex/+spikenex/+nex/src/HowToReadAndWriteNexFiles.cpp:447-541 | the demo offsets are 1792, 1804, 1812, 1828, 1860 and 1920, and the file is 2156 bytes |
| NexWriter.WriteDemoNexFile | master_installer/deps/spikenex/+spikenex/+nex/src/HowToReadAndWriteNexFiles.cpp:371-588 | the demo writer emits that 2156-byte file |
| NexFileVariables.TruncToInt | master_installer/deps/dynamical_inputs/+dynamical_inputs/+nex/src/NexFileVariables.h:31 | `(int)` drops the fraction, rounding toward zero |
| NexFileVariables.Neuron.constructor | master_installer/deps/dynamical_inputs/+dynamical_inputs/+nex/src/NexFileVariables.h:12-14 | a neuron starts with its name and frequency, DataOffset 0 and no timestamps |
| NexFileVariables.Neuron.AsVariable | master_installer/deps/dynamical_inputs/+dynamical_inputs/+nex/src/NexFileVariables.h:25-58 | a neuron writes a neuron variable of its name and timestamps |
| NexFileVariables.Neuron.AddTimestampInSeconds | master_installer/deps/dynamical_inputs/+dynamical_inputs/+nex/src/NexFileVariables.h:30-32 | appends exactly one tick at the end and changes nothing else |
| NexFileVariables.Neuron.WriteVariableHeader | master_installer/deps/dynamical_inputs/+dynamical_inputs/+nex/src/NexFileVariables.h:34-50 | records the incoming offset, writes the neuron header, and returns the offset advanced by exactly the bytes `WriteData` writes |
| NexFileVariables.Neuron.WriteData | master_installer/deps/dynamical_inputs/+dynamical_inputs/+nex/src/NexFileVariables.h:52-54 | writes the timestamps in order, 4 bytes each |
| NexFileVariables.NeuronVariables | master_installer/deps/spikenex/+spikenex/+nex/src/HowToReadAndWriteNexFiles.cpp:353-360 | the neurons' variables, in list order |
| NexFileVariables.SkeletonHeader | master_installer/deps/spikenex/+spikenex/+nex/src/HowToReadAndWriteNexFiles.cpp:334-344 | the skeleton's file header is well formed, tagged "NEX1" and counts the variables |
| NexFileVariables.SkeletonCodeToWriteNexFile | master_installer/deps/spikenex/+spikenex/+nex/src/HowToReadAndWriteNexFiles.cpp:323-368 | the file written is the image of the neurons' variables; no neuron's timestamps change; when no neuron is listed twice, each records its own payload's DataOffset |
| NexFileVariables.SkeletonReadBack | master_installer/deps/spikenex/+spikenex/+nex/src/HowToReadAndWriteNexFiles.cpp:323-368 | reading that file back gives each neuron's timestamps |
| NexFileVariables.WriteNeuronHeaders | master_installer/deps/spikenex/+spikenex/+nex/src/HowToReadAndWriteNexFiles.cpp:350-356 | the header loop writes exactly the directory and, when no neuron is listed twice, leaves each neuron holding its own DataOffset |
| NexFileVariables.WriteNeuronHeader | master_installer/deps/spikenex/+spikenex/+nex/src/HowToReadAndWriteNexFiles.cpp:354 | one neuron records its DataOffset, writes its header and advances the running offset to the next DataOffset; when no neuron is listed twice, the neurons before it keep their recorded offsets |
| NexFileVariables.WriteNeuronData | master_installer/deps/spikenex/+spikenex/+nex/src/HowToReadAndWriteNexFiles.cpp:358-360 | the data loop writes the payloads in header order |
| NexEngine.AsUnsigned | master_installer/deps/dynamical_inputs/+dynamical_inputs/+nex/src/nexengine.cpp:534 | the signed Type compared to `unsigned int`: unchanged when non-negative, plus 2^32 when negative |
| NexEngine.Matching | master_installer/deps/dynamical_inputs/+dynamical_inputs/+nex/src/nexengine.cpp:533-537 | the kept positions are directory positions, no more of them than headers |
| NexEngine.MatchingExactly | master_installer/deps/dynamical_inputs/+dynamical_inputs/+nex/src/nexengine.cpp:533-537 | a position is kept exactly when its header's Type equals the requested type, and the kept positions are in file order |
| NexEngine.FilterIndices | master_installer/deps/dynamical_inputs/+dynamical_inputs/+nex/src/nexengine.cpp:533-537 | the filter loop builds exactly that list |
| NexEngine.AllChannels | master_installer/deps/dynamical_inputs/+dynamical_inputs/+nex/src/nexengine.cpp:541-544 | the default channel list is 0, 1, ..., n-1 |
| NexEngine.DefaultChannels | master_installer/deps/dynamical_inputs/+dynamical_inputs/+nex/src/nexengine.cpp:541-544 | the default-channel loop builds that list |
| NexEngine.EngineKind | master_installer/deps/dynamical_inputs/+dynamical_inputs/+nex/src/nexengine.cpp:558-572 | only continuous (5), marker (6) and event (1) have a channel reader |
| NexEngine.OneBased | master_installer/deps/dynamical_inputs/+dynamical_inputs/+nex/src/nexengine.cpp:474-498 | each fragment start is its stored index plus one |
| NexEngine.FragmentStarts | master_installer/deps/dynamical_inputs/+dynamical_inputs/+nex/src/nexengine.cpp:474-498 | the fragment-start loop builds those starts |
| NexEngine.ChannelShape | master_installer/deps/dynamical_inputs/+dynamical_inputs/+nex/src/nexengine.cpp:291-518 | a channel has its header's name and version, Count timestamps, NMarkers fields of Count values, and fragments exactly when Count >= 1; it fails exactly when the payload cannot be read |
| NexEngine.ReadEventVariable | master_installer/deps/dynamical_inputs/+dynamical_inputs/+nex/src/nexengine.cpp:399-436 | `readEventVariable`: the channel of the event payload at DataOffset |
| NexEngine.ReadMarkerVariable | master_installer/deps/dynamical_inputs/+dynamical_inputs/+nex/src/nexengine.cpp:291-371 | `readMarkerVariable`: the channel of the marker payload at DataOffset |
| NexEngine.ReadContinuousVariable | master_installer/deps/dynamical_inputs/+dynamical_inputs/+nex/src/nexengine.cpp:439-518 | `readContinuousVariable`: the channel of the continuous payload at DataOffset |
| NexEngine.ChannelError | master_installer/deps/dynamical_inputs/+dynamical_inputs/+nex/src/nexengine.cpp:556 | a channel outside the filtered list is reported as such |
| NexEngine.ReadChannels | master_installer/deps/dynamical_inputs/+dynamical_inputs/+nex/src/nexengine.cpp:548-573 | one cell per requested channel |
| NexEngine.ReadChannelsOk | master_installer/deps/dynamical_inputs/+dynamical_inputs/+nex/src/nexengine.cpp:553-573 | the channel loop succeeds exactly when every channel is in range and has a reader; a payload that fails to read is an error cell inside the result |
| NexEngine.ReadChannelsCells | master_installer/deps/dynamical_inputs/+dynamical_inputs/+nex/src/nexengine.cpp:553-573 | cell `i` is the channel of header `varIndices[channels[i]]` |
| NexEngine.ReadChannelsFirstError | master_installer/deps/dynamical_inputs/+dynamical_inputs/+nex/src/nexengine.cpp:553-573 | the first failing channel decides the error |
| NexEngine.ReadSelected | master_installer/deps/dynamical_inputs/+dynamical_inputs/+nex/src/nexengine.cpp:553-573 | the channel loop fills the cells in channel order |
| NexEngine.ReadSelection | master_installer/deps/dynamical_inputs/+dynamical_inputs/+nex/src/nexengine.cpp:533-573 | filter, default channels and the channel loop together |
| NexEngine.ReadVariableData | master_installer/deps/dynamical_inputs/+dynamical_inputs/+nex/src/nexengine.cpp:521-573 | `readVariableData`: the directory right after the file header, then the selection |
| NexEngine.SelectNone | master_installer/deps/dynamical_inputs/+dynamical_inputs/+nex/src/nexengine.cpp:609-611 | a type with no variables gives the empty result |
| NexEngine.SelectSupported | master_installer/deps/dynamical_inputs/+dynamical_inputs/+nex/src/nexengine.cpp:541-573 | with no channels given, a supported type gives one cell per matching header, in file order, each that header's channel |
| NexEngine.SelectUnsupported | master_installer/deps/dynamical_inputs/+dynamical_inputs/+nex/src/nexengine.cpp:571-572 | asking for any other type that is present fails on the first such header |
| NexEngine.ReadTypeFromFile | master_installer/deps/dynamical_inputs/+dynamical_inputs/+nex/src/nexengine.cpp:62-70 | read the file header, then `readVariableData` on the rest |
| NexEngine.ChannelOfWritten | master_installer/deps/dynamical_inputs/+dynamical_inputs/+nex/src/nexengine.cpp:291-518 | the channel read from a written payload is the written variable's channel |
| NexEngine.ImageMatching | master_installer/deps/dynamical_inputs/+dynamical_inputs/+nex/src/nexengine.cpp:533-537 | in a written file, the matching positions are those of the written variables of that type |
| NexEngine.ImageSelectNone | master_installer/deps/dynamical_inputs/+dynamical_inputs/+nex/src/nexengine.cpp:609-611 | asking a written file for a type it lacks gives the empty result |
| NexEngine.WrittenChannelAt | master_installer/deps/dynamical_inputs/+dynamical_inputs/+nex/src/nexengine.cpp:553-573 | cell for written variable `i` is its channel |
| NexEngine.SelectFromImage | master_installer/deps/dynamical_inputs/+dynamical_inputs/+nex/src/nexengine.cpp:521-573 | reading a written file by type returns, in file order, exactly the written variables of that type |

## Left out

- Real file I/O (`fopen`, `fclose`, `FILE*`): a file is a byte sequence and a stream is a cursor over it. A file that cannot be opened is not modelled.
- Floating point: `Frequency`, `WFrequency`, `ADtoMV`, `MVOffset`, `XPos`, `YPos` and `PrethresholdTimeInSeconds` are kept as their raw 8 bytes. The conversions of ticks to seconds and of A/D values to millivolts in the engine and the printouts are not modelled, so the engine reports raw ticks and raw samples.
- `NexFileVariables.TruncToInt` models the `(int)` cast on a mathematical real, not on an IEEE double. `AddTimestampInSeconds` requires the tick to fit an `int`, because an out-of-range conversion is undefined in C++.
- The population-vector payload: the code never reads or writes one, so its layout is not modelled.
- All `printf` output, `PrintHeaderInfo`, the demo `main` and `SkeletonCodeToReadNexFile`: they print and compute nothing the model needs.
- `FillTestData`: its values in seconds are not modelled. `SkeletonCodeToWriteNexFile` takes any list of neurons.
- The abstract base class `NexFileVariable` is folded into `Neuron`, its only subclass here.
- MATLAB/MEX plumbing: `mexFunction`, `initGlobalStructFields`, `cleanup`, `packFileHeaderData`, `packVarHeaderData` and all `mxArray` construction. A channel is modelled as a datatype with the struct's fields.
- nexengine.cpp lines 575-608: this half of `readVariableData` uses undeclared names and does not compile. Only its final `else`, the empty result at lines 609-611, is modelled.
- Order of failures: the model checks sizes before offsets and offsets before reading. The C code may crash or read garbage at any of these points.
- Marker values: `WriteNexFile` copies each 12-character value into a 16-byte buffer it never initialises, so the bytes after the terminator are indeterminate (uninitialised) bytes. The model writes zeros there. Readers cut each value at its first NUL, so what is read back is the same.
- Integer overflow: header fields are 32-bit and the model checks that every field it writes fits. The size products a reader computes (`Count * NPointsWave * 2` and the marker block size) are taken as exact integers, without 32-bit wrap-around.
- NexEngine.ReadVariableData: the file header's `NumVars` being negative is reported as `ReadFailed(NegativeSize)`; in the C code the directory's `resize` throws.
- NexEngine.AsUnsigned: `variableType` is a natural number. Values of 2^32 or more, which an `unsigned int` cannot hold, match no header.
- Version rules: versions 102 and 103 are only named (`UsableFileVersion`). The reader does not reject them, and neither does the code.
- NexFile.Interpreted: the header's version rules are stated and proved case by case, but no reader applies them, because no reader in the source does. `NexPayload.VersionRulesKeepPayload` shows that applying them would change no payload read.
- NexEngine.ToChannel: the engine hands the raw 64-byte `Name` field to `mxCreateString`. A name whose 64 bytes hold no NUL makes the C code read on into `DataOffset` and `Count`, which is undefined behaviour. The model cuts such a name at 64 bytes and reports no error.
