/**
 * The step-by-step readers of a .nex file: each one seeks to a variable's
 * `DataOffset` and reads its blocks in the order the writer put them, and
 * `ReadAllFromNexFile` reads the file header, the directory, then every
 * variable through the reader its `Type` selects.
 *
 * Each reader is proved to return exactly `DecodeAs` of the file's bytes, so
 * the round-trip lemmas about `DecodeAs` carry over to them.
 */
module NexReader {
  import opened Bytes
  import opened Results
  import opened NexFile
  import opened NexPayload
  import opened Streams
  import opened NexWriter

  // ------------------------------------------------------------------ one variable

  /** `Count * NPointsWave` is negative exactly when there are waves and `NPointsWave` is negative. */
  lemma ProductSign(c: nat, npw: int)
    ensures c * npw >= 0 <==> c == 0 || npw >= 0
    decreases -npw
  {
    if c > 0 && npw < 0 {
      assert c * npw == c * (npw + 1) - c;
      if npw + 1 < 0 {
        ProductSign(c, npw + 1);
      }
    }
  }

  /**
   * `ReadNeuronData` and `ReadEventData`, which are the same code: seek, then
   * `Count` timestamps.
   */
  method ReadTimestampData(s: NexStream, h: VarHeader, k: VarKind) returns (r: Result<Decoded, ReadError>)
    requires k == Neuron || k == Event
    modifies s
    ensures r == DecodeAs(k, s.data, h)
    ensures r.Ok? ==> s.pos == h.dataOffset + PayloadSize(k, h)
  {
    if h.count < 0 {
      return Err(NegativeSize);
    }
    var sought := s.Seek(h.dataOffset);
    if !sought {
      return Err(BadOffset);
    }
    var ok, ts := s.Read(4 * h.count);
    if !ok {
      return Err(Truncated);
    }
    r := Ok(Timestamps(Int32sFromBytes(ts)));
  }

  /** `ReadIntervalData`: seek, then `Count` starts, then `Count` ends. */
  method ReadIntervalData(s: NexStream, h: VarHeader) returns (r: Result<Decoded, ReadError>)
    modifies s
    ensures r == DecodeAs(Interval, s.data, h)
    ensures r.Ok? ==> s.pos == h.dataOffset + PayloadSize(Interval, h)
  {
    if h.count < 0 {
      return Err(NegativeSize);
    }
    var sought := s.Seek(h.dataOffset);
    if !sought {
      return Err(BadOffset);
    }
    var c: nat := h.count;
    FitsSplit(|s.data|, s.pos, 4 * c, 4 * c);
    var okStarts, starts := s.Read(4 * c);
    if !okStarts {
      return Err(Truncated);
    }
    var okEnds, ends := s.Read(4 * c);
    if !okEnds {
      return Err(Truncated);
    }
    WindowSplit(s.data, h.dataOffset, 4 * c, 4 * c);
    ghost var w := Window(s.data, h.dataOffset, 8 * c);
    assert w[..4 * c] == starts && w[4 * c..] == ends;
    r := Ok(Intervals(Int32sFromBytes(starts), Int32sFromBytes(ends)));
  }

  /** `ReadWaveformData`: seek, then `Count` timestamps, then `Count * NPointsWave` samples. */
  method ReadWaveformData(s: NexStream, h: VarHeader) returns (r: Result<Decoded, ReadError>)
    modifies s
    ensures r == DecodeAs(Waveform, s.data, h)
    ensures r.Ok? ==> s.pos == h.dataOffset + PayloadSize(Waveform, h)
  {
    if h.count < 0 {
      return Err(NegativeSize);
    }
    var c: nat := h.count;
    ProductSign(c, h.nPointsWave);
    if c * h.nPointsWave < 0 {
      return Err(NegativeSize);
    }
    var n: nat := c * h.nPointsWave;
    var sought := s.Seek(h.dataOffset);
    if !sought {
      return Err(BadOffset);
    }
    FitsSplit(|s.data|, s.pos, 4 * c, 2 * n);
    var okStamps, stamps := s.Read(4 * c);
    if !okStamps {
      return Err(Truncated);
    }
    var okSamples, samples := s.Read(2 * n);
    if !okSamples {
      return Err(Truncated);
    }
    WindowSplit(s.data, h.dataOffset, 4 * c, 2 * n);
    ghost var w := stamps + samples;
    assert w == Window(s.data, h.dataOffset, PayloadSize(Waveform, h));
    DecodeAsOk(Waveform, s.data, h);
    assert w[..4 * c] == stamps && w[4 * c..] == samples;
    r := Ok(Waveforms(Int32sFromBytes(stamps), Int16sFromBytes(samples)));
  }

  /**
   * `ReadContinuousData`: seek, then `Count` fragment timestamps, `Count`
   * fragment indexes and `NPointsWave` samples.
   */
  method ReadContinuousData(s: NexStream, h: VarHeader) returns (r: Result<Decoded, ReadError>)
    modifies s
    ensures r == DecodeAs(Continuous, s.data, h)
    ensures r.Ok? ==> s.pos == h.dataOffset + PayloadSize(Continuous, h)
  {
    if h.count < 0 || h.nPointsWave < 0 {
      return Err(NegativeSize);
    }
    var sought := s.Seek(h.dataOffset);
    if !sought {
      return Err(BadOffset);
    }
    var c: nat := h.count;
    var n: nat := h.nPointsWave;
    FitsSplit(|s.data|, s.pos, 4 * c, 4 * c + 2 * n);
    FitsSplit(|s.data|, s.pos + 4 * c, 4 * c, 2 * n);
    var okStamps, stamps := s.Read(4 * c);
    if !okStamps {
      return Err(Truncated);
    }
    var okIndexes, indexes := s.Read(4 * c);
    if !okIndexes {
      return Err(Truncated);
    }
    var okSamples, samples := s.Read(2 * n);
    if !okSamples {
      return Err(Truncated);
    }
    ContinuousBlocks(s.data, h, stamps, indexes, samples);
    r := Ok(ContinuousData(Int32sFromBytes(stamps), Int32sFromBytes(indexes), Int16sFromBytes(samples)));
  }

  /** The three blocks read back to back from `DataOffset` are the continuous payload's window. */
  lemma ContinuousBlocks(data: seq<uint8>, h: VarHeader, stamps: seq<uint8>, indexes: seq<uint8>, samples: seq<uint8>)
    requires h.count >= 0 && h.nPointsWave >= 0 && h.dataOffset >= 0
    requires Fits(|data|, h.dataOffset, 4 * h.count + (4 * h.count + 2 * h.nPointsWave))
    requires stamps == Window(data, h.dataOffset, 4 * h.count)
    requires indexes == Window(data, h.dataOffset + 4 * h.count, 4 * h.count)
    requires samples == Window(data, h.dataOffset + 8 * h.count, 2 * h.nPointsWave)
    ensures DecodeAs(Continuous, data, h)
      == Ok(ContinuousData(Int32sFromBytes(stamps), Int32sFromBytes(indexes), Int16sFromBytes(samples)))
  {
    var c: nat := h.count;
    var n: nat := h.nPointsWave;
    WindowSplit3(data, h.dataOffset, 4 * c, 4 * c, 2 * n);
    assert PayloadSize(Continuous, h) == 4 * c + (4 * c + 2 * n);
    var w := Window(data, h.dataOffset, PayloadSize(Continuous, h));
    assert h.dataOffset + 4 * c + 4 * c == h.dataOffset + 8 * h.count;
    assert w == stamps + indexes + samples;
    DecodeAsOk(Continuous, data, h);
    assert DecodeWindow(Continuous, h, w) == DecodeContinuous(w, c, n);
    ContinuousParts(stamps, indexes, samples, c, n);
  }

  /** Splitting the continuous payload recovers its three blocks. */
  lemma ContinuousParts(stamps: seq<uint8>, indexes: seq<uint8>, samples: seq<uint8>, c: nat, n: nat)
    requires |stamps| == 4 * c && |indexes| == 4 * c && |samples| == 2 * n
    ensures DecodeContinuous(stamps + indexes + samples, c, n)
      == ContinuousData(Int32sFromBytes(stamps), Int32sFromBytes(indexes), Int16sFromBytes(samples))
  {
    var w := stamps + indexes + samples;
    assert w[..4 * c] == stamps && w[4 * c..8 * c] == indexes && w[8 * c..] == samples;
  }

  // ------------------------------------------------------------------ markers

  /**
   * One marker field of `ReadMarkerData`: its 64-byte name, then `count`
   * values of `markerLength` bytes, each kept up to its NUL.
   */
  method ReadMarkerField(s: NexStream, count: nat, markerLength: nat) returns (ok: bool, f: MarkerField)
    modifies s
    ensures ok == Fits(|s.data|, old(s.pos), MarkerFieldSize(count, markerLength))
    ensures ok ==> s.pos == old(s.pos) + MarkerFieldSize(count, markerLength)
    ensures ok ==> f == DecodeMarkerField(Window(s.data, old(s.pos), MarkerFieldSize(count, markerLength)), count, markerLength)
  {
    ghost var start := s.pos;
    MulNonNeg(markerLength, count);
    var okName, name := s.Read(MARKER_NAME_SIZE);
    if !okName {
      return false, MarkerField([], []);
    }
    ghost var first := s.pos;
    ghost var bufs: seq<seq<uint8>> := [];
    var values: seq<seq<uint8>> := [];
    var j := 0;
    while j < count
      invariant 0 <= j <= count && |values| == j && |bufs| == j
      invariant forall k :: 0 <= k < j ==> |bufs[k]| == markerLength && values[k] == CutAtNul(bufs[k])
      invariant s.pos == first + |Concat(bufs)|
      invariant Fits(|s.data|, first, |Concat(bufs)|) && Window(s.data, first, |Concat(bufs)|) == Concat(bufs)
    {
      var okValue, buf := s.Read(markerLength);
      if !okValue {
        ValueMissing(|s.data|, start, bufs, count, markerLength);
        return false, MarkerField([], []);
      }
      NextBlock(s.data, first, bufs, buf);
      bufs := bufs + [buf];
      values := values + [CutAtNul(buf)];
      j := j + 1;
    }
    ok, f := true, MarkerField(CutAtNul(name), values);
    FieldBlocksRead(s.data, start, name, bufs, count, markerLength);
  }

  /** A value read that comes up short means the field was not all there. */
  lemma ValueMissing(length: int, start: nat, bufs: seq<seq<uint8>>, count: nat, markerLength: nat)
    requires |bufs| < count && forall k :: 0 <= k < |bufs| ==> |bufs[k]| == markerLength
    requires !Fits(length, start + MARKER_NAME_SIZE + |Concat(bufs)|, markerLength)
    ensures !Fits(length, start, MarkerFieldSize(count, markerLength))
  {
    ConcatUniformSlices(bufs, markerLength);
    MulStep(markerLength, |bufs|, count);
  }

  /** The name and the value buffers read one after another are the field's window. */
  lemma FieldBlocksRead(data: seq<uint8>, start: nat, name: seq<uint8>, bufs: seq<seq<uint8>>, count: nat, markerLength: nat)
    requires Fits(|data|, start, MARKER_NAME_SIZE) && name == Window(data, start, MARKER_NAME_SIZE)
    requires |bufs| == count && forall k :: 0 <= k < count ==> |bufs[k]| == markerLength
    requires Fits(|data|, start + MARKER_NAME_SIZE, |Concat(bufs)|)
    requires Window(data, start + MARKER_NAME_SIZE, |Concat(bufs)|) == Concat(bufs)
    ensures MARKER_NAME_SIZE + |Concat(bufs)| == MarkerFieldSize(count, markerLength)
    ensures Fits(|data|, start, MarkerFieldSize(count, markerLength))
    ensures MarkerField(CutAtNul(name), seq(count, k requires 0 <= k < count => CutAtNul(bufs[k])))
      == DecodeMarkerField(Window(data, start, MarkerFieldSize(count, markerLength)), count, markerLength)
  {
    ConcatUniformSlices(bufs, markerLength);
    FitsSplit(|data|, start, MARKER_NAME_SIZE, markerLength * count);
    WindowSplit(data, start, MARKER_NAME_SIZE, markerLength * count);
    DecodeFieldParts(name, bufs, count, markerLength);
  }

  /** The field loop of `ReadMarkerData`: `nMarkers` fields, one after another. */
  method ReadMarkerFields(s: NexStream, nMarkers: nat, count: nat, markerLength: nat) returns (ok: bool, fields: seq<MarkerField>)
    modifies s
    ensures MarkerFieldSize(count, markerLength) > 0
    ensures ok == Fits(|s.data|, old(s.pos), nMarkers * MarkerFieldSize(count, markerLength))
    ensures ok ==> s.pos == old(s.pos) + nMarkers * MarkerFieldSize(count, markerLength)
    ensures ok ==> fields == DecodeMarkerFields(Window(s.data, old(s.pos), nMarkers * MarkerFieldSize(count, markerLength)), nMarkers, count, markerLength)
  {
    MulNonNeg(count, markerLength);
    ghost var size: nat := MarkerFieldSize(count, markerLength);
    ghost var first := s.pos;
    ghost var blocks: seq<seq<uint8>> := [];
    fields := [];
    var field := 0;
    while field < nMarkers
      invariant 0 <= field <= nMarkers && |fields| == field && |blocks| == field
      invariant forall k :: 0 <= k < field ==> |blocks[k]| == size && fields[k] == DecodeMarkerField(blocks[k], count, markerLength)
      invariant s.pos == first + |Concat(blocks)|
      invariant Fits(|s.data|, first, |Concat(blocks)|) && Window(s.data, first, |Concat(blocks)|) == Concat(blocks)
    {
      var okField, f := ReadMarkerField(s, count, markerLength);
      if !okField {
        FieldMissing(|s.data|, first, blocks, nMarkers, size);
        return false, [];
      }
      ghost var block := Window(s.data, first + |Concat(blocks)|, size);
      NextBlock(s.data, first, blocks, block);
      blocks := blocks + [block];
      fields := fields + [f];
      field := field + 1;
    }
    ok := true;
    FieldsRead(s.data, first, blocks, fields, count, markerLength);
  }

  /** Fields decoded block by block, the blocks read back to back, are the fields decoded from their window. */
  lemma FieldsRead(data: seq<uint8>, first: nat, blocks: seq<seq<uint8>>, fields: seq<MarkerField>, count: nat, markerLength: nat)
    requires |fields| == |blocks|
    requires forall k :: 0 <= k < |blocks| ==> |blocks[k]| == MarkerFieldSize(count, markerLength)
    requires forall k :: 0 <= k < |blocks| ==> fields[k] == DecodeMarkerField(blocks[k], count, markerLength)
    requires Fits(|data|, first, |Concat(blocks)|) && Window(data, first, |Concat(blocks)|) == Concat(blocks)
    ensures |Concat(blocks)| == |blocks| * MarkerFieldSize(count, markerLength)
    ensures fields == DecodeMarkerFields(Window(data, first, |Concat(blocks)|), |blocks|, count, markerLength)
  {
    DecodeFieldsParts(blocks, count, markerLength);
    assert fields == seq(|blocks|, f requires 0 <= f < |blocks| => DecodeMarkerField(blocks[f], count, markerLength));
  }

  /** A field read that comes up short means the fields were not all there. */
  lemma FieldMissing(length: int, first: nat, blocks: seq<seq<uint8>>, nMarkers: nat, size: nat)
    requires |blocks| < nMarkers && 0 < size && forall k :: 0 <= k < |blocks| ==> |blocks[k]| == size
    requires !Fits(length, first + |Concat(blocks)|, size)
    ensures !Fits(length, first, nMarkers * size)
  {
    ConcatUniformSlices(blocks, size);
    MulStep(size, |blocks|, nMarkers);
  }

  /**
   * `ReadMarkerData`: seek, then `Count` timestamps, then `NMarkers` fields,
   * each a 64-byte name followed by `Count` values of `MarkerLength` bytes.
   */
  method ReadMarkerData(s: NexStream, h: VarHeader) returns (r: Result<Decoded, ReadError>)
    modifies s
    ensures r == DecodeAs(Marker, s.data, h)
    ensures r.Ok? ==> s.pos == h.dataOffset + PayloadSize(Marker, h)
  {
    if !SizesValid(Marker, h) {
      return Err(NegativeSize);
    }
    var sought := s.Seek(h.dataOffset);
    if !sought {
      return Err(BadOffset);
    }
    var count: nat := h.count;
    MarkerPayloadSize(h);
    FitsSplit(|s.data|, s.pos, 4 * count, h.nMarkers * MarkerFieldSize(count, MarkerWidth(h)));
    var okStamps, stamps := s.Read(4 * count);
    if !okStamps {
      return Err(Truncated);
    }
    var okFields, fields := ReadMarkerFields(s, h.nMarkers, count, MarkerWidth(h));
    if !okFields {
      return Err(Truncated);
    }
    r := Ok(Markers(Int32sFromBytes(stamps), fields));
    MarkerBlocks(s.data, h, stamps, fields);
  }

  /** The marker payload is the timestamps followed by the fields, at the width the reader uses. */
  lemma MarkerPayloadSize(h: VarHeader)
    requires SizesValid(Marker, h)
    ensures h.nMarkers * MarkerFieldSize(h.count, MarkerWidth(h)) >= 0
    ensures PayloadSize(Marker, h) == 4 * h.count + h.nMarkers * MarkerFieldSize(h.count, MarkerWidth(h))
  {
    MarkerWidthSize(h);
    MulNonNeg(h.count, MarkerWidth(h));
    MulNonNeg(h.nMarkers, MarkerFieldSize(h.count, MarkerWidth(h)));
  }

  /** The timestamps and the fields read back to back are the marker payload's window. */
  lemma MarkerBlocks(data: seq<uint8>, h: VarHeader, stamps: seq<uint8>, fields: seq<MarkerField>)
    requires SizesValid(Marker, h) && h.dataOffset >= 0
    requires Fits(|data|, h.dataOffset, 4 * h.count) && stamps == Window(data, h.dataOffset, 4 * h.count)
    requires h.nMarkers * MarkerFieldSize(h.count, MarkerWidth(h)) >= 0
    requires Fits(|data|, h.dataOffset + 4 * h.count, h.nMarkers * MarkerFieldSize(h.count, MarkerWidth(h)))
    requires fields == DecodeMarkerFields(
      Window(data, h.dataOffset + 4 * h.count, h.nMarkers * MarkerFieldSize(h.count, MarkerWidth(h))),
      h.nMarkers, h.count, MarkerWidth(h))
    ensures DecodeAs(Marker, data, h) == Ok(Markers(Int32sFromBytes(stamps), fields))
  {
    var count: nat := h.count;
    var markerLength := MarkerWidth(h);
    var n: nat := h.nMarkers * MarkerFieldSize(count, markerLength);
    MarkerPayloadSize(h);
    FitsSplit(|data|, h.dataOffset, 4 * count, n);
    WindowSplit(data, h.dataOffset, 4 * count, n);
    var w := Window(data, h.dataOffset, PayloadSize(Marker, h));
    var rest := Window(data, h.dataOffset + 4 * count, n);
    assert w == stamps + rest;
    DecodeAsOk(Marker, data, h);
    assert DecodeWindow(Marker, h, w) == DecodeMarkers(w, count, h.nMarkers, markerLength);
    assert w[..4 * count] == stamps && w[4 * count..] == rest;
  }

  // ------------------------------------------------------------------ dispatch

  /**
   * The `switch` on `Type` in `ReadAllFromNexFile`: each layout goes to its
   * reader; a population vector is skipped and an unknown code reported,
   * both as `UnsupportedType`.
   */
  method ReadVariable(s: NexStream, h: VarHeader) returns (r: Result<Decoded, ReadError>)
    modifies s
    ensures r == DecodeVariable(s.data, h)
  {
    var kind := KindOf(h.typ);
    match kind {
      case None =>
        r := Err(UnsupportedType(h.typ));
      case Some(k) =>
        match k {
          case Neuron => r := ReadTimestampData(s, h, Neuron);
          case Event => r := ReadTimestampData(s, h, Event);
          case Interval => r := ReadIntervalData(s, h);
          case Waveform => r := ReadWaveformData(s, h);
          case PopulationVector => r := Err(UnsupportedType(h.typ));
          case Continuous => r := ReadContinuousData(s, h);
          case Marker => r := ReadMarkerData(s, h);
        }
    }
  }

  // ------------------------------------------------------------------ whole file

  /** What reading a whole file yields: its header, its directory and each variable's values or error. */
  datatype NexContents = NexContents(header: FileHeader, headers: seq<VarHeader>, variables: seq<Result<Decoded, ReadError>>)

  /**
   * Reading a whole file: the 544-byte file header, `NumVars` headers of 208
   * bytes, then every variable through its header. A negative `NumVars` makes
   * the directory's `resize` throw; a file too short for either is truncated.
   */
  function ReadAll(data: seq<uint8>): (r: Result<NexContents, ReadError>)
    ensures r.Ok? <==>
      (|data| >= FILE_HEADER_SIZE && DecodeFileHeader(data[..FILE_HEADER_SIZE]).numVars >= 0
       && FILE_HEADER_SIZE + VAR_HEADER_SIZE * DecodeFileHeader(data[..FILE_HEADER_SIZE]).numVars <= |data|)
    ensures r == Err(NegativeSize) <==>
      (|data| >= FILE_HEADER_SIZE && DecodeFileHeader(data[..FILE_HEADER_SIZE]).numVars < 0)
    ensures r.Ok? ==>
      && r.value.header == DecodeFileHeader(data[..FILE_HEADER_SIZE])
      && |r.value.headers| == r.value.header.numVars == |r.value.variables|
      && r.value.headers == DecodeDirectory(DirectoryBytes(data, r.value.header.numVars), r.value.header.numVars)
      && forall i :: 0 <= i < |r.value.headers| ==> r.value.variables[i] == DecodeVariable(data, r.value.headers[i])
  {
    if |data| < FILE_HEADER_SIZE then Err(Truncated)
    else
      var fh := DecodeFileHeader(data[..FILE_HEADER_SIZE]);
      if fh.numVars < 0 then Err(NegativeSize)
      else
        var n: nat := fh.numVars;
        var end := FILE_HEADER_SIZE + VAR_HEADER_SIZE * n;
        if |data| < end then Err(Truncated)
        else
          var hs := DecodeDirectory(DirectoryBytes(data, n), n);
          Ok(NexContents(fh, hs, seq(n, i requires 0 <= i < n => DecodeVariable(data, hs[i]))))
  }

  /** The bytes of a directory of `n` headers, right after the file header. */
  function DirectoryBytes(data: seq<uint8>, n: nat): (b: seq<uint8>)
    requires FILE_HEADER_SIZE + VAR_HEADER_SIZE * n <= |data|
    ensures |b| == VAR_HEADER_SIZE * n
  {
    data[FILE_HEADER_SIZE..FILE_HEADER_SIZE + VAR_HEADER_SIZE * n]
  }

  /** `ReadAllFromNexFile` over the file's bytes. */
  method ReadAllFromNexFile(contents: seq<uint8>) returns (r: Result<NexContents, ReadError>)
    ensures r == ReadAll(contents)
  {
    var s := new NexStream.Open(contents);
    var okHead, head := s.Read(FILE_HEADER_SIZE);
    if !okHead {
      return Err(Truncated);
    }
    assert head == contents[..FILE_HEADER_SIZE];
    var fh := DecodeFileHeader(head);
    if fh.numVars < 0 {
      return Err(NegativeSize);
    }
    var n: nat := fh.numVars;
    var okDir, dir := s.Read(VAR_HEADER_SIZE * n);
    if !okDir {
      return Err(Truncated);
    }
    assert dir == DirectoryBytes(contents, n);
    var hs := DecodeDirectory(dir, n);
    var variables := ReadVariables(s, hs);
    assert variables == seq(n, i requires 0 <= i < n => DecodeVariable(contents, hs[i]));
    r := Ok(NexContents(fh, hs, variables));
  }

  /** Step 3 of `ReadAllFromNexFile`: every variable, in directory order, through the reader its `Type` selects. */
  method ReadVariables(s: NexStream, hs: seq<VarHeader>) returns (variables: seq<Result<Decoded, ReadError>>)
    modifies s
    ensures |variables| == |hs|
    ensures forall k :: 0 <= k < |hs| ==> variables[k] == DecodeVariable(s.data, hs[k])
  {
    variables := [];
    for i := 0 to |hs|
      invariant |variables| == i
      invariant forall k :: 0 <= k < i ==> variables[k] == DecodeVariable(s.data, hs[k])
    {
      var d := ReadVariable(s, hs[i]);
      variables := variables + [d];
    }
  }

  /**
   * Reading back what `WriteNexFile` wrote returns the file header, the
   * headers the writer built and every variable's values unchanged.
   */
  lemma ReadAllOfImage(fh: FileHeader, vars: seq<Variable>)
    requires fh.WellFormed() && fh.numVars == |vars| && Writable(vars)
    ensures ReadAll(FileImage(fh, vars)).Ok?
    ensures ReadAll(FileImage(fh, vars)).value.header == fh
    ensures ReadAll(FileImage(fh, vars)).value.headers == Headers(vars)
    ensures forall i :: 0 <= i < |vars| ==> ReadAll(FileImage(fh, vars)).value.variables[i] == Ok(Expected(vars[i]))
  {
    WriteThenRead(fh, vars);
    var image := FileImage(fh, vars);
    var head := image[..FILE_HEADER_SIZE];
    var d := DecodeFileHeader(head);
    assert head[..FILE_HEADER_SIZE] == head;
    assert EncodeFileHeader(d) == head == EncodeFileHeader(fh);
    FileHeaderRoundTrip(d);
    FileHeaderRoundTrip(fh);
    assert DirectoryBytes(image, |vars|) == image[FILE_HEADER_SIZE..FirstDataOffset(|vars|)];
  }
}
