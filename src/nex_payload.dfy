/**
 * The payload of each kind of variable: how many bytes it takes, how the
 * writer lays its values out and how a reader decodes them again.
 *
 * Neuron and event payloads are `Count` timestamps; interval payloads all
 * starts, then all ends; waveform payloads the timestamps, then the samples of
 * every wave; continuous payloads the fragment timestamps, the fragment
 * first-sample indexes, then all samples; marker payloads the timestamps,
 * then, field by field, a 64-byte field name and `Count` values of
 * `MarkerLength` bytes each.
 */
module NexPayload {
  import opened Bytes
  import opened Results
  import opened NexFile
  import opened Streams

  const MARKER_NAME_SIZE: nat := 64

  /** One marker field: its name and one value per marker timestamp. */
  datatype MarkerField = MarkerField(name: seq<uint8>, values: seq<seq<uint8>>)

  /** A variable as the writer receives it: its name and its payload values. */
  datatype Variable =
    | NeuronVar(name: seq<uint8>, timestamps: seq<int32>)
    | EventVar(name: seq<uint8>, timestamps: seq<int32>)
    | IntervalVar(name: seq<uint8>, starts: seq<int32>, ends: seq<int32>)
    | ContinuousVar(name: seq<uint8>, wFrequency: seq<uint8>, adToMV: seq<uint8>,
                    fragmentTimestamps: seq<int32>, fragmentIndexes: seq<int32>, samples: seq<int16>)
    | WaveformVar(name: seq<uint8>, wFrequency: seq<uint8>, adToMV: seq<uint8>,
                  nPointsWave: int32, timestamps: seq<int32>, waves: seq<seq<int16>>)
    | MarkerVar(name: seq<uint8>, markerLength: int32, timestamps: seq<int32>, fields: seq<MarkerField>)

  /** The values a reader obtains from one payload (neuron and event payloads read alike). */
  datatype Decoded =
    | Timestamps(timestamps: seq<int32>)
    | Intervals(starts: seq<int32>, ends: seq<int32>)
    | Waveforms(timestamps: seq<int32>, samples: seq<int16>)
    | ContinuousData(fragmentTimestamps: seq<int32>, fragmentIndexes: seq<int32>, samples: seq<int16>)
    | Markers(timestamps: seq<int32>, fields: seq<MarkerField>)

  /**
   * Why one variable could not be read. The C code checks none of these: a
   * negative size makes `std::vector::resize` throw, a negative offset makes
   * `fseek` fail silently and a short `fread` leaves the buffer partly unset.
   */
  datatype ReadError = NegativeSize | BadOffset | Truncated | UnsupportedType(code: int)

  // ------------------------------------------------------------------ sizes

  /** The code reads and writes every kind except the population vector. */
  predicate HasLayout(k: VarKind) {
    k != PopulationVector
  }

  /** The sizes a reader of layout `k` allocates are non-negative. */
  predicate SizesValid(k: VarKind, h: VarHeader) {
    match k
    case Neuron | Event | Interval => h.count >= 0
    case Waveform => h.count >= 0 && (h.count == 0 || h.nPointsWave >= 0)
    case Continuous => h.count >= 0 && h.nPointsWave >= 0
    case Marker => h.count >= 0 && h.nMarkers >= 0 && (h.count == 0 || h.nMarkers == 0 || h.markerLength >= 0)
    case PopulationVector => false
  }

  lemma MulNonNeg(a: int, b: int)
    requires a >= 0 && b >= 0
    ensures a * b >= 0
  {
  }

  /** The products in a payload size are non-negative whenever the sizes are valid. */
  lemma SizeProductsNonNegative(k: VarKind, h: VarHeader)
    ensures SizesValid(k, h) && k == Waveform ==> h.count * h.nPointsWave >= 0
    ensures SizesValid(k, h) && k == Marker ==> h.nMarkers * MarkerFieldSize(h.count, h.markerLength) >= 0
  {
    if SizesValid(k, h) && k == Waveform && h.count > 0 {
      MulNonNeg(h.count, h.nPointsWave);
    }
    if SizesValid(k, h) && k == Marker && h.count > 0 && h.nMarkers > 0 {
      MulNonNeg(h.count, h.markerLength);
      MulNonNeg(h.nMarkers, MarkerFieldSize(h.count, h.markerLength));
    }
  }

  /** Bytes of one marker field: its name, then `count` values of `markerLength` bytes. */
  function MarkerFieldSize(count: int, markerLength: int): int {
    MARKER_NAME_SIZE + count * markerLength
  }

  /**
   * Payload bytes of a variable of layout `k`: the amount the writer adds to
   * its running offset and the amount the reader consumes from `DataOffset`.
   */
  function PayloadSize(k: VarKind, h: VarHeader): (n: int)
    requires HasLayout(k)
    ensures SizesValid(k, h) ==> n >= 0
  {
    SizeProductsNonNegative(k, h);
    match k
    case Neuron | Event => 4 * h.count
    case Interval => 8 * h.count
    case Waveform => 4 * h.count + 2 * (h.count * h.nPointsWave)
    case Continuous => 8 * h.count + 2 * h.nPointsWave
    case Marker => 4 * h.count + h.nMarkers * MarkerFieldSize(h.count, h.markerLength)
  }

  /** Record `j` of `c` records of `k` items ends within them. */
  lemma MulStep(k: nat, j: nat, c: nat)
    requires j < c
    ensures k * j + k <= k * c
  {
    assert k * c == k * j + k * (c - j);
    MulNonNeg(k, c - j - 1);
  }

  // ------------------------------------------------------------------ marker fields

  /**
   * A marker field the writer can store: name and values are C strings with
   * room for their terminator in the 64-byte name and `markerLength`-byte value
   * buffers, and there is one value per marker timestamp.
   */
  predicate FieldFits(f: MarkerField, count: nat, markerLength: nat) {
    && NoNul(f.name) && |f.name| < MARKER_NAME_SIZE
    && |f.values| == count
    && forall j :: 0 <= j < count ==> NoNul(f.values[j]) && |f.values[j]| < markerLength
  }

  /** The value buffers of one field: each value NUL-padded to `markerLength` bytes. */
  function ValueBuffers(f: MarkerField, count: nat, markerLength: nat): (bs: seq<seq<uint8>>)
    requires FieldFits(f, count, markerLength)
    ensures |bs| == count
    ensures forall j :: 0 <= j < count ==> |bs[j]| == markerLength && CutAtNul(bs[j]) == f.values[j]
  {
    var bs := seq(count, j requires 0 <= j < count => PadField(f.values[j], markerLength));
    forall j | 0 <= j < count ensures CutAtNul(bs[j]) == f.values[j] {
      CutPadField(f.values[j], markerLength);
    }
    bs
  }

  /** One field as written: its 64-byte name, then each value in a `markerLength`-byte buffer. */
  function EncodeMarkerField(f: MarkerField, count: nat, markerLength: nat): (r: seq<uint8>)
    requires FieldFits(f, count, markerLength)
    ensures |r| == MarkerFieldSize(count, markerLength)
  {
    var values := ValueBuffers(f, count, markerLength);
    ConcatUniformSlices(values, markerLength);
    PadField(f.name, MARKER_NAME_SIZE) + Concat(values)
  }

  /** One field as read: the name up to its NUL, then `count` values, each up to its NUL. */
  function DecodeMarkerField(block: seq<uint8>, count: nat, markerLength: nat): (f: MarkerField)
    requires |block| == MarkerFieldSize(count, markerLength)
    ensures |f.values| == count
  {
    MarkerField(
      CutAtNul(block[..MARKER_NAME_SIZE]),
      seq(count, j requires 0 <= j < count =>
        MulStep(markerLength, j, count);
        CutAtNul(block[MARKER_NAME_SIZE + markerLength * j..MARKER_NAME_SIZE + markerLength * j + markerLength])))
  }

  lemma SuffixSlice<T>(p: seq<T>, c: seq<T>, lo: nat, hi: nat)
    requires lo <= hi <= |c|
    ensures (p + c)[|p| + lo..|p| + hi] == c[lo..hi]
  {
  }

  /** A field decodes from a 64-byte name and `count` buffers of `markerLength` bytes placed after it. */
  lemma DecodeFieldParts(name: seq<uint8>, bufs: seq<seq<uint8>>, count: nat, markerLength: nat)
    requires |name| == MARKER_NAME_SIZE && |bufs| == count
    requires forall j :: 0 <= j < count ==> |bufs[j]| == markerLength
    ensures |name + Concat(bufs)| == MarkerFieldSize(count, markerLength)
    ensures DecodeMarkerField(name + Concat(bufs), count, markerLength)
      == MarkerField(CutAtNul(name), seq(count, j requires 0 <= j < count => CutAtNul(bufs[j])))
  {
    ConcatUniformSlices(bufs, markerLength);
    var d := DecodeMarkerField(name + Concat(bufs), count, markerLength);
    assert (name + Concat(bufs))[..MARKER_NAME_SIZE] == name;
    forall j | 0 <= j < count ensures d.values[j] == CutAtNul(bufs[j]) {
      MulNonNeg(markerLength, j);
      var lo: nat := markerLength * j;
      SuffixSlice(name, Concat(bufs), lo, lo + markerLength);
    }
  }

  /** Value `j` of an encoded field reads back as written. */
  lemma MarkerValueRoundTrip(f: MarkerField, count: nat, markerLength: nat, j: nat)
    requires FieldFits(f, count, markerLength) && j < count
    ensures MARKER_NAME_SIZE + markerLength * j + markerLength <= MarkerFieldSize(count, markerLength)
    ensures CutAtNul(EncodeMarkerField(f, count, markerLength)[MARKER_NAME_SIZE + markerLength * j..MARKER_NAME_SIZE + markerLength * j + markerLength]) == f.values[j]
  {
    var e := EncodeMarkerField(f, count, markerLength);
    var values := ValueBuffers(f, count, markerLength);
    var name := PadField(f.name, MARKER_NAME_SIZE);
    MulNonNeg(markerLength, j);
    var lo: nat := markerLength * j;
    ConcatUniformSlice(values, markerLength, j);
    assert e == name + Concat(values);
    SuffixSlice(name, Concat(values), lo, lo + markerLength);
  }

  lemma MarkerFieldRoundTrip(f: MarkerField, count: nat, markerLength: nat)
    requires FieldFits(f, count, markerLength)
    ensures DecodeMarkerField(EncodeMarkerField(f, count, markerLength), count, markerLength) == f
  {
    var e := EncodeMarkerField(f, count, markerLength);
    var d := DecodeMarkerField(e, count, markerLength);
    assert e[..MARKER_NAME_SIZE] == PadField(f.name, MARKER_NAME_SIZE);
    CutPadField(f.name, MARKER_NAME_SIZE);
    forall j | 0 <= j < count ensures d.values[j] == f.values[j] {
      MarkerValueRoundTrip(f, count, markerLength, j);
    }
  }

  /** All fields, one after another. */
  function EncodeMarkerFields(fields: seq<MarkerField>, count: nat, markerLength: nat): (r: seq<uint8>)
    requires forall f :: 0 <= f < |fields| ==> FieldFits(fields[f], count, markerLength)
    ensures |r| == |fields| * MarkerFieldSize(count, markerLength)
  {
    var blocks := FieldBlocks(fields, count, markerLength);
    ConcatUniformSlices(blocks, MarkerFieldSize(count, markerLength));
    Concat(blocks)
  }

  function FieldBlocks(fields: seq<MarkerField>, count: nat, markerLength: nat): (bs: seq<seq<uint8>>)
    requires forall f :: 0 <= f < |fields| ==> FieldFits(fields[f], count, markerLength)
    ensures |bs| == |fields|
    ensures forall f :: 0 <= f < |fields| ==> bs[f] == EncodeMarkerField(fields[f], count, markerLength)
    ensures forall f :: 0 <= f < |fields| ==> |bs[f]| == MarkerFieldSize(count, markerLength)
  {
    seq(|fields|, f requires 0 <= f < |fields| => EncodeMarkerField(fields[f], count, markerLength))
  }

  /** `nMarkers` fields read one after another, in the order they were written. */
  function DecodeMarkerFields(b: seq<uint8>, nMarkers: nat, count: nat, markerLength: nat): (fs: seq<MarkerField>)
    requires |b| == nMarkers * MarkerFieldSize(count, markerLength)
    ensures |fs| == nMarkers
    ensures forall f :: 0 <= f < nMarkers ==> |fs[f].values| == count
  {
    var size := MarkerFieldSize(count, markerLength);
    seq(nMarkers, f requires 0 <= f < nMarkers =>
      MulStep(size, f, nMarkers);
      DecodeMarkerField(b[size * f..size * f + size], count, markerLength))
  }

  /** Fields decode from blocks of one field's size placed one after another. */
  lemma DecodeFieldsParts(blocks: seq<seq<uint8>>, count: nat, markerLength: nat)
    requires forall f :: 0 <= f < |blocks| ==> |blocks[f]| == MarkerFieldSize(count, markerLength)
    ensures |Concat(blocks)| == |blocks| * MarkerFieldSize(count, markerLength)
    ensures DecodeMarkerFields(Concat(blocks), |blocks|, count, markerLength)
      == seq(|blocks|, f requires 0 <= f < |blocks| => DecodeMarkerField(blocks[f], count, markerLength))
  {
    MulNonNeg(count, markerLength);
    var size: nat := MarkerFieldSize(count, markerLength);
    var n := |blocks|;
    ConcatUniform(blocks, size, n);
    assert blocks[..n] == blocks;
    assert size * n == n * size;
    var whole := DecodeMarkerFields(Concat(blocks), n, count, markerLength);
    var parts := seq(n, f requires 0 <= f < n => DecodeMarkerField(blocks[f], count, markerLength));
    forall f | 0 <= f < n ensures whole[f] == parts[f] {
      ConcatUniformSlice(blocks, size, f);
    }
  }

  /** Field `f` of the encoded fields sits in its own block. */
  lemma FieldBlockAt(fields: seq<MarkerField>, count: nat, markerLength: nat, f: nat)
    requires forall g :: 0 <= g < |fields| ==> FieldFits(fields[g], count, markerLength)
    requires f < |fields|
    ensures MarkerFieldSize(count, markerLength) * f + MarkerFieldSize(count, markerLength) <= |EncodeMarkerFields(fields, count, markerLength)|
    ensures EncodeMarkerFields(fields, count, markerLength)[MarkerFieldSize(count, markerLength) * f..MarkerFieldSize(count, markerLength) * f + MarkerFieldSize(count, markerLength)]
      == EncodeMarkerField(fields[f], count, markerLength)
  {
    ConcatUniformSlice(FieldBlocks(fields, count, markerLength), MarkerFieldSize(count, markerLength), f);
  }

  lemma MarkerFieldsRoundTrip(fields: seq<MarkerField>, count: nat, markerLength: nat)
    requires forall f :: 0 <= f < |fields| ==> FieldFits(fields[f], count, markerLength)
    ensures DecodeMarkerFields(EncodeMarkerFields(fields, count, markerLength), |fields|, count, markerLength) == fields
  {
    var e := EncodeMarkerFields(fields, count, markerLength);
    var d := DecodeMarkerFields(e, |fields|, count, markerLength);
    forall f | 0 <= f < |fields| ensures d[f] == fields[f] {
      FieldBlockAt(fields, count, markerLength, f);
      MarkerFieldRoundTrip(fields[f], count, markerLength);
    }
  }

  // ------------------------------------------------------------------ decoding

  /** The value width a marker reader uses; a negative `MarkerLength` only occurs when no value is read. */
  function MarkerWidth(h: VarHeader): (ml: nat)
    ensures h.markerLength >= 0 ==> ml == h.markerLength
  {
    if h.markerLength >= 0 then h.markerLength else 0
  }

  lemma MarkerWidthSize(h: VarHeader)
    requires SizesValid(Marker, h)
    ensures h.nMarkers * MarkerFieldSize(h.count, h.markerLength) == h.nMarkers * MarkerFieldSize(h.count, MarkerWidth(h))
  {
  }

  /**
   * The values decoded for a header of layout `k` have the header's shape:
   * `Count` timestamps (or starts and ends, or fragments), `Count *
   * NPointsWave` waveform samples, `NPointsWave` continuous samples, and
   * `NMarkers` marker fields of `Count` values each.
   */
  predicate Shaped(k: VarKind, h: VarHeader, d: Decoded) {
    match k
    case Neuron | Event => d.Timestamps? && |d.timestamps| == h.count
    case Interval => d.Intervals? && |d.starts| == h.count && |d.ends| == h.count
    case Waveform => d.Waveforms? && |d.timestamps| == h.count && |d.samples| == h.count * h.nPointsWave
    case Continuous =>
      d.ContinuousData? && |d.fragmentTimestamps| == h.count && |d.fragmentIndexes| == h.count
      && |d.samples| == h.nPointsWave
    case Marker =>
      d.Markers? && |d.timestamps| == h.count && |d.fields| == h.nMarkers
      && forall f :: 0 <= f < |d.fields| ==> |d.fields[f].values| == h.count
    case PopulationVector => false
  }

  /**
   * The values a reader of layout `k` takes from the payload bytes `w`: every
   * block in the order the writer emitted it.
   */
  function DecodeWindow(k: VarKind, h: VarHeader, w: seq<uint8>): (d: Decoded)
    requires HasLayout(k) && SizesValid(k, h) && |w| == PayloadSize(k, h)
    ensures Shaped(k, h, d)
  {
    var c: nat := h.count;
    match k
    case Neuron | Event => DecodeTimestamps(w, c)
    case Interval => DecodeIntervals(w, c)
    case Waveform => DecodeWaveforms(w, c, h.nPointsWave)
    case Continuous => DecodeContinuous(w, c, h.nPointsWave)
    case Marker =>
      MarkerWidthSize(h);
      DecodeMarkers(w, c, h.nMarkers, MarkerWidth(h))
  }

  function DecodeTimestamps(w: seq<uint8>, count: nat): (d: Decoded)
    requires |w| == 4 * count
    ensures d.Timestamps? && |d.timestamps| == count
  {
    Timestamps(Int32sFromBytes(w))
  }

  function DecodeIntervals(w: seq<uint8>, count: nat): (d: Decoded)
    requires |w| == 8 * count
    ensures d.Intervals? && |d.starts| == count && |d.ends| == count
  {
    Intervals(Int32sFromBytes(w[..4 * count]), Int32sFromBytes(w[4 * count..]))
  }

  function DecodeContinuous(w: seq<uint8>, count: nat, nPointsWave: nat): (d: Decoded)
    requires |w| == 8 * count + 2 * nPointsWave
    ensures d.ContinuousData? && |d.fragmentTimestamps| == count && |d.fragmentIndexes| == count
    ensures |d.samples| == nPointsWave
  {
    ContinuousData(Int32sFromBytes(w[..4 * count]), Int32sFromBytes(w[4 * count..8 * count]), Int16sFromBytes(w[8 * count..]))
  }

  function DecodeWaveforms(w: seq<uint8>, count: nat, nPointsWave: int): (d: Decoded)
    requires count == 0 || nPointsWave >= 0
    requires |w| == 4 * count + 2 * (count * nPointsWave)
    ensures d.Waveforms? && |d.timestamps| == count && |d.samples| == count * nPointsWave
  {
    MulNonNeg(count, if count == 0 then 0 else nPointsWave);
    Waveforms(Int32sFromBytes(w[..4 * count]), Int16sFromBytes(w[4 * count..]))
  }

  function DecodeMarkers(w: seq<uint8>, count: nat, nMarkers: nat, markerLength: nat): (d: Decoded)
    requires |w| == 4 * count + nMarkers * MarkerFieldSize(count, markerLength)
    ensures d.Markers? && |d.timestamps| == count && |d.fields| == nMarkers
    ensures forall f :: 0 <= f < |d.fields| ==> |d.fields[f].values| == count
  {
    Markers(Int32sFromBytes(w[..4 * count]), DecodeMarkerFields(w[4 * count..], nMarkers, count, markerLength))
  }

  /**
   * Reading a variable of layout `k` from the file bytes `data`: seek to
   * `DataOffset`, then read `PayloadSize` bytes and decode them.
   */
  function DecodeAs(k: VarKind, data: seq<uint8>, h: VarHeader): (r: Result<Decoded, ReadError>)
    requires HasLayout(k)
    ensures r.Ok? <==> SizesValid(k, h) && h.dataOffset >= 0 && Fits(|data|, h.dataOffset, PayloadSize(k, h))
    ensures r == Err(NegativeSize) <==> !SizesValid(k, h)
    ensures r == Err(BadOffset) <==> SizesValid(k, h) && h.dataOffset < 0
    ensures r.Ok? ==> Shaped(k, h, r.value)
  {
    if !SizesValid(k, h) then Err(NegativeSize)
    else if h.dataOffset < 0 then Err(BadOffset)
    else if !Fits(|data|, h.dataOffset, PayloadSize(k, h)) then Err(Truncated)
    else Ok(DecodeWindow(k, h, Window(data, h.dataOffset, PayloadSize(k, h))))
  }

  /** When the header's window of `data` holds `w`, the reader decodes exactly `w`. */
  lemma DecodeAsWindow(k: VarKind, data: seq<uint8>, h: VarHeader, w: seq<uint8>)
    requires HasLayout(k) && SizesValid(k, h) && h.dataOffset >= 0
    requires |w| == PayloadSize(k, h) && h.dataOffset + |w| <= |data|
    requires data[h.dataOffset..h.dataOffset + |w|] == w
    ensures DecodeAs(k, data, h) == Ok(DecodeWindow(k, h, w))
  {
    assert Window(data, h.dataOffset, |w|) == w;
  }

  /** When the payload is all there, the reader decodes the bytes of its window. */
  lemma DecodeAsOk(k: VarKind, data: seq<uint8>, h: VarHeader)
    requires HasLayout(k) && SizesValid(k, h) && h.dataOffset >= 0
    requires Fits(|data|, h.dataOffset, PayloadSize(k, h))
    ensures DecodeAs(k, data, h) == Ok(DecodeWindow(k, h, Window(data, h.dataOffset, PayloadSize(k, h))))
  {
  }

  /** Dispatch on the header's type code; the population vector has no reader. */
  function DecodeVariable(data: seq<uint8>, h: VarHeader): (r: Result<Decoded, ReadError>)
    ensures (KindOf(h.typ).None? || h.typ == TypeCode(PopulationVector)) <==> r == Err(UnsupportedType(h.typ))
    ensures KindOf(h.typ).Some? && HasLayout(KindOf(h.typ).value) ==> r == DecodeAs(KindOf(h.typ).value, data, h)
  {
    match KindOf(h.typ)
    case None => Err(UnsupportedType(h.typ))
    case Some(k) => if HasLayout(k) then DecodeAs(k, data, h) else Err(UnsupportedType(h.typ))
  }

  /**
   * Applying the version rules before reading would change no payload read:
   * every variable reads the same through the interpreted header as through
   * the stored one.
   */
  lemma VersionRulesKeepPayload(data: seq<uint8>, fileVersion: int, h: VarHeader)
    requires h.WellFormed()
    ensures DecodeVariable(data, Interpreted(fileVersion, h)) == DecodeVariable(data, h)
  {
    InterpretedKeepsLayout(fileVersion, h);
  }

  // ------------------------------------------------------------------ encoding

  /** The layout a variable is written with. */
  function KindOfVar(v: Variable): (k: VarKind)
    ensures HasLayout(k)
  {
    match v
    case NeuronVar(_, _) => Neuron
    case EventVar(_, _) => Event
    case IntervalVar(_, _, _) => Interval
    case ContinuousVar(_, _, _, _, _, _) => Continuous
    case WaveformVar(_, _, _, _, _, _) => Waveform
    case MarkerVar(_, _, _, _) => Marker
  }

  /** The value the writer stores in `Count`. */
  function CountOf(v: Variable): nat {
    match v
    case NeuronVar(_, ts) => |ts|
    case EventVar(_, ts) => |ts|
    case IntervalVar(_, starts, _) => |starts|
    case ContinuousVar(_, _, _, fts, _, _) => |fts|
    case WaveformVar(_, _, _, _, ts, _) => |ts|
    case MarkerVar(_, _, ts, _) => |ts|
  }

  /**
   * What the writer can store: the name fits its 64-byte field with its
   * terminator, parallel arrays have equal lengths, every count fits an int32,
   * every wave has `NPointsWave` samples and every marker field fits.
   */
  predicate WellFormedVar(v: Variable) {
    && NoNul(v.name) && |v.name| < NAME_SIZE
    && IsInt32(CountOf(v))
    && match v
       case NeuronVar(_, _) => true
       case EventVar(_, _) => true
       case IntervalVar(_, starts, ends) => |starts| == |ends|
       case ContinuousVar(_, wf, ad, fts, fis, samples) =>
         |wf| == DOUBLE_SIZE && |ad| == DOUBLE_SIZE && |fts| == |fis| && IsInt32(|samples|)
       case WaveformVar(_, wf, ad, npw, ts, waves) =>
         && |wf| == DOUBLE_SIZE && |ad| == DOUBLE_SIZE && npw >= 0 && |waves| == |ts|
         && forall i :: 0 <= i < |waves| ==> |waves[i]| == npw
       case MarkerVar(_, ml, ts, fields) =>
         && ml >= 0 && IsInt32(|fields|)
         && forall f :: 0 <= f < |fields| ==> FieldFits(fields[f], |ts|, ml)
  }

  /** A header with every byte zero, as `memset` leaves it. */
  const BLANK_HEADER: VarHeader := VarHeader(
    0, 0, Zeros(NAME_SIZE), 0, 0, 0, 0, 0, 0,
    ZERO_DOUBLE, ZERO_DOUBLE, ZERO_DOUBLE, ZERO_DOUBLE, 0, 0, 0,
    ZERO_DOUBLE, ZERO_DOUBLE, Zeros(VAR_PADDING_SIZE))

  /**
   * The header the writer emits for `v` with its payload at `dataOffset`:
   * type code, version 100, the name, the offset and the count, the sample
   * fields of continuous and waveform variables, the marker fields of marker
   * variables, and zero everywhere else.
   */
  function HeaderOf(v: Variable, dataOffset: int32): (h: VarHeader)
    requires WellFormedVar(v)
    ensures h.WellFormed()
    ensures h.typ == TypeCode(KindOfVar(v)) && h.version == 100
    ensures h.NameText() == v.name
    ensures h.dataOffset == dataOffset && h.count == CountOf(v)
    ensures h.wireNumber == 0 && h.unitNumber == 0 && h.gain == 0 && h.filter == 0
    ensures h.xPos == ZERO_DOUBLE && h.yPos == ZERO_DOUBLE
    ensures h.mvOffset == ZERO_DOUBLE && h.prethresholdTimeInSeconds == ZERO_DOUBLE
    ensures h.padding == Zeros(VAR_PADDING_SIZE)
    ensures !v.MarkerVar? ==> h.nMarkers == 0 && h.markerLength == 0
    ensures !v.ContinuousVar? && !v.WaveformVar? ==> h.nPointsWave == 0 && h.wFrequency == ZERO_DOUBLE && h.adToMV == ZERO_DOUBLE
  {
    CutPadField(v.name, NAME_SIZE);
    var base := BLANK_HEADER.(typ := TypeCode(KindOfVar(v)), version := 100,
      name := PadField(v.name, NAME_SIZE), dataOffset := dataOffset, count := CountOf(v));
    match v
    case ContinuousVar(_, wf, ad, _, _, samples) => base.(wFrequency := wf, adToMV := ad, nPointsWave := |samples|)
    case WaveformVar(_, wf, ad, npw, _, _) => base.(wFrequency := wf, adToMV := ad, nPointsWave := npw)
    case MarkerVar(_, ml, _, fields) => base.(nMarkers := |fields|, markerLength := ml)
    case _ => base
  }

  /** The payload bytes the writer emits for `v`, block by block. */
  function EncodePayload(v: Variable): (r: seq<uint8>)
    requires WellFormedVar(v)
  {
    match v
    case NeuronVar(_, ts) => Int32sToBytes(ts)
    case EventVar(_, ts) => Int32sToBytes(ts)
    case IntervalVar(_, starts, ends) => Int32sToBytes(starts) + Int32sToBytes(ends)
    case ContinuousVar(_, _, _, fts, fis, samples) => Int32sToBytes(fts) + Int32sToBytes(fis) + Int16sToBytes(samples)
    case WaveformVar(_, _, _, _, ts, waves) => Int32sToBytes(ts) + Int16sToBytes(Concat(waves))
    case MarkerVar(_, ml, ts, fields) => Int32sToBytes(ts) + EncodeMarkerFields(fields, |ts|, ml)
  }

  /** What a reader recovers from the payload of `v`: waves come back as one flat sample array. */
  function Expected(v: Variable): (d: Decoded) {
    match v
    case NeuronVar(_, ts) => Timestamps(ts)
    case EventVar(_, ts) => Timestamps(ts)
    case IntervalVar(_, starts, ends) => Intervals(starts, ends)
    case ContinuousVar(_, _, _, fts, fis, samples) => ContinuousData(fts, fis, samples)
    case WaveformVar(_, _, _, _, ts, waves) => Waveforms(ts, Concat(waves))
    case MarkerVar(_, _, ts, fields) => Markers(ts, fields)
  }

  /**
   * The payload the writer emits is exactly as long as the size the writer
   * adds to its running offset and the reader consumes, and the header it
   * writes describes sizes a reader accepts.
   */
  lemma PayloadSizeOfVariable(v: Variable, dataOffset: int32)
    requires WellFormedVar(v)
    ensures SizesValid(KindOfVar(v), HeaderOf(v, dataOffset))
    ensures |EncodePayload(v)| == PayloadSize(KindOfVar(v), HeaderOf(v, dataOffset))
  {
    var h := HeaderOf(v, dataOffset);
    match v
    case WaveformVar(_, _, _, npw, ts, waves) =>
      ConcatUniformSlices(waves, npw);
    case MarkerVar(_, ml, ts, fields) =>
    case _ =>
  }

  /** Decoding the payload the writer emitted returns the values written. */
  lemma PayloadRoundTrip(v: Variable, dataOffset: int32)
    requires WellFormedVar(v)
    ensures SizesValid(KindOfVar(v), HeaderOf(v, dataOffset))
    ensures |EncodePayload(v)| == PayloadSize(KindOfVar(v), HeaderOf(v, dataOffset))
    ensures DecodeWindow(KindOfVar(v), HeaderOf(v, dataOffset), EncodePayload(v)) == Expected(v)
  {
    PayloadSizeOfVariable(v, dataOffset);
    var h := HeaderOf(v, dataOffset);
    var w := EncodePayload(v);
    match v
    case NeuronVar(_, ts) =>
      Int32sRoundTrip(ts);
    case EventVar(_, ts) =>
      Int32sRoundTrip(ts);
    case IntervalVar(_, starts, ends) =>
      assert w[..4 * |starts|] == Int32sToBytes(starts);
      assert w[4 * |starts|..] == Int32sToBytes(ends);
      Int32sRoundTrip(starts);
      Int32sRoundTrip(ends);
    case ContinuousVar(_, _, _, fts, fis, samples) =>
      assert w[..4 * |fts|] == Int32sToBytes(fts);
      assert w[4 * |fts|..8 * |fts|] == Int32sToBytes(fis);
      assert w[8 * |fts|..] == Int16sToBytes(samples);
      Int32sRoundTrip(fts);
      Int32sRoundTrip(fis);
      Int16sRoundTrip(samples);
    case WaveformVar(_, _, _, _, ts, waves) =>
      assert w[..4 * |ts|] == Int32sToBytes(ts);
      assert w[4 * |ts|..] == Int16sToBytes(Concat(waves));
      Int32sRoundTrip(ts);
      Int16sRoundTrip(Concat(waves));
    case MarkerVar(_, ml, ts, fields) =>
      assert w[..4 * |ts|] == Int32sToBytes(ts);
      assert w[4 * |ts|..] == EncodeMarkerFields(fields, |ts|, ml);
      Int32sRoundTrip(ts);
      MarkerFieldsRoundTrip(fields, |ts|, ml);
  }

  /** Sample `p` of wave `i` sits at index `i * NPointsWave + p` of the flat sample array. */
  lemma WaveformSampleAt(v: Variable, i: nat, p: nat)
    requires WellFormedVar(v) && v.WaveformVar?
    requires i < |v.waves| && p < v.nPointsWave
    ensures i * v.nPointsWave + p < |Expected(v).samples|
    ensures Expected(v).samples[i * v.nPointsWave + p] == v.waves[i][p]
  {
    ConcatUniformAt(v.waves, v.nPointsWave, i, p);
  }

  // ------------------------------------------------------------------ continuous fragments

  /** Samples in fragment `i`: from its first index up to the next fragment's, or to the last sample. */
  function FragmentLength(indexes: seq<int32>, nPoints: int, i: nat): int
    requires i < |indexes|
  {
    (if i + 1 < |indexes| then indexes[i + 1] else nPoints) - indexes[i]
  }

  /**
   * The first fragment's length as the reader computes it: the second
   * fragment's first index when there is one, otherwise every sample. It is
   * the fragment's true length whenever the first fragment starts at sample 0.
   */
  function FirstFragmentLength(indexes: seq<int32>, nPoints: int): (n: int)
    requires |indexes| > 0
    ensures indexes[0] == 0 ==> n == FragmentLength(indexes, nPoints, 0)
    ensures |indexes| == 1 ==> n == nPoints
  {
    if |indexes| > 1 then indexes[1] else nPoints
  }

  function FragmentLengths(indexes: seq<int32>, nPoints: int): (ns: seq<int>)
    ensures |ns| == |indexes|
  {
    seq(|indexes|, i requires 0 <= i < |indexes| => FragmentLength(indexes, nPoints, i))
  }

  function Sum(ns: seq<int>): int {
    if |ns| == 0 then 0 else ns[0] + Sum(ns[1..])
  }

  /** The fragments together hold every sample from the first fragment's start to the end. */
  lemma {:induction false} FragmentLengthsSum(indexes: seq<int32>, nPoints: int)
    requires |indexes| > 0
    ensures Sum(FragmentLengths(indexes, nPoints)) == nPoints - indexes[0]
    decreases |indexes|
  {
    var ns := FragmentLengths(indexes, nPoints);
    if |indexes| > 1 {
      assert ns[1..] == FragmentLengths(indexes[1..], nPoints);
      FragmentLengthsSum(indexes[1..], nPoints);
    }
  }

  /** Two fragments starting at samples 0 and 5 of 8 hold 5 and 3 samples. */
  lemma DemoFragments()
    ensures FragmentLengths([0, 5], 8) == [5, 3]
    ensures FirstFragmentLength([0, 5], 8) == 5
  {
  }
}
