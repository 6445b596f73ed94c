/**
 * The fixed layouts of a .nex file: the variable type codes, the 544-byte file
 * header and the 208-byte variable header, each packed with no gaps, integers
 * as little-endian 32-bit values, doubles as opaque 8-byte fields and text as
 * NUL-padded fixed-width fields.
 */
module NexFile {
  import opened Bytes
  import opened Results

  /** The seven kinds of variable a .nex file can hold. */
  datatype VarKind = Neuron | Event | Interval | Waveform | PopulationVector | Continuous | Marker

  /** The `Type` code a variable header stores for each kind. */
  function TypeCode(k: VarKind): (c: int32)
    ensures 0 <= c <= 6
  {
    match k
    case Neuron => 0
    case Event => 1
    case Interval => 2
    case Waveform => 3
    case PopulationVector => 4
    case Continuous => 5
    case Marker => 6
  }

  /** The kind a stored `Type` code names; codes outside 0..6 name none. */
  function KindOf(code: int): (r: Option<VarKind>)
    ensures r.Some? <==> 0 <= code <= 6
    ensures r.Some? ==> TypeCode(r.value) == code
  {
    if code == 0 then Some(Neuron)
    else if code == 1 then Some(Event)
    else if code == 2 then Some(Interval)
    else if code == 3 then Some(Waveform)
    else if code == 4 then Some(PopulationVector)
    else if code == 5 then Some(Continuous)
    else if code == 6 then Some(Marker)
    else None
  }

  /** Every kind has its own code: reading back a written code gives the same kind. */
  lemma KindOfTypeCode(k: VarKind)
    ensures KindOf(TypeCode(k)) == Some(k)
  {
  }

  const FILE_HEADER_SIZE: nat := 544
  const VAR_HEADER_SIZE: nat := 208
  const NAME_SIZE: nat := 64
  const COMMENT_SIZE: nat := 256
  const DOUBLE_SIZE: nat := 8
  const FILE_PADDING_SIZE: nat := 256
  const VAR_PADDING_SIZE: nat := 52

  /** The bytes of the ASCII text "NEX1". */
  const NEX1_TEXT: seq<uint8> := [0x4E, 0x45, 0x58, 0x31]

  /** `MagicNumber`: the text "NEX1" read as a little-endian `int`. */
  const NEX1_MAGIC: int32 := 827868494

  lemma MagicIsNex1()
    ensures Int32FromBytes(NEX1_TEXT) == NEX1_MAGIC == 0x3158454E
    ensures Int32ToBytes(NEX1_MAGIC) == NEX1_TEXT
  {
  }

  /** A double stored as 0.0: eight zero bytes. */
  const ZERO_DOUBLE: seq<uint8> := Zeros(DOUBLE_SIZE)

  // ------------------------------------------------------------------ file header

  /** `NexFileHeader`. Text and double fields are kept as their raw bytes. */
  datatype FileHeader = FileHeader(
    magicNumber: int32,
    nexFileVersion: int32,
    comment: seq<uint8>,
    frequency: seq<uint8>,
    beg: int32,
    end: int32,
    numVars: int32,
    nextFileHeader: int32,
    padding: seq<uint8>)
  {
    predicate WellFormed() {
      |comment| == COMMENT_SIZE && |frequency| == DOUBLE_SIZE && |padding| == FILE_PADDING_SIZE
    }

    /** The text of the comment field, up to its first NUL. */
    function CommentText(): (s: seq<uint8>)
      ensures NoNul(s) && |s| <= |comment|
    {
      CutAtNul(comment)
    }

    /** The file starts with the "NEX1" tag. The codec reads files without checking it. */
    predicate HasMagic() {
      magicNumber == NEX1_MAGIC
    }

    /**
     * `Beg` is the smallest timestamp and `End` one past the largest, so every
     * stored tick lies in the half-open range [Beg, End).
     */
    predicate Covers(t: int) {
      beg <= t < end
    }
  }

  /** The 544 bytes of a file header, each field at its packed offset. */
  function EncodeFileHeader(h: FileHeader): (r: seq<uint8>)
    requires h.WellFormed()
    ensures |r| == FILE_HEADER_SIZE
  {
    Int32ToBytes(h.magicNumber) + Int32ToBytes(h.nexFileVersion) + h.comment + h.frequency
    + Int32ToBytes(h.beg) + Int32ToBytes(h.end) + Int32ToBytes(h.numVars)
    + Int32ToBytes(h.nextFileHeader) + h.padding
  }
  /** The packed layout: each field at its fixed offset, with no gaps. */
  lemma FileHeaderLayout(h: FileHeader)
    requires h.WellFormed()
    ensures EncodeFileHeader(h)[0..4] == Int32ToBytes(h.magicNumber)
    ensures EncodeFileHeader(h)[4..8] == Int32ToBytes(h.nexFileVersion)
    ensures EncodeFileHeader(h)[8..264] == h.comment
    ensures EncodeFileHeader(h)[264..272] == h.frequency
    ensures EncodeFileHeader(h)[272..276] == Int32ToBytes(h.beg)
    ensures EncodeFileHeader(h)[276..280] == Int32ToBytes(h.end)
    ensures EncodeFileHeader(h)[280..284] == Int32ToBytes(h.numVars)
    ensures EncodeFileHeader(h)[284..288] == Int32ToBytes(h.nextFileHeader)
    ensures EncodeFileHeader(h)[288..544] == h.padding
  {
  }


  /** The file header `fread` fills from the first 544 bytes of `b`; it inverts the encoder. */
  function DecodeFileHeader(b: seq<uint8>): (h: FileHeader)
    requires |b| >= FILE_HEADER_SIZE
    ensures h.WellFormed() && EncodeFileHeader(h) == b[..FILE_HEADER_SIZE]
  {
    var h := FileHeader(
      Int32FromBytes(b[0..4]), Int32FromBytes(b[4..8]), b[8..264], b[264..272],
      Int32FromBytes(b[272..276]), Int32FromBytes(b[276..280]),
      Int32FromBytes(b[280..284]), Int32FromBytes(b[284..288]), b[288..544]);
    Int32BytesRoundTrip(b[0..4]);
    Int32BytesRoundTrip(b[4..8]);
    Int32BytesRoundTrip(b[272..276]);
    Int32BytesRoundTrip(b[276..280]);
    Int32BytesRoundTrip(b[280..284]);
    Int32BytesRoundTrip(b[284..288]);
    var e := EncodeFileHeader(h);
    FileHeaderLayout(h);
    assert e == b[..FILE_HEADER_SIZE] by {
      forall i | 0 <= i < FILE_HEADER_SIZE ensures e[i] == b[i] {
        if i < 4 { assert e[i] == e[0..4][i]; }
        else if i < 8 { assert e[i] == e[4..8][i - 4]; }
        else if i < 264 { assert e[i] == e[8..264][i - 8]; }
        else if i < 272 { assert e[i] == e[264..272][i - 264]; }
        else if i < 276 { assert e[i] == e[272..276][i - 272]; }
        else if i < 280 { assert e[i] == e[276..280][i - 276]; }
        else if i < 284 { assert e[i] == e[280..284][i - 280]; }
        else if i < 288 { assert e[i] == e[284..288][i - 284]; }
        else { assert e[i] == e[288..544][i - 288]; }
      }
    }
    h
  }

  lemma FileHeaderRoundTrip(h: FileHeader)
    requires h.WellFormed()
    ensures DecodeFileHeader(EncodeFileHeader(h)) == h
  {
    var b := EncodeFileHeader(h);
    FileHeaderLayout(h);
    Int32RoundTrip(h.magicNumber);
    Int32RoundTrip(h.nexFileVersion);
    Int32RoundTrip(h.beg);
    Int32RoundTrip(h.end);
    Int32RoundTrip(h.numVars);
    Int32RoundTrip(h.nextFileHeader);
  }

  // ------------------------------------------------------------------ variable header

  /**
   * `NexVarHeader`, one directory entry. `typ` is the raw `Type` code, kept
   * as stored so that entries of unknown type can still be listed.
   */
  datatype VarHeader = VarHeader(
    typ: int32,
    version: int32,
    name: seq<uint8>,
    dataOffset: int32,
    count: int32,
    wireNumber: int32,
    unitNumber: int32,
    gain: int32,
    filter: int32,
    xPos: seq<uint8>,
    yPos: seq<uint8>,
    wFrequency: seq<uint8>,
    adToMV: seq<uint8>,
    nPointsWave: int32,
    nMarkers: int32,
    markerLength: int32,
    mvOffset: seq<uint8>,
    prethresholdTimeInSeconds: seq<uint8>,
    padding: seq<uint8>)
  {
    predicate WellFormed() {
      && |name| == NAME_SIZE
      && |xPos| == DOUBLE_SIZE && |yPos| == DOUBLE_SIZE
      && |wFrequency| == DOUBLE_SIZE && |adToMV| == DOUBLE_SIZE
      && |mvOffset| == DOUBLE_SIZE && |prethresholdTimeInSeconds| == DOUBLE_SIZE
      && |padding| == VAR_PADDING_SIZE
    }

    /** The variable name, up to its first NUL. */
    function NameText(): (s: seq<uint8>)
      ensures NoNul(s) && |s| <= |name|
    {
      CutAtNul(name)
    }
  }

  /** The 208 bytes of a variable header, each field at its packed offset. */
  function EncodeVarHeader(h: VarHeader): (r: seq<uint8>)
    requires h.WellFormed()
    ensures |r| == VAR_HEADER_SIZE
  {
    Int32ToBytes(h.typ) + Int32ToBytes(h.version) + h.name + Int32ToBytes(h.dataOffset)
    + Int32ToBytes(h.count) + Int32ToBytes(h.wireNumber) + Int32ToBytes(h.unitNumber)
    + Int32ToBytes(h.gain) + Int32ToBytes(h.filter) + h.xPos + h.yPos + h.wFrequency + h.adToMV
    + Int32ToBytes(h.nPointsWave) + Int32ToBytes(h.nMarkers) + Int32ToBytes(h.markerLength)
    + h.mvOffset + h.prethresholdTimeInSeconds + h.padding
  }
  /** The packed layout: each field at its fixed offset, with no gaps. */
  lemma VarHeaderLayout(h: VarHeader)
    requires h.WellFormed()
    ensures EncodeVarHeader(h)[0..4] == Int32ToBytes(h.typ)
    ensures EncodeVarHeader(h)[4..8] == Int32ToBytes(h.version)
    ensures EncodeVarHeader(h)[8..72] == h.name
    ensures EncodeVarHeader(h)[72..76] == Int32ToBytes(h.dataOffset)
    ensures EncodeVarHeader(h)[76..80] == Int32ToBytes(h.count)
    ensures EncodeVarHeader(h)[80..84] == Int32ToBytes(h.wireNumber)
    ensures EncodeVarHeader(h)[84..88] == Int32ToBytes(h.unitNumber)
    ensures EncodeVarHeader(h)[88..92] == Int32ToBytes(h.gain)
    ensures EncodeVarHeader(h)[92..96] == Int32ToBytes(h.filter)
    ensures EncodeVarHeader(h)[96..104] == h.xPos
    ensures EncodeVarHeader(h)[104..112] == h.yPos
    ensures EncodeVarHeader(h)[112..120] == h.wFrequency
    ensures EncodeVarHeader(h)[120..128] == h.adToMV
    ensures EncodeVarHeader(h)[128..132] == Int32ToBytes(h.nPointsWave)
    ensures EncodeVarHeader(h)[132..136] == Int32ToBytes(h.nMarkers)
    ensures EncodeVarHeader(h)[136..140] == Int32ToBytes(h.markerLength)
    ensures EncodeVarHeader(h)[140..148] == h.mvOffset
    ensures EncodeVarHeader(h)[148..156] == h.prethresholdTimeInSeconds
    ensures EncodeVarHeader(h)[156..208] == h.padding
  {
    VarHeaderLayout1(h);
    VarHeaderLayout2(h);
    VarHeaderLayout3(h);
    VarHeaderLayout4(h);
  }

  lemma VarHeaderLayout1(h: VarHeader)
    requires h.WellFormed()
    ensures EncodeVarHeader(h)[0..4] == Int32ToBytes(h.typ)
    ensures EncodeVarHeader(h)[4..8] == Int32ToBytes(h.version)
    ensures EncodeVarHeader(h)[8..72] == h.name
    ensures EncodeVarHeader(h)[72..76] == Int32ToBytes(h.dataOffset)
    ensures EncodeVarHeader(h)[76..80] == Int32ToBytes(h.count)
  {
  }

  lemma VarHeaderLayout2(h: VarHeader)
    requires h.WellFormed()
    ensures EncodeVarHeader(h)[80..84] == Int32ToBytes(h.wireNumber)
    ensures EncodeVarHeader(h)[84..88] == Int32ToBytes(h.unitNumber)
    ensures EncodeVarHeader(h)[88..92] == Int32ToBytes(h.gain)
    ensures EncodeVarHeader(h)[92..96] == Int32ToBytes(h.filter)
    ensures EncodeVarHeader(h)[96..104] == h.xPos
  {
  }

  lemma VarHeaderLayout3(h: VarHeader)
    requires h.WellFormed()
    ensures EncodeVarHeader(h)[104..112] == h.yPos
    ensures EncodeVarHeader(h)[112..120] == h.wFrequency
    ensures EncodeVarHeader(h)[120..128] == h.adToMV
    ensures EncodeVarHeader(h)[128..132] == Int32ToBytes(h.nPointsWave)
    ensures EncodeVarHeader(h)[132..136] == Int32ToBytes(h.nMarkers)
  {
  }

  lemma VarHeaderLayout4(h: VarHeader)
    requires h.WellFormed()
    ensures EncodeVarHeader(h)[136..140] == Int32ToBytes(h.markerLength)
    ensures EncodeVarHeader(h)[140..148] == h.mvOffset
    ensures EncodeVarHeader(h)[148..156] == h.prethresholdTimeInSeconds
    ensures EncodeVarHeader(h)[156..208] == h.padding
  {
  }

  /** The variable header `fread` fills from the first 208 bytes of `b`; it inverts the encoder. */
  function DecodeVarHeader(b: seq<uint8>): (h: VarHeader)
    requires |b| >= VAR_HEADER_SIZE
    ensures h.WellFormed() && EncodeVarHeader(h) == b[..VAR_HEADER_SIZE]
  {
    var h := VarHeader(
      Int32FromBytes(b[0..4]),
      Int32FromBytes(b[4..8]),
      b[8..72],
      Int32FromBytes(b[72..76]),
      Int32FromBytes(b[76..80]),
      Int32FromBytes(b[80..84]),
      Int32FromBytes(b[84..88]),
      Int32FromBytes(b[88..92]),
      Int32FromBytes(b[92..96]),
      b[96..104],
      b[104..112],
      b[112..120],
      b[120..128],
      Int32FromBytes(b[128..132]),
      Int32FromBytes(b[132..136]),
      Int32FromBytes(b[136..140]),
      b[140..148],
      b[148..156],
      b[156..208]);
    EncodeDecodedVarHeader(b, h);
    h
  }

  /** Two byte strings that agree on a slice agree at each index of it. */
  lemma SliceAgree(e: seq<uint8>, b: seq<uint8>, lo: nat, hi: nat)
    requires lo <= hi <= |e| && hi <= |b| && e[lo..hi] == b[lo..hi]
    ensures forall i :: lo <= i < hi ==> e[i] == b[i]
  {
    forall i | lo <= i < hi ensures e[i] == b[i] {
      assert e[i] == e[lo..hi][i - lo];
    }
  }

  lemma EncodeDecodedVarHeader(b: seq<uint8>, h: VarHeader)
    requires |b| >= VAR_HEADER_SIZE
    requires h == VarHeader(
      Int32FromBytes(b[0..4]),
      Int32FromBytes(b[4..8]),
      b[8..72],
      Int32FromBytes(b[72..76]),
      Int32FromBytes(b[76..80]),
      Int32FromBytes(b[80..84]),
      Int32FromBytes(b[84..88]),
      Int32FromBytes(b[88..92]),
      Int32FromBytes(b[92..96]),
      b[96..104],
      b[104..112],
      b[112..120],
      b[120..128],
      Int32FromBytes(b[128..132]),
      Int32FromBytes(b[132..136]),
      Int32FromBytes(b[136..140]),
      b[140..148],
      b[148..156],
      b[156..208])
    ensures h.WellFormed() && EncodeVarHeader(h) == b[..VAR_HEADER_SIZE]
  {
    Int32BytesRoundTrip(b[0..4]);
    Int32BytesRoundTrip(b[4..8]);
    Int32BytesRoundTrip(b[72..76]);
    Int32BytesRoundTrip(b[76..80]);
    Int32BytesRoundTrip(b[80..84]);
    Int32BytesRoundTrip(b[84..88]);
    Int32BytesRoundTrip(b[88..92]);
    Int32BytesRoundTrip(b[92..96]);
    Int32BytesRoundTrip(b[128..132]);
    Int32BytesRoundTrip(b[132..136]);
    Int32BytesRoundTrip(b[136..140]);
    var e := EncodeVarHeader(h);
    VarHeaderLayout(h);
    SliceAgree(e, b, 0, 4);
    SliceAgree(e, b, 4, 8);
    SliceAgree(e, b, 8, 72);
    SliceAgree(e, b, 72, 76);
    SliceAgree(e, b, 76, 80);
    SliceAgree(e, b, 80, 84);
    SliceAgree(e, b, 84, 88);
    SliceAgree(e, b, 88, 92);
    SliceAgree(e, b, 92, 96);
    SliceAgree(e, b, 96, 104);
    SliceAgree(e, b, 104, 112);
    SliceAgree(e, b, 112, 120);
    SliceAgree(e, b, 120, 128);
    SliceAgree(e, b, 128, 132);
    SliceAgree(e, b, 132, 136);
    SliceAgree(e, b, 136, 140);
    SliceAgree(e, b, 140, 148);
    SliceAgree(e, b, 148, 156);
    SliceAgree(e, b, 156, 208);
  }

  lemma VarHeaderRoundTrip(h: VarHeader)
    requires h.WellFormed()
    ensures DecodeVarHeader(EncodeVarHeader(h)) == h
  {
    VarHeaderLayout(h);
    Int32RoundTrip(h.typ);
    Int32RoundTrip(h.version);
    Int32RoundTrip(h.dataOffset);
    Int32RoundTrip(h.count);
    Int32RoundTrip(h.wireNumber);
    Int32RoundTrip(h.unitNumber);
    Int32RoundTrip(h.gain);
    Int32RoundTrip(h.filter);
    Int32RoundTrip(h.nPointsWave);
    Int32RoundTrip(h.nMarkers);
    Int32RoundTrip(h.markerLength);
  }

  // ------------------------------------------------------------------ version rules

  /** File versions 102 and 103 were beta releases that should not be read. */
  predicate UsableFileVersion(v: int) {
    v != 102 && v != 103
  }

  /**
   * The variable header as the format's version rules say a reader should
   * interpret it: `WireNumber` and `UnitNumber` count from header version
   * 101, `MVOffset` from file version 105, and `PrethresholdTimeInSeconds`
   * from file version 106 in a header of version 102 or later; a field that
   * does not count reads as zero. The readers of this codec do not apply
   * these rules: they pass every field through as stored.
   */
  function Interpreted(fileVersion: int, h: VarHeader): (e: VarHeader)
    requires h.WellFormed()
    ensures e.WellFormed()
  {
    var wireValid := h.version >= 101;
    h.(wireNumber := if wireValid then h.wireNumber else 0,
       unitNumber := if wireValid then h.unitNumber else 0,
       mvOffset := if fileVersion >= 105 then h.mvOffset else ZERO_DOUBLE,
       prethresholdTimeInSeconds :=
         if fileVersion >= 106 && h.version >= 102 then h.prethresholdTimeInSeconds else ZERO_DOUBLE)
  }

  /** Files of versions 100, 101 and 104 never carry an `MVOffset` or a pre-threshold time. */
  lemma OldFileVersionsZeroOffsets(fileVersion: int, h: VarHeader)
    requires h.WellFormed() && fileVersion in {100, 101, 104}
    ensures Interpreted(fileVersion, h).mvOffset == ZERO_DOUBLE
    ensures Interpreted(fileVersion, h).prethresholdTimeInSeconds == ZERO_DOUBLE
  {
  }

  /** A file of version 105 may carry an `MVOffset`, but still no pre-threshold time. */
  lemma FileVersion105KeepsMVOffset(h: VarHeader)
    requires h.WellFormed()
    ensures Interpreted(105, h).mvOffset == h.mvOffset
    ensures Interpreted(105, h).prethresholdTimeInSeconds == ZERO_DOUBLE
  {
  }

  /** A header of version 100 reports no wire, no unit and no pre-threshold time. */
  lemma HeaderVersion100Zeroes(fileVersion: int, h: VarHeader)
    requires h.WellFormed() && h.version == 100
    ensures Interpreted(fileVersion, h).wireNumber == 0
    ensures Interpreted(fileVersion, h).unitNumber == 0
    ensures Interpreted(fileVersion, h).prethresholdTimeInSeconds == ZERO_DOUBLE
  {
  }

  /** A header of version 101 reports its wire and unit, but no pre-threshold time. */
  lemma HeaderVersion101KeepsWire(fileVersion: int, h: VarHeader)
    requires h.WellFormed() && h.version == 101
    ensures Interpreted(fileVersion, h).wireNumber == h.wireNumber
    ensures Interpreted(fileVersion, h).unitNumber == h.unitNumber
    ensures Interpreted(fileVersion, h).prethresholdTimeInSeconds == ZERO_DOUBLE
  {
  }

  /** In a current (106) file a version-102 header is read as stored. */
  lemma CurrentVersionsKeepEverything(fileVersion: int, h: VarHeader)
    requires h.WellFormed() && fileVersion >= 106 && h.version >= 102
    ensures Interpreted(fileVersion, h) == h
  {
  }

  /**
   * The version rules touch no field that locates or sizes a payload: the
   * type, name, offset and sizes are those stored, whatever the versions.
   */
  lemma InterpretedKeepsLayout(fileVersion: int, h: VarHeader)
    requires h.WellFormed()
    ensures Interpreted(fileVersion, h).typ == h.typ
    ensures Interpreted(fileVersion, h).NameText() == h.NameText()
    ensures Interpreted(fileVersion, h).dataOffset == h.dataOffset
    ensures Interpreted(fileVersion, h).count == h.count
    ensures Interpreted(fileVersion, h).nPointsWave == h.nPointsWave
    ensures Interpreted(fileVersion, h).nMarkers == h.nMarkers
    ensures Interpreted(fileVersion, h).markerLength == h.markerLength
  {
  }

  lemma InterpretedIdempotent(fileVersion: int, h: VarHeader)
    requires h.WellFormed()
    ensures Interpreted(fileVersion, Interpreted(fileVersion, h)) == Interpreted(fileVersion, h)
  {
  }

  // ------------------------------------------------------------------ directory

  /** The directory: the variable headers written back to back, in file order. */
  function EncodeDirectory(hs: seq<VarHeader>): (r: seq<uint8>)
    requires forall i :: 0 <= i < |hs| ==> hs[i].WellFormed()
    ensures |r| == VAR_HEADER_SIZE * |hs|
  {
    var parts := seq(|hs|, i requires 0 <= i < |hs| => EncodeVarHeader(hs[i]));
    ConcatUniformSlices(parts, VAR_HEADER_SIZE);
    Concat(parts)
  }

  /** Header `i` of the directory occupies bytes `208 * i` up to `208 * (i + 1)`. */
  lemma DirectorySlice(hs: seq<VarHeader>, i: nat)
    requires forall j :: 0 <= j < |hs| ==> hs[j].WellFormed()
    requires i < |hs|
    ensures VAR_HEADER_SIZE * i + VAR_HEADER_SIZE <= |EncodeDirectory(hs)|
    ensures EncodeDirectory(hs)[VAR_HEADER_SIZE * i..VAR_HEADER_SIZE * i + VAR_HEADER_SIZE] == EncodeVarHeader(hs[i])
  {
    var parts := seq(|hs|, j requires 0 <= j < |hs| => EncodeVarHeader(hs[j]));
    ConcatUniformSlice(parts, VAR_HEADER_SIZE, i);
  }

  /** The `n` variable headers stored back to back in `b`, in file order; it inverts the directory encoder. */
  function DecodeDirectory(b: seq<uint8>, n: nat): (hs: seq<VarHeader>)
    requires |b| == VAR_HEADER_SIZE * n
    ensures |hs| == n
    ensures (forall i :: 0 <= i < |hs| ==> hs[i].WellFormed()) && EncodeDirectory(hs) == b
  {
    var hs := seq(n, i requires 0 <= i < n =>
      DecodeVarHeader(b[VAR_HEADER_SIZE * i..VAR_HEADER_SIZE * i + VAR_HEADER_SIZE]));
    DirectoryRecords(b, hs);
    hs
  }

  lemma DirectoryRecords(b: seq<uint8>, hs: seq<VarHeader>)
    requires VAR_HEADER_SIZE * |hs| == |b|
    requires forall i :: 0 <= i < |hs| ==>
      hs[i] == DecodeVarHeader(b[VAR_HEADER_SIZE * i..VAR_HEADER_SIZE * i + VAR_HEADER_SIZE])
    ensures (forall i :: 0 <= i < |hs| ==> hs[i].WellFormed()) && EncodeDirectory(hs) == b
  {
    var e := EncodeDirectory(hs);
    forall i | 0 <= i < |hs|
      ensures VAR_HEADER_SIZE * i + VAR_HEADER_SIZE <= |e|
      ensures e[VAR_HEADER_SIZE * i..VAR_HEADER_SIZE * i + VAR_HEADER_SIZE]
           == b[VAR_HEADER_SIZE * i..VAR_HEADER_SIZE * i + VAR_HEADER_SIZE]
    {
      var slice := b[VAR_HEADER_SIZE * i..VAR_HEADER_SIZE * i + VAR_HEADER_SIZE];
      DirectorySlice(hs, i);
      assert EncodeVarHeader(hs[i]) == slice[..VAR_HEADER_SIZE] == slice;
    }
    EqualByRecords(e, b, VAR_HEADER_SIZE, |hs|);
  }

  lemma DirectoryRoundTrip(hs: seq<VarHeader>)
    requires forall i :: 0 <= i < |hs| ==> hs[i].WellFormed()
    ensures DecodeDirectory(EncodeDirectory(hs), |hs|) == hs
  {
    var b := EncodeDirectory(hs);
    var d := DecodeDirectory(b, |hs|);
    forall i | 0 <= i < |hs| ensures d[i] == hs[i] {
      DirectorySlice(hs, i);
      VarHeaderRoundTrip(hs[i]);
    }
  }

  /** Appending a header to the directory appends its 208 bytes. */
  lemma DirectoryAppend(hs: seq<VarHeader>, h: VarHeader)
    requires forall i :: 0 <= i < |hs| ==> hs[i].WellFormed()
    requires h.WellFormed()
    ensures EncodeDirectory(hs + [h]) == EncodeDirectory(hs) + EncodeVarHeader(h)
  {
    var hs' := hs + [h];
    var parts := seq(|hs|, i requires 0 <= i < |hs| => EncodeVarHeader(hs[i]));
    var parts' := seq(|hs'|, i requires 0 <= i < |hs'| => EncodeVarHeader(hs'[i]));
    assert parts'[..|parts'| - 1] == parts;
    assert EncodeDirectory(hs') == Concat(parts');
    assert EncodeDirectory(hs) == Concat(parts);
  }

  // ------------------------------------------------------------------ time range

  /**
   * The `Beg` and `End` of a file holding `ticks`: the smallest tick, and one
   * past the largest, so that every tick lies in [Beg, End).
   */
  function TimeRange(ticks: seq<int>): (r: (int, int))
    requires |ticks| > 0
    ensures forall t :: t in ticks ==> r.0 <= t < r.1
    ensures r.0 in ticks && r.1 - 1 in ticks
  {
    if |ticks| == 1 then (ticks[0], ticks[0] + 1)
    else
      var rest := TimeRange(ticks[1..]);
      assert ticks == [ticks[0]] + ticks[1..];
      (if ticks[0] < rest.0 then ticks[0] else rest.0, if ticks[0] + 1 > rest.1 then ticks[0] + 1 else rest.1)
  }

  /** A header whose `Beg` and `End` are the time range of `ticks` covers every tick. */
  lemma RangeCovers(h: FileHeader, ticks: seq<int>)
    requires |ticks| > 0 && (h.beg as int, h.end as int) == TimeRange(ticks)
    ensures forall t :: t in ticks ==> h.Covers(t)
    ensures !h.Covers(h.beg - 1) && !h.Covers(h.end)
  {
  }
}
