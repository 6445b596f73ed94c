/**
 * Writing a whole .nex file: the file header, then one variable header per
 * variable with a running data offset, then the payloads in the same order.
 *
 * `WriteNexFile` is the step-by-step writer; `FileImage` is the byte image it
 * produces, and the lemmas below prove that every `DataOffset` points at its
 * payload and that reading the image back returns what was written.
 */
module NexWriter {
  import opened Bytes
  import opened Results
  import opened NexFile
  import opened NexPayload
  import opened Streams

  /** Where the first payload goes: right after the file header and the directory. */
  function FirstDataOffset(numVars: nat): nat {
    FILE_HEADER_SIZE + VAR_HEADER_SIZE * numVars
  }

  /** The file header both demo writers fill in: the "NEX1" tag, version 100, no next header. */
  function NewFileHeader(comment: seq<uint8>, frequency: seq<uint8>, beg: int32, end: int32, numVars: int32): (fh: FileHeader)
    requires NoNul(comment) && |comment| < COMMENT_SIZE && |frequency| == DOUBLE_SIZE
    ensures fh.WellFormed() && fh.HasMagic() && fh.nexFileVersion == 100
    ensures fh.CommentText() == comment && fh.frequency == frequency
    ensures fh.beg == beg && fh.end == end && fh.numVars == numVars && fh.nextFileHeader == 0
  {
    CutPadField(comment, COMMENT_SIZE);
    FileHeader(NEX1_MAGIC, 100, PadField(comment, COMMENT_SIZE), frequency, beg, end, numVars, 0,
      Zeros(FILE_PADDING_SIZE))
  }

  predicate AllWellFormed(vars: seq<Variable>) {
    forall i :: 0 <= i < |vars| ==> WellFormedVar(vars[i])
  }

  /** The payload of each variable, in file order. */
  function Payloads(vars: seq<Variable>): (ps: seq<seq<uint8>>)
    requires AllWellFormed(vars)
    ensures |ps| == |vars|
  {
    seq(|vars|, i requires 0 <= i < |vars| => EncodePayload(vars[i]))
  }

  /**
   * The variables fit one file: every offset the writer computes, up to the
   * end of the last payload, fits the `int` the writer keeps it in.
   */
  predicate Writable(vars: seq<Variable>) {
    && AllWellFormed(vars)
    && IsInt32(FirstDataOffset(|vars|) + |Concat(Payloads(vars))|)
  }

  lemma ConcatPrefixLength<T>(parts: seq<seq<T>>, i: nat)
    requires i <= |parts|
    ensures |Concat(parts[..i])| <= |Concat(parts)|
  {
    assert parts == parts[..i] + parts[i..];
    ConcatAppend(parts[..i], parts[i..]);
  }

  /** The `DataOffset` of variable `i`: the first offset plus the payloads before it. */
  function DataOffset(vars: seq<Variable>, i: nat): (off: int32)
    requires Writable(vars) && i <= |vars|
    ensures off >= FirstDataOffset(|vars|)
  {
    ConcatPrefixLength(Payloads(vars), i);
    FirstDataOffset(|vars|) + |Concat(Payloads(vars)[..i])|
  }

  /** The directory the writer emits. */
  function Headers(vars: seq<Variable>): (hs: seq<VarHeader>)
    requires Writable(vars)
    ensures |hs| == |vars|
    ensures forall i :: 0 <= i < |vars| ==> hs[i].WellFormed()
  {
    seq(|vars|, i requires 0 <= i < |vars| => HeaderOf(vars[i], DataOffset(vars, i)))
  }

  /** The whole file: file header, directory, then the payloads back to back. */
  function FileImage(fh: FileHeader, vars: seq<Variable>): (image: seq<uint8>)
    requires fh.WellFormed() && Writable(vars)
  {
    EncodeFileHeader(fh) + EncodeDirectory(Headers(vars)) + Concat(Payloads(vars))
  }

  // ------------------------------------------------------------------ offsets

  /** The first payload starts right after the 544-byte file header and the 208-byte variable headers. */
  lemma FirstOffset(vars: seq<Variable>)
    requires Writable(vars)
    ensures DataOffset(vars, 0) == FILE_HEADER_SIZE + VAR_HEADER_SIZE * |vars|
  {
    assert Payloads(vars)[..0] == [];
  }

  /**
   * Each later offset is the previous one plus the size of the previous
   * variable's payload, as the header written for it describes that size.
   */
  lemma DataOffsetsAdvance(vars: seq<Variable>, i: nat, offset: int32)
    requires Writable(vars) && i < |vars| && offset == DataOffset(vars, i)
    ensures DataOffset(vars, i + 1) == offset + PayloadSize(KindOfVar(vars[i]), HeaderOf(vars[i], offset))
  {
    var ps := Payloads(vars);
    ConcatSnoc(ps, i);
    assert ps[i] == EncodePayload(vars[i]);
    PayloadSizeOfVariable(vars[i], offset);
  }

  /** Part `i` of pieces written after a prefix starts after the prefix and the pieces before it. */
  lemma PartAfterPrefix(image: seq<uint8>, prefix: seq<uint8>, ps: seq<seq<uint8>>, i: nat, offset: int, part: seq<uint8>)
    requires image == prefix + Concat(ps) && i < |ps| && part == ps[i]
    requires offset == |prefix| + |Concat(ps[..i])|
    ensures 0 <= offset && offset + |part| <= |image|
    ensures image[offset..offset + |part|] == part
  {
    var start := |Concat(ps[..i])|;
    ConcatPart(ps, i);
    SuffixSlice(prefix, Concat(ps), start, start + |ps[i]|);
  }

  /** Each `DataOffset` points exactly at its variable's payload in the image. */
  lemma PayloadAtOffset(fh: FileHeader, vars: seq<Variable>, i: nat)
    requires fh.WellFormed() && Writable(vars) && i < |vars|
    ensures DataOffset(vars, i) + |Payloads(vars)[i]| <= |FileImage(fh, vars)|
    ensures FileImage(fh, vars)[DataOffset(vars, i)..DataOffset(vars, i) + |Payloads(vars)[i]|] == Payloads(vars)[i]
  {
    var ps := Payloads(vars);
    var prefix := EncodeFileHeader(fh) + EncodeDirectory(Headers(vars));
    assert |prefix| == FirstDataOffset(|vars|);
    PartAfterPrefix(FileImage(fh, vars), prefix, ps, i, DataOffset(vars, i), ps[i]);
  }

  // ------------------------------------------------------------------ reading the image back

  /** The file header and the directory read back from the image are those written. */
  lemma HeadersReadBack(fh: FileHeader, vars: seq<Variable>)
    requires fh.WellFormed() && Writable(vars)
    ensures |FileImage(fh, vars)| >= FirstDataOffset(|vars|)
    ensures DecodeFileHeader(FileImage(fh, vars)) == fh
    ensures DecodeDirectory(FileImage(fh, vars)[FILE_HEADER_SIZE..FirstDataOffset(|vars|)], |vars|) == Headers(vars)
  {
    FileHeaderReadBack(fh, vars);
    DirectoryReadBack(fh, vars);
    DirectoryRoundTrip(Headers(vars));
  }

  lemma FileHeaderReadBack(fh: FileHeader, vars: seq<Variable>)
    requires fh.WellFormed() && Writable(vars)
    ensures |FileImage(fh, vars)| >= FirstDataOffset(|vars|)
    ensures DecodeFileHeader(FileImage(fh, vars)) == fh
  {
    var head := EncodeFileHeader(fh);
    ThreeParts(head, EncodeDirectory(Headers(vars)), Concat(Payloads(vars)));
    var d := DecodeFileHeader(FileImage(fh, vars));
    assert EncodeFileHeader(d) == head;
    FileHeaderRoundTrip(d);
    FileHeaderRoundTrip(fh);
  }

  lemma DirectoryReadBack(fh: FileHeader, vars: seq<Variable>)
    requires fh.WellFormed() && Writable(vars)
    ensures |FileImage(fh, vars)| >= FirstDataOffset(|vars|)
    ensures FileImage(fh, vars)[FILE_HEADER_SIZE..FirstDataOffset(|vars|)] == EncodeDirectory(Headers(vars))
  {
    ThreeParts(EncodeFileHeader(fh), EncodeDirectory(Headers(vars)), Concat(Payloads(vars)));
  }

  lemma ThreeParts<T>(a: seq<T>, b: seq<T>, c: seq<T>)
    ensures (a + b + c)[..|a|] == a
    ensures (a + b + c)[|a|..|a| + |b|] == b
  {
  }

  /** Reading variable `i` through its header returns exactly the values written. */
  lemma VariableReadBack(fh: FileHeader, vars: seq<Variable>, i: nat)
    requires fh.WellFormed() && Writable(vars) && i < |vars|
    ensures DecodeVariable(FileImage(fh, vars), Headers(vars)[i]) == Ok(Expected(vars[i]))
  {
    var image := FileImage(fh, vars);
    var v := vars[i];
    var off := DataOffset(vars, i);
    var h := Headers(vars)[i];
    var k := KindOfVar(v);
    assert h == HeaderOf(v, off);
    assert Payloads(vars)[i] == EncodePayload(v);
    KindOfTypeCode(k);
    PayloadRoundTrip(v, off);
    PayloadAtOffset(fh, vars, i);
    DecodeAsWindow(k, image, h, EncodePayload(v));
  }

  /** Every variable read through its header returns exactly the values written. */
  lemma AllVariablesReadBack(fh: FileHeader, vars: seq<Variable>)
    requires fh.WellFormed() && Writable(vars)
    ensures forall i :: 0 <= i < |vars| ==>
      DecodeVariable(FileImage(fh, vars), Headers(vars)[i]) == Ok(Expected(vars[i]))
  {
    forall i | 0 <= i < |vars|
      ensures DecodeVariable(FileImage(fh, vars), Headers(vars)[i]) == Ok(Expected(vars[i]))
    {
      VariableReadBack(fh, vars, i);
    }
  }

  /**
   * Writing then reading: the file header, every variable header and every
   * variable's values come back from the image unchanged.
   */
  lemma WriteThenRead(fh: FileHeader, vars: seq<Variable>)
    requires fh.WellFormed() && Writable(vars)
    ensures |FileImage(fh, vars)| >= FirstDataOffset(|vars|)
    ensures DecodeFileHeader(FileImage(fh, vars)) == fh
    ensures DecodeDirectory(FileImage(fh, vars)[FILE_HEADER_SIZE..FirstDataOffset(|vars|)], |vars|) == Headers(vars)
    ensures forall i :: 0 <= i < |vars| ==>
      DecodeVariable(FileImage(fh, vars), Headers(vars)[i]) == Ok(Expected(vars[i]))
  {
    HeadersReadBack(fh, vars);
    AllVariablesReadBack(fh, vars);
  }

  // ------------------------------------------------------------------ the writer

  /** The 208-byte record of each variable header, in file order. */
  function HeaderRecords(vars: seq<Variable>): (rs: seq<seq<uint8>>)
    requires Writable(vars)
    ensures |rs| == |vars|
    ensures Concat(rs) == EncodeDirectory(Headers(vars))
  {
    var hs := Headers(vars);
    seq(|vars|, i requires 0 <= i < |vars| => EncodeVarHeader(hs[i]))
  }

  /** Writing header `i` at its offset appends its record to those written before. */
  lemma HeadersStep(vars: seq<Variable>, i: nat, offset: int32, before: seq<uint8>, written: seq<uint8>)
    requires Writable(vars) && i < |vars| && offset == DataOffset(vars, i)
    requires written == before + Concat(HeaderRecords(vars)[..i])
    ensures written + EncodeVarHeader(HeaderOf(vars[i], offset)) == before + Concat(HeaderRecords(vars)[..i + 1])
  {
    var records := HeaderRecords(vars);
    RecordAt(vars, i);
    ConcatSnoc(records, i);
    AppendAssoc(before, Concat(records[..i]), records[i]);
  }

  lemma RecordAt(vars: seq<Variable>, i: nat)
    requires Writable(vars) && i < |vars|
    ensures HeaderRecords(vars)[i] == EncodeVarHeader(HeaderOf(vars[i], DataOffset(vars, i)))
  {
  }

  lemma ConcatSnoc<T>(parts: seq<seq<T>>, i: nat)
    requires i < |parts|
    ensures Concat(parts[..i + 1]) == Concat(parts[..i]) + parts[i]
  {
    assert parts[..i + 1][..i] == parts[..i];
  }

  /**
   * One variable header: the header for `v` with its payload at `offset`,
   * and the offset advanced past that payload for the next variable.
   */
  method WriteVariableHeader(out: OutputFile, v: Variable, offset: int32) returns (next: int)
    requires WellFormedVar(v)
    modifies out
    ensures out.bytes == old(out.bytes) + EncodeVarHeader(HeaderOf(v, offset))
    ensures next == offset + PayloadSize(KindOfVar(v), HeaderOf(v, offset))
  {
    var h := HeaderOf(v, offset);
    out.Write(EncodeVarHeader(h));
    next := offset + PayloadSize(KindOfVar(v), h);
  }

  /**
   * Step 2 of the writer: each variable header at the running offset, which
   * starts after the headers and advances by the payload size each header
   * describes.
   */
  method WriteVariableHeaders(out: OutputFile, vars: seq<Variable>)
    requires Writable(vars)
    modifies out
    ensures out.bytes == old(out.bytes) + EncodeDirectory(Headers(vars))
  {
    var offset: int := FirstDataOffset(|vars|);
    var records := HeaderRecords(vars);
    var i := 0;
    FirstOffset(vars);
    assert records[..0] == [];
    while i < |vars|
      invariant 0 <= i <= |vars|
      invariant offset == DataOffset(vars, i)
      invariant out.bytes == old(out.bytes) + Concat(records[..i])
    {
      HeadersStep(vars, i, offset, old(out.bytes), out.bytes);
      DataOffsetsAdvance(vars, i, offset);
      offset := WriteVariableHeader(out, vars[i], offset);
      i := i + 1;
    }
    assert records[..i] == records;
  }

  /** Step 3 of the writer: the payloads, in the order of the headers. */
  method WriteVariableData(out: OutputFile, vars: seq<Variable>)
    requires AllWellFormed(vars)
    modifies out
    ensures out.bytes == old(out.bytes) + Concat(Payloads(vars))
  {
    var payloads := Payloads(vars);
    var i := 0;
    assert payloads[..0] == [];
    while i < |vars|
      invariant 0 <= i <= |vars|
      invariant out.bytes == old(out.bytes) + Concat(payloads[..i])
    {
      PayloadsStep(vars, i, old(out.bytes), out.bytes);
      out.Write(EncodePayload(vars[i]));
      i := i + 1;
    }
    assert payloads[..i] == payloads;
  }

  /** Writing payload `i` appends it to those written before. */
  lemma PayloadsStep(vars: seq<Variable>, i: nat, before: seq<uint8>, written: seq<uint8>)
    requires AllWellFormed(vars) && i < |vars|
    requires written == before + Concat(Payloads(vars)[..i])
    ensures written + EncodePayload(vars[i]) == before + Concat(Payloads(vars)[..i + 1])
  {
    var payloads := Payloads(vars);
    ConcatSnoc(payloads, i);
    AppendAssoc(before, Concat(payloads[..i]), payloads[i]);
  }

  /** The whole writer: the file header, the directory, then the payloads. */
  method WriteNexFile(out: OutputFile, fh: FileHeader, vars: seq<Variable>)
    requires fh.WellFormed() && fh.numVars == |vars| && Writable(vars)
    modifies out
    ensures out.bytes == old(out.bytes) + FileImage(fh, vars)
  {
    var head, dir, data := EncodeFileHeader(fh), EncodeDirectory(Headers(vars)), Concat(Payloads(vars));
    out.Write(head);
    WriteVariableHeaders(out, vars);
    WriteVariableData(out, vars);
    AppendAssoc(old(out.bytes), head, dir);
    AppendAssoc(old(out.bytes), head + dir, data);
  }

  // ------------------------------------------------------------------ the demo file

  /** The little-endian images of the doubles 10000.0, 10.0, 0.001, 1000.0 and 1.0. */
  const DOUBLE_10000: seq<uint8> := [0x00, 0x00, 0x00, 0x00, 0x00, 0x88, 0xC3, 0x40]
  const DOUBLE_10: seq<uint8> := [0x00, 0x00, 0x00, 0x00, 0x00, 0x00, 0x24, 0x40]
  const DOUBLE_0_001: seq<uint8> := [0xFC, 0xA9, 0xF1, 0xD2, 0x4D, 0x62, 0x50, 0x3F]
  const DOUBLE_1000: seq<uint8> := [0x00, 0x00, 0x00, 0x00, 0x00, 0x40, 0x8F, 0x40]
  const DOUBLE_1: seq<uint8> := [0x00, 0x00, 0x00, 0x00, 0x00, 0x00, 0xF0, 0x3F]

  /** The demo file header: "test nex file", 10000 Hz, ten seconds, six variables. */
  function DemoHeader(): (fh: FileHeader)
    ensures fh.WellFormed() && fh.HasMagic() && fh.numVars == 6
  {
    NewFileHeader(Ascii("test nex file"), DOUBLE_10000, 0, 10000 * 10, 6)
  }

  /** The two marker fields of the demo, three values each. */
  function DemoMarkerFields(): (fields: seq<MarkerField>)
    ensures |fields| == 2 && forall f :: 0 <= f < 2 ==> FieldFits(fields[f], 3, 16)
  {
    [ MarkerField(Ascii("field1"), [Ascii("field1value1"), Ascii("field1value2"), Ascii("field1value3")]),
      MarkerField(Ascii("field2"), [Ascii("field2value1"), Ascii("field2value2"), Ascii("field2value3")]) ]
  }

  /** The six variables of the demo writer: two spike trains, intervals, continuous, waveform, marker. */
  function DemoVariables(): (vars: seq<Variable>)
    ensures |vars| == 6 && AllWellFormed(vars)
  {
    [ NeuronVar(Ascii("neuron1"), [10000, 20000, 30000]),
      NeuronVar(Ascii("neuron2"), [50000, 60000]),
      IntervalVar(Ascii("interval1"), [10000, 40000], [20000, 60000]),
      ContinuousVar(Ascii("continuous1"), DOUBLE_10, DOUBLE_0_001, [10000, 70000], [0, 5], [0, 1, 2, 3, 4, 0, 4, 6]),
      WaveformVar(Ascii("wave1"), DOUBLE_1000, DOUBLE_1, 8, [5000, 15000, 20000],
        [[0, 1, 2, 3, 4, 5, 6, 7], [7, 6, 5, 4, 3, 2, 1, 0], [0, 1, 2, 3, 4, 5, 6, 7]]),
      MarkerVar(Ascii("marker1"), 16, [10000, 20000, 30000], DemoMarkerFields()) ]
  }

  /** The payload sizes of the demo variables: 12, 8, 16, 32, 60 and 236 bytes. */
  lemma DemoPayloadSizes()
    ensures var ps := Payloads(DemoVariables());
      |ps[0]| == 12 && |ps[1]| == 8 && |ps[2]| == 16 && |ps[3]| == 32 && |ps[4]| == 60 && |ps[5]| == 236
  {
    var vars := DemoVariables();
    var ps := Payloads(vars);
    assert |ps[0]| == 12 by {
      assert ps[0] == Int32sToBytes(vars[0].timestamps);
    }
    assert |ps[1]| == 8 by {
      assert ps[1] == Int32sToBytes(vars[1].timestamps);
    }
    assert |ps[2]| == 16 by {
      assert ps[2] == Int32sToBytes(vars[2].starts) + Int32sToBytes(vars[2].ends);
    }
    assert |ps[3]| == 32 by {
      assert ps[3] == EncodePayload(vars[3]);
    }
    assert |ps[4]| == 60 by {
      assert ps[4] == EncodePayload(vars[4]);
      ConcatUniformSlices(vars[4].waves, 8);
    }
    assert |ps[5]| == 236 by {
      assert ps[5] == EncodePayload(vars[5]);
    }
  }

  /** The running payload totals of the demo: 0, 12, 20, 36, 68, 128 and 364 bytes. */
  lemma DemoPayloadTotals()
    ensures var ps := Payloads(DemoVariables());
      && |Concat(ps[..0])| == 0 && |Concat(ps[..1])| == 12 && |Concat(ps[..2])| == 20
      && |Concat(ps[..3])| == 36 && |Concat(ps[..4])| == 68 && |Concat(ps[..5])| == 128
      && |Concat(ps)| == 364
  {
    DemoPayloadSizes();
    RunningTotals(Payloads(DemoVariables()));
  }

  /** The running totals of six pieces. */
  lemma RunningTotals(ps: seq<seq<uint8>>)
    requires |ps| == 6
    ensures |Concat(ps[..0])| == 0
    ensures |Concat(ps[..1])| == |ps[0]|
    ensures |Concat(ps[..2])| == |ps[0]| + |ps[1]|
    ensures |Concat(ps[..3])| == |ps[0]| + |ps[1]| + |ps[2]|
    ensures |Concat(ps[..4])| == |ps[0]| + |ps[1]| + |ps[2]| + |ps[3]|
    ensures |Concat(ps[..5])| == |ps[0]| + |ps[1]| + |ps[2]| + |ps[3]| + |ps[4]|
    ensures |Concat(ps)| == |ps[0]| + |ps[1]| + |ps[2]| + |ps[3]| + |ps[4]| + |ps[5]|
  {
    assert ps[..0] == [];
    ConcatSnoc(ps, 0);
    ConcatSnoc(ps, 1);
    ConcatSnoc(ps, 2);
    ConcatSnoc(ps, 3);
    ConcatSnoc(ps, 4);
    ConcatSnoc(ps, 5);
    assert ps[..6] == ps;
  }

  /**
   * The demo file's layout: the variables fit, their payloads start at
   * 1792, 1804, 1812, 1828, 1860 and 1920, and the file is 2156 bytes long.
   */
  lemma DemoLayout()
    ensures Writable(DemoVariables())
    ensures DataOffset(DemoVariables(), 0) == 1792 && DataOffset(DemoVariables(), 1) == 1804
    ensures DataOffset(DemoVariables(), 2) == 1812 && DataOffset(DemoVariables(), 3) == 1828
    ensures DataOffset(DemoVariables(), 4) == 1860 && DataOffset(DemoVariables(), 5) == 1920
    ensures |FileImage(DemoHeader(), DemoVariables())| == 2156
  {
    DemoPayloadTotals();
  }

  /** The demo writer: the demo header, then the six variables. */
  method WriteDemoNexFile(out: OutputFile)
    modifies out
    ensures Writable(DemoVariables()) && out.bytes == old(out.bytes) + FileImage(DemoHeader(), DemoVariables())
    ensures |out.bytes| == |old(out.bytes)| + 2156
  {
    DemoLayout();
    WriteNexFile(out, DemoHeader(), DemoVariables());
  }
}
