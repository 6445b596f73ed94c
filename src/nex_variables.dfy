/**
 * The writer-side variable classes: a `Neuron` collects spike timestamps and
 * writes its own variable header and payload, and the skeleton writer drives
 * a list of them through the three steps of writing a .nex file.
 */
module NexFileVariables {
  import opened Bytes
  import opened NexFile
  import opened NexPayload
  import opened NexWriter
  import opened NexReader
  import opened Results
  import opened Streams

  /** C++'s conversion of a floating value to `int`: the fraction is dropped, rounding toward zero. */
  function TruncToInt(x: real): (r: int)
    ensures 0.0 <= x ==> 0 <= r && r as real <= x < r as real + 1.0
    ensures x < 0.0 ==> r <= 0 && r as real - 1.0 < x <= r as real
  {
    if x >= 0.0 then x.Floor else -((-x).Floor)
  }

  /** A spike train being built for a .nex file. */
  class Neuron {
    const name: seq<uint8>
    const timestampFrequency: real
    /** Where this neuron's payload goes; set when its header is written. */
    var dataOffset: int32
    var timestamps: seq<int32>

    constructor(name: seq<uint8>, timestampFrequency: real)
      ensures this.name == name && this.timestampFrequency == timestampFrequency
      ensures dataOffset == 0 && timestamps == []
    {
      this.name := name;
      this.timestampFrequency := timestampFrequency;
      dataOffset := 0;
      timestamps := [];
    }

    /** The variable this neuron writes. */
    function AsVariable(): (v: Variable)
      reads this
      ensures v.NeuronVar? && v.name == name && v.timestamps == timestamps
    {
      NeuronVar(name, timestamps)
    }

    /** Appends the tick of `tsInSeconds`; a tick outside the `int` range is undefined in C++. */
    method AddTimestampInSeconds(tsInSeconds: real)
      requires IsInt32(TruncToInt(tsInSeconds * timestampFrequency))
      modifies this
      ensures timestamps == old(timestamps) + [TruncToInt(tsInSeconds * timestampFrequency)]
      ensures dataOffset == old(dataOffset)
    {
      timestamps := timestamps + [TruncToInt(tsInSeconds * timestampFrequency)];
    }

    /** The name fits the 64-byte `Name` field `strcpy` copies it into. */
    predicate NameFits()
      reads this
    {
      NoNul(name) && |name| < NAME_SIZE
    }

    /**
     * Records `offset` as this neuron's data offset, writes its header, and
     * returns the offset advanced past the timestamps `WriteData` will write.
     */
    method WriteVariableHeader(out: OutputFile, offset: int32) returns (next: int32)
      requires NameFits() && IsInt32(|timestamps|) && IsInt32(offset + 4 * |timestamps|)
      modifies this, out
      ensures WellFormedVar(AsVariable())
      ensures dataOffset == offset && timestamps == old(timestamps)
      ensures out.bytes == old(out.bytes) + EncodeVarHeader(HeaderOf(AsVariable(), offset))
      ensures next == offset + |EncodePayload(AsVariable())|
    {
      dataOffset := offset;
      assert WellFormedVar(AsVariable());
      var h := HeaderOf(AsVariable(), offset);
      out.Write(EncodeVarHeader(h));
      next := offset + h.count * 4;
    }

    /** Writes the timestamps, 4 bytes each. */
    method WriteData(out: OutputFile)
      modifies out
      ensures out.bytes == old(out.bytes) + Int32sToBytes(timestamps)
    {
      out.Write(Int32sToBytes(timestamps));
    }
  }

  /** The variables a list of neurons writes, in order. */
  function NeuronVariables(neurons: seq<Neuron>): (vars: seq<Variable>)
    reads neurons
    ensures |vars| == |neurons|
    ensures forall i :: 0 <= i < |neurons| ==> vars[i] == neurons[i].AsVariable()
  {
    seq(|neurons|, i requires 0 <= i < |neurons| reads neurons => neurons[i].AsVariable())
  }

  /** The skeleton writer's file header: "test nex file", 10000 Hz, ten seconds. */
  function SkeletonHeader(numVars: int32): (fh: FileHeader)
    ensures fh.WellFormed() && fh.HasMagic() && fh.numVars == numVars
  {
    NewFileHeader(Ascii("test nex file"), DOUBLE_10000, 0, 10000 * 10, numVars)
  }

  /**
   * The skeleton writer: the file header, each neuron's header at the running
   * offset, then each neuron's data. The file holds exactly the image of the
   * neurons' variables, so reading it back returns their timestamps. Each
   * neuron records the offset of its own payload, when no neuron is listed twice.
   */
  method SkeletonCodeToWriteNexFile(out: OutputFile, neurons: seq<Neuron>)
    requires Writable(NeuronVariables(neurons))
    modifies out, neurons
    ensures forall i :: 0 <= i < |neurons| ==> neurons[i].timestamps == old(neurons[i].timestamps)
    ensures NeuronVariables(neurons) == old(NeuronVariables(neurons))
    ensures out.bytes == old(out.bytes) + FileImage(SkeletonHeader(|neurons|), NeuronVariables(neurons))
    ensures Distinct(neurons) ==>
      forall i :: 0 <= i < |neurons| ==> neurons[i].dataOffset == DataOffset(NeuronVariables(neurons), i)
  {
    ghost var vars := NeuronVariables(neurons);
    var head := EncodeFileHeader(SkeletonHeader(|neurons|));
    out.Write(head);
    WriteNeuronHeaders(out, neurons, vars);
    WriteNeuronData(out, neurons, vars);
    AppendAssoc(old(out.bytes), head, EncodeDirectory(Headers(vars)));
    AppendAssoc(old(out.bytes), head + EncodeDirectory(Headers(vars)), Concat(Payloads(vars)));
    assert NeuronVariables(neurons) == vars;
    forall i | 0 <= i < |neurons| ensures neurons[i].timestamps == old(neurons[i].timestamps) {
      assert neurons[i].timestamps == vars[i].timestamps;
    }
  }

  /**
   * Reading back the file the skeleton writer produced gives its header and,
   * for each neuron in order, exactly the timestamps it collected.
   */
  lemma SkeletonReadBack(vars: seq<Variable>)
    requires Writable(vars) && forall i :: 0 <= i < |vars| ==> vars[i].NeuronVar?
    ensures IsInt32(|vars|)
    ensures ReadAll(FileImage(SkeletonHeader(|vars|), vars)).Ok?
    ensures ReadAll(FileImage(SkeletonHeader(|vars|), vars)).value.header == SkeletonHeader(|vars|)
    ensures forall i :: 0 <= i < |vars| ==>
      ReadAll(FileImage(SkeletonHeader(|vars|), vars)).value.variables[i] == Ok(Timestamps(vars[i].timestamps))
  {
    ReadAllOfImage(SkeletonHeader(|vars|), vars);
  }

  /** No neuron appears twice in the list, as with the distinct objects `FillTestData` allocates. */
  predicate Distinct(neurons: seq<Neuron>) {
    forall i, j :: 0 <= i < j < |neurons| ==> neurons[i] != neurons[j]
  }

  /** Each neuron, as it stands, writes the variable at its position in `vars`. */
  predicate WritesVariables(neurons: seq<Neuron>, vars: seq<Variable>)
    reads neurons
  {
    |neurons| == |vars| && forall i :: 0 <= i < |neurons| ==> vars[i] == neurons[i].AsVariable()
  }

  /** When no neuron is listed twice, each of the first `n` neurons holds its offset in `offsets`. */
  predicate Recorded(neurons: seq<Neuron>, offsets: seq<int>, n: nat)
    requires n <= |neurons| && n <= |offsets|
    reads neurons
  {
    Distinct(neurons) ==> forall k :: 0 <= k < n ==> neurons[k].dataOffset == offsets[k]
  }

  /** Step 2 of the skeleton writer, over the neurons. */
  method WriteNeuronHeaders(out: OutputFile, neurons: seq<Neuron>, ghost vars: seq<Variable>)
    requires WritesVariables(neurons, vars) && Writable(vars)
    modifies out, neurons
    ensures WritesVariables(neurons, vars)
    ensures out.bytes == old(out.bytes) + EncodeDirectory(Headers(vars))
    ensures Distinct(neurons) ==> forall k :: 0 <= k < |neurons| ==> neurons[k].dataOffset == DataOffset(vars, k)
  {
    var dataOffset: int32 := FirstDataOffset(|neurons|);
    ghost var records := HeaderRecords(vars);
    ghost var offsets := seq(|vars|, k requires 0 <= k < |vars| => DataOffset(vars, k));
    var i := 0;
    FirstOffset(vars);
    assert records[..0] == [];
    while i < |neurons|
      invariant 0 <= i <= |neurons|
      invariant WritesVariables(neurons, vars)
      invariant dataOffset == DataOffset(vars, i)
      invariant out.bytes == old(out.bytes) + Concat(records[..i])
      invariant Recorded(neurons, offsets, i)
    {
      HeadersStep(vars, i, dataOffset, old(out.bytes), out.bytes);
      dataOffset := WriteNeuronHeader(out, neurons, vars, offsets, i, dataOffset);
      i := i + 1;
    }
    assert records[..i] == records;
    assert Recorded(neurons, offsets, |neurons|);
  }

  /** One iteration of step 2: neuron `i` writes its header and advances the offset. */
  method WriteNeuronHeader(out: OutputFile, neurons: seq<Neuron>, ghost vars: seq<Variable>, ghost offsets: seq<int>,
                           i: nat, dataOffset: int32)
    returns (next: int32)
    requires WritesVariables(neurons, vars) && Writable(vars) && i < |neurons|
    requires dataOffset == DataOffset(vars, i)
    requires |offsets| == |vars| && offsets[i] == dataOffset
    requires Recorded(neurons, offsets, i)
    modifies out, neurons[i]
    ensures WritesVariables(neurons, vars)
    ensures next == DataOffset(vars, i + 1)
    ensures out.bytes == old(out.bytes) + EncodeVarHeader(HeaderOf(vars[i], dataOffset))
    ensures neurons[i].dataOffset == dataOffset
    ensures Recorded(neurons, offsets, i + 1)
  {
    DataOffsetsAdvance(vars, i, dataOffset);
    PayloadSizeOfVariable(vars[i], dataOffset);
    next := neurons[i].WriteVariableHeader(out, dataOffset);
  }

  /** Step 3 of the skeleton writer, over the neurons. */
  method WriteNeuronData(out: OutputFile, neurons: seq<Neuron>, ghost vars: seq<Variable>)
    requires WritesVariables(neurons, vars) && AllWellFormed(vars)
    modifies out
    ensures out.bytes == old(out.bytes) + Concat(Payloads(vars))
  {
    ghost var payloads := Payloads(vars);
    var i := 0;
    assert payloads[..0] == [];
    while i < |neurons|
      invariant 0 <= i <= |neurons|
      invariant out.bytes == old(out.bytes) + Concat(payloads[..i])
    {
      assert EncodePayload(vars[i]) == Int32sToBytes(neurons[i].timestamps);
      PayloadsStep(vars, i, old(out.bytes), out.bytes);
      neurons[i].WriteData(out);
      i := i + 1;
    }
    assert payloads[..i] == payloads;
  }
}
