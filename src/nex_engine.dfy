/**
 * The MATLAB engine's reading side: `readVariableData` filters the directory
 * by type, resolves the requested channels against the filtered list, and
 * hands each selected header to `readEventVariable`, `readMarkerVariable` or
 * `readContinuousVariable`. The channels keep the raw tick counts, samples and
 * double bytes; the conversions to seconds and millivolts are not modelled.
 */
module NexEngine {
  import opened Bytes
  import opened Results
  import opened NexFile
  import opened NexPayload
  import opened Streams
  import opened NexWriter
  import opened NexReader

  // ------------------------------------------------------------------ results

  /** Fragment data of a continuous channel, reported only when there is at least one fragment. */
  datatype Fragments = Fragments(starts: seq<int>, timestamps: seq<int32>, data: seq<int16>)

  /** The struct built for one selected variable. */
  datatype Channel =
    | EventChannel(name: seq<uint8>, version: int32, timestamps: seq<int32>)
    | MarkerChannel(name: seq<uint8>, version: int32, timestamps: seq<int32>, values: seq<MarkerField>)
    | ContinuousChannel(name: seq<uint8>, version: int32, adToMV: seq<uint8>, mvOffset: seq<uint8>,
                        adFrequency: seq<uint8>, fragments: Option<Fragments>)

  /** `readVariableData` returns an empty matrix when no header has the type, else one cell per channel. */
  datatype Selection = Empty | Cells(cells: seq<Result<Channel, ReadError>>)

  /**
   * Why `readVariableData` produced nothing: the directory could not be read,
   * a channel number is outside the filtered list (unchecked indexing in the
   * C code), or a selected header has a type the engine has no reader for
   * (`barf`).
   */
  datatype EngineError = ReadFailed(error: ReadError) | BadChannel(channel: int) | InvalidType(code: int32)

  // ------------------------------------------------------------------ filtering

  const UINT32_RANGE: int := 0x1_0000_0000

  /** The signed `Type` converted to `unsigned int`, as the comparison with `variableType` does. */
  function AsUnsigned(typ: int32): (u: nat)
    ensures u < UINT32_RANGE
    ensures typ >= 0 ==> u == typ
    ensures typ < 0 ==> u == typ + UINT32_RANGE
  {
    typ % UINT32_RANGE
  }

  /** A header is kept by the filter when its `Type`, as unsigned, equals `variableType`. */
  predicate Matches(h: VarHeader, variableType: nat) {
    AsUnsigned(h.typ) == variableType
  }

  /** The directory positions whose header matches, in file order. */
  function Matching(hs: seq<VarHeader>, variableType: nat): (r: seq<nat>)
    ensures |r| <= |hs|
    ensures forall j :: 0 <= j < |r| ==> r[j] < |hs|
  {
    if hs == [] then []
    else
      var last := |hs| - 1;
      var before := Matching(hs[..last], variableType);
      if Matches(hs[last], variableType) then before + [last] else before
  }

  /**
   * `Matching` lists exactly the matching positions, each once and in
   * increasing order, so it is the filtered directory in file order.
   */
  lemma {:induction false} MatchingExactly(hs: seq<VarHeader>, variableType: nat)
    ensures forall i :: i in Matching(hs, variableType) <==> 0 <= i < |hs| && Matches(hs[i], variableType)
    ensures forall j, k :: 0 <= j < k < |Matching(hs, variableType)| ==>
      Matching(hs, variableType)[j] < Matching(hs, variableType)[k]
  {
    if hs != [] {
      var last := |hs| - 1;
      var prefix := hs[..last];
      MatchingExactly(prefix, variableType);
      forall i | 0 <= i < last
        ensures hs[i] == prefix[i]
      {
      }
    }
  }

  /** The loop of `readVariableData` that records the indices of the headers of the requested type. */
  method FilterIndices(hs: seq<VarHeader>, variableType: nat) returns (indices: seq<nat>)
    ensures indices == Matching(hs, variableType)
  {
    indices := [];
    for i := 0 to |hs|
      invariant indices == Matching(hs[..i], variableType)
    {
      assert hs[..i + 1][..i] == hs[..i];
      if AsUnsigned(hs[i].typ) == variableType {
        indices := indices + [i];
      }
    }
    assert hs[..|hs|] == hs;
  }

  /** The channel list `0, 1, ..., n - 1` used when no channels are given. */
  function AllChannels(n: nat): (r: seq<int>)
    ensures |r| == n
    ensures forall i :: 0 <= i < n ==> r[i] == i
  {
    if n == 0 then [] else AllChannels(n - 1) + [n - 1]
  }

  /** The `push_back` loop that fills an empty channel list with every filtered position. */
  method DefaultChannels(n: nat) returns (channels: seq<int>)
    ensures channels == AllChannels(n)
  {
    channels := [];
    for i := 0 to n
      invariant channels == AllChannels(i)
    {
      channels := channels + [i];
    }
  }

  // ------------------------------------------------------------------ one channel

  /** The `switch` of `readVariableData`: only continuous, marker and event headers have a reader. */
  function EngineKind(typ: int32): (k: Option<VarKind>)
    ensures k.Some? <==> typ == TypeCode(Event) || typ == TypeCode(Continuous) || typ == TypeCode(Marker)
    ensures k.Some? ==> TypeCode(k.value) == typ && HasLayout(k.value)
  {
    if typ == TypeCode(Continuous) then Some(Continuous)
    else if typ == TypeCode(Marker) then Some(Marker)
    else if typ == TypeCode(Event) then Some(Event)
    else None
  }

  /** Fragment starts are the stored 0-based indexes plus one, for MATLAB's 1-based arrays. */
  function OneBased(indexes: seq<int32>): (starts: seq<int>)
    ensures |starts| == |indexes|
    ensures forall i :: 0 <= i < |indexes| ==> starts[i] - 1 == indexes[i]
  {
    seq(|indexes|, i requires 0 <= i < |indexes| => indexes[i] as int + 1)
  }

  /** The loop of `readContinuousVariable` that shifts each fragment index by one. */
  method FragmentStarts(indexes: seq<int32>) returns (starts: seq<int>)
    ensures starts == OneBased(indexes)
  {
    starts := [];
    for i := 0 to |indexes|
      invariant |starts| == i
      invariant forall j :: 0 <= j < i ==> starts[j] == indexes[j] as int + 1
    {
      starts := starts + [indexes[i] as int + 1];
    }
  }

  /**
   * The struct built from a header and the values read for it: the name up
   * to its first NUL, the version, and the data; a continuous channel always
   * carries its scale fields and carries fragments only when `Count >= 1`.
   */
  function ToChannel(k: VarKind, h: VarHeader, d: Decoded): (c: Channel)
    requires k == Event || k == Marker || k == Continuous
    requires Shaped(k, h, d)
  {
    match k
    case Event => EventChannel(h.NameText(), h.version, d.timestamps)
    case Marker => MarkerChannel(h.NameText(), h.version, d.timestamps, d.fields)
    case Continuous =>
      ContinuousChannel(h.NameText(), h.version, h.adToMV, h.mvOffset, h.wFrequency,
        if h.count >= 1 then Some(Fragments(OneBased(d.fragmentIndexes), d.fragmentTimestamps, d.samples)) else None)
  }

  /** Reading one selected header with the reader of layout `k`. */
  function ChannelOf(k: VarKind, data: seq<uint8>, h: VarHeader): (r: Result<Channel, ReadError>)
    requires k == Event || k == Marker || k == Continuous
  {
    match DecodeAs(k, data, h)
    case Err(e) => Err(e)
    case Ok(d) => Ok(ToChannel(k, h, d))
  }

  /**
   * A channel read from the header of `k`'s layout has that header's name and
   * version, `Count` timestamps, and for a marker `NMarkers` fields of
   * `Count` values each; a continuous channel has fragments exactly when
   * `Count >= 1`, as many starts and timestamps as fragments and
   * `NPointsWave` samples. It fails exactly when the payload cannot be read.
   */
  lemma ChannelShape(k: VarKind, data: seq<uint8>, h: VarHeader)
    requires k == Event || k == Marker || k == Continuous
    ensures ChannelOf(k, data, h).Ok? <==> DecodeAs(k, data, h).Ok?
    ensures ChannelOf(k, data, h).Err? ==> ChannelOf(k, data, h).error == DecodeAs(k, data, h).error
    ensures ChannelOf(k, data, h).Ok? ==>
      var c := ChannelOf(k, data, h).value;
      && c.name == h.NameText() && c.version == h.version
      && (k == Event ==>
            c.EventChannel? && |c.timestamps| == h.count)
      && (k == Marker ==>
            && c.MarkerChannel? && |c.timestamps| == h.count && |c.values| == h.nMarkers
            && forall f :: 0 <= f < |c.values| ==> |c.values[f].values| == h.count)
      && (k == Continuous ==>
            && c.ContinuousChannel? && (c.fragments.Some? <==> h.count >= 1)
            && (c.fragments.Some? ==>
                  |c.fragments.value.starts| == |c.fragments.value.timestamps| == h.count
                  && |c.fragments.value.data| == h.nPointsWave))
  {
  }

  /** `readEventVariable`: seek to `DataOffset`, then `Count` timestamps. */
  method ReadEventVariable(s: NexStream, h: VarHeader) returns (r: Result<Channel, ReadError>)
    modifies s
    ensures r == ChannelOf(Event, s.data, h)
  {
    var d := ReadTimestampData(s, h, Event);
    match d {
      case Err(e) => r := Err(e);
      case Ok(v) => r := Ok(EventChannel(h.NameText(), h.version, v.timestamps));
    }
  }

  /** `readMarkerVariable`: the timestamps, then every field's name and `Count` values. */
  method ReadMarkerVariable(s: NexStream, h: VarHeader) returns (r: Result<Channel, ReadError>)
    modifies s
    ensures r == ChannelOf(Marker, s.data, h)
  {
    var d := ReadMarkerData(s, h);
    match d {
      case Err(e) => r := Err(e);
      case Ok(v) => r := Ok(MarkerChannel(h.NameText(), h.version, v.timestamps, v.fields));
    }
  }

  /**
   * `readContinuousVariable`: the scale fields from the header, then the
   * fragment timestamps, the fragment indexes and the samples, reported only
   * when there is at least one fragment.
   */
  method ReadContinuousVariable(s: NexStream, h: VarHeader) returns (r: Result<Channel, ReadError>)
    modifies s
    ensures r == ChannelOf(Continuous, s.data, h)
  {
    var d := ReadContinuousData(s, h);
    match d {
      case Err(e) =>
        r := Err(e);
      case Ok(v) =>
        var fragments := None;
        if h.count >= 1 {
          var starts := FragmentStarts(v.fragmentIndexes);
          fragments := Some(Fragments(starts, v.fragmentTimestamps, v.samples));
        }
        r := Ok(ContinuousChannel(h.NameText(), h.version, h.adToMV, h.mvOffset, h.wFrequency, fragments));
    }
  }

  // ------------------------------------------------------------------ channel selection

  /** Channel `c` names a filtered header that has a reader. */
  predicate ChannelValid(hs: seq<VarHeader>, indices: seq<nat>, c: int)
    requires forall j :: 0 <= j < |indices| ==> indices[j] < |hs|
  {
    0 <= c < |indices| && EngineKind(hs[indices[c]].typ).Some?
  }

  /** The error an invalid channel raises. */
  function ChannelError(hs: seq<VarHeader>, indices: seq<nat>, c: int): (e: EngineError)
    requires forall j :: 0 <= j < |indices| ==> indices[j] < |hs|
    requires !ChannelValid(hs, indices, c)
    ensures e.BadChannel? <==> !(0 <= c < |indices|)
  {
    if 0 <= c < |indices| then InvalidType(hs[indices[c]].typ) else BadChannel(c)
  }

  /**
   * The channel loop of `readVariableData`: channel `c` resolves to the
   * directory entry `indices[c]`, and the first invalid channel stops the loop.
   */
  function ReadChannels(data: seq<uint8>, hs: seq<VarHeader>, indices: seq<nat>, channels: seq<int>)
    : (r: Result<seq<Result<Channel, ReadError>>, EngineError>)
    requires forall j :: 0 <= j < |indices| ==> indices[j] < |hs|
    ensures r.Ok? ==> |r.value| == |channels|
  {
    if channels == [] then Ok([])
    else
      var last := |channels| - 1;
      var c := channels[last];
      match ReadChannels(data, hs, indices, channels[..last])
      case Err(e) => Err(e)
      case Ok(cells) =>
        if !ChannelValid(hs, indices, c) then Err(ChannelError(hs, indices, c))
        else
          var h := hs[indices[c]];
          Ok(cells + [ChannelOf(EngineKind(h.typ).value, data, h)])
  }

  /** The channel loop succeeds exactly when every channel is valid. */
  lemma {:induction false} ReadChannelsOk(data: seq<uint8>, hs: seq<VarHeader>, indices: seq<nat>, channels: seq<int>)
    requires forall j :: 0 <= j < |indices| ==> indices[j] < |hs|
    ensures ReadChannels(data, hs, indices, channels).Ok? <==>
      forall i :: 0 <= i < |channels| ==> ChannelValid(hs, indices, channels[i])
  {
    if channels != [] {
      var last := |channels| - 1;
      var prefix := channels[..last];
      ReadChannelsOk(data, hs, indices, prefix);
      assert forall i :: 0 <= i < last ==> prefix[i] == channels[i];
    }
  }

  /**
   * When the channel loop succeeds, cell `i` is what the reader of its
   * layout returns for the header that channel `i` names.
   */
  lemma {:induction false} ReadChannelsCells(data: seq<uint8>, hs: seq<VarHeader>, indices: seq<nat>, channels: seq<int>)
    requires forall j :: 0 <= j < |indices| ==> indices[j] < |hs|
    ensures ReadChannels(data, hs, indices, channels).Ok? ==> forall i :: 0 <= i < |channels| ==>
      && ChannelValid(hs, indices, channels[i])
      && ReadChannels(data, hs, indices, channels).value[i] ==
           ChannelOf(EngineKind(hs[indices[channels[i]]].typ).value, data, hs[indices[channels[i]]])
  {
    if channels != [] {
      var last := |channels| - 1;
      var prefix := channels[..last];
      ReadChannelsCells(data, hs, indices, prefix);
      assert forall i :: 0 <= i < last ==> prefix[i] == channels[i];
    }
  }

  /** When channel `i` is the first invalid one, the channel loop fails with its error. */
  lemma ReadChannelsFirstError(data: seq<uint8>, hs: seq<VarHeader>, indices: seq<nat>, channels: seq<int>, i: nat)
    requires forall j :: 0 <= j < |indices| ==> indices[j] < |hs|
    requires i < |channels| && !ChannelValid(hs, indices, channels[i])
    requires forall j :: 0 <= j < i ==> ChannelValid(hs, indices, channels[j])
    ensures ReadChannels(data, hs, indices, channels) == Err(ChannelError(hs, indices, channels[i]))
  {
    var prefix := channels[..i];
    assert forall j :: 0 <= j < i ==> prefix[j] == channels[j];
    ReadChannelsOk(data, hs, indices, prefix);
    ChannelFails(data, hs, indices, channels, i, ReadChannels(data, hs, indices, prefix).value);
  }

  /** Once a prefix of the channels fails, the whole list fails with the same error. */
  lemma {:induction false} ErrorPersists(data: seq<uint8>, hs: seq<VarHeader>, indices: seq<nat>, channels: seq<int>, n: nat)
    requires forall j :: 0 <= j < |indices| ==> indices[j] < |hs|
    requires n <= |channels|
    requires ReadChannels(data, hs, indices, channels[..n]).Err?
    ensures ReadChannels(data, hs, indices, channels) == ReadChannels(data, hs, indices, channels[..n])
  {
    if n < |channels| {
      var last := |channels| - 1;
      assert channels[..last][..n] == channels[..n];
      ErrorPersists(data, hs, indices, channels[..last], n);
    } else {
      assert channels[..n] == channels;
    }
  }

  /** The `switch` on `Type` for one valid channel: the reader of its layout. */
  method ReadChannel(s: NexStream, h: VarHeader) returns (cell: Result<Channel, ReadError>)
    requires EngineKind(h.typ).Some?
    modifies s
    ensures cell == ChannelOf(EngineKind(h.typ).value, s.data, h)
  {
    if h.typ == TypeCode(Continuous) {
      cell := ReadContinuousVariable(s, h);
    } else if h.typ == TypeCode(Marker) {
      cell := ReadMarkerVariable(s, h);
    } else {
      cell := ReadEventVariable(s, h);
    }
  }

  /** One more valid channel adds its cell to the cells read so far. */
  lemma ChannelStep(data: seq<uint8>, hs: seq<VarHeader>, indices: seq<nat>, channels: seq<int>, i: nat,
                    cells: seq<Result<Channel, ReadError>>)
    requires forall j :: 0 <= j < |indices| ==> indices[j] < |hs|
    requires i < |channels| && ReadChannels(data, hs, indices, channels[..i]) == Ok(cells)
    requires ChannelValid(hs, indices, channels[i])
    ensures ReadChannels(data, hs, indices, channels[..i + 1]) ==
      Ok(cells + [ChannelOf(EngineKind(hs[indices[channels[i]]].typ).value, data, hs[indices[channels[i]]])])
  {
    assert channels[..i + 1][..i] == channels[..i];
  }

  /** An invalid channel ends the loop with its error, which is the error of the whole list. */
  lemma ChannelFails(data: seq<uint8>, hs: seq<VarHeader>, indices: seq<nat>, channels: seq<int>, i: nat,
                     cells: seq<Result<Channel, ReadError>>)
    requires forall j :: 0 <= j < |indices| ==> indices[j] < |hs|
    requires i < |channels| && ReadChannels(data, hs, indices, channels[..i]) == Ok(cells)
    requires !ChannelValid(hs, indices, channels[i])
    ensures ReadChannels(data, hs, indices, channels) == Err(ChannelError(hs, indices, channels[i]))
  {
    assert channels[..i + 1][..i] == channels[..i];
    ErrorPersists(data, hs, indices, channels, i + 1);
  }

  /** The channel loop over the stream. */
  method ReadSelected(s: NexStream, hs: seq<VarHeader>, indices: seq<nat>, channels: seq<int>)
    returns (r: Result<seq<Result<Channel, ReadError>>, EngineError>)
    requires forall j :: 0 <= j < |indices| ==> indices[j] < |hs|
    modifies s
    ensures r == ReadChannels(s.data, hs, indices, channels)
  {
    var cells := [];
    for i := 0 to |channels|
      invariant ReadChannels(s.data, hs, indices, channels[..i]) == Ok(cells)
    {
      var c := channels[i];
      if !(0 <= c < |indices|) {
        ChannelFails(s.data, hs, indices, channels, i, cells);
        return Err(BadChannel(c));
      }
      var h := hs[indices[c]];
      if EngineKind(h.typ).None? {
        ChannelFails(s.data, hs, indices, channels, i, cells);
        return Err(InvalidType(h.typ));
      }
      var cell := ReadChannel(s, h);
      ChannelStep(s.data, hs, indices, channels, i, cells);
      cells := cells + [cell];
    }
    assert channels[..|channels|] == channels;
    r := Ok(cells);
  }

  // ------------------------------------------------------------------ readVariableData

  /**
   * `readVariableData` once the directory `hs` is read: the headers filtered
   * by type; the channels (all filtered variables when none are given) read
   * in order; an empty matrix when no header has the type.
   */
  function Select(data: seq<uint8>, hs: seq<VarHeader>, variableType: nat, channels: seq<int>)
    : (r: Result<Selection, EngineError>)
  {
    var indices := Matching(hs, variableType);
    var chosen := if channels == [] then AllChannels(|indices|) else channels;
    match ReadChannels(data, hs, indices, chosen)
    case Err(e) => Err(e)
    case Ok(cells) => if indices == [] then Ok(Empty) else Ok(Cells(cells))
  }

  /**
   * `readVariableData`: the directory of `NumVars` headers right after the
   * file header, then the selection. A negative `NumVars` makes the
   * directory's `resize` throw.
   */
  function VariableData(data: seq<uint8>, fh: FileHeader, variableType: nat, channels: seq<int>)
    : (r: Result<Selection, EngineError>)
  {
    if fh.numVars < 0 then Err(ReadFailed(NegativeSize))
    else if |data| < FILE_HEADER_SIZE + VAR_HEADER_SIZE * fh.numVars then Err(ReadFailed(Truncated))
    else Select(data, DecodeDirectory(DirectoryBytes(data, fh.numVars), fh.numVars), variableType, channels)
  }

  /** The filter, the default channel list and the channel loop of `readVariableData`. */
  method ReadSelection(s: NexStream, hs: seq<VarHeader>, variableType: nat, channels: seq<int>)
    returns (r: Result<Selection, EngineError>)
    modifies s
    ensures r == Select(s.data, hs, variableType, channels)
  {
    var indices := FilterIndices(hs, variableType);
    var chosen := channels;
    if chosen == [] {
      chosen := DefaultChannels(|indices|);
    }
    var cells := ReadSelected(s, hs, indices, chosen);
    match cells {
      case Err(e) =>
        r := Err(e);
      case Ok(cs) =>
        if indices == [] {
          r := Ok(Empty);
        } else {
          r := Ok(Cells(cs));
        }
    }
  }

  /** `readVariableData` over a stream positioned right after the file header. */
  method ReadVariableData(s: NexStream, fh: FileHeader, variableType: nat, channels: seq<int>)
    returns (r: Result<Selection, EngineError>)
    requires s.pos == FILE_HEADER_SIZE <= |s.data|
    modifies s
    ensures r == VariableData(s.data, fh, variableType, channels)
  {
    if fh.numVars < 0 {
      return Err(ReadFailed(NegativeSize));
    }
    var n: nat := fh.numVars;
    var ok, dir := s.Read(VAR_HEADER_SIZE * n);
    if !ok {
      return Err(ReadFailed(Truncated));
    }
    assert FILE_HEADER_SIZE + VAR_HEADER_SIZE * n <= |s.data|;
    assert dir == DirectoryBytes(s.data, n);
    var hs := DecodeDirectory(dir, n);
    r := ReadSelection(s, hs, variableType, channels);
  }

  /** With no channels given and no header of the type, the selection is an empty matrix. */
  lemma SelectNone(data: seq<uint8>, hs: seq<VarHeader>, variableType: nat)
    requires forall i :: 0 <= i < |hs| ==> !Matches(hs[i], variableType)
    ensures Select(data, hs, variableType, []) == Ok(Empty)
  {
    NoneMatching(hs, variableType);
  }

  /** A directory without a header of the type filters to nothing. */
  lemma {:induction false} NoneMatching(hs: seq<VarHeader>, variableType: nat)
    requires forall i :: 0 <= i < |hs| ==> !Matches(hs[i], variableType)
    ensures Matching(hs, variableType) == []
  {
    if hs != [] {
      var last := |hs| - 1;
      assert forall i :: 0 <= i < last ==> hs[..last][i] == hs[i];
      NoneMatching(hs[..last], variableType);
    }
  }

  /**
   * With no channels given and a type that has a reader (event, continuous
   * or marker), the selection holds one cell per header of that type, in
   * directory order, each what that type's reader returns.
   */
  lemma SelectSupported(data: seq<uint8>, hs: seq<VarHeader>, variableType: nat)
    requires Matching(hs, variableType) != [] && variableType in {1, 5, 6}
    ensures
      var indices := Matching(hs, variableType);
      var r := Select(data, hs, variableType, []);
      && r.Ok? && r.value.Cells? && |r.value.cells| == |indices|
      && forall j :: 0 <= j < |indices| ==>
           && hs[indices[j]].typ == variableType
           && r.value.cells[j] == ChannelOf(EngineKind(hs[indices[j]].typ).value, data, hs[indices[j]])
  {
    var indices := Matching(hs, variableType);
    var chosen := AllChannels(|indices|);
    MatchedTypes(hs, variableType);
    assert forall j :: 0 <= j < |indices| ==> chosen[j] == j;
    forall j | 0 <= j < |indices|
      ensures hs[indices[j]].typ == variableType && ChannelValid(hs, indices, chosen[j])
    {
      SupportedType(hs[indices[j]], variableType);
    }
    ReadChannelsOk(data, hs, indices, chosen);
    ReadChannelsCells(data, hs, indices, chosen);
  }

  /** A header kept for event, continuous or marker data carries exactly that type code. */
  lemma SupportedType(h: VarHeader, variableType: nat)
    requires Matches(h, variableType) && variableType in {1, 5, 6}
    ensures h.typ == variableType && EngineKind(h.typ).Some?
  {
  }

  /** Every header the filter keeps has the requested type, as unsigned. */
  lemma MatchedTypes(hs: seq<VarHeader>, variableType: nat)
    ensures forall j :: 0 <= j < |Matching(hs, variableType)| ==> Matches(hs[Matching(hs, variableType)[j]], variableType)
  {
    MatchingExactly(hs, variableType);
    var indices := Matching(hs, variableType);
    assert forall j :: 0 <= j < |indices| ==> indices[j] in indices;
  }

  /**
   * With no channels given and a type that has no reader, a directory with a
   * header of that type makes the selection fail on the first such header.
   */
  lemma SelectUnsupported(data: seq<uint8>, hs: seq<VarHeader>, variableType: nat)
    requires Matching(hs, variableType) != [] && variableType !in {1, 5, 6}
    ensures Select(data, hs, variableType, []) == Err(InvalidType(hs[Matching(hs, variableType)[0]].typ))
  {
    var indices := Matching(hs, variableType);
    var chosen := AllChannels(|indices|);
    MatchedTypes(hs, variableType);
    assert !ChannelValid(hs, indices, chosen[0]);
    ReadChannelsFirstError(data, hs, indices, chosen, 0);
  }

  // ------------------------------------------------------------------ one request

  /**
   * One `GetContinuous`, `GetMarkers` or `GetEvents` request: the file
   * header, then `readVariableData` with no channels.
   */
  function SelectFromFile(contents: seq<uint8>, variableType: nat): (r: Result<Selection, EngineError>)
  {
    if |contents| < FILE_HEADER_SIZE then Err(ReadFailed(Truncated))
    else VariableData(contents, DecodeFileHeader(contents[..FILE_HEADER_SIZE]), variableType, [])
  }

  /** Open the file, read its header, and select every variable of the type. */
  method ReadTypeFromFile(contents: seq<uint8>, variableType: nat) returns (r: Result<Selection, EngineError>)
    ensures r == SelectFromFile(contents, variableType)
  {
    var s := new NexStream.Open(contents);
    var ok, head := s.Read(FILE_HEADER_SIZE);
    if !ok {
      return Err(ReadFailed(Truncated));
    }
    assert head == contents[..FILE_HEADER_SIZE];
    var fh := DecodeFileHeader(head);
    r := ReadVariableData(s, fh, variableType, []);
  }

  /**
   * What the engine reports for a variable `WriteNexFile` wrote: its name and
   * values, version 100, and a zero millivolt offset for continuous data.
   */
  function WrittenChannel(v: Variable): (c: Channel)
    requires v.EventVar? || v.MarkerVar? || v.ContinuousVar?
  {
    match v
    case EventVar(name, ts) => EventChannel(name, 100, ts)
    case MarkerVar(name, _, ts, fields) => MarkerChannel(name, 100, ts, fields)
    case ContinuousVar(name, wf, ad, fts, fis, samples) =>
      ContinuousChannel(name, 100, ad, ZERO_DOUBLE, wf,
        if |fts| >= 1 then Some(Fragments(OneBased(fis), fts, samples)) else None)
  }

  /** The header the writer built for `v`, read back through the engine's reader, gives `WrittenChannel(v)`. */
  lemma ChannelOfWritten(data: seq<uint8>, v: Variable, h: VarHeader)
    requires WellFormedVar(v) && (v.EventVar? || v.MarkerVar? || v.ContinuousVar?)
    requires exists off :: h == HeaderOf(v, off)
    requires DecodeVariable(data, h) == Ok(Expected(v))
    ensures EngineKind(h.typ) == Some(KindOfVar(v))
    ensures ChannelOf(KindOfVar(v), data, h) == Ok(WrittenChannel(v))
  {
    var off :| h == HeaderOf(v, off);
    assert DecodeAs(KindOfVar(v), data, h) == Ok(Expected(v));
  }

  /** A request on a file `WriteNexFile` wrote selects from the headers the writer built. */
  lemma ImageSelectsDirectory(fh: FileHeader, vars: seq<Variable>, variableType: nat)
    requires fh.WellFormed() && fh.numVars == |vars| && Writable(vars)
    ensures SelectFromFile(FileImage(fh, vars), variableType) == Select(FileImage(fh, vars), Headers(vars), variableType, [])
  {
    ReadAllOfImage(fh, vars);
  }

  /** In a file `WriteNexFile` wrote, the filter keeps exactly the variables written with the requested type. */
  lemma ImageMatching(vars: seq<Variable>, variableType: nat)
    requires Writable(vars)
    ensures forall i :: i in Matching(Headers(vars), variableType) <==>
      0 <= i < |vars| && TypeCode(KindOfVar(vars[i])) == variableType
  {
    var hs := Headers(vars);
    MatchingExactly(hs, variableType);
    assert forall i :: 0 <= i < |vars| ==> hs[i] == HeaderOf(vars[i], DataOffset(vars, i));
  }

  /** Requesting a type no written variable has returns an empty matrix. */
  lemma ImageSelectNone(fh: FileHeader, vars: seq<Variable>, variableType: nat)
    requires fh.WellFormed() && fh.numVars == |vars| && Writable(vars)
    requires forall i :: 0 <= i < |vars| ==> TypeCode(KindOfVar(vars[i])) != variableType
    ensures SelectFromFile(FileImage(fh, vars), variableType) == Ok(Empty)
  {
    var hs := Headers(vars);
    ImageSelectsDirectory(fh, vars, variableType);
    assert forall i :: 0 <= i < |vars| ==> hs[i] == HeaderOf(vars[i], DataOffset(vars, i));
    SelectNone(FileImage(fh, vars), hs, variableType);
  }

  /**
   * Variable `i` of a file `WriteNexFile` wrote, when it is an event, marker
   * or continuous variable, reads back through the engine as `WrittenChannel`.
   */
  lemma WrittenChannelAt(fh: FileHeader, vars: seq<Variable>, i: nat)
    requires fh.WellFormed() && Writable(vars) && i < |vars|
    requires vars[i].EventVar? || vars[i].MarkerVar? || vars[i].ContinuousVar?
    ensures EngineKind(Headers(vars)[i].typ).Some?
    ensures ChannelOf(EngineKind(Headers(vars)[i].typ).value, FileImage(fh, vars), Headers(vars)[i])
      == Ok(WrittenChannel(vars[i]))
  {
    WriteThenRead(fh, vars);
    ChannelOfWritten(FileImage(fh, vars), vars[i], Headers(vars)[i]);
  }

  /**
   * Requesting event, continuous or marker data from a file `WriteNexFile`
   * wrote returns the variables of that type in the order they were written,
   * each as `WrittenChannel`.
   */
  lemma SelectFromImage(fh: FileHeader, vars: seq<Variable>, variableType: nat)
    requires fh.WellFormed() && fh.numVars == |vars| && Writable(vars)
    requires variableType in {1, 5, 6} && Matching(Headers(vars), variableType) != []
    ensures
      var indices := Matching(Headers(vars), variableType);
      var r := SelectFromFile(FileImage(fh, vars), variableType);
      && r.Ok? && r.value.Cells? && |r.value.cells| == |indices|
      && forall j :: 0 <= j < |indices| ==>
           && (vars[indices[j]].EventVar? || vars[indices[j]].MarkerVar? || vars[indices[j]].ContinuousVar?)
           && r.value.cells[j] == Ok(WrittenChannel(vars[indices[j]]))
  {
    var image := FileImage(fh, vars);
    var hs := Headers(vars);
    var indices := Matching(hs, variableType);
    ImageSelectsDirectory(fh, vars, variableType);
    SelectSupported(image, hs, variableType);
    ImageMatching(vars, variableType);
    var cells := Select(image, hs, variableType, []).value.cells;
    forall j | 0 <= j < |indices|
      ensures vars[indices[j]].EventVar? || vars[indices[j]].MarkerVar? || vars[indices[j]].ContinuousVar?
      ensures cells[j] == Ok(WrittenChannel(vars[indices[j]]))
    {
      var i := indices[j];
      assert i in indices;
      WrittenChannelAt(fh, vars, i);
    }
  }
}
