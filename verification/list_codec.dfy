/**
 The string-list codec of server/util.go: `serializeListOfStrings` wraps a
 list in the record `{"strings": [...]}`, encodes it as JSON and frames the
 result behind one mode byte, gzip-compressing it when the JSON is longer
 than the caller's threshold; `deserializeListOfStrings` undoes the framing
 and the JSON encoding.

 JSON and gzip come from Go's standard library. They are given to the codec
 as a `Libraries` value, and all the codec assumes of them is `Lawful`:
 decoding what was encoded gives it back, and an encoding is never empty.
 */
module ListCodec {
  import opened Wrappers

  /** The single-field record the JSON encoder sees. */
  datatype ListStrings = ListStrings(strings: seq<string>)

  /** How the payload after the mode byte is stored. */
  datatype Mode = Raw | Gzip

  /** The mode byte written on the wire. */
  function ModeTag(m: Mode): (b: byte)
    ensures b == 0 || b == 1
    ensures (m == Raw) == (b == 0)
  {
    match m
    case Raw => 0
    case Gzip => 1
  }

  /** The mode a leading byte names; bytes other than 0 and 1 name none. */
  function ModeOfTag(b: byte): (m: Option<Mode>)
    ensures m.Some? <==> b == 0 || b == 1
    ensures m.Some? ==> ModeTag(m.value) == b
  {
    if b == 0 then Some(Raw) else if b == 1 then Some(Gzip) else None
  }

  /** Reading the tag of a mode gives the mode back. */
  lemma ModeTagRoundTrip(m: Mode)
    ensures ModeOfTag(ModeTag(m)) == Some(m)
  {
  }

  /** The ways encoding and decoding fail. */
  datatype Error =
    | SerializationError     // json.Marshal failed
    | CompressionError       // the gzip writer failed on Write or Close
    | CorruptData            // the block has no payload after the mode byte
    | UnknownEncoding(mode: byte)
    | DecompressionError     // the gzip reader rejected the payload
    | DeserializationError   // json.Unmarshal failed

  /**
   The foreign encoders the codec calls: `encoding/json` and `compress/gzip`.
   `None` is an error reported by the library.
   */
  datatype Libraries = Libraries(
    marshal: ListStrings -> Option<seq<byte>>,
    unmarshal: seq<byte> -> Option<ListStrings>,
    compress: seq<byte> -> Option<seq<byte>>,
    decompress: seq<byte> -> Option<seq<byte>>)

  /** What JSON is relied on for: a successful encoding is non-empty and decodes to the record. */
  ghost predicate JsonRoundTrips(lib: Libraries) {
    forall rec :: lib.marshal(rec).Some? ==>
      |lib.marshal(rec).value| >= 1 && lib.unmarshal(lib.marshal(rec).value) == Some(rec)
  }

  /** What gzip is relied on for: a successful compression is non-empty and decompresses to its input. */
  ghost predicate GzipRoundTrips(lib: Libraries) {
    forall b :: lib.compress(b).Some? ==>
      |lib.compress(b).value| >= 1 && lib.decompress(lib.compress(b).value) == Some(b)
  }

  ghost predicate Lawful(lib: Libraries) {
    JsonRoundTrips(lib) && GzipRoundTrips(lib)
  }

  /** The mode the encoder picks: compress exactly when the JSON is longer than the threshold. */
  function ChooseMode(jsonLength: nat, compressThreshold: int): (m: Mode)
    ensures m == Raw <==> jsonLength <= compressThreshold
    ensures m == Gzip <==> jsonLength > compressThreshold
  {
    if jsonLength > compressThreshold then Gzip else Raw
  }

  /**
   Raising the threshold never turns a raw block into a compressed one. The
   first two clauses are the boundary case of `ChooseMode`'s contract,
   instantiated: JSON of exactly the threshold's length stays raw, and one
   byte more is compressed.
   */
  lemma ChooseModeThreshold(jsonLength: nat, t1: int, t2: int)
    ensures ChooseMode(jsonLength, jsonLength) == Raw
    ensures ChooseMode(jsonLength + 1, jsonLength) == Gzip
    ensures t1 <= t2 && ChooseMode(jsonLength, t1) == Raw ==> ChooseMode(jsonLength, t2) == Raw
  {
  }

  /** Framing: the mode byte followed by the JSON as is, or by its gzip stream. */
  function Frame(lib: Libraries, compressThreshold: int, json: seq<byte>): (r: Result<seq<byte>, Error>)
    ensures r.Success? ==> |r.value| >= 1 && ModeOfTag(r.value[0]) == Some(ChooseMode(|json|, compressThreshold))
    ensures |json| <= compressThreshold ==> r.Success? && r.value[1..] == json && |r.value| == 1 + |json|
    ensures |json| > compressThreshold ==>
      (r.Success? <==> lib.compress(json).Some?) &&
      (r.Success? ==> lib.compress(json) == Some(r.value[1..])) &&
      (r.Failure? ==> r.error == CompressionError)
  {
    match ChooseMode(|json|, compressThreshold)
    case Raw => Success([ModeTag(Raw)] + json)
    case Gzip =>
      match lib.compress(json)
      case None => Failure(CompressionError)
      case Some(z) => Success([ModeTag(Gzip)] + z)
  }

  /** Unframing: check the block, read the mode byte and recover the JSON bytes. */
  function Unframe(lib: Libraries, block: seq<byte>): (r: Result<seq<byte>, Error>)
    ensures |block| <= 1 ==> r == Failure(CorruptData)
    ensures |block| > 1 && block[0] != 0 && block[0] != 1 ==> r == Failure(UnknownEncoding(block[0]))
    ensures |block| > 1 && block[0] == ModeTag(Raw) ==> r == Success(block[1..])
    ensures |block| > 1 && block[0] == ModeTag(Gzip) ==>
      (r.Success? <==> lib.decompress(block[1..]).Some?) &&
      (r.Success? ==> lib.decompress(block[1..]) == Some(r.value)) &&
      (r.Failure? ==> r.error == DecompressionError)
  {
    if |block| <= 1 then Failure(CorruptData)
    else
      match ModeOfTag(block[0])
      case None => Failure(UnknownEncoding(block[0]))
      case Some(Raw) => Success(block[1..])
      case Some(Gzip) =>
        match lib.decompress(block[1..])
        case None => Failure(DecompressionError)
        case Some(data) => Success(data)
  }

  /** Model of `serializeListOfStrings`. */
  function Serialize(lib: Libraries, compressThreshold: int, strings: seq<string>): (r: Result<seq<byte>, Error>)
    ensures lib.marshal(ListStrings(strings)).None? ==> r == Failure(SerializationError)
    ensures r.Success? ==>
      lib.marshal(ListStrings(strings)).Some? &&
      var json := lib.marshal(ListStrings(strings)).value;
      |r.value| >= 1 &&
      (r.value[0] == ModeTag(Raw) <==> |json| <= compressThreshold) &&
      (r.value[0] == ModeTag(Gzip) <==> |json| > compressThreshold) &&
      (r.value[0] == ModeTag(Raw) ==> r.value[1..] == json && |r.value| == 1 + |json|) &&
      (r.value[0] == ModeTag(Gzip) ==> lib.compress(json) == Some(r.value[1..]))
    ensures r.Failure? ==> r.error == SerializationError || r.error == CompressionError
    ensures r.Failure? && lib.marshal(ListStrings(strings)).Some? ==> r.error == CompressionError
    ensures r.Success? <==>
      lib.marshal(ListStrings(strings)).Some? &&
      (|lib.marshal(ListStrings(strings)).value| > compressThreshold ==>
        lib.compress(lib.marshal(ListStrings(strings)).value).Some?)
  {
    match lib.marshal(ListStrings(strings))
    case None => Failure(SerializationError)
    case Some(json) => Frame(lib, compressThreshold, json)
  }

  /** Model of `deserializeListOfStrings`. */
  function Deserialize(lib: Libraries, block: seq<byte>): (r: Result<seq<string>, Error>)
    ensures |block| <= 1 ==> r == Failure(CorruptData)
    ensures |block| > 1 && block[0] != 0 && block[0] != 1 ==> r == Failure(UnknownEncoding(block[0]))
    ensures r.Success? ==>
      Unframe(lib, block).Success? && lib.unmarshal(Unframe(lib, block).value) == Some(ListStrings(r.value))
    ensures r.Failure? && Unframe(lib, block).Success? ==> r.error == DeserializationError
    ensures Unframe(lib, block).Failure? ==> r == Failure(Unframe(lib, block).error)
    ensures |block| > 1 && block[0] == ModeTag(Gzip) && lib.decompress(block[1..]).None? ==>
      r == Failure(DecompressionError)
    ensures Unframe(lib, block).Success? && lib.unmarshal(Unframe(lib, block).value).Some? ==>
      r == Success(lib.unmarshal(Unframe(lib, block).value).value.strings)
  {
    match Unframe(lib, block)
    case Failure(e) => Failure(e)
    case Success(data) =>
      match lib.unmarshal(data)
      case None => Failure(DeserializationError)
      case Some(rec) => Success(rec.strings)
  }

  /** Unframing undoes framing, whichever mode the threshold picked. */
  lemma FrameRoundTrip(lib: Libraries, compressThreshold: int, json: seq<byte>)
    requires GzipRoundTrips(lib)
    requires |json| >= 1
    ensures Frame(lib, compressThreshold, json).Success? ==>
      Unframe(lib, Frame(lib, compressThreshold, json).value) == Success(json)
  {
  }

  /**
   Conversely, a block that unframes in raw mode is exactly the framing of
   its payload under any threshold the payload does not exceed.
   */
  lemma RawUnframeIsFramed(lib: Libraries, block: seq<byte>, compressThreshold: int)
    requires Unframe(lib, block).Success? && block[0] == ModeTag(Raw)
    requires |Unframe(lib, block).value| <= compressThreshold
    ensures Frame(lib, compressThreshold, Unframe(lib, block).value) == Success(block)
  {
    assert [block[0]] + block[1..] == block;
  }

  /** Encoded blocks always pass the decoder's length check. */
  lemma EncodedBlocksHavePayload(lib: Libraries, compressThreshold: int, strings: seq<string>)
    requires Lawful(lib)
    ensures Serialize(lib, compressThreshold, strings).Success? ==>
      |Serialize(lib, compressThreshold, strings).value| >= 2
  {
  }

  /**
   The codec's round trip: whatever the threshold, decoding an encoded list
   gives the same list back, in order, with duplicates and empty strings.
   */
  lemma RoundTrip(lib: Libraries, compressThreshold: int, strings: seq<string>)
    requires Lawful(lib)
    ensures Serialize(lib, compressThreshold, strings).Success? ==>
      Deserialize(lib, Serialize(lib, compressThreshold, strings).value) == Success(strings)
  {
    var rec := ListStrings(strings);
    if lib.marshal(rec).Some? {
      FrameRoundTrip(lib, compressThreshold, lib.marshal(rec).value);
    }
  }

  /** Two lists with the same encoding are equal, even under different thresholds. */
  lemma SerializeInjective(lib: Libraries, t1: int, t2: int, l1: seq<string>, l2: seq<string>)
    requires Lawful(lib)
    requires Serialize(lib, t1, l1).Success?
    requires Serialize(lib, t1, l1) == Serialize(lib, t2, l2)
    ensures l1 == l2
  {
    RoundTrip(lib, t1, l1);
    RoundTrip(lib, t2, l2);
  }

  /**
   Encoding fails only when a library does. This is the right-to-left half of
   the success condition in `Serialize`'s contract, stated as a lemma for callers.
   */
  lemma SerializeSucceeds(lib: Libraries, compressThreshold: int, strings: seq<string>)
    requires lib.marshal(ListStrings(strings)).Some?
    requires |lib.marshal(ListStrings(strings)).value| > compressThreshold ==>
      lib.compress(lib.marshal(ListStrings(strings)).value).Some?
    ensures Serialize(lib, compressThreshold, strings).Success?
  {
  }
}
