/**
 * The container: a 4-byte metadata length, the serialized metadata, then the
 * compressed payload (createFileWithMetadata, app.js:337-360, and
 * extractMetadata, app.js:362-375).
 *
 * JSON.stringify followed by TextEncoder.encode, and TextDecoder.decode
 * followed by JSON.parse, are library code: they are the two fields of a
 * MetadataCodec, and the properties the framing relies on (parse undoes
 * stringify for the metadata at hand, the empty text is not JSON) are
 * hypotheses of the lemmas that use them.
 */
module Container {
  import opened Wrappers
  import opened Bytes

  /** The object compressed files carry (app.js:51-56). */
  datatype Metadata = Metadata(originalSize: nat, originalName: string, entropy: real, timestamp: int)

  /** UTF-8 of JSON.stringify, and JSON.parse of the UTF-8 decoding (None where JSON.parse throws). */
  datatype MetadataCodec = MetadataCodec(stringify: Metadata -> seq<byte>, parse: seq<byte> -> Option<Metadata>)

  /** JSON.parse("") throws. */
  predicate RejectsEmpty(codec: MetadataCodec)
  {
    codec.parse([]) == None
  }

  /** The exceptions extractMetadata can throw. */
  datatype ExtractError =
    | HeaderRangeError     // new Uint32Array(buffer) on 1 to 3 bytes (app.js:364)
    | MetadataSyntaxError  // JSON.parse rejects the metadata text (app.js:369)

  datatype Extracted = Extracted(metadata: Metadata, compressedData: seq<byte>)

  /** The bytes createFileWithMetadata produces for the given metadata and payload. */
  function Frame(compressedData: seq<byte>, metadata: Metadata, codec: MetadataCodec): (file: seq<byte>)
    ensures |file| == 4 + |codec.stringify(metadata)| + |compressedData|
    ensures ReadLe32(file[..4]) == ToUint32(|codec.stringify(metadata)|)
    ensures file[4..4 + |codec.stringify(metadata)|] == codec.stringify(metadata)
    ensures file[4 + |codec.stringify(metadata)|..] == compressedData
  {
    var metadataBytes := codec.stringify(metadata);
    var header := Le32(ToUint32(|metadataBytes|));
    ReadLe32OfLe32(ToUint32(|metadataBytes|));
    assert (header + metadataBytes + compressedData)[..4] == header;
    header + metadataBytes + compressedData
  }

  /** Uint8Array.prototype.set: copies src into a starting at offset and leaves every other element alone. */
  method Set(a: array<byte>, src: seq<byte>, offset: nat)
    requires offset + |src| <= a.Length
    modifies a
    ensures a[..] == old(a[..offset]) + src + old(a[offset + |src|..])
  {
    for i := 0 to |src|
      invariant forall j :: 0 <= j < a.Length ==> a[j] == if offset <= j < offset + i then src[j - offset] else old(a[j])
    {
      a[offset + i] := src[i];
    }
  }

  /** createFileWithMetadata: one zero-filled buffer, filled in place by three `set` calls. */
  method CreateFileWithMetadata(compressedData: seq<byte>, metadata: Metadata, codec: MetadataCodec)
    returns (result: array<byte>)
    ensures fresh(result)
    ensures result[..] == Frame(compressedData, metadata, codec)
  {
    var metadataBytes := codec.stringify(metadata);
    var metadataLength := Le32(ToUint32(|metadataBytes|));
    result := new byte[4 + |metadataBytes| + |compressedData|](_ => 0);
    Set(result, metadataLength, 0);
    Set(result, metadataBytes, 4);
    Set(result, compressedData, 4 + |metadataBytes|);
    assert result[..] == metadataLength + metadataBytes + compressedData;
  }

  /** Where the metadata slice ends: `slice` clamps an end beyond the buffer to its length. */
  function MetadataEnd(fileData: seq<byte>): (end: nat)
    requires |fileData| >= 4
    ensures 4 <= end <= |fileData|
    ensures end == 4 + ReadLe32(fileData[..4]) || (end == |fileData| < 4 + ReadLe32(fileData[..4]))
  {
    var declared := 4 + ReadLe32(fileData[..4]);
    if declared <= |fileData| then declared else |fileData|
  }

  /**
   * extractMetadata. One to three bytes make the Uint32Array constructor
   * throw. Zero bytes leave the length undefined, so both slices are empty
   * and JSON.parse gets the empty text. Otherwise the declared length is
   * taken from the first four bytes and both slices clamp to the buffer;
   * there is no truncation check.
   */
  function ExtractMetadata(fileData: seq<byte>, codec: MetadataCodec): (r: Result<Extracted, ExtractError>)
    ensures 0 < |fileData| < 4 ==> r == Failure(HeaderRangeError)
    ensures r.Success? ==> |r.value.compressedData| <= |fileData|
    ensures r.Success? ==> r.value.compressedData == fileData[|fileData| - |r.value.compressedData|..]
  {
    if 0 < |fileData| < 4 then Failure(HeaderRangeError)
    else
      var metadataBytes := if |fileData| == 0 then [] else fileData[4..MetadataEnd(fileData)];
      var compressedData := if |fileData| == 0 then fileData else fileData[MetadataEnd(fileData)..];
      match codec.parse(metadataBytes)
      case None => Failure(MetadataSyntaxError)
      case Some(metadata) => Success(Extracted(metadata, compressedData))
  }

  // ---------------------------------------------------------------------------
  // Properties of the framing

  /**
   * Round trip: extracting from a freshly framed file returns the same
   * metadata and the identical payload, provided the metadata's byte length
   * fits the 32-bit header and parsing its text gives it back.
   */
  lemma ExtractFrame(compressedData: seq<byte>, metadata: Metadata, codec: MetadataCodec)
    requires codec.parse(codec.stringify(metadata)) == Some(metadata)
    requires |codec.stringify(metadata)| < Uint32Range
    ensures ExtractMetadata(Frame(compressedData, metadata, codec), codec) == Success(Extracted(metadata, compressedData))
  {
  }

  /**
   * What a successful extraction means when the declared length fits: the
   * file is the header, then bytes that parse to the returned metadata, then
   * the returned payload.
   */
  lemma ExtractDecomposes(fileData: seq<byte>, codec: MetadataCodec, metadata: Metadata, compressedData: seq<byte>)
    requires |fileData| >= 4 && 4 + ReadLe32(fileData[..4]) <= |fileData|
    requires ExtractMetadata(fileData, codec) == Success(Extracted(metadata, compressedData))
    ensures var metaLen := ReadLe32(fileData[..4]);
            && fileData == Le32(metaLen) + fileData[4..4 + metaLen] + compressedData
            && codec.parse(fileData[4..4 + metaLen]) == Some(metadata)
  {
    var metaLen := ReadLe32(fileData[..4]);
    Le32OfReadLe32(fileData[..4]);
    assert fileData == fileData[..4] + fileData[4..4 + metaLen] + fileData[4 + metaLen..];
  }

  /**
   * When the declared length fits, parsing the declared metadata slice is the
   * only step that can fail; otherwise the payload is everything after it.
   */
  lemma ExtractFits(fileData: seq<byte>, codec: MetadataCodec)
    requires |fileData| >= 4 && 4 + ReadLe32(fileData[..4]) <= |fileData|
    ensures var metaLen := ReadLe32(fileData[..4]);
            ExtractMetadata(fileData, codec) ==
              match codec.parse(fileData[4..4 + metaLen])
              case None => Failure(MetadataSyntaxError)
              case Some(m) => Success(Extracted(m, fileData[4 + metaLen..]))
  {
  }

  /**
   * Inputs shorter than four bytes never yield metadata: one to three bytes
   * fail in the header read, and zero bytes fail in JSON.parse of "".
   */
  lemma ExtractShortFails(fileData: seq<byte>, codec: MetadataCodec)
    requires RejectsEmpty(codec)
    requires |fileData| < 4
    ensures ExtractMetadata(fileData, codec).Failure?
    ensures |fileData| > 0 ==> ExtractMetadata(fileData, codec).error == HeaderRangeError
    ensures |fileData| == 0 ==> ExtractMetadata(fileData, codec).error == MetadataSyntaxError
  {
  }

  /**
   * A declared length that overruns the buffer raises no error of its own:
   * the metadata slice is everything after the header, the payload is
   * empty, and the outcome is decided by the parser alone.
   */
  lemma ExtractOverrun(fileData: seq<byte>, codec: MetadataCodec)
    requires |fileData| >= 4 && 4 + ReadLe32(fileData[..4]) > |fileData|
    ensures ExtractMetadata(fileData, codec).Failure? <==> codec.parse(fileData[4..]) == None
    ensures ExtractMetadata(fileData, codec).Failure? ==> ExtractMetadata(fileData, codec).error == MetadataSyntaxError
    ensures ExtractMetadata(fileData, codec).Success? ==>
              ExtractMetadata(fileData, codec).value == Extracted(codec.parse(fileData[4..]).value, [])
  {
    assert fileData[4..MetadataEnd(fileData)] == fileData[4..];
  }

  /**
   * A metadata text of 2^32 bytes or more is not representable: the header
   * holds its length modulo 2^32, so the reader takes a shorter metadata
   * slice than was written.
   */
  lemma HeaderWraps(compressedData: seq<byte>, metadata: Metadata, codec: MetadataCodec)
    requires |codec.stringify(metadata)| >= Uint32Range
    ensures var file := Frame(compressedData, metadata, codec);
            ReadLe32(file[..4]) == |codec.stringify(metadata)| % Uint32Range < |codec.stringify(metadata)|
  {
  }
}
