/**
 * The compress and decompress sequences of handleCompress (app.js:41-62)
 * and handleDecompress (app.js:107-119), without the user interface around
 * them. pako.deflate and pako.inflate are the two fields of a Zlib value;
 * Math.log2 and Date.now() are parameters; reading and downloading files is
 * not modelled (the file's bytes and name are inputs, the result's bytes and
 * name are outputs).
 */
module Pipeline {
  import opened Wrappers
  import opened Bytes
  import opened Entropy
  import opened Container

  /** pako.deflate, and pako.inflate with None where it throws on a corrupt stream. */
  datatype Zlib = Zlib(deflate: seq<byte> -> seq<byte>, inflate: seq<byte> -> Option<seq<byte>>)

  /** Why handleDecompress reports "Decompression failed". */
  datatype DecompressError = ExtractFailed(cause: ExtractError) | CorruptStream

  datatype Restored = Restored(fileName: string, data: seq<byte>)

  /** The name given to the restored file: the recorded name, or a fixed one when that is empty (app.js:118). */
  function DownloadName(metadata: Metadata): (name: string)
    ensures name != []
    ensures metadata.originalName != [] ==> name == metadata.originalName
    ensures metadata.originalName == [] ==> name == "decompressed-file"
  {
    if metadata.originalName == [] then "decompressed-file" else metadata.originalName
  }

  /** The metadata handleCompress records for a file. */
  function MetadataFor(name: string, data: seq<byte>, log2: real -> real, now: int): (m: Metadata)
    ensures m.originalSize == |data| && m.originalName == name && m.timestamp == now
    ensures data == [] ==> m.entropy == 0.0
  {
    EntropyOfEmpty(log2);
    Metadata(|data|, name, EntropyOf(data, log2), now)
  }

  /**
   * handleCompress: measure the entropy, deflate, frame with the metadata,
   * and name the result after the input with ".fdc" appended.
   */
  method Compress(name: string, data: seq<byte>, now: int, log2: real -> real, zlib: Zlib, codec: MetadataCodec)
    returns (fileName: string, file: array<byte>)
    ensures fileName == name + ".fdc"
    ensures fresh(file)
    ensures file[..] == Frame(zlib.deflate(data), MetadataFor(name, data, log2, now), codec)
  {
    var entropy := CalculateEntropy(data, log2);
    var compressedData := zlib.deflate(data);
    file := CreateFileWithMetadata(compressedData, Metadata(|data|, name, entropy, now), codec);
    fileName := name + ".fdc";
  }

  /** handleDecompress: split the container, inflate the payload, pick the file name. */
  function Decompress(file: seq<byte>, zlib: Zlib, codec: MetadataCodec): (r: Result<Restored, DecompressError>)
    ensures ExtractMetadata(file, codec).Failure? ==> r == Failure(ExtractFailed(ExtractMetadata(file, codec).error))
    ensures r.Success? ==>
              && ExtractMetadata(file, codec).Success?
              && zlib.inflate(ExtractMetadata(file, codec).value.compressedData) == Some(r.value.data)
              && r.value.fileName == DownloadName(ExtractMetadata(file, codec).value.metadata)
    ensures ExtractMetadata(file, codec).Success? ==>
              (r.Success? <==> zlib.inflate(ExtractMetadata(file, codec).value.compressedData).Some?)
    ensures ExtractMetadata(file, codec).Success? && zlib.inflate(ExtractMetadata(file, codec).value.compressedData).None? ==>
              r == Failure(CorruptStream)
  {
    match ExtractMetadata(file, codec)
    case Failure(e) => Failure(ExtractFailed(e))
    case Success(Extracted(metadata, compressedData)) =>
      match zlib.inflate(compressedData)
      case None => Failure(CorruptStream)
      case Some(data) => Success(Restored(DownloadName(metadata), data))
  }

  /**
   * End to end: decompressing what Compress produced restores the original
   * bytes exactly, under the original name (or the fixed one when the name
   * was empty), provided inflate undoes deflate on these bytes, parsing the
   * metadata text gives the metadata back, and that text fits the 32-bit header.
   */
  lemma RoundTrip(name: string, data: seq<byte>, now: int, log2: real -> real, zlib: Zlib, codec: MetadataCodec)
    requires zlib.inflate(zlib.deflate(data)) == Some(data)
    requires codec.parse(codec.stringify(MetadataFor(name, data, log2, now))) == Some(MetadataFor(name, data, log2, now))
    requires |codec.stringify(MetadataFor(name, data, log2, now))| < Uint32Range
    ensures Decompress(Frame(zlib.deflate(data), MetadataFor(name, data, log2, now), codec), zlib, codec)
            == Success(Restored(if name == [] then "decompressed-file" else name, data))
  {
  }

  /** A container too short to hold a header is never decompressed. */
  lemma DecompressShortFails(file: seq<byte>, zlib: Zlib, codec: MetadataCodec)
    requires RejectsEmpty(codec) && |file| < 4
    ensures Decompress(file, zlib, codec).Failure?
  {
  }
}
