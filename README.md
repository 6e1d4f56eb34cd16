# Fractal Dimension Compressor: container framing, entropy and round trip

The browser app compresses a file with zlib and wraps the result in a small
container: a 4-byte metadata length, the metadata object as UTF-8 JSON, then
the compressed payload. Decompressing splits the container again, inflates the
payload and names the restored file after the recorded name. Before
compressing, the app measures the file's Shannon entropy from a 256-slot byte
histogram.

This project models that core in Dafny:

- `bytes.dfy` (module `Bytes`): bytes, the ToUint32 conversion a
  `Uint32Array` applies, and the 4-byte header written and read through a
  `Uint32Array` view.
- `entropy.dfy` (module `Entropy`): `calculateEntropy` as a method with its
  two loops (the in-place histogram over a 256-slot array, then the sum over
  the positive slots), proved against the specification function `EntropyOf`.
- `container.dfy` (module `Container`): `createFileWithMetadata` as a method
  that allocates one buffer and fills it with three in-place `set` copies,
  proved equal to the specification function `Frame`; `extractMetadata` as a
  function, with its exact failure behaviour.
- `pipeline.dfy` (module `Pipeline`): the compress and decompress sequences of
  `handleCompress` and `handleDecompress`, and the end-to-end round trip.
- `wrappers.dfy` (module `Wrappers`): `Option` and `Result`.

Library code is modelled by parameters:
- `JSON.stringify` with `TextEncoder`, and `TextDecoder` with `JSON.parse`, are the two functions of a `MetadataCodec`.
- `pako.deflate` and `pako.inflate` are the two functions of a `Zlib`.
- `Math.log2` is a function `log2: real -> real`.
- `Date.now()` is the integer `now`.

The properties these libraries are trusted to have are hypotheses of the
lemmas that need them, stated for the values at hand only:
- parsing the metadata's text gives that metadata back;
- `JSON.parse("")` throws (`RejectsEmpty`);
- inflating the deflated bytes gives those bytes back.

Behaviour of the code worth knowing, all of it modelled as written:

- There is no truncation error. When the declared metadata length exceeds
  the bytes available, both `slice` calls clamp, the payload comes out empty
  and only `JSON.parse` can fail (`ExtractOverrun`).
- A metadata length of 2^32 or more is stored modulo 2^32 by the
  `Uint32Array` conversion, so the round trip needs the length to be below
  2^32 (`HeaderWraps`, `ExtractFrame`).
- 1 to 3 bytes make the `Uint32Array` constructor throw a `RangeError`. With
  0 bytes the length is `undefined`, both slices are empty and
  `JSON.parse("")` throws (`ExtractShortFails`).
- The header uses the host's byte order, modelled as little-endian, the
  order of every mainstream JavaScript host.

## Model

| member | source | states |
|---|---|---|
| `Bytes.ToUint32` | app.js:343 | the stored header value is below 2^32, is the length itself when that is below 2^32, and is always congruent to it modulo 2^32 |
| `Bytes.Le32` | app.js:343-351 | the header written through the `Uint8Array` view of the length is exactly 4 bytes; that they hold the length, least significant first, is stated by `ReadLe32OfLe32` against the independent reader `ReadLe32` |
| `Bytes.ReadLe32` | app.js:364 | the value read through a `Uint32Array` view of the first 4 bytes is below 2^32 |
| `Bytes.ReadLe32OfLe32` | app.js:364 | reading the 4 header bytes back through a Uint32Array view gives the value that was written |
| `Bytes.Le32OfReadLe32` | app.js:351 | every 4-byte header is the encoding of the value read from it (the header codec is a bijection on 4-byte sequences) |
| `Entropy.Count` | app.js:321-323 | a byte value occurs at most as often as the input is long |
| `Entropy.Histogram` | app.js:320-323 | the histogram has exactly 256 slots, and slot v holds the number of occurrences of v |
| `Entropy.CalculateEntropy` | app.js:318-335 | the result is the sum, in slot order, of -p*log2(p) over the slots with a positive count, p being count / length |
| `Entropy.CountIsMultiplicity` | app.js:321-323 | the count in a slot is the multiplicity of that byte value in the input |
| `Entropy.HistogramSum` | app.js:320-323 | the 256 counts add up to the input length |
| `Entropy.EntropyPermutationInvariant` | app.js:318-335 | reordering the input changes neither the histogram nor the entropy |
| `Entropy.EntropyOfEmpty` | app.js:326-334 | the empty input has entropy 0: no slot contributes and nothing is divided by the zero length |
| `Entropy.EntropyOfConstant` | app.js:327-332 | a non-empty input of one repeated value has only the term -log2(1), so entropy 0 |
| `Entropy.EntropyOfUniform` | app.js:327-332 | when all 256 values occur equally often the input length is 256k and the entropy is -log2(1/256), that is 8 |
| `Entropy.EntropyNonNegative` | app.js:327-332 | if log2 is non-positive on (0, 1], every contributing slot adds a non-negative term and the entropy is non-negative |
| `Container.Frame` | app.js:337-360 | the container is exactly 4 + metadata length + payload length bytes long; bytes 0-3 read back as the metadata length modulo 2^32; bytes [4, 4+metaLen) are the metadata bytes; the rest is the payload verbatim |
| `Container.Set` | app.js:351-357 | a typed-array `set` copies the source at the offset and leaves every other element unchanged |
| `Container.CreateFileWithMetadata` | app.js:337-360 | the freshly allocated buffer, after the three in-place copies, holds exactly the bytes of `Frame`, with no other byte written |
| `Container.MetadataEnd` | app.js:367 | the metadata slice ends at 4 + declared length, or is clamped to the buffer's end when the declared length overruns it |
| `Container.ExtractMetadata` | app.js:362-375 | 1 to 3 input bytes fail with the header RangeError; a successful result's payload is a suffix of the input, returned unchanged |
| `Container.ExtractFrame` | app.js:337-375 | round trip: extracting from a framed file returns the same metadata and the identical payload when parsing that metadata's text gives it back and its length is below 2^32 |
| `Container.ExtractDecomposes` | app.js:362-375 | when the declared length fits, a successful extraction means the input is the header, then bytes that parse to the returned metadata, then the returned payload |
| `Container.ExtractFits` | app.js:364-374 | when the declared length fits, the result fails with the syntax error exactly when the declared metadata slice does not parse, and otherwise carries the parsed metadata and every byte after the slice as the payload |
| `Container.ExtractShortFails` | app.js:364-369 | every input shorter than 4 bytes fails: 1 to 3 bytes in the header read, 0 bytes in the parse of the empty text |
| `Container.ExtractOverrun` | app.js:367-372 | an overrunning declared length raises no error of its own: the result fails exactly when the bytes after the header do not parse, and otherwise carries an empty payload |
| `Container.HeaderWraps` | app.js:343 | metadata of 2^32 bytes or more gets a header that reads back as its length modulo 2^32, a smaller value than was written |
| `Pipeline.MetadataFor` | app.js:51-56 | the recorded metadata holds the input's size, its name and the given time, and for the empty input an entropy of 0 |
| `Pipeline.DownloadName` | app.js:118 | the restored file name is never empty; it is the recorded name when that is non-empty and "decompressed-file" otherwise |
| `Pipeline.Compress` | app.js:45-60 | the output is named after the input with ".fdc" appended, and holds the frame of the deflated bytes with metadata recording the input's size, name, entropy and the given time |
| `Pipeline.Decompress` | app.js:111-118 | extraction errors are passed on unchanged; after a successful extraction the result succeeds exactly when inflate does and fails with the corrupt-stream error otherwise; a success carries the inflated bytes and the `DownloadName` of the extracted metadata |
| `Pipeline.RoundTrip` | app.js:45-118 | decompressing what `Compress` produced gives back the original bytes exactly, under the original name or "decompressed-file" when it was empty, when inflate undoes deflate on those bytes and the metadata's text parses back to it |
| `Pipeline.DecompressShortFails` | app.js:111 | a container shorter than 4 bytes is never decompressed |

## Left out

- The React component, its state, the JSX and the simulated progress timers (app.js:1-37, 87-103, 121-284) are user interface. They carry no contract about the bytes.
- `readFileAsArrayBuffer` and `downloadFile` (app.js:288-306) are browser I/O. The file's bytes and name are inputs of `Compress`, and the restored bytes and name are the output of `Decompress`.
- The Blob and File objects built around the results (app.js:59-62, 117-119) are not modelled beyond the output file name.
- The zlib algorithm (`pako`), JSON and UTF-8 are library code. They are parameters, and their round-trip properties are hypotheses.
- Floating point: entropy arithmetic is exact `real` arithmetic, and `Math.log2` is a parameter. An exact result of 8 for the uniform case and the upper bound of 8 bits per byte would both need the logarithm's laws. Only the structure of the sum and the two special values are proved.
- `formatFileSize`, the compression ratio, the space saved and the efficiency display (app.js:67-74, 241-262) are floating-point presentation.
- `Date.now()` is the parameter `now`.
- `JSON.parse` may return a value that is not an object, or an object whose `originalName` is missing or not a string. The model's parser returns a `Metadata` record or fails, so these cases are folded into the parser. The `||` fallback of app.js:118 is modelled for the empty string only.
- The header is read from `fileData.buffer`, not from the view. The model assumes the view covers its whole buffer, which holds for the `Uint8Array` built from a freshly read `ArrayBuffer` at app.js:108.
- The size recorded in the metadata is `inputFile.size`. The model uses the length of the bytes read from that file, which is the same number.
