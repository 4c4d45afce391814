# LZW text compressor: a verified model of the codec

The repository is a small desktop tool chain for LZW compression of text
files. Its parts:

- Two compressors, a test harness (`TestCompressor.py`) and a manual GUI
  (`ManualCompressor.py`), each with its own copy of `lzw_compress` and
  `save_compressed_file`; the copies differ only in docstrings, comments and
  the wording of the `ValueError` message.
- A decompressor (`decompressor.py`) with `lzw_decompress` and
  `read_compressed_file`.
- Visualisation scripts.

The encoder starts from a dictionary of the 256 one-character strings. It
emits a code for each longest known run and adds one new entry per emission
inside the loop, until an optional cap `max_dict_size` is reached; the final
run is emitted after the loop and adds none. The packer writes the codes
MSB-first into `b`-bit fields and zero-pads the last byte. The compressor
chooses the parameters and puts them into the name of the output directory:
`output_dict<M>_code<b>bit`, or `output_nodictlimit_code<b>bit`. The
decompressor reads them back from that name, unpacks the fields and rebuilds
the dictionary in lock-step.

This project models that codec core in Dafny.

- **Form.** Each Python loop is a Dafny `method` with the same loop. Each
  method is proved equal to a specification function of its inputs:
  - `LzwEncoder.LzwCompress` equals `LzwEncoder.Encode`.
  - `LzwDecoder.LzwDecompress` equals `LzwDecoder.Decode`.
  - `BitPacking.SaveCompressed` equals `BitPacking.Pack`.
  - `BitPacking.ReadCompressed` equals `BitPacking.Unpack`.
- **Properties.** Lemmas about those functions state what the source
  promises and add four proofs:
  - the LZW round trip;
  - the pack/unpack inverse for `b >= 8`;
  - that accepted parameters make packing safe;
  - end to end, that the directory-name parser recovers the parameters the
    builders wrote, and that every well-formed file decompresses to its text.

Modelling choices:

- **Symbols.** Symbols are natural numbers, the code points of the text's
  characters. A character of 256 or more makes `dictionary[w]` raise a
  `KeyError`.
- **Exceptions.** Every raise site is an `Err` of `Common.Error`.
- **The cap.** The cap is an `Option<int>`. `None` means no limit. Any
  `Some(M)` grows only while `dict_size < M`, so 0 or a negative cap never
  grows the dictionary.
- **Bit operations.** On the non-negative integers involved, bit operations
  are arithmetic:
  - `x << k` is `x * 2^k`;
  - `x >> k` is `x / 2^k`;
  - `x & (2^k - 1)` is `x % 2^k`;
  - `(x << k) | y` with `y < 2^k` is `x * 2^k + y`.
- **Bit streams.** The packer's bit stream is the positional value of the
  codes in base `2^b` (`Positional.Value`, `Positional.Digits`).
- **Decoder dictionary.** The decoder's dictionary `{code: string}` always has
  exactly the keys `0 .. dict_size - 1`. It is modelled as a sequence indexed
  by code, so `k in dictionary` is `k < |table|`.
- **The ManualCompressor copies.** `lzw_compress` and `save_compressed_file`
  in `ManualCompressor.py` are the same code as in `TestCompressor.py`, apart
  from docstrings, comments and the wording of the `ValueError` message
  (English at TestCompressor.py:57, Turkish at ManualCompressor.py:37). The
  model does not carry messages, so they are modelled once, and the rows below
  cite the `TestCompressor.py` copy.

Three behaviours of the code a reader may not expect:

- **The first code.** `lzw_decompress` applies `chr` to the first code
  without consulting the dictionary, so a first code up to U+10FFFF is
  accepted as a character (`LzwDecoderFacts.DecodeOkIff`).
- **Padding bits.** For `b >= 8` the zero padding of the last byte never
  forms a code. For `b < 8`, `read_compressed_file` reads the padding bits
  back as `PadBits / b` extra zero codes (`BitPacking.UnpackPack`). The test
  harness accepts only `9 <= b <= 24`, and the manual UI offers only a fixed
  list of bit lengths.
- **The `code_bit_length` argument.** This argument of `lzw_decompress` only
  feeds an unused `max_code` and has no effect.

## Model

| member | source | states |
|---|---|---|
| LzwEncoder.LzwCompress | TestCompressor.py:9-39 | the encoder loop computes `Encode`: after every prefix its dictionary, size, run and output are the state `Run` gives, and it raises `KeyError` exactly where `Run` fails; ManualCompressor.py:5-26 is the same code |
| LzwEncoder.ErrorPersists | TestCompressor.py:26-36 | once the loop raises on a prefix, the whole input raises that same error |
| LzwEncoderFacts.EncodeOkIff | TestCompressor.py:26-38 | compression succeeds if and only if every symbol is below 256 |
| LzwEncoderFacts.EncodeLength | TestCompressor.py:24-39 | the empty text gives no codes and only it does (the last run is always emitted); never more codes than symbols |
| LzwEncoderFacts.EncodeCodesBelowSize | TestCompressor.py:31-35 | the `j`-th code is below the dictionary size at that emission, `256 + j` limited by the cap |
| LzwEncoderFacts.EncodeWithinCap | TestCompressor.py:32-35 | with a cap `M` every code is below `max(256, M)` |
| LzwEncoderFacts.FinalDictionary | TestCompressor.py:21-38 | the final `dict_size` is 256 plus one per emission inside the loop (every code but the last, which line 38 emits without adding an entry), limited by the cap; the dictionary's codes are exactly `0 .. dict_size - 1`, one key each (injective); its keys are prefix-closed; and looking every emitted code up in it and joining the keys gives back the input |
| LzwEncoderFacts.EncodeParse | TestCompressor.py:26-38 | the codes parse the input: each names, in the table built so far, the phrase it stands for, and the phrases join to the input |
| LzwEncoderFacts.InitialDictFacts | TestCompressor.py:21-22 | the initial dictionary maps each one-symbol string `[i]`, `i < 256`, to `i`; every key is non-empty, made of symbols below 256, and the keys are prefix-closed |
| LzwEncoderFacts.RunShape | TestCompressor.py:26-36 | on any input: a prefix of symbols below 256 never makes the loop raise and leaves a run that is a key (empty only at the start); after the first symbol of 256 or more, if the loop has not raised yet, the run is that symbol alone |
| LzwEncoderFacts.StartInvariant | TestCompressor.py:21-25 | the encoder's round-trip invariant holds before the loop |
| LzwEncoderFacts.ExtendInvariant | TestCompressor.py:27-29 | extending the run keeps the invariant |
| LzwEncoderFacts.EmitInvariant | TestCompressor.py:30-36 | emitting the run's code, adding `wc` under the next code while below the cap, and restarting the run keeps the invariant |
| LzwEncoderFacts.EmitDict | TestCompressor.py:30-36 | the output gains exactly the run's code `dictionary[w]` and the run restarts as `[c]`; the dictionary stays a bijection onto `0 .. dict_size - 1`; each new key extends an existing one by one symbol |
| LzwEncoderFacts.PrefixClosedAdd | TestCompressor.py:34 | adding `wc` whose prefix `w` is a key keeps the key set prefix-closed |
| LzwEncoderFacts.StepInvariant | TestCompressor.py:27-36 | every iteration on a symbol below 256 succeeds and keeps the invariant |
| LzwEncoderFacts.RunInvariant | TestCompressor.py:26-36 | after every prefix of a text of symbols below 256 the loop has not raised and the invariant holds |
| LzwTable.CapacityStep | TestCompressor.py:32-35 | the dictionary grows by exactly one entry per attempt while below the cap, and not at all once the cap is reached |
| LzwTable.CapacityBound | decompressor.py:39-41 | with a cap `M` the dictionary size stays between 256 and `max(256, M)` |
| LzwTable.BaseTable | decompressor.py:23 | the initial table maps each code below 256 to its one-character string |
| LzwTable.Table | decompressor.py:38-41 | the table after a list of phrases has the size the growth rule gives, keeps the 256 base strings and has no empty entry |
| LzwTable.TableSnoc | decompressor.py:38-41 | one more phrase adds the entry `w + entry[0]`, subject to the cap |
| LzwTable.TableLast | decompressor.py:40 | the table depends on the newest phrase only through its first symbol |
| LzwTable.TablePrefix | decompressor.py:38-41 | entries are never changed once added: the table of a prefix is a prefix of the table |
| LzwTable.TableCapMono | decompressor.py:39 | a decoder with a larger cap, or none, builds a table that extends the encoder's, and differs only when the encoder's has stopped growing |
| LzwDecoder.LzwDecompress | decompressor.py:7-44 | the decoder loop computes `Decode`: after each code its dictionary, `w` and `result` are the state `Run` gives, and it raises exactly where `Decode` fails |
| LzwDecoder.Step | decompressor.py:30-43 | one iteration succeeds if and only if `k <= dict_size`, otherwise raises "Bad compressed k"; it appends one piece and grows the table by one while below the cap |
| LzwDecoder.Run | decompressor.py:27-43 | after `n` codes the table holds `256 + n - 1` entries limited by the cap, `result` holds `n` pieces, and the first is the character of the first code |
| LzwDecoder.ErrorPersists | decompressor.py:29-35 | once a code raises, the decoding loop ends with that same error however many codes follow; `LzwDecoderFacts.DecodeRejects` speaks about the whole call |
| LzwDecoder.Reject | decompressor.py:34-35 | a code above the dictionary size after an accepted prefix ends the decoding loop with "Bad compressed k" for that code; the whole call raises it only when the first code passes `chr`, which `LzwDecoderFacts.DecodeRejects` states |
| LzwDecoder.Iteration | decompressor.py:30-43 | an accepted code's iteration reads the entry (or `w + w[0]`), appends it and adds `w + entry[0]` while below the cap |
| LzwDecoderFacts.RunOkIff | decompressor.py:29-35 | the loop finishes if and only if each code at index `j >= 1` is at most the dictionary size there |
| LzwDecoderFacts.DecodeOkIff | decompressor.py:27-35 | `lzw_decompress` returns if and only if the list is non-empty, the first code is a code point, and every later code is at most the dictionary size at its position |
| LzwDecoderFacts.DecodeRejects | decompressor.py:29-35 | the error is "Bad compressed k" for the first code too large |
| LzwDecoderFacts.RunTableBound | decompressor.py:39-41 | with a cap `M` the decoder's dictionary never exceeds `max(256, M)` entries |
| LzwDecoderFacts.DecodeEmpty | decompressor.py:27 | an empty code list raises (`pop(0)`) |
| LzwDecoderFacts.DecodeFirstTooLarge | decompressor.py:27 | a first code above U+10FFFF raises in `chr` |
| LzwDecoderFacts.DecodeShape | decompressor.py:27-44 | the decoded text has at least one symbol per code and starts with the first code's character |
| LzwRoundTrip.RoundTrip | decompressor.py:7-44 | for every non-empty text of symbols below 256, decompressing its codes gives back the text, for any bit length. This holds whenever the decoder's cap is at least the encoder's, in particular the same cap |
| LzwRoundTrip.EmptyRoundTrip | decompressor.py:27 | the empty text compresses to no codes, which the decoder rejects |
| LzwRoundTrip.DecodeParse | decompressor.py:27-44 | codes that parse a list of phrases decode to the phrases joined |
| LzwRoundTrip.DecodePrefix | decompressor.py:29-43 | after the first `n` codes the decoder holds the table of the first `n` phrases: it is in lock-step with the encoder |
| LzwRoundTrip.DecodeFirst | decompressor.py:27-28 | the first code is read as the first phrase |
| LzwRoundTrip.DecodeStep | decompressor.py:30-43 | the `n`-th code is read as the `n`-th phrase and the decoder adds the entry the encoder added |
| LzwRoundTrip.StepReads | decompressor.py:30-33 | the code the encoder defined last, not yet in the decoder's dictionary, is exactly `dict_size` and stands for `w + w[0]` |
| LzwRoundTrip.ReadAgrees | decompressor.py:30-33 | an old code names the same entry on both sides; the encoder's newest code is the decoder's next free code |
| LzwRoundTrip.TablesAgree | decompressor.py:39-41 | both tables grow by the same entry `w + entry[0]`, each subject to its own cap |
| BitPacking.SaveCompressed | TestCompressor.py:41-67 | the packing loop computes `Pack`: the bytes spell the codes MSB-first, or it raises `ValueError` for the first code above `(1 << b) - 1`; ManualCompressor.py:28-47 is the same code |
| BitPacking.FirstTooWide | TestCompressor.py:55-57 | the code reported is the first one that does not fit in `b` bits |
| BitPacking.PackRejects | TestCompressor.py:55-57 | a code above `(1 << b) - 1` with all earlier ones fitting makes packing raise for that code |
| BitPacking.PackOkIff | TestCompressor.py:52-57 | packing succeeds if and only if every code is at most `(1 << b) - 1` |
| BitPacking.PackLength | TestCompressor.py:58-67 | `n` codes give exactly `ceil(n * b / 8)` bytes: the code bits plus fewer than 8 padding bits |
| BitPacking.PackValue | TestCompressor.py:58-67 | the bytes read as one number equal the codes read as one number, followed by the zero padding bits |
| BitPacking.PackPadding | TestCompressor.py:65-67 | the low padding bits of the last byte are zero |
| BitPacking.PackEmpty | TestCompressor.py:54-67 | no codes give an empty file, and an empty file gives no codes |
| BitPacking.WriterTakes | TestCompressor.py:58-59 | shifting a code into the buffer keeps the writer invariant: bytes written and buffer bits spell the codes so far, `buffer < 2^bits_in_buffer` |
| BitPacking.WriterEmits | TestCompressor.py:60-64 | emitting the top 8 buffer bits as a byte (the `& 0xFF` changes nothing) and masking them off keeps the invariant |
| BitPacking.LastByte | TestCompressor.py:65-67 | the final partial byte carries the leftover bits in its high end and zeros below |
| BitPacking.WriterEnds | TestCompressor.py:65-67 | with fewer than 8 bits left, writing the final partial byte (if any) gives exactly `Pack` |
| BitPacking.ReadCompressed | decompressor.py:46-73 | the unpacking loop computes `Unpack`: the bytes as one number cut into `floor(8m / b)` `b`-bit codes, leftover low bits dropped |
| BitPacking.ReaderTakes | decompressor.py:65-66 | shifting a byte in keeps the reader invariant: codes read and buffer bits spell the bytes so far |
| BitPacking.ReaderEmits | decompressor.py:67-71 | extracting the top `b` buffer bits (the `& max_code` mask changes nothing) and masking them off keeps the invariant |
| BitPacking.ReaderEnds | decompressor.py:64-73 | with fewer than `b` bits left the codes read are `Unpack` of the whole file |
| BitPacking.UnpackShape | decompressor.py:63-72 | `m` bytes unpack into `floor(8m / b)` codes, each at most `(1 << b) - 1` |
| BitPacking.UnpackPack | decompressor.py:46-73 | unpacking packed codes gives the codes followed by `PadBits / b` zero codes |
| BitPacking.UnpackPackExact | decompressor.py:46-73 | for `b >= 8` unpacking packed codes gives exactly the codes: the padding never forms a code |
| Parameters.CheckParameters | TestCompressor.py:207-214 | the bit-length message exactly when `b` is outside `9 .. 24`; the cap message exactly when `b` is in range and a non-zero cap exceeds `2^b`; otherwise acceptance hands `b` on |
| Parameters.AcceptedCapFits | TestCompressor.py:212-214 | an accepted cap, whatever its sign, satisfies `max(256, M) <= 2^b` |
| Parameters.AcceptedParamsPackSafely | TestCompressor.py:207-214 | with accepted parameters and a cap, every text of symbols below 256 compresses and its codes pack without raising |
| DirNames.NatToDecimal | TestCompressor.py:82-84 | `str(n)` is a non-empty string of decimal digits |
| DirNames.OutputDirName | TestCompressor.py:82-84 | builds `"output_"` + `dict<M>` for a non-zero cap, else `nodictlimit`, + `_code<b>bit`; what it promises is stated by `ParseOutputDirNameOf` |
| DirNames.ManualOutputDirName | ManualCompressor.py:116 | builds `output_dict<M>_code<b>bit` for every cap; what it promises is stated by `ParseManualOutputDirNameOf` |
| DirNames.ParseOutputDirName | decompressor.py:89-96 | the `re.match` of the directory pattern, anchored at the start only, with `int()` of both fields; `None` is the "Cannot extract parameters" branch; its inverse property is `ParseOutputDirNameOf` |
| DirNames.ParseFields | decompressor.py:89-94 | the two alternatives after `output_`: `dict` with at least one digit, else `nodictlimit`; `None` for `nodictlimit` maps to no cap |
| DirNames.ParseCodeField | decompressor.py:89-96 | `_code`, the greedy digits and `bit`, read as `int()`; see `ParseCodeFieldOf` |
| DirNames.DecimalRoundTrip | decompressor.py:95-96 | `int(str(n)) == n` |
| DirNames.DigitRun | decompressor.py:89 | the greedy `\d+` takes the longest run of digits at the front |
| DirNames.DigitRunOf | decompressor.py:89 | digits followed by a non-digit are taken exactly |
| DirNames.ParseCodeFieldOf | decompressor.py:89-96 | `_code<b>bit` followed by anything reads as the bit length `b` |
| DirNames.ParseDictFields | decompressor.py:89-96 | `dict<M>_code<b>bit` followed by anything reads as the cap `M` and the bit length `b` |
| DirNames.ParseNoDictFields | decompressor.py:89-96 | `nodictlimit_code<b>bit` followed by anything reads as no cap and `b` |
| DirNames.DictNameIsManual | TestCompressor.py:82-84 | for a non-zero cap the test harness names the directory as the manual compressor does |
| DirNames.ParseNoDictLimitName | TestCompressor.py:82-84 | with no cap or the cap 0 the directory is `nodictlimit` and reads back as no cap |
| DirNames.ParseOutputDirNameOf | TestCompressor.py:82-84 | the parser inverts the builder: the bit length comes back, a positive cap comes back, no cap or 0 comes back as no cap, and a negative cap makes the name unreadable |
| DirNames.ParseManualOutputDirNameOf | ManualCompressor.py:116 | the manual compressor's name always has the `dict<M>` form; it reads back as `(M, b)` exactly when `M >= 0` |
| DirNames.ParseDictName | ManualCompressor.py:116 | `output_dict<M>_code<b>bit` for `M >= 0` reads back as `(M, b)` |
| DirNames.ParseNegativeName | decompressor.py:89-96 | `output_dict-<M>_code<b>bit` does not match the pattern |
| DirNames.DashNameUnreadable | decompressor.py:89-96 | no name beginning `output_dict-` matches the pattern: the minus sign is neither a digit nor the start of `nodictlimit` |
| Pipeline.CompressFile | TestCompressor.py:105-115 | one file through `compress_files`: `lzw_compress`, then `save_compressed_file` into the directory `OutputDirName` names; either raise is the error; see `FileRoundTrip` |
| Pipeline.ManualCompressFile | ManualCompressor.py:110-121 | one file through the manual compressor: the same codec into `ManualOutputDirName`; see `ManualFileRoundTrip` |
| Pipeline.DecompressFile | decompressor.py:89-105 | one file through `decompress_files`: an unparsable directory name is rejected, otherwise `read_compressed_file` then `lzw_decompress` with the parameters it names; see `FileRoundTrip` and `EmptyFile` |
| Pipeline.NameRecoversParameters | decompressor.py:89-96 | for a cap that is absent or not negative, the name gives back the bit length and a cap at least the compressor's |
| Pipeline.FileRoundTrip | decompressor.py:89-105 | a file the test harness wrote with `b >= 8` and a cap that is absent or not negative decompresses to its text |
| Pipeline.CheckedFileRoundTrip | TestCompressor.py:207-214 | with accepted parameters and a non-negative cap, writing never raises and the file decompresses to the text |
| Pipeline.ManualFileRoundTrip | ManualCompressor.py:102-121 | the manual compressor does no check; with `0 <= M <= 2^b` and `b >= 8` writing never raises and the file decompresses to the text |
| Pipeline.EmptyFile | decompressor.py:102-105 | an empty text gives an empty file, which decompression rejects (no codes, or an unreadable name for a negative cap) |
| Pipeline.NegativeCapUnreadable | decompressor.py:89-99 | the test harness lets a negative cap through, but the directory it names fails to parse, so every file in it is rejected |

## Left out

- The tkinter user interfaces, file dialogs and message boxes are not modelled. They are event handling, not codec logic.
- Reading and writing files, `os.makedirs` and `os.path.getsize` are not modelled. Texts and files are parameters: a text is a sequence of code points, a file a sequence of bytes.
- UTF-8 decoding of the input and encoding of the output are not modelled. The model works on code points directly.
- The compression ratio and performance percentages are not modelled. They are floating point.
- The Excel report (openpyxl), `retrieve.py` and `graphic.py` are not modelled. They are I/O and plotting over foreign libraries.
- Parsing of the UI's text fields by `int()` is not modelled. The parameters arrive as integers, with no cap as `None`.
- `int()` of a directory-name field and the `\d` pattern accept only ASCII digits here. Python's `re` and `int` also accept other Unicode decimal digits.
- The regex engine itself is not modelled. Its match for the one fixed pattern is written out by hand (`DirNames.ParseOutputDirName`), including the anchoring at the start only.
- `save_compressed_file` writes the bytes before the first bad code to the file and then raises. The model returns only the error (`BitPacking.SaveCompressed`).
- `lzw_decompress` removes the first code from the caller's list with `pop(0)`. The model does not capture that side effect on the caller's list.
- BitPacking.ReadCompressed: requires `b >= 1`, because with `b == 0` the inner loop of `read_compressed_file` never ends once it has read a byte. The requires also excludes the harmless case of `b == 0` with an empty file, where the source returns `[]`.
- Pipeline.DecompressFile: requires the same of a bit length read from the directory name, for the same reason.
- `save_compressed_file` with a negative bit length, where Python's shift raises, is not modelled: bit lengths are natural numbers.
- Parameters.AcceptedParamsPackSafely: covers only runs with a cap. With no cap the encoder's codes are unbounded and packing can raise for long enough texts. The parameter check does not prevent this. One witness: `b = 9`, no cap, and the 261-symbol text `[0, 1, …, 255, 0, 2, 0, 2, 5]`. Entry 512 = `[0, 2]` is added at the symbol with index 257 and emitted at the symbol with index 260, and `save_compressed_file` then raises at TestCompressor.py:56-57, although lines 207-214 accept these parameters. The witness is not stated as a lemma.
- The per-file loops of `compress_files` and `decompress_files`, and their exception handling, are not modelled as loops. A single file's path through them is modelled as `Pipeline.CompressFile` and `Pipeline.DecompressFile`.
