/** One file through the whole tool chain: the compressor encodes the text,
    packs the codes into `b`-bit fields and names the output directory
    after its parameters; the decompressor reads the parameters back from
    the directory name, unpacks the file and decodes it. */
module Pipeline {
  import opened Common
  import opened LzwTable
  import opened LzwEncoder
  import opened LzwDecoder
  import opened LzwRoundTrip
  import opened BitPacking
  import opened Parameters
  import opened DirNames

  /** The test harness's `compress_files` for one text: `lzw_compress`, then
      `save_compressed_file` into the directory the parameters name.  The
      pair is that directory's name and the file's bytes. */
  function CompressFile(text: seq<nat>, maxDictSize: Option<int>, codeBitLength: nat): (r: Result<(string, seq<Byte>)>)
  {
    match Encode(text, maxDictSize)
    case Err(e) => Err(e)
    case Ok(cs) =>
      match Pack(cs, codeBitLength)
      case Err(e) => Err(e)
      case Ok(bytes) => Ok((OutputDirName(maxDictSize, codeBitLength), bytes))
  }

  /** The manual compressor's button for one text: the same codec, and the
      directory named `output_dict<M>_code<b>bit`. */
  function ManualCompressFile(text: seq<nat>, maxDictSize: int, codeBitLength: nat): (r: Result<(string, seq<Byte>)>)
  {
    match Encode(text, Some(maxDictSize))
    case Err(e) => Err(e)
    case Ok(cs) =>
      match Pack(cs, codeBitLength)
      case Err(e) => Err(e)
      case Ok(bytes) => Ok((ManualOutputDirName(maxDictSize, codeBitLength), bytes))
  }

  /** `decompress_files` for one file in the directory `dirName`: a name
      the pattern does not match is "Cannot extract parameters"; otherwise
      `read_compressed_file` and `lzw_decompress` with the parameters it
      names.  A name with bit length 0 sends the unpacking loop into an
      endless loop, so it is excluded. */
  function DecompressFile(dirName: string, file: seq<Byte>): (r: Result<seq<nat>>)
    requires ParseOutputDirName(dirName).Some? ==> ParseOutputDirName(dirName).value.codeBitLength >= 1
  {
    match ParseOutputDirName(dirName)
    case None => Err(BadDirName(dirName))
    case Some(p) => Decode(Unpack(file, p.codeBitLength), p.codeBitLength, p.maxDictSize)
  }

  /** Whatever the directory name promises, the decoder's cap is at least the
      encoder's: the same cap, or no cap for a cap of 0. */
  lemma NameRecoversParameters(maxDictSize: Option<int>, b: nat)
    requires maxDictSize.None? || maxDictSize.value >= 0
    ensures ParseOutputDirName(OutputDirName(maxDictSize, b)).Some?
    ensures ParseOutputDirName(OutputDirName(maxDictSize, b)).value.codeBitLength == b
    ensures CapAtLeast(ParseOutputDirName(OutputDirName(maxDictSize, b)).value.maxDictSize, maxDictSize)
  {
    ParseOutputDirNameOf(maxDictSize, b);
  }

  /** A file the test harness managed to write, with at least 8 bits per
      code and a cap that is absent or not negative, decompresses to the
      text it came from. */
  lemma FileRoundTrip(text: seq<nat>, maxDictSize: Option<int>, b: nat)
    requires text != [] && AllBelow(text, AlphabetSize) && b >= 8
    requires maxDictSize.None? || maxDictSize.value >= 0
    requires CompressFile(text, maxDictSize, b).Ok?
    ensures CompressFile(text, maxDictSize, b).value.0 == OutputDirName(maxDictSize, b)
    ensures ParseOutputDirName(OutputDirName(maxDictSize, b)).Some?
    ensures ParseOutputDirName(OutputDirName(maxDictSize, b)).value.codeBitLength == b
    ensures DecompressFile(CompressFile(text, maxDictSize, b).value.0, CompressFile(text, maxDictSize, b).value.1) == Ok(text)
  {
    var cs := Encode(text, maxDictSize).value;
    NameRecoversParameters(maxDictSize, b);
    var p := ParseOutputDirName(OutputDirName(maxDictSize, b)).value;
    UnpackPackExact(cs, b);
    RoundTrip(text, maxDictSize, p.maxDictSize, b);
  }

  /** With parameters the harness accepts and a cap that is not negative,
      writing never fails and the file decompresses to the text. */
  lemma CheckedFileRoundTrip(text: seq<nat>, maxDictSize: int, codeBitLength: int)
    requires text != [] && AllBelow(text, AlphabetSize) && maxDictSize >= 0
    requires CheckParameters(codeBitLength, Some(maxDictSize)).Ok?
    ensures CompressFile(text, Some(maxDictSize), codeBitLength).Ok?
    ensures CompressFile(text, Some(maxDictSize), codeBitLength).value.0 == OutputDirName(Some(maxDictSize), codeBitLength)
    ensures ParseOutputDirName(OutputDirName(Some(maxDictSize), codeBitLength)) == Some(DirParams(if maxDictSize == 0 then None else Some(maxDictSize), codeBitLength))
    ensures var (name, file) := CompressFile(text, Some(maxDictSize), codeBitLength).value;
            DecompressFile(name, file) == Ok(text)
  {
    AcceptedParamsPackSafely(text, codeBitLength, maxDictSize);
    ParseOutputDirNameOf(Some(maxDictSize), codeBitLength);
    FileRoundTrip(text, Some(maxDictSize), codeBitLength);
  }

  /** The manual compressor performs no parameter check; a cap of at most
      `2^b` and at least 8 bits per code keep every code packable, and the
      file then decompresses to the text. */
  lemma ManualFileRoundTrip(text: seq<nat>, maxDictSize: int, b: nat)
    requires text != [] && AllBelow(text, AlphabetSize) && b >= 8
    requires 0 <= maxDictSize <= Pow2(b)
    ensures ManualCompressFile(text, maxDictSize, b).Ok?
    ensures ManualCompressFile(text, maxDictSize, b).value.0 == ManualOutputDirName(maxDictSize, b)
    ensures ParseOutputDirName(ManualOutputDirName(maxDictSize, b)) == Some(DirParams(Some(maxDictSize), b))
    ensures var (name, file) := ManualCompressFile(text, maxDictSize, b).value;
            DecompressFile(name, file) == Ok(text)
  {
    var cs := EncodeAll(text, Some(maxDictSize));
    Positional.Pow2Byte();
    Pow2Mono(8, b);
    AllBelowMono(cs, Max(AlphabetSize, maxDictSize), Pow2(b));
    ParseManualOutputDirNameOf(maxDictSize, b);
    UnpackPackExact(cs, b);
    RoundTrip(text, Some(maxDictSize), Some(maxDictSize), b);
  }

  /** The codes of a text over the 256 initial symbols, all below
      `max(256, M)`. */
  lemma EncodeAll(text: seq<nat>, cap: Option<int>) returns (cs: seq<nat>)
    requires AllBelow(text, AlphabetSize) && cap.Some?
    ensures Encode(text, cap) == Ok(cs) && AllBelow(cs, Max(AlphabetSize, cap.value))
  {
    LzwEncoderFacts.EncodeOkIff(text, cap);
    LzwEncoderFacts.EncodeWithinCap(text, cap.value);
    cs := Encode(text, cap).value;
  }

  /** An empty text is written as an empty file, which the decompressor
      rejects: `pop(0)` on no codes, or no match for a negative cap. */
  lemma EmptyFile(maxDictSize: Option<int>, b: nat)
    requires b >= 1
    ensures CompressFile([], maxDictSize, b) == Ok((OutputDirName(maxDictSize, b), []))
    ensures ParseOutputDirName(OutputDirName(maxDictSize, b)) ==
            if maxDictSize.Some? && maxDictSize.value < 0 then None
            else Some(DirParams(if maxDictSize.Some? && maxDictSize.value != 0 then maxDictSize else None, b))
    ensures DecompressFile(OutputDirName(maxDictSize, b), []) ==
            if maxDictSize.Some? && maxDictSize.value < 0 then Err(BadDirName(OutputDirName(maxDictSize, b)))
            else Err(EmptyCodeList)
  {
    LzwRoundTrip.EmptyRoundTrip(maxDictSize, None, b);
    PackEmpty(b);
    ParseOutputDirNameOf(maxDictSize, b);
  }

  /** The harness's check lets a negative cap through, but the directory it
      names cannot be read back: every file in it is rejected. */
  lemma NegativeCapUnreadable(m: int, b: nat, file: seq<Byte>)
    requires m < 0
    ensures ParseOutputDirName(OutputDirName(Some(m), b)) == None
    ensures DecompressFile(OutputDirName(Some(m), b), file) == Err(BadDirName(OutputDirName(Some(m), b)))
  {
    ParseOutputDirNameOf(Some(m), b);
  }
}
