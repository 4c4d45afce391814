/** The parameter check the test harness's compress button runs before it
    compresses anything (TestCompressor.py): the bit length must lie in
    9 .. 24, and a non-zero cap may not exceed `2^bits`.  Together they make
    every code the encoder can emit fit the packer's width. */
module Parameters {
  import opened Common
  import opened Positional
  import LzwEncoder
  import opened LzwEncoderFacts
  import opened BitPacking

  const MinCodeBitLength: nat := 9
  const MaxCodeBitLength: nat := 24

  /** The two checks, in the order the harness makes them.  A cap of `0`
      and no cap both skip the second check (Python's `if max_dict_size`).
      On success the bit length is handed on as a natural number. */
  function CheckParameters(codeBitLength: int, maxDictSize: Option<int>): (r: Result<nat>)
    ensures r.Ok? ==> r.value == codeBitLength && MinCodeBitLength <= r.value <= MaxCodeBitLength
    ensures r == Err(InvalidCodeBitLength) <==>
              !(MinCodeBitLength <= codeBitLength <= MaxCodeBitLength)
    ensures r == Err(DictTooLarge) <==>
              MinCodeBitLength <= codeBitLength <= MaxCodeBitLength &&
              maxDictSize.Some? && maxDictSize.value != 0 && maxDictSize.value > Pow2(codeBitLength)
    ensures r.Err? ==> r.error == InvalidCodeBitLength || r.error == DictTooLarge
  {
    if codeBitLength < MinCodeBitLength as int || codeBitLength > MaxCodeBitLength as int then
      Err(InvalidCodeBitLength)
    else if maxDictSize.Some? && maxDictSize.value != 0 && maxDictSize.value > Pow2(codeBitLength) then
      Err(DictTooLarge)
    else
      Ok(codeBitLength)
  }

  /** An accepted cap, whatever its sign, leaves room for the 256 initial
      codes and never more than `2^bits` codes. */
  lemma AcceptedCapFits(codeBitLength: int, m: int)
    requires CheckParameters(codeBitLength, Some(m)).Ok?
    ensures Max(LzwTable.AlphabetSize, m) <= Pow2(codeBitLength)
  {
    Pow2Byte();
    assert Pow2(9) == 512;
    Pow2Mono(9, codeBitLength);
  }

  /** With accepted parameters and a cap, compressing any text over the 256
      initial symbols succeeds, and packing its codes into `bits`-bit fields
      cannot raise. */
  lemma AcceptedParamsPackSafely(s: seq<nat>, codeBitLength: int, m: int)
    requires AllBelow(s, LzwTable.AlphabetSize)
    requires CheckParameters(codeBitLength, Some(m)).Ok?
    ensures LzwEncoder.Encode(s, Some(m)).Ok?
    ensures Pack(LzwEncoder.Encode(s, Some(m)).value, codeBitLength).Ok?
  {
    EncodeOkIff(s, Some(m));
    EncodeWithinCap(s, m);
    AcceptedCapFits(codeBitLength, m);
    AllBelowMono(LzwEncoder.Encode(s, Some(m)).value, Max(LzwTable.AlphabetSize, m), Pow2(codeBitLength));
  }
}
