/** The compressed file format.  `save_compressed_file` (TestCompressor.py,
    and its copy in ManualCompressor.py, which differs only in comments and
    the wording of the `ValueError` message) writes every code as
    `code_bit_length` bits, most significant bit first, and fills the last
    byte with zero bits; `read_compressed_file` (decompressor.py) cuts the
    bytes back into codes.  The file's contents are a value here: the writer
    returns the bytes and the reader takes them.

    Python's shifts and masks act on non-negative integers and are written
    as arithmetic: `x << k` is `x * Pow2(k)`, `x >> k` is `x / Pow2(k)`,
    `x & ((1 << k) - 1)` is `x % Pow2(k)`, and `(x << k) | y` with
    `y < Pow2(k)` is `x * Pow2(k) + y`. */
module BitPacking {
  import opened Common
  import opened Positional

  type Byte = x: nat | x < 256

  /** The zero bits that fill the last byte. */
  function PadBits(n: nat, b: nat): (r: nat)
  {
    (8 - (n * b) % 8) % 8
  }

  /** The bytes needed for `n` codes of `b` bits. */
  function ByteCount(n: nat, b: nat): (r: nat)
  {
    (n * b + 7) / 8
  }

  /** The first code that does not fit in `b` bits. */
  function FirstTooWide(cs: seq<nat>, b: nat): (i: nat)
    requires !AllBelow(cs, Pow2(b))
    ensures i < |cs| && cs[i] >= Pow2(b) && AllBelow(cs[..i], Pow2(b))
  {
    if cs[0] >= Pow2(b) then 0
    else
      var i := FirstTooWide(cs[1..], b);
      assert cs[..i + 1] == [cs[0]] + cs[1..][..i];
      i + 1
  }

  /** The file `save_compressed_file(codes, b)` writes: the codes as one
      number of `|cs| * b` bits, zero bits to the byte boundary, cut into
      bytes; or the ValueError for the first code above `(1 << b) - 1`. */
  function Pack(cs: seq<nat>, b: nat): (r: Result<seq<Byte>>)
  {
    if !AllBelow(cs, Pow2(b)) then Err(CodeTooWide(cs[FirstTooWide(cs, b)], b))
    else
      Pow2Byte();
      Ok(Digits(Value(cs, b) * Pow2(PadBits(|cs|, b)), ByteCount(|cs|, b), 8))
  }

  /** The codes `read_compressed_file(bytes, b)` returns: the bytes as one
      number, cut into as many `b`-bit codes as fit, the leftover low bits
      dropped.  With `b == 0` the Python loop never ends. */
  function Unpack(bytes: seq<Byte>, b: nat): (r: seq<nat>)
    requires b >= 1
  {
    Digits(Value(bytes, 8) / Pow2((8 * |bytes|) % b), (8 * |bytes|) / b, b)
  }

  // ---------------------------------------------------------------- writer

  /** The ValueError names the first code that is too wide. */
  lemma PackRejects(cs: seq<nat>, b: nat, i: nat)
    requires i < |cs| && cs[i] > Pow2(b) - 1 && AllBelow(cs[..i], Pow2(b))
    ensures Pack(cs, b) == Err(CodeTooWide(cs[i], b))
  {
    assert !AllBelow(cs, Pow2(b));
    var j := FirstTooWide(cs, b);
    forall t | 0 <= t < i ensures cs[t] < Pow2(b) {
      assert cs[..i][t] == cs[t];
    }
    forall t | 0 <= t < j ensures cs[t] < Pow2(b) {
      assert cs[..j][t] == cs[t];
    }
  }

  /** Writing succeeds exactly when every code fits in `b` bits. */
  lemma PackOkIff(cs: seq<nat>, b: nat)
    ensures Pack(cs, b).Ok? <==> forall i :: 0 <= i < |cs| ==> cs[i] <= Pow2(b) - 1
  {
  }

  /** `Pack` on codes that fit. */
  lemma PackIs(cs: seq<nat>, b: nat)
    requires Pack(cs, b).Ok?
    ensures AllBelow(cs, Pow2(b))
    ensures Pack(cs, b).value == Digits(Value(cs, b) * Pow2(PadBits(|cs|, b)), ByteCount(|cs|, b), 8)
  {
  }

  /** Rounding `t` bits up to whole bytes adds fewer than 8 bits. */
  lemma CeilBytes(t: nat, n: nat, b: nat)
    requires t == n * b
    ensures 8 * ByteCount(n, b) == t + PadBits(n, b) && PadBits(n, b) < 8
  {
  }

  /** The file holds `ceil(|cs| * b / 8)` bytes: the code bits and fewer
      than 8 padding bits. */
  lemma PackLength(cs: seq<nat>, b: nat)
    requires Pack(cs, b).Ok?
    ensures |Pack(cs, b).value| == (|cs| * b + 7) / 8
    ensures 8 * |Pack(cs, b).value| == |cs| * b + PadBits(|cs|, b)
    ensures PadBits(|cs|, b) < 8
  {
    MulNat(|cs|, b);
    PackIs(cs, b);
    CeilBytes(|cs| * b, |cs|, b);
  }

  /** The bytes spell the codes followed by zero padding bits. */
  lemma PackValue(cs: seq<nat>, b: nat)
    requires Pack(cs, b).Ok?
    ensures Value(Pack(cs, b).value, 8) == Value(cs, b) * Pow2(PadBits(|cs|, b))
  {
    PackIs(cs, b);
    var n, pad, m := |cs|, PadBits(|cs|, b), ByteCount(|cs|, b);
    MulNat(n, b);
    CeilBytes(n * b, n, b);
    var v := Value(cs, b);
    ValueBound(cs, b);
    MulLt(v, Pow2(n * b), Pow2(pad));
    Pow2Sum(n * b, pad, m * 8);
    MulNat(v, Pow2(pad));
    DigitsExact(v * Pow2(pad), m, 8);
  }

  /** The last byte ends in the padding: its low `PadBits` bits are zero. */
  lemma PackPadding(cs: seq<nat>, b: nat)
    requires Pack(cs, b).Ok? && Pack(cs, b).value != []
    ensures Pack(cs, b).value[|Pack(cs, b).value| - 1] % Pow2(PadBits(|cs|, b)) == 0
  {
    var bytes := Pack(cs, b).value;
    var init, last := bytes[..|bytes| - 1], bytes[|bytes| - 1];
    assert bytes == init + [last];
    ValueSnoc(init, 8, last);
    PackValue(cs, b);
    PackLength(cs, b);
    var pad := PadBits(|cs|, b);
    Pow2Byte();
    Pow2Sum(pad, 8 - pad, 8);
    FactorOut(last, Value(init, 8), Value(cs, b), Pow2(pad), Pow2(8 - pad));
    DivModUnique(last, Pow2(pad), Value(cs, b) - Value(init, 8) * Pow2(8 - pad), 0);
  }

  /** `i * (c * p) + last == v * p` leaves `last` a multiple of `p`. */
  lemma FactorOut(last: int, i: int, v: int, p: int, c: int)
    requires i * (c * p) + last == v * p
    ensures last == (v - i * c) * p
  {
    assert (v - i * c) * p == v * p - (i * c) * p;
    MulAssoc(i, c, p);
  }

  /** No codes make an empty file, and an empty file holds no codes. */
  lemma PackEmpty(b: nat)
    requires b >= 1
    ensures Pack([], b) == Ok([]) && Unpack([], b) == []
  {
    assert ByteCount(0, b) == 0;
  }

  /** `v < p` scales to `v * c < p * c`. */
  lemma MulLt(v: nat, p: nat, c: nat)
    requires v < p && c >= 1
    ensures v * c < p * c
  {
    MulLe(v + 1, p, c);
  }

  // ---------------------------------------------------------------- reader

  /** `n` codes and `pad` more bits hold `n + pad / b` whole codes and
      `pad % b` leftover bits. */
  lemma CountSplit(total: nat, n: nat, b: nat, pad: nat)
    requires b >= 1 && total == n * b + pad
    ensures total / b == n + pad / b && total % b == pad % b
  {
    DivMod(pad, b);
    assert (n + pad / b) * b == n * b + pad / b * b;
    DivModUnique(total, b, n + pad / b, pad % b);
  }

  /** Reading the file back gives the codes, followed by the zero codes that
      fit in the padding bits: none when `b >= 8`. */
  lemma UnpackPack(cs: seq<nat>, b: nat)
    requires b >= 1 && Pack(cs, b).Ok?
    ensures Unpack(Pack(cs, b).value, b) == cs + Zeros(PadBits(|cs|, b) / b)
  {
    var bytes := Pack(cs, b).value;
    var n, pad, v := |cs|, PadBits(|cs|, b), Value(cs, b);
    PackLength(cs, b);
    PackValue(cs, b);
    PackIs(cs, b);
    MulNat(n, b);
    CountSplit(8 * |bytes|, n, b, pad);
    DivMod(pad, b);
    var z, rest := pad / b, pad % b;
    MulNat(z, b);
    ShiftDown(v, z * b, rest, pad);
    DigitsShift(v, n, z, b);
    DigitsOfValue(cs, b);
  }

  /** With codes of at least 8 bits the file reads back to exactly the
      codes. */
  lemma UnpackPackExact(cs: seq<nat>, b: nat)
    requires b >= 8 && Pack(cs, b).Ok?
    ensures Unpack(Pack(cs, b).value, b) == cs
  {
    UnpackPack(cs, b);
    PackLength(cs, b);
    assert Zeros(PadBits(|cs|, b) / b) == [];
  }

  /** Every code read fits in `b` bits, and `8 * |bytes| / b` of them are
      read. */
  lemma UnpackShape(bytes: seq<Byte>, b: nat)
    requires b >= 1
    ensures |Unpack(bytes, b)| == (8 * |bytes|) / b
    ensures forall i :: 0 <= i < |Unpack(bytes, b)| ==> Unpack(bytes, b)[i] < Pow2(b)
  {
  }

  // ---------------------------------------------------------------- the loops

  /** The writer's state after some codes: the bytes written so far and the
      `bits` pending bits of `buffer` spell the codes read so far. */
  ghost predicate WriterInv(done: seq<nat>, b: nat, file: seq<Byte>, bits: nat, buffer: nat)
  {
    && Value(file, 8) * Pow2(bits) + buffer == Value(done, b)
    && buffer < Pow2(bits)
    && 8 * |file| + bits == |done| * b
  }

  /** `buffer = (buffer << b) | code; bits_in_buffer += b`. */
  lemma WriterTakes(done: seq<nat>, b: nat, file: seq<Byte>, bits: nat, buffer: nat, code: nat)
    requires WriterInv(done, b, file, bits, buffer) && code < Pow2(b)
    ensures 0 <= buffer * Pow2(b)
    ensures WriterInv(done + [code], b, file, bits + b, buffer * Pow2(b) + code)
  {
    MulNat(buffer, Pow2(b));
    ShiftIn(Value(file, 8), bits, buffer, b, code);
    ValueSnoc(done, b, code);
    MulPred(|done| + 1, b);
  }

  /** Writing the byte `(buffer >> bits_in_buffer) & 0xFF` and keeping the
      low bits. */
  lemma WriterEmits(done: seq<nat>, b: nat, file: seq<Byte>, bits: nat, buffer: nat)
    requires WriterInv(done, b, file, bits + 8, buffer)
    ensures 0 <= buffer / Pow2(bits) < 256 && 0 <= buffer % Pow2(bits)
    ensures (buffer / Pow2(bits)) % 256 == buffer / Pow2(bits)
    ensures WriterInv(done, b, file + [buffer / Pow2(bits)], bits, buffer % Pow2(bits))
  {
    Pow2Byte();
    TopDigit(file, 8, bits, buffer, Value(done, b));
    ModSmall(buffer / Pow2(bits), 256);
  }

  /** The padding once `8 * |file| + bits` code bits are written. */
  lemma PadOf(t: nat, n: nat, b: nat, f: nat, bits: nat)
    requires t == n * b && t == 8 * f + bits && bits < 8
    ensures PadBits(n, b) == if bits > 0 then 8 - bits else 0
    ensures ByteCount(n, b) == if bits > 0 then f + 1 else f
  {
  }

  /** The last, partly filled byte `(buffer << (8 - bits)) & 0xFF`. */
  lemma LastByte(file: seq<Byte>, bits: nat, buffer: nat, total: nat)
    requires 0 < bits < 8 && buffer < Pow2(bits) && Value(file, 8) * Pow2(bits) + buffer == total
    ensures 0 <= buffer * Pow2(8 - bits) < 256
    ensures (buffer * Pow2(8 - bits)) % 256 == buffer * Pow2(8 - bits)
    ensures Value(file + [buffer * Pow2(8 - bits)], 8) == total * Pow2(8 - bits)
  {
    Pow2Byte();
    MulNat(buffer, Pow2(8 - bits));
    ShiftIn(Value(file, 8), bits, buffer, 8 - bits, 0);
    ModSmall(buffer * Pow2(8 - bits), 256);
    ValueSnoc(file, 8, buffer * Pow2(8 - bits));
  }

  /** After the last code the pending bits, padded, end the file, and the
      whole file is `Pack`. */
  lemma WriterEnds(cs: seq<nat>, b: nat, file: seq<Byte>, bits: nat, buffer: nat)
    requires WriterInv(cs, b, file, bits, buffer) && bits < 8 && AllBelow(cs, Pow2(b))
    ensures bits > 0 ==> buffer * Pow2(8 - bits) < 256
    ensures Pack(cs, b) ==
            Ok(if bits > 0 then file + [(buffer * Pow2(8 - bits)) % 256] else file)
  {
    Pow2Byte();
    var n := |cs|;
    MulNat(n, b);
    PadOf(n * b, n, b, |file|, bits);
    var out: seq<Byte>;
    if bits > 0 {
      LastByte(file, bits, buffer, Value(cs, b));
      out := file + [buffer * Pow2(8 - bits)];
    } else {
      out := file;
    }
    assert Value(out, 8) == Value(cs, b) * Pow2(PadBits(n, b));
    DigitsOfValue(out, 8);
  }

  /** `save_compressed_file(filename, compressed_data, code_bit_length)`,
      returning the bytes it writes. */
  method SaveCompressed(compressedData: seq<nat>, codeBitLength: nat) returns (r: Result<seq<Byte>>)
    ensures r == Pack(compressedData, codeBitLength)
  {
    var buffer: nat := 0;
    var bitsInBuffer: nat := 0;
    var maxCode: int := Pow2(codeBitLength) - 1;
    var file: seq<Byte> := [];
    for i := 0 to |compressedData|
      invariant WriterInv(compressedData[..i], codeBitLength, file, bitsInBuffer, buffer)
      invariant bitsInBuffer < 8 && AllBelow(compressedData[..i], Pow2(codeBitLength))
    {
      var code := compressedData[i];
      assert compressedData[..i + 1] == compressedData[..i] + [code];
      if code > maxCode {
        PackRejects(compressedData, codeBitLength, i);
        return Err(CodeTooWide(code, codeBitLength));
      }
      WriterTakes(compressedData[..i], codeBitLength, file, bitsInBuffer, buffer, code);
      MulNat(buffer, Pow2(codeBitLength));
      buffer := buffer * Pow2(codeBitLength) + code;
      bitsInBuffer := bitsInBuffer + codeBitLength;
      while bitsInBuffer >= 8
        invariant WriterInv(compressedData[..i + 1], codeBitLength, file, bitsInBuffer, buffer)
        decreases bitsInBuffer
      {
        bitsInBuffer := bitsInBuffer - 8;
        WriterEmits(compressedData[..i + 1], codeBitLength, file, bitsInBuffer, buffer);
        DivMod(buffer, Pow2(bitsInBuffer));
        var byte := (buffer / Pow2(bitsInBuffer)) % 256;
        file := file + [byte];
        buffer := buffer % Pow2(bitsInBuffer);
      }
    }
    assert compressedData[..|compressedData|] == compressedData;
    WriterEnds(compressedData, codeBitLength, file, bitsInBuffer, buffer);
    if bitsInBuffer > 0 {
      MulNat(buffer, Pow2(8 - bitsInBuffer));
      var byte := (buffer * Pow2(8 - bitsInBuffer)) % 256;
      file := file + [byte];
    }
    return Ok(file);
  }

  /** The reader's state after some bytes: the codes cut so far and the
      `bits` pending bits of `buffer` spell the bytes read so far. */
  ghost predicate ReaderInv(read: seq<Byte>, b: nat, codes: seq<nat>, bits: nat, buffer: nat)
  {
    && Value(codes, b) * Pow2(bits) + buffer == Value(read, 8)
    && buffer < Pow2(bits)
    && |codes| * b + bits == 8 * |read|
    && AllBelow(codes, Pow2(b))
  }

  /** `buffer = (buffer << 8) | ord(byte); bits_in_buffer += 8`. */
  lemma ReaderTakes(read: seq<Byte>, b: nat, codes: seq<nat>, bits: nat, buffer: nat, byte: Byte)
    requires ReaderInv(read, b, codes, bits, buffer)
    ensures ReaderInv(read + [byte], b, codes, bits + 8, buffer * 256 + byte)
  {
    Pow2Byte();
    ShiftIn(Value(codes, b), bits, buffer, 8, byte);
    ValueSnoc(read, 8, byte);
  }

  /** Cutting the code `(buffer >> bits_in_buffer) & max_code` and keeping
      the low bits. */
  lemma ReaderEmits(read: seq<Byte>, b: nat, codes: seq<nat>, bits: nat, buffer: nat)
    requires ReaderInv(read, b, codes, bits + b, buffer)
    ensures (buffer / Pow2(bits)) % Pow2(b) == buffer / Pow2(bits)
    ensures ReaderInv(read, b, codes + [buffer / Pow2(bits)], bits, buffer % Pow2(bits))
  {
    TopDigit(codes, b, bits, buffer, Value(read, 8));
    var code: nat := buffer / Pow2(bits);
    ModSmall(code, Pow2(b));
    MulPred(|codes| + 1, b);
    AllBelowSnoc(codes, code, Pow2(b));
  }

  /** Once every byte is read, the codes cut are `Unpack`. */
  lemma ReaderEnds(bytes: seq<Byte>, b: nat, codes: seq<nat>, bits: nat, buffer: nat)
    requires b >= 1 && ReaderInv(bytes, b, codes, bits, buffer) && bits < b
    ensures codes == Unpack(bytes, b)
  {
    DivModUnique(8 * |bytes|, b, |codes|, bits);
    DivModUnique(Value(bytes, 8), Pow2(bits), Value(codes, b), buffer);
    DigitsOfValue(codes, b);
  }

  /** `read_compressed_file(filename, code_bit_length)`, reading the bytes
      given. */
  method ReadCompressed(file: seq<Byte>, codeBitLength: nat) returns (compressedData: seq<nat>)
    requires codeBitLength >= 1
    ensures compressedData == Unpack(file, codeBitLength)
  {
    compressedData := [];
    var bitsInBuffer: nat := 0;
    var buffer: nat := 0;
    var maxCode: nat := Pow2(codeBitLength) - 1;
    for i := 0 to |file|
      invariant ReaderInv(file[..i], codeBitLength, compressedData, bitsInBuffer, buffer)
      invariant bitsInBuffer < codeBitLength
    {
      var byte := file[i];
      assert file[..i + 1] == file[..i] + [byte];
      ReaderTakes(file[..i], codeBitLength, compressedData, bitsInBuffer, buffer, byte);
      buffer := buffer * 256 + byte;
      bitsInBuffer := bitsInBuffer + 8;
      while bitsInBuffer >= codeBitLength
        invariant ReaderInv(file[..i + 1], codeBitLength, compressedData, bitsInBuffer, buffer)
        decreases bitsInBuffer
      {
        bitsInBuffer := bitsInBuffer - codeBitLength;
        var shift: nat := Pow2(bitsInBuffer);
        ReaderEmits(file[..i + 1], codeBitLength, compressedData, bitsInBuffer, buffer);
        DivMod(buffer, shift);
        var code: nat := (buffer / shift) % (maxCode + 1);
        compressedData := compressedData + [code];
        buffer := buffer % shift;
      }
    }
    assert file[..|file|] == file;
    ReaderEnds(file, codeBitLength, compressedData, bitsInBuffer, buffer);
  }
}
