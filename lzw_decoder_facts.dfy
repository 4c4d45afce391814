/** What `lzw_decompress` guarantees: exactly which code lists it accepts,
    which error it raises for the others, and the shape of its output. */
module LzwDecoderFacts {
  import opened Common
  import opened LzwTable
  import opened LzwDecoder

  /** The codes after the first are accepted exactly when each is at most
      the dictionary size at its position: the code at index `j` is read
      after `j - 1` growth attempts. */
  lemma {:induction false} RunOkIff(codes: seq<nat>, n: nat, cap: Option<int>)
    requires 1 <= n <= |codes|
    ensures Run(codes, n, cap).Ok? <==> forall j :: 1 <= j < n ==> codes[j] <= Capacity(j - 1, cap)
    decreases n
  {
    if n > 1 {
      RunOkIff(codes, n - 1, cap);
    }
  }

  /** `lzw_decompress` returns exactly when the list is non-empty, its first
      code is a code point, and every later code is at most the size of the
      dictionary at that point. */
  lemma DecodeOkIff(codes: seq<nat>, codeBitLength: nat, cap: Option<int>)
    ensures Decode(codes, codeBitLength, cap).Ok? <==>
      && codes != []
      && codes[0] <= MaxCodePoint
      && forall j :: 1 <= j < |codes| ==> codes[j] <= Capacity(j - 1, cap)
  {
    if codes != [] {
      RunOkIff(codes, |codes|, cap);
    }
  }

  /** Which exception `lzw_decompress` raises once the first code is a code
      point: "Bad compressed k" for the first later code that is too large. */
  lemma DecodeRejects(codes: seq<nat>, codeBitLength: nat, cap: Option<int>, j: nat)
    requires codes != [] && codes[0] <= MaxCodePoint
    requires 1 <= j < |codes| && codes[j] > Capacity(j - 1, cap)
    requires forall i :: 1 <= i < j ==> codes[i] <= Capacity(i - 1, cap)
    ensures Decode(codes, codeBitLength, cap) == Err(BadCode(codes[j]))
  {
    RunOkIff(codes, j, cap);
    Reject(codes, j, cap, Run(codes, j, cap).value);
  }

  /** The dictionary holds `256 + n - 1` entries after `n` codes, one more per
      code while below the cap, and never more than `max(256, M)`. */
  lemma RunTableBound(codes: seq<nat>, n: nat, m: int)
    requires 1 <= n <= |codes| && Run(codes, n, Some(m)).Ok?
    ensures AlphabetSize <= |Run(codes, n, Some(m)).value.table| <= Max(AlphabetSize, m)
  {
    CapacityBound(n - 1, m);
  }

  lemma DecodeEmpty(codeBitLength: nat, cap: Option<int>)
    ensures Decode([], codeBitLength, cap) == Err(EmptyCodeList)
  {
  }

  lemma DecodeFirstTooLarge(codes: seq<nat>, codeBitLength: nat, cap: Option<int>)
    requires codes != [] && codes[0] > MaxCodePoint
    ensures Decode(codes, codeBitLength, cap) == Err(CharOutOfRange(codes[0]))
  {
  }

  /** The decoded text is at least one symbol per code and starts with the
      character of the first code. */
  lemma DecodeShape(codes: seq<nat>, codeBitLength: nat, cap: Option<int>)
    requires Decode(codes, codeBitLength, cap).Ok?
    ensures var text := Decode(codes, codeBitLength, cap).value;
            |codes| <= |text| && text[0] == codes[0]
  {
    var st := Run(codes, |codes|, cap).value;
    assert |st.result| == |codes|;
    PhrasesLength(st.result);
    ConcatPrefix(st.result, 1);
    assert st.result[..1] == [[codes[0]]];
    assert Concat([[codes[0]]]) == Concat([]) + [codes[0]];
  }

  /** Concatenating a prefix of the pieces gives a prefix of the text. */
  lemma {:induction false} ConcatPrefix(ss: seq<seq<nat>>, k: nat)
    requires k <= |ss|
    ensures Concat(ss[..k]) <= Concat(ss)
    decreases |ss|
  {
    if k < |ss| {
      var init := ss[..|ss| - 1];
      assert init[..k] == ss[..k];
      ConcatPrefix(init, k);
    } else {
      assert ss[..k] == ss;
    }
  }
}
