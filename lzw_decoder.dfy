/** The LZW decoder `lzw_decompress` (decompressor.py).  `Run` is the state
    after each code of the `for k in compressed_data` loop that follows the
    first code, `Decode` is the whole function, and the method
    `LzwDecompress` is the loop itself, proved to compute `Decode`. */
module LzwDecoder {
  import opened Common
  import opened LzwTable

  /** The largest code point `chr` accepts. */
  const MaxCodePoint: nat := 0x10FFFF

  /** The loop state: the dictionary as a table indexed by code (its keys are
      always exactly `0 .. dict_size - 1`, so `k in dictionary` is
      `k < |table|`), the previous entry `w` and `result`. */
  datatype DecState = DecState(table: seq<seq<nat>>, w: seq<nat>, result: seq<seq<nat>>)

  /** What every reachable state satisfies: `w` and every table entry are
      non-empty (so `w[0]` and `entry[0]` are defined), and `w` is the last
      piece of the output. */
  ghost predicate Valid(st: DecState)
  {
    && |st.table| >= AlphabetSize
    && (forall i :: 0 <= i < |st.table| ==> st.table[i] != [])
    && st.w != []
    && st.result != [] && st.result[|st.result| - 1] == st.w
    && (forall j :: 0 <= j < |st.result| ==> st.result[j] != [])
  }

  /** One loop iteration for the code `k`: a known code, the code about to be
      defined (`w + w[0]`), or "Bad compressed k". */
  function Step(st: DecState, k: nat, cap: Option<int>): (r: Result<DecState>)
    requires Valid(st)
    ensures r.Ok? <==> k <= |st.table|
    ensures r.Err? ==> r.error == BadCode(k)
    ensures r.Ok? ==> Valid(r.value) && |r.value.result| == |st.result| + 1
    ensures r.Ok? ==> |r.value.table| == if Grow(|st.table|, cap) then |st.table| + 1 else |st.table|
  {
    if k > |st.table| then Err(BadCode(k))
    else
      var entry := if k < |st.table| then st.table[k] else st.w + [st.w[0]];
      var table := if Grow(|st.table|, cap) then st.table + [st.w + [entry[0]]] else st.table;
      Ok(DecState(table, entry, st.result + [entry]))
  }

  /** The state after the first `n` codes: the first one read by `chr`,
      then `n - 1` iterations of the loop. */
  function Run(codes: seq<nat>, n: nat, cap: Option<int>): (r: Result<DecState>)
    requires 1 <= n <= |codes|
    ensures r.Ok? ==> Valid(r.value)
    ensures r.Ok? ==> |r.value.table| == Capacity(n - 1, cap) && |r.value.result| == n
    ensures r.Ok? ==> r.value.result[0] == [codes[0]]
  {
    if n == 1 then Ok(DecState(BaseTable(), [codes[0]], [[codes[0]]]))
    else match Run(codes, n - 1, cap)
      case Err(e) => Err(e)
      case Ok(st) =>
        CapacityStep(n - 2, cap);
        Step(st, codes[n - 1], cap)
  }

  /** `lzw_decompress(codes, code_bit_length, max_dict_size)`: `pop(0)` on an
      empty list raises, `chr` of the first code raises above U+10FFFF, and
      otherwise the loop runs over the remaining codes and the pieces are
      joined.  The bit length only feeds an unused `max_code`. */
  function Decode(codes: seq<nat>, codeBitLength: nat, cap: Option<int>): (r: Result<seq<nat>>)
  {
    if codes == [] then Err(EmptyCodeList)
    else if codes[0] > MaxCodePoint then Err(CharOutOfRange(codes[0]))
    else match Run(codes, |codes|, cap)
      case Err(e) => Err(e)
      case Ok(st) => Ok(Concat(st.result))
  }

  /** An exception stops the loop: once a prefix fails, every longer one fails
      with the same error. */
  lemma {:induction false} ErrorPersists(codes: seq<nat>, k: nat, n: nat, cap: Option<int>)
    requires 1 <= k <= n <= |codes| && Run(codes, k, cap).Err?
    ensures Run(codes, n, cap) == Run(codes, k, cap)
    decreases n
  {
    if k < n {
      ErrorPersists(codes, k, n - 1, cap);
    }
  }

  /** `Step` on a code the dictionary accepts, written as the loop body
      computes it. */
  lemma StepIs(st: DecState, k: nat, cap: Option<int>, entry: seq<nat>)
    requires Valid(st) && k <= |st.table|
    requires entry == if k < |st.table| then st.table[k] else st.w + [st.w[0]]
    ensures entry != []
    ensures Step(st, k, cap) == Ok(DecState(AddEntry(st.table, st.w + [entry[0]], cap), entry, st.result + [entry]))
  {
  }

  /** `Run` on `n` codes is `Step` on the state after `n - 1`. */
  lemma RunNext(codes: seq<nat>, n: nat, cap: Option<int>, st: DecState)
    requires 1 < n <= |codes| && Run(codes, n - 1, cap) == Ok(st)
    ensures Run(codes, n, cap) == Step(st, codes[n - 1], cap)
  {
  }

  /** A code above the dictionary size ends the loop with "Bad compressed k". */
  lemma Reject(codes: seq<nat>, i: nat, cap: Option<int>, st: DecState)
    requires 1 <= i < |codes| && Run(codes, i, cap) == Ok(st) && codes[i] > |st.table|
    ensures Run(codes, |codes|, cap) == Err(BadCode(codes[i]))
  {
    ErrorPersists(codes, i + 1, |codes|, cap);
  }

  /** One iteration of the loop on an accepted code, as the loop body
      computes it. */
  lemma Iteration(codes: seq<nat>, i: nat, cap: Option<int>, st: DecState, entry: seq<nat>)
    requires 1 <= i < |codes| && Run(codes, i, cap) == Ok(st) && codes[i] <= |st.table|
    requires entry == if codes[i] < |st.table| then st.table[codes[i]] else st.w + [st.w[0]]
    ensures entry != []
    ensures Run(codes, i + 1, cap) ==
            Ok(DecState(AddEntry(st.table, st.w + [entry[0]], cap), entry, st.result + [entry]))
  {
    StepIs(st, codes[i], cap, entry);
  }

  /** The state before the loop: the base table and the first code's
      character. */
  lemma RunStart(codes: seq<nat>, cap: Option<int>)
    requires codes != []
    ensures Run(codes, 1, cap) == Ok(DecState(BaseTable(), [codes[0]], [[codes[0]]]))
  {
  }

  /** Once the first code is a code point, the call's result is the loop's. */
  lemma DecodeOfRun(codes: seq<nat>, codeBitLength: nat, cap: Option<int>)
    requires codes != [] && codes[0] <= MaxCodePoint
    ensures Run(codes, |codes|, cap).Ok? ==>
              Decode(codes, codeBitLength, cap) == Ok(Concat(Run(codes, |codes|, cap).value.result))
    ensures Run(codes, |codes|, cap).Err? ==>
              Decode(codes, codeBitLength, cap) == Err(Run(codes, |codes|, cap).error)
  {
  }

  method LzwDecompress(compressedData: seq<nat>, codeBitLength: nat, maxDictSize: Option<int>)
    returns (r: Result<seq<nat>>)
    ensures r == Decode(compressedData, codeBitLength, maxDictSize)
  {
    var dictSize: nat := AlphabetSize;
    var dictionary: seq<seq<nat>> := BaseTable();
    var result: seq<seq<nat>> := [];
    if |compressedData| == 0 {
      return Err(EmptyCodeList);
    }
    var first := compressedData[0];
    if first > MaxCodePoint {
      return Err(CharOutOfRange(first));
    }
    var w: seq<nat> := [first];
    result := result + [w];
    assert result == [[first]];
    RunStart(compressedData, maxDictSize);
    DecodeOfRun(compressedData, codeBitLength, maxDictSize);
    // `pop(0)` took the first code; the loop runs over the codes after it.
    for i := 1 to |compressedData|
      invariant dictSize == |dictionary| && w != []
      invariant Run(compressedData, i, maxDictSize) == Ok(DecState(dictionary, w, result))
    {
      var k := compressedData[i];
      var entry: seq<nat>;
      if k < dictSize {
        entry := dictionary[k];
      } else if k == dictSize {
        entry := w + [w[0]];
      } else {
        Reject(compressedData, i, maxDictSize, DecState(dictionary, w, result));
        return Err(BadCode(k));
      }
      Iteration(compressedData, i, maxDictSize, DecState(dictionary, w, result), entry);
      result := result + [entry];
      if maxDictSize.None? || dictSize < maxDictSize.value {
        dictionary := dictionary + [w + [entry[0]]];
        dictSize := dictSize + 1;
      }
      w := entry;
    }
    return Ok(Concat(result));
  }
}
