/** The LZW encoder `lzw_compress` (TestCompressor.py, and its copy in
    ManualCompressor.py, which differs only in docstring and comments).  `Run` is the state after each input symbol of the
    `for c in uncompressed` loop, `Encode` adds the final emission, and the
    method `LzwCompress` is the loop itself, proved to compute `Encode`. */
module LzwEncoder {
  import opened Common
  import opened LzwTable

  /** The loop state: `dictionary`, `dict_size`, the run `w` and `result`. */
  datatype EncState = EncState(dict: map<seq<nat>, nat>, size: nat, w: seq<nat>, out: seq<nat>)

  /** `{chr(i): i for i in range(256)}`. */
  function InitialDict(): (r: map<seq<nat>, nat>)
  {
    map i: nat | i < AlphabetSize :: [i] := i
  }

  function Start(): (r: EncState)
  {
    EncState(InitialDict(), AlphabetSize, [], [])
  }

  /** One iteration of the loop body for the symbol `c`. */
  function Step(st: EncState, c: nat, cap: Option<int>): (r: Result<EncState>)
  {
    var wc := st.w + [c];
    if wc in st.dict then Ok(st.(w := wc))
    else if st.w !in st.dict then Err(KeyError(st.w))
    else
      var out := st.out + [st.dict[st.w]];
      if Grow(st.size, cap) then Ok(EncState(st.dict[wc := st.size], st.size + 1, [c], out))
      else Ok(EncState(st.dict, st.size, [c], out))
  }

  /** The state after the loop has consumed `s`. */
  function Run(s: seq<nat>, cap: Option<int>): (r: Result<EncState>)
    decreases |s|
  {
    if s == [] then Ok(Start())
    else match Run(s[..|s| - 1], cap)
      case Err(e) => Err(e)
      case Ok(st) => Step(st, s[|s| - 1], cap)
  }

  /** `lzw_compress(s, cap)`: the loop, then `if w: result.append(dictionary[w])`. */
  function Encode(s: seq<nat>, cap: Option<int>): (r: Result<seq<nat>>)
  {
    match Run(s, cap)
    case Err(e) => Err(e)
    case Ok(st) =>
      if st.w == [] then Ok(st.out)
      else if st.w in st.dict then Ok(st.out + [st.dict[st.w]])
      else Err(KeyError(st.w))
  }

  /** An exception stops the loop: once a prefix fails, the whole input fails
      with the same error. */
  lemma {:induction false} ErrorPersists(s: seq<nat>, k: nat, cap: Option<int>)
    requires k <= |s| && Run(s[..k], cap).Err?
    ensures Run(s, cap) == Run(s[..k], cap)
    decreases |s|
  {
    if k < |s| {
      assert s[..|s| - 1][..k] == s[..k];
      ErrorPersists(s[..|s| - 1], k, cap);
    } else {
      assert s[..k] == s;
    }
  }

  method LzwCompress(uncompressed: seq<nat>, maxDictSize: Option<int>) returns (r: Result<seq<nat>>)
    ensures r == Encode(uncompressed, maxDictSize)
  {
    var dictSize: nat := AlphabetSize;
    var dictionary: map<seq<nat>, nat> := InitialDict();
    var w: seq<nat> := [];
    var result: seq<nat> := [];
    for i := 0 to |uncompressed|
      invariant Run(uncompressed[..i], maxDictSize) == Ok(EncState(dictionary, dictSize, w, result))
    {
      var c := uncompressed[i];
      assert uncompressed[..i + 1][..i] == uncompressed[..i];
      var wc := w + [c];
      if wc in dictionary {
        w := wc;
      } else {
        if w !in dictionary {
          ErrorPersists(uncompressed, i + 1, maxDictSize);
          return Err(KeyError(w));
        }
        result := result + [dictionary[w]];
        if maxDictSize.None? || dictSize < maxDictSize.value {
          dictionary := dictionary[wc := dictSize];
          dictSize := dictSize + 1;
        }
        w := [c];
      }
    }
    assert uncompressed[..|uncompressed|] == uncompressed;
    if w != [] {
      if w !in dictionary {
        return Err(KeyError(w));
      }
      result := result + [dictionary[w]];
    }
    return Ok(result);
  }
}
