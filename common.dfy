/** Shared vocabulary of the LZW codec model: optional values, results with the
    codec's error kinds, powers of two and sequence flattening. */
module Common {

  datatype Option<+T> = None | Some(value: T)

  /** The exceptions the Python code raises, one constructor per raise site. */
  datatype Error =
    | KeyError(key: seq<nat>)              // encoder: `dictionary[w]` on an unknown string
    | EmptyCodeList                        // decoder: `pop(0)` on an empty list
    | CharOutOfRange(code: nat)            // decoder: `chr` of a first code above U+10FFFF
    | BadCode(code: nat)                   // decoder: "Bad compressed k"
    | CodeTooWide(code: nat, bits: nat)    // packer: a code above (1 << bits) - 1
    | InvalidCodeBitLength                 // parameter check: bit length outside 9..24
    | DictTooLarge                         // parameter check: cap above 2^bits
    | BadDirName(name: seq<char>)          // decompressor: "Cannot extract parameters"

  datatype Result<+T> = Ok(value: T) | Err(error: Error)

  function Min(a: int, b: int): (r: int) { if a <= b then a else b }

  function Max(a: int, b: int): (r: int) { if a >= b then a else b }

  function Pow2(n: nat): (r: nat)
    ensures r >= 1
  {
    if n == 0 then 1 else 2 * Pow2(n - 1)
  }

  lemma {:induction false} Pow2Add(a: nat, b: nat)
    ensures Pow2(a + b) == Pow2(a) * Pow2(b)
  {
    if b > 0 {
      Pow2Add(a, b - 1);
      assert Pow2(a + b) == 2 * Pow2(a + b - 1);
    }
  }

  lemma {:induction false} Pow2Mono(a: nat, b: nat)
    requires a <= b
    ensures Pow2(a) <= Pow2(b)
  {
    if a < b {
      Pow2Mono(a, b - 1);
    }
  }

  /** Every element of `s` is below `bound`. */
  predicate AllBelow(s: seq<nat>, bound: nat)
  {
    forall i :: 0 <= i < |s| ==> s[i] < bound
  }

  lemma AllBelowSnoc(s: seq<nat>, x: nat, bound: nat)
    requires AllBelow(s, bound) && x < bound
    ensures AllBelow(s + [x], bound)
  {
    assert forall i :: 0 <= i < |s| ==> (s + [x])[i] == s[i];
  }

  lemma AllBelowMono(s: seq<nat>, bound: nat, bound': nat)
    requires AllBelow(s, bound) && bound <= bound'
    ensures AllBelow(s, bound')
  {
  }

  /** The concatenation of a list of strings, Python's `''.join`. */
  function Concat(ss: seq<seq<nat>>): (r: seq<nat>)
    decreases |ss|
  {
    if ss == [] then [] else Concat(ss[..|ss| - 1]) + ss[|ss| - 1]
  }

  lemma ConcatAppend(ss: seq<seq<nat>>, x: seq<nat>)
    ensures Concat(ss + [x]) == Concat(ss) + x
  {
    assert (ss + [x])[..|ss|] == ss;
  }
}
