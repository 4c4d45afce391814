/** The code table that the encoder and the decoder of the LZW codec build in
    lock-step.  Both start from the 256 single-symbol strings and add one string
    per step while the dictionary may still grow.  `Table(ps, cap)` is the
    decoder's code-to-string table after it has produced the phrases `ps`; the
    encoder's table after emitting the phrases `ps` while holding the run `w`
    is `Table(ps + [w], cap)`. */
module LzwTable {
  import opened Common

  const AlphabetSize: nat := 256

  /** The growth rule shared by encoder and decoder:
      `max_dict_size is None or dict_size < max_dict_size`. */
  predicate Grow(size: nat, cap: Option<int>)
  {
    cap.None? || size < cap.value
  }

  /** The dictionary size after `n` growth attempts starting from 256. */
  function Capacity(n: nat, cap: Option<int>): (r: nat)
  {
    if cap.None? then AlphabetSize + n else Max(AlphabetSize, Min(AlphabetSize + n, cap.value))
  }

  lemma CapacityStep(n: nat, cap: Option<int>)
    ensures Grow(Capacity(n, cap), cap) ==> Capacity(n + 1, cap) == Capacity(n, cap) + 1
    ensures !Grow(Capacity(n, cap), cap) ==> Capacity(n + 1, cap) == Capacity(n, cap)
  {
  }

  /** With a cap `M`, the dictionary never holds more than `max(256, M)` entries. */
  lemma CapacityBound(n: nat, m: int)
    ensures AlphabetSize <= Capacity(n, Some(m)) <= Max(AlphabetSize, m)
  {
  }

  /** Decoder cap `capD` lets the dictionary grow at least as far as `capE`. */
  predicate CapAtLeast(capD: Option<int>, capE: Option<int>)
  {
    capD.None? || (capE.Some? && capD.value >= capE.value)
  }

  /** `{i: chr(i) for i in range(256)}` as a sequence indexed by code. */
  function BaseTable(): (t: seq<seq<nat>>)
    ensures |t| == AlphabetSize
    ensures forall i :: 0 <= i < AlphabetSize ==> t[i] == [i]
  {
    seq(AlphabetSize, i => [i])
  }

  function AddEntry(t: seq<seq<nat>>, e: seq<nat>, cap: Option<int>): (r: seq<seq<nat>>)
  {
    if Grow(|t|, cap) then t + [e] else t
  }

  ghost predicate NonEmptyPhrases(ps: seq<seq<nat>>)
  {
    forall j :: 0 <= j < |ps| ==> ps[j] != []
  }

  /** Non-empty phrases spell at least one symbol each. */
  lemma {:induction false} PhrasesLength(ps: seq<seq<nat>>)
    requires NonEmptyPhrases(ps)
    ensures |ps| <= |Concat(ps)|
    decreases |ps|
  {
    if ps != [] {
      PhrasesLength(ps[..|ps| - 1]);
    }
  }

  /** The table after the phrases `ps`: the 256 base strings, then for each
      pair of consecutive phrases `p, q` the string `p + [q[0]]`, while the
      dictionary may grow. */
  function Table(ps: seq<seq<nat>>, cap: Option<int>): (t: seq<seq<nat>>)
    requires NonEmptyPhrases(ps)
    ensures |t| == Capacity(if |ps| == 0 then 0 else |ps| - 1, cap)
    ensures forall i :: 0 <= i < AlphabetSize ==> t[i] == [i]
    ensures forall i :: 0 <= i < |t| ==> t[i] != []
    decreases |ps|
  {
    if |ps| <= 1 then BaseTable()
    else
      var t := Table(ps[..|ps| - 1], cap);
      CapacityStep(|ps| - 2, cap);
      AddEntry(t, ps[|ps| - 2] + [ps[|ps| - 1][0]], cap)
  }

  /** The table depends on the last phrase only through its first symbol. */
  lemma TableLast(ps: seq<seq<nat>>, x: seq<nat>, y: seq<nat>, cap: Option<int>)
    requires NonEmptyPhrases(ps) && x != [] && y != [] && x[0] == y[0]
    ensures NonEmptyPhrases(ps + [x]) && NonEmptyPhrases(ps + [y])
    ensures Table(ps + [x], cap) == Table(ps + [y], cap)
  {
    assert (ps + [x])[..|ps|] == ps && (ps + [y])[..|ps|] == ps;
    if ps != [] {
      assert (ps + [x])[|ps| - 1] == ps[|ps| - 1] == (ps + [y])[|ps| - 1];
    }
  }

  /** One more phrase adds (at most) the entry `last + [q[0]]`. */
  lemma TableSnoc(ps: seq<seq<nat>>, q: seq<nat>, cap: Option<int>)
    requires NonEmptyPhrases(ps) && |ps| >= 1 && q != []
    ensures NonEmptyPhrases(ps + [q])
    ensures Table(ps + [q], cap) == AddEntry(Table(ps, cap), ps[|ps| - 1] + [q[0]], cap)
  {
    assert (ps + [q])[..|ps|] == ps;
  }

  /** The table after a prefix of the phrases is a prefix of the table after
      all of them: entries are never replaced. */
  lemma {:induction false} TablePrefix(ps: seq<seq<nat>>, k: nat, cap: Option<int>)
    requires NonEmptyPhrases(ps) && k <= |ps|
    ensures NonEmptyPhrases(ps[..k])
    ensures Table(ps[..k], cap) <= Table(ps, cap)
    decreases |ps|
  {
    if k < |ps| {
      var init := ps[..|ps| - 1];
      assert init[..k] == ps[..k];
      TablePrefix(init, k, cap);
      assert |ps| >= 2 ==> Table(ps, cap) == AddEntry(Table(init, cap), ps[|ps| - 2] + [ps[|ps| - 1][0]], cap);
    } else {
      assert ps[..k] == ps;
    }
  }

  /** A decoder allowed to grow further builds a table that extends the
      encoder's, and once they differ the smaller one has stopped growing. */
  lemma {:induction false} TableCapMono(ps: seq<seq<nat>>, capE: Option<int>, capD: Option<int>)
    requires NonEmptyPhrases(ps) && CapAtLeast(capD, capE)
    ensures Table(ps, capE) <= Table(ps, capD)
    ensures |Table(ps, capE)| < |Table(ps, capD)| ==> !Grow(|Table(ps, capE)|, capE)
    decreases |ps|
  {
    if |ps| > 1 {
      var init, e := ps[..|ps| - 1], ps[|ps| - 2] + [ps[|ps| - 1][0]];
      TableCapMono(init, capE, capD);
      var tE, tD := Table(init, capE), Table(init, capD);
      assert Table(ps, capE) == AddEntry(tE, e, capE);
      assert Table(ps, capD) == AddEntry(tD, e, capD);
      if |tE| == |tD| {
        assert tE == tD;
        assert Grow(|tE|, capE) ==> Grow(|tD|, capD);
      }
    }
  }

  /** `cs` are the codes of the phrases `ps`: each code, read in the table
      the decoder holds once it knows the phrase, names that phrase.  This is
      the lock-step the encoder establishes and the decoder relies on. */
  ghost predicate Parse(cs: seq<nat>, ps: seq<seq<nat>>, cap: Option<int>)
  {
    && |cs| == |ps|
    && NonEmptyPhrases(ps)
    && forall j :: 0 <= j < |cs| ==> ParsesAt(cs, ps, cap, j)
  }

  /** The `j`-th code names the `j`-th phrase in the table of the first
      `j + 1` phrases. */
  ghost predicate ParsesAt(cs: seq<nat>, ps: seq<seq<nat>>, cap: Option<int>, j: nat)
    requires |cs| == |ps| && NonEmptyPhrases(ps) && j < |cs|
  {
    cs[j] < |Table(ps[..j + 1], cap)| && Table(ps[..j + 1], cap)[cs[j]] == ps[j]
  }
}
