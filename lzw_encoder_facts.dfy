/** What `lzw_compress` guarantees: when it raises, what its dictionary looks
    like, and that its codes parse the input in lock-step with the table the
    decoder will rebuild. */
module LzwEncoderFacts {
  import opened Common
  import opened LzwTable
  import opened LzwEncoder

  ghost predicate KeysStartBelow(dict: map<seq<nat>, nat>)
  {
    forall k :: k in dict ==> k != [] && k[0] < AlphabetSize
  }

  ghost predicate KeysBelow(dict: map<seq<nat>, nat>)
  {
    forall k :: k in dict ==> AllBelow(k, AlphabetSize)
  }

  ghost predicate HasBaseKeys(dict: map<seq<nat>, nat>)
  {
    forall k :: k in InitialDict() ==> k in dict
  }

  /** Every key but the single symbols extends another key by one symbol. */
  ghost predicate PrefixClosed(dict: map<seq<nat>, nat>)
  {
    forall k :: k in dict && |k| > 1 ==> k[..|k| - 1] in dict
  }

  lemma InitialDictFacts()
    ensures KeysStartBelow(InitialDict()) && KeysBelow(InitialDict())
    ensures HasBaseKeys(InitialDict()) && PrefixClosed(InitialDict())
    ensures forall i: nat :: i < AlphabetSize ==> [i] in InitialDict() && InitialDict()[[i]] == i
  {
    forall k | k in InitialDict() ensures |k| == 1 && k[0] < AlphabetSize {
      var i: nat :| i < AlphabetSize && k == [i];
    }
  }

  /** The shape of the loop state after the prefix `p`, on any input:
      symbols below 256 never raise, and after the first symbol of 256 or
      more the state (if the loop has not raised yet) holds exactly that
      symbol as its run. */
  ghost predicate ShapeOf(p: seq<nat>, st: EncState)
  {
    && KeysStartBelow(st.dict)
    && HasBaseKeys(st.dict)
    && (AllBelow(p, AlphabetSize) ==>
          KeysBelow(st.dict) && (st.w == [] <==> p == []) && (st.w != [] ==> st.w in st.dict))
    && (!AllBelow(p, AlphabetSize) ==>
          p != [] && p[|p| - 1] >= AlphabetSize && st.w == [p[|p| - 1]])
  }

  ghost predicate Shape(p: seq<nat>, r: Result<EncState>)
  {
    && (AllBelow(p, AlphabetSize) ==> r.Ok?)
    && (r.Ok? ==> ShapeOf(p, r.value))
  }

  lemma ShapeStep(q: seq<nat>, st: EncState, c: nat, cap: Option<int>)
    requires ShapeOf(q, st)
    ensures Shape(q + [c], Step(st, c, cap))
  {
    var p := q + [c];
    assert p[..|q|] == q && p[|p| - 1] == c;
    assert AllBelow(p, AlphabetSize) <==> AllBelow(q, AlphabetSize) && c < AlphabetSize;
    if !AllBelow(q, AlphabetSize) {
      ShapeStepAfterWide(q, st, c, cap);
    } else if c < AlphabetSize {
      ShapeStepBelow(q, st, c, cap);
    } else {
      ShapeStepWide(q, st, c, cap);
    }
  }

  /** A symbol below 256 after symbols below 256: the loop goes on. */
  lemma ShapeStepBelow(q: seq<nat>, st: EncState, c: nat, cap: Option<int>)
    requires ShapeOf(q, st) && AllBelow(q, AlphabetSize) && c < AlphabetSize
    requires AllBelow(q + [c], AlphabetSize)
    ensures Step(st, c, cap).Ok? && ShapeOf(q + [c], Step(st, c, cap).value)
  {
    var wc := st.w + [c];
    InitialDictFacts();
    assert [c] in InitialDict();
    assert forall i :: 0 <= i < |wc| ==> wc[i] < AlphabetSize;
    if wc !in st.dict {
      assert st.w != [] by {
        assert st.w == [] ==> wc == [c];
      }
      var st' := Step(st, c, cap).value;
      assert st'.w == [c] && [c] in st'.dict;
    }
  }

  /** The first symbol of 256 or more: either the run is new and not a key
      (which raises at once), or, after the empty run, it becomes the run. */
  lemma ShapeStepWide(q: seq<nat>, st: EncState, c: nat, cap: Option<int>)
    requires ShapeOf(q, st) && AllBelow(q, AlphabetSize) && c >= AlphabetSize
    requires !AllBelow(q + [c], AlphabetSize) && (q + [c])[|q|] == c
    ensures Step(st, c, cap).Ok? ==> ShapeOf(q + [c], Step(st, c, cap).value)
  {
    var wc := st.w + [c];
    assert wc[|wc| - 1] == c;
    assert !AllBelow(wc, AlphabetSize);
    assert wc !in st.dict;
  }

  /** After a symbol of 256 or more the run is not a key, so the next
      iteration raises. */
  lemma ShapeStepAfterWide(q: seq<nat>, st: EncState, c: nat, cap: Option<int>)
    requires ShapeOf(q, st) && !AllBelow(q, AlphabetSize)
    ensures Step(st, c, cap).Err?
  {
    var wc := st.w + [c];
    assert wc !in st.dict && st.w !in st.dict;
  }

  lemma {:induction false} RunShape(p: seq<nat>, cap: Option<int>)
    ensures Shape(p, Run(p, cap))
    decreases |p|
  {
    if p == [] {
      InitialDictFacts();
    } else {
      var q, c := p[..|p| - 1], p[|p| - 1];
      RunShape(q, cap);
      assert q + [c] == p;
      assert AllBelow(p, AlphabetSize) ==> AllBelow(q, AlphabetSize);
      if Run(q, cap).Ok? {
        ShapeStep(q, Run(q, cap).value, c, cap);
      }
    }
  }

  /** `lzw_compress` raises exactly when some symbol is not one of the 256
      initial dictionary keys. */
  lemma EncodeOkIff(s: seq<nat>, cap: Option<int>)
    ensures Encode(s, cap).Ok? <==> AllBelow(s, AlphabetSize)
  {
    RunShape(s, cap);
    if Run(s, cap).Ok? && !AllBelow(s, AlphabetSize) {
      assert Run(s, cap).value.w !in Run(s, cap).value.dict;
    }
  }

  /** Codes read back through the dictionary's inverse. */
  ghost function Lookups(tab: seq<seq<nat>>, cs: seq<nat>): (ps: seq<seq<nat>>)
    requires AllBelow(cs, |tab|)
    ensures |ps| == |cs| && forall j :: 0 <= j < |cs| ==> ps[j] == tab[cs[j]]
  {
    seq(|cs|, j requires 0 <= j < |cs| => tab[cs[j]])
  }

  lemma LookupsSnoc(tab: seq<seq<nat>>, tab': seq<seq<nat>>, cs: seq<nat>, code: nat)
    requires tab <= tab' && AllBelow(cs, |tab|) && code < |tab|
    ensures AllBelow(cs + [code], |tab'|)
    ensures Lookups(tab', cs + [code]) == Lookups(tab, cs) + [tab[code]]
  {
  }

  /** `tab` lists the keys of `dict` by code: the dictionary is a bijection
      between its keys and the codes `0 .. |tab| - 1`, the first 256 of which
      name the single symbols. */
  ghost predicate DictView(dict: map<seq<nat>, nat>, tab: seq<seq<nat>>)
  {
    && |tab| >= AlphabetSize
    && (forall i :: 0 <= i < AlphabetSize ==> tab[i] == [i])
    && (forall i :: 0 <= i < |tab| ==> tab[i] != [])
    && (forall i :: 0 <= i < |tab| ==> tab[i] in dict && dict[tab[i]] == i)
    && (forall k :: k in dict ==> dict[k] < |tab| && tab[dict[k]] == k)
  }

  /** Adding a new key under the next free code keeps the bijection. */
  lemma DictViewAdd(dict: map<seq<nat>, nat>, tab: seq<seq<nat>>, wc: seq<nat>)
    requires DictView(dict, tab) && wc !in dict && wc != []
    ensures DictView(dict[wc := |tab|], tab + [wc])
  {
    var d', t' := dict[wc := |tab|], tab + [wc];
    forall k | k in d' ensures d'[k] < |t'| && t'[d'[k]] == k {
      if k != wc {
        assert k in dict;
      }
    }
  }

  lemma PrefixClosedAdd(dict: map<seq<nat>, nat>, wc: seq<nat>, code: nat)
    requires PrefixClosed(dict) && |wc| > 1 && wc[..|wc| - 1] in dict
    ensures PrefixClosed(dict[wc := code])
  {
    forall k | k in dict[wc := code] && |k| > 1 ensures k[..|k| - 1] in dict[wc := code] {
      if k != wc {
        assert k in dict;
      }
    }
  }

  /** The emitted codes: each below the size the dictionary had when it was
      emitted, after `j` growth attempts. */
  ghost predicate OutView(out: seq<nat>, tab: seq<seq<nat>>, cap: Option<int>)
  {
    && AllBelow(out, |tab|)
    && (forall j :: 0 <= j < |out| ==> out[j] < Capacity(j, cap))
  }

  lemma OutViewSnoc(out: seq<nat>, tab: seq<seq<nat>>, tab': seq<seq<nat>>, code: nat, cap: Option<int>)
    requires OutView(out, tab, cap) && tab <= tab' && code < |tab| && code < Capacity(|out|, cap)
    ensures OutView(out + [code], tab', cap)
  {
  }

  /** The emitted phrases followed by the run spell the input consumed, and
      the dictionary is the table the decoder will rebuild from them. */
  ghost predicate RunView(st: EncState, tab: seq<seq<nat>>, p: seq<nat>, cap: Option<int>)
    requires AllBelow(st.out, |tab|)
  {
    && Concat(Lookups(tab, st.out)) + st.w == p
    && (st.w == [] <==> p == [])
    && (st.w == [] ==> tab == BaseTable() && st.out == [])
    && (st.w != [] ==> st.w in st.dict && NonEmptyPhrases(Lookups(tab, st.out) + [st.w])
                       && tab == Table(Lookups(tab, st.out) + [st.w], cap))
  }

  /** The loop invariant behind the round trip, for an input `p` of symbols
      below 256. */
  ghost predicate EncInv(st: EncState, tab: seq<seq<nat>>, p: seq<nat>, cap: Option<int>)
  {
    && |tab| == st.size
    && DictView(st.dict, tab)
    && OutView(st.out, tab, cap)
    && RunView(st, tab, p, cap)
    && PrefixClosed(st.dict)
  }

  lemma StartInvariant(cap: Option<int>)
    ensures EncInv(Start(), BaseTable(), [], cap)
  {
    InitialDictFacts();
    var d, t := InitialDict(), BaseTable();
    forall k | k in d ensures d[k] < |t| && t[d[k]] == k {
      var i: nat :| i < AlphabetSize && k == [i];
    }
    assert Lookups(t, []) == [];
  }

  /** The iteration that extends the run keeps the invariant. */
  lemma ExtendInvariant(st: EncState, tab: seq<seq<nat>>, p: seq<nat>, c: nat, cap: Option<int>)
    requires EncInv(st, tab, p, cap) && st.w + [c] in st.dict
    ensures Step(st, c, cap) == Ok(st.(w := st.w + [c]))
    ensures EncInv(st.(w := st.w + [c]), tab, p + [c], cap)
  {
    var wc := st.w + [c];
    var ps := Lookups(tab, st.out);
    assert Concat(ps) + wc == p + [c];
    if st.w == [] {
      assert ps == [];
      assert Table(ps + [wc], cap) == BaseTable();
    } else {
      TableLast(ps, st.w, wc, cap);
    }
  }

  /** The iteration that emits the code of the run and starts a new run
      keeps the invariant. */
  lemma EmitInvariant(st: EncState, tab: seq<seq<nat>>, p: seq<nat>, c: nat, cap: Option<int>)
    returns (tab': seq<seq<nat>>)
    requires EncInv(st, tab, p, cap) && c < AlphabetSize && st.w + [c] !in st.dict
    ensures Step(st, c, cap).Ok? && EncInv(Step(st, c, cap).value, tab', p + [c], cap)
  {
    var wc := st.w + [c];
    assert tab[c] == [c] && tab[c] in st.dict;
    assert wc != [c];
    assert st.w != [] by {
      assert st.w == [] ==> wc == [c];
    }
    var st' := Step(st, c, cap).value;
    tab' := AddEntry(tab, wc, cap);
    EmitDict(st, tab, c, cap);
    EmitRun(st, tab, p, c, cap);
  }

  /** Emitting keeps the dictionary a bijection onto the table. */
  lemma EmitDict(st: EncState, tab: seq<seq<nat>>, c: nat, cap: Option<int>)
    requires |tab| == st.size && DictView(st.dict, tab) && PrefixClosed(st.dict)
    requires st.w != [] && st.w in st.dict && st.w + [c] !in st.dict
    ensures Step(st, c, cap).Ok?
    ensures Step(st, c, cap).value.out == st.out + [st.dict[st.w]]
    ensures Step(st, c, cap).value.w == [c]
    ensures var st' := Step(st, c, cap).value;
            var tab' := AddEntry(tab, st.w + [c], cap);
            |tab'| == st'.size && DictView(st'.dict, tab') && PrefixClosed(st'.dict)
  {
    var wc := st.w + [c];
    if Grow(st.size, cap) {
      DictViewAdd(st.dict, tab, wc);
      assert wc[..|wc| - 1] == st.w;
      PrefixClosedAdd(st.dict, wc, st.size);
    }
  }

  /** Emitting appends the run's phrase to the output and keeps the table
      the decoder's table of the phrases. */
  lemma EmitRun(st: EncState, tab: seq<seq<nat>>, p: seq<nat>, c: nat, cap: Option<int>)
    requires EncInv(st, tab, p, cap) && c < AlphabetSize
    requires st.w != [] && st.w in st.dict && st.w + [c] !in st.dict
    ensures Step(st, c, cap).Ok?
    ensures var st' := Step(st, c, cap).value;
            var tab' := AddEntry(tab, st.w + [c], cap);
            OutView(st'.out, tab', cap) && RunView(st', tab', p + [c], cap)
  {
    var wc := st.w + [c];
    var ps := Lookups(tab, st.out);
    var code := st.dict[st.w];
    var st' := Step(st, c, cap).value;
    var tab' := AddEntry(tab, wc, cap);
    assert tab <= tab';
    assert st'.out == st.out + [code] && st'.w == [c];
    assert tab[c] == [c] && [c] in st'.dict;
    LookupsSnoc(tab, tab', st.out, code);
    var ps' := Lookups(tab', st'.out);
    assert ps' == ps + [st.w];
    ConcatAppend(ps, st.w);
    TableSnoc(ps', [c], cap);
    assert |tab| == Capacity(|st.out|, cap);
    OutViewSnoc(st.out, tab, tab', code, cap);
  }

  /** One loop iteration on a symbol below 256 keeps the invariant. */
  lemma StepInvariant(st: EncState, tab: seq<seq<nat>>, p: seq<nat>, c: nat, cap: Option<int>)
    returns (tab': seq<seq<nat>>)
    requires EncInv(st, tab, p, cap) && c < AlphabetSize
    ensures Step(st, c, cap).Ok? && EncInv(Step(st, c, cap).value, tab', p + [c], cap)
  {
    if st.w + [c] in st.dict {
      ExtendInvariant(st, tab, p, c, cap);
      tab' := tab;
    } else {
      tab' := EmitInvariant(st, tab, p, c, cap);
    }
  }

  /** The loop invariant holds after every prefix of an input of symbols
      below 256. */
  lemma {:induction false} RunInvariant(p: seq<nat>, cap: Option<int>) returns (tab: seq<seq<nat>>)
    requires AllBelow(p, AlphabetSize)
    ensures Run(p, cap).Ok? && EncInv(Run(p, cap).value, tab, p, cap)
    decreases |p|
  {
    if p == [] {
      StartInvariant(cap);
      tab := BaseTable();
    } else {
      var q, c := p[..|p| - 1], p[|p| - 1];
      assert AllBelow(q, AlphabetSize);
      assert q + [c] == p;
      var tab0 := RunInvariant(q, cap);
      var st := Run(q, cap).value;
      assert Run(p, cap) == Step(st, c, cap);
      tab := StepInvariant(st, tab0, q, c, cap);
    }
  }

  /** The encoder's codes parse the input: reading each code in the table
      that existed when it was emitted gives phrases whose concatenation is
      the input.  This is the lock-step property the decoder relies on. */
  lemma EncodeParse(s: seq<nat>, cap: Option<int>) returns (ps: seq<seq<nat>>)
    requires s != [] && AllBelow(s, AlphabetSize)
    ensures Encode(s, cap).Ok?
    ensures Parse(Encode(s, cap).value, ps, cap) && Concat(ps) == s
  {
    var tab := RunInvariant(s, cap);
    var st := Run(s, cap).value;
    var code := st.dict[st.w];
    var cs := st.out + [code];
    assert Encode(s, cap) == Ok(cs);
    LookupsSnoc(tab, tab, st.out, code);
    ps := Lookups(tab, cs);
    assert ps == Lookups(tab, st.out) + [st.w];
    ConcatAppend(Lookups(tab, st.out), st.w);
    OutViewSnoc(st.out, tab, tab, code, cap);
    ParseFromTable(cs, ps, tab, cap);
  }

  /** Codes read in a table built from their own phrases parse those phrases,
      provided each code is below the size the table had at its position. */
  lemma ParseFromTable(cs: seq<nat>, ps: seq<seq<nat>>, tab: seq<seq<nat>>, cap: Option<int>)
    requires NonEmptyPhrases(ps) && |cs| == |ps| && Table(ps, cap) == tab
    requires OutView(cs, tab, cap)
    requires forall j :: 0 <= j < |cs| ==> ps[j] == tab[cs[j]]
    ensures Parse(cs, ps, cap)
  {
    forall j | 0 <= j < |cs| ensures ParsesAt(cs, ps, cap, j) {
      ParseAt(cs, ps, tab, cap, j);
    }
  }

  lemma ParseAt(cs: seq<nat>, ps: seq<seq<nat>>, tab: seq<seq<nat>>, cap: Option<int>, j: nat)
    requires NonEmptyPhrases(ps) && |cs| == |ps| && Table(ps, cap) == tab
    requires j < |cs| && cs[j] < |tab| && cs[j] < Capacity(j, cap) && ps[j] == tab[cs[j]]
    ensures ParsesAt(cs, ps, cap, j)
  {
    TablePrefix(ps, j + 1, cap);
    assert |ps[..j + 1]| == j + 1;
  }

  /** Empty input gives no codes; any other input at least one code and at
      most one per symbol, because the final run is always emitted. */
  lemma EncodeLength(s: seq<nat>, cap: Option<int>)
    requires AllBelow(s, AlphabetSize)
    ensures Encode(s, cap).Ok?
    ensures |Encode(s, cap).value| == 0 <==> s == []
    ensures |Encode(s, cap).value| <= |s|
  {
    EncodeOkIff(s, cap);
    if s != [] {
      var ps := EncodeParse(s, cap);
      PhrasesLength(ps);
    }
  }

  /** Each code is below the dictionary size at the moment it is emitted:
      the `j`-th code is emitted after `j` growth attempts. */
  lemma EncodeCodesBelowSize(s: seq<nat>, cap: Option<int>)
    requires AllBelow(s, AlphabetSize)
    ensures Encode(s, cap).Ok?
    ensures var cs := Encode(s, cap).value;
            forall j :: 0 <= j < |cs| ==> cs[j] < Capacity(j, cap)
  {
    EncodeOkIff(s, cap);
    if s != [] {
      var ps := EncodeParse(s, cap);
      var cs := Encode(s, cap).value;
      forall j | 0 <= j < |cs| ensures cs[j] < Capacity(j, cap) {
        assert ParsesAt(cs, ps, cap, j);
        assert |ps[..j + 1]| == j + 1;
      }
    }
  }

  /** With a cap `M`, no code reaches `max(256, M)`. */
  lemma EncodeWithinCap(s: seq<nat>, m: int)
    requires Encode(s, Some(m)).Ok?
    ensures AllBelow(Encode(s, Some(m)).value, Max(AlphabetSize, m))
  {
    EncodeOkIff(s, Some(m));
    EncodeCodesBelowSize(s, Some(m));
    var cs := Encode(s, Some(m)).value;
    forall j | 0 <= j < |cs| ensures cs[j] < Max(AlphabetSize, m) {
      CapacityBound(j, m);
    }
  }

  /** The key that the dictionary maps to `code`, if any. */
  ghost function KeyOf(dict: map<seq<nat>, nat>, code: nat): (r: seq<nat>)
  {
    if exists k :: k in dict && dict[k] == code then
      var k :| k in dict && dict[k] == code; k
    else []
  }

  /** The encoder's final dictionary: codes are assigned one per emission
      from 256 up, injectively and without gaps, the key set is closed under
      dropping the last symbol, and looking each emitted code up in it and
      concatenating reproduces the input. */
  lemma FinalDictionary(s: seq<nat>, cap: Option<int>)
    requires AllBelow(s, AlphabetSize)
    ensures Run(s, cap).Ok? && Encode(s, cap).Ok?
    ensures var st := Run(s, cap).value;
            && st.size == Capacity(|st.out|, cap)
            && (forall v: nat :: v in st.dict.Values <==> v < st.size)
            && (forall k1, k2 :: k1 in st.dict && k2 in st.dict && k1 != k2 ==> st.dict[k1] != st.dict[k2])
            && PrefixClosed(st.dict)
            && var cs := Encode(s, cap).value;
               Concat(seq(|cs|, j requires 0 <= j < |cs| => KeyOf(st.dict, cs[j]))) == s
  {
    EncodeOkIff(s, cap);
    var tab := RunInvariant(s, cap);
    var st := Run(s, cap).value;
    var cs := Encode(s, cap).value;
    assert cs == if st.w == [] then st.out else st.out + [st.dict[st.w]];
    FinalState(st, tab, s, cs, cap);
  }

  /** `FinalDictionary` for the state the invariant describes. */
  lemma FinalState(st: EncState, tab: seq<seq<nat>>, s: seq<nat>, cs: seq<nat>, cap: Option<int>)
    requires EncInv(st, tab, s, cap)
    requires cs == if st.w == [] then st.out else st.out + [st.dict[st.w]]
    ensures st.size == Capacity(|st.out|, cap)
    ensures forall v: nat :: v in st.dict.Values <==> v < st.size
    ensures forall k1, k2 :: k1 in st.dict && k2 in st.dict && k1 != k2 ==> st.dict[k1] != st.dict[k2]
    ensures Concat(seq(|cs|, j requires 0 <= j < |cs| => KeyOf(st.dict, cs[j]))) == s
  {
    DictViewFacts(st.dict, tab);
    var ps := Lookups(tab, st.out);
    if st.w == [] {
      assert cs == [] && s == [];
    } else {
      assert st.size == |Table(ps + [st.w], cap)|;
      var code := st.dict[st.w];
      LookupsSnoc(tab, tab, st.out, code);
      KeysOfCodes(st.dict, tab, cs);
      assert Lookups(tab, cs) == ps + [st.w];
      ConcatAppend(ps, st.w);
    }
  }

  lemma KeysOfCodes(dict: map<seq<nat>, nat>, tab: seq<seq<nat>>, cs: seq<nat>)
    requires AllBelow(cs, |tab|)
    requires forall code: nat :: code < |tab| ==> KeyOf(dict, code) == tab[code]
    ensures seq(|cs|, j requires 0 <= j < |cs| => KeyOf(dict, cs[j])) == Lookups(tab, cs)
  {
  }

  /** What the bijection says about the dictionary on its own. */
  lemma DictViewFacts(dict: map<seq<nat>, nat>, tab: seq<seq<nat>>)
    requires DictView(dict, tab)
    ensures forall v: nat :: v in dict.Values <==> v < |tab|
    ensures forall k1, k2 :: k1 in dict && k2 in dict && k1 != k2 ==> dict[k1] != dict[k2]
    ensures forall code: nat :: code < |tab| ==> KeyOf(dict, code) == tab[code]
  {
    forall v: nat | v < |tab| ensures v in dict.Values {
      assert dict[tab[v]] == v;
    }
    forall code: nat | code < |tab| ensures KeyOf(dict, code) == tab[code] {
      assert dict[tab[code]] == code;
    }
  }
}
