/** The round trip: the decoder rebuilds the encoder's table in lock-step, so
    decompressing the codes of any text over the 256 initial symbols gives
    back the text, whenever the decoder's dictionary may grow at least as far
    as the encoder's did. */
module LzwRoundTrip {
  import opened Common
  import opened LzwTable
  import LzwEncoder
  import opened LzwEncoderFacts
  import LzwDecoder
  import opened LzwDecoderFacts

  /** The decoder state after the first `n` codes of a parse: the table of
      the first `n` phrases, the last of them as `w`, and the phrases as
      output. */
  ghost function After(ps: seq<seq<nat>>, n: nat, capD: Option<int>): (r: LzwDecoder.DecState)
    requires NonEmptyPhrases(ps) && 1 <= n <= |ps|
  {
    LzwDecoder.DecState(Table(ps[..n], capD), ps[n - 1], ps[..n])
  }

  /** After the first `n` codes of a parse the decoder is in the state
      `After`. */
  lemma {:induction false} DecodePrefix(cs: seq<nat>, ps: seq<seq<nat>>, capE: Option<int>, capD: Option<int>, n: nat)
    requires Parse(cs, ps, capE) && CapAtLeast(capD, capE) && 1 <= n <= |cs|
    ensures LzwDecoder.Run(cs, n, capD) == Ok(After(ps, n, capD))
    decreases n
  {
    if n == 1 {
      assert ParsesAt(cs, ps, capE, 0);
      DecodeFirst(cs, ps, capE, capD);
    } else {
      DecodePrefix(cs, ps, capE, capD, n - 1);
      DecodeExtend(cs, ps, capE, capD, n);
    }
  }

  /** The induction step of `DecodePrefix`. */
  lemma DecodeExtend(cs: seq<nat>, ps: seq<seq<nat>>, capE: Option<int>, capD: Option<int>, n: nat)
    requires Parse(cs, ps, capE) && CapAtLeast(capD, capE) && 2 <= n <= |cs|
    requires LzwDecoder.Run(cs, n - 1, capD) == Ok(After(ps, n - 1, capD))
    ensures LzwDecoder.Run(cs, n, capD) == Ok(After(ps, n, capD))
  {
    assert ParsesAt(cs, ps, capE, n - 1);
    var st := After(ps, n - 1, capD);
    LzwDecoder.RunNext(cs, n, capD, st);
    DecodeStep(cs, ps, capE, capD, n - 1, n, st);
  }

  /** Every `After` state is one the decoder can be in. */
  lemma AfterValid(ps: seq<seq<nat>>, n: nat, capD: Option<int>)
    requires NonEmptyPhrases(ps) && 1 <= n <= |ps|
    ensures LzwDecoder.Valid(After(ps, n, capD))
  {
    assert ps[..n][n - 1] == ps[n - 1];
  }

  /** The first code is a base code naming the first phrase. */
  lemma DecodeFirst(cs: seq<nat>, ps: seq<seq<nat>>, capE: Option<int>, capD: Option<int>)
    requires NonEmptyPhrases(ps) && |cs| == |ps| >= 1 && ParsesAt(cs, ps, capE, 0)
    ensures LzwDecoder.Run(cs, 1, capD) == Ok(After(ps, 1, capD))
  {
    assert ps[..1] == [ps[0]];
  }

  /** The code at index `n` is read as the phrase at index `n`, and the
      decoder adds the entry the table of the phrases adds. */
  lemma DecodeStep(cs: seq<nat>, ps: seq<seq<nat>>, capE: Option<int>, capD: Option<int>, n: nat,
                   next: nat, st: LzwDecoder.DecState)
    requires NonEmptyPhrases(ps) && |cs| == |ps| && CapAtLeast(capD, capE) && 1 <= n < |cs| && next == n + 1
    requires ParsesAt(cs, ps, capE, n)
    requires st == After(ps, n, capD)
    ensures LzwDecoder.Valid(st)
    ensures LzwDecoder.Step(st, cs[n], capD) == Ok(After(ps, next, capD))
  {
    AfterValid(ps, n, capD);
    var st' := After(ps, next, capD);
    var tE, tE', e := AfterNext(ps, capE, capD, n, next, st, st');
    StepReads(st, cs[n], capE, capD, tE, tE', e, ps[n], st');
  }

  /** How the encoder's table and the decoder's state grow with the phrase
      at index `n`. */
  lemma AfterNext(ps: seq<seq<nat>>, capE: Option<int>, capD: Option<int>, n: nat, next: nat,
                  st: LzwDecoder.DecState, st': LzwDecoder.DecState)
    returns (tE: seq<seq<nat>>, tE': seq<seq<nat>>, e: seq<nat>)
    requires NonEmptyPhrases(ps) && CapAtLeast(capD, capE) && 1 <= n < |ps| && next == n + 1
    requires st == After(ps, n, capD) && st' == After(ps, next, capD)
    ensures NonEmptyPhrases(ps[..n]) && NonEmptyPhrases(ps[..n + 1])
    ensures tE == Table(ps[..n], capE) && tE' == Table(ps[..n + 1], capE)
    ensures e == st.w + [ps[n][0]] && tE' == AddEntry(tE, e, capE)
    ensures tE <= st.table && (|tE| < |st.table| ==> !Grow(|tE|, capE))
    ensures st' == LzwDecoder.DecState(AddEntry(st.table, e, capD), ps[n], st.result + [ps[n]])
  {
    TablesAgree(ps, capE, capD, n);
    tE, tE', e := Table(ps[..n], capE), Table(ps[..n + 1], capE), ps[n - 1] + [ps[n][0]];
    assert ps[..n] + [ps[n]] == ps[..next];
  }

  /** How the encoder's and the decoder's tables grow with the phrase at
      index `n`. */
  lemma TablesAgree(ps: seq<seq<nat>>, capE: Option<int>, capD: Option<int>, n: nat)
    requires NonEmptyPhrases(ps) && CapAtLeast(capD, capE) && 1 <= n < |ps|
    ensures NonEmptyPhrases(ps[..n]) && NonEmptyPhrases(ps[..n + 1])
    ensures Table(ps[..n], capE) <= Table(ps[..n], capD)
    ensures |Table(ps[..n], capE)| < |Table(ps[..n], capD)| ==> !Grow(|Table(ps[..n], capE)|, capE)
    ensures Table(ps[..n + 1], capE) == AddEntry(Table(ps[..n], capE), ps[n - 1] + [ps[n][0]], capE)
    ensures Table(ps[..n + 1], capD) == AddEntry(Table(ps[..n], capD), ps[n - 1] + [ps[n][0]], capD)
  {
    var pre := ps[..n];
    assert pre + [ps[n]] == ps[..n + 1];
    assert pre[n - 1] == ps[n - 1];
    TableSnoc(pre, ps[n], capE);
    TableSnoc(pre, ps[n], capD);
    TableCapMono(pre, capE, capD);
  }

  /** The decoder step on the code `k`, knowing only how the encoder's table
      `tE` relates to the decoder's and that `k` names the phrase `q` in the
      encoder's table once it has added `p + [q[0]]`. */
  lemma StepReads(st: LzwDecoder.DecState, k: nat, capE: Option<int>, capD: Option<int>,
                  tE: seq<seq<nat>>, tE': seq<seq<nat>>, e: seq<nat>, q: seq<nat>,
                  st': LzwDecoder.DecState)
    requires LzwDecoder.Valid(st)
    requires tE <= st.table && (|tE| < |st.table| ==> !Grow(|tE|, capE))
    requires q != [] && e == st.w + [q[0]] && tE' == AddEntry(tE, e, capE) && k < |tE'| && tE'[k] == q
    requires st' == LzwDecoder.DecState(AddEntry(st.table, e, capD), q, st.result + [q])
    ensures LzwDecoder.Step(st, k, capD) == Ok(st')
  {
    ReadAgrees(tE, st.table, tE', e, k, capE, capD);
    var entry := if k < |st.table| then st.table[k] else st.w + [st.w[0]];
    assert entry == q by {
      if k >= |tE| {
        assert q == e && e[0] == st.w[0];
      }
    }
    LzwDecoder.StepIs(st, k, capD, entry);
  }

  /** Where the encoder's table (cap `capE`) and the decoder's (cap `capD`,
      allowed to grow at least as far) agree on the next code `k`: an old
      code names the same entry in both, and the encoder's newest entry is
      the decoder's next free code. */
  lemma ReadAgrees(tE: seq<seq<nat>>, tD: seq<seq<nat>>, tE': seq<seq<nat>>, e: seq<nat>, k: nat,
                   capE: Option<int>, capD: Option<int>)
    requires tE <= tD && (|tE| < |tD| ==> !Grow(|tE|, capE))
    requires tE' == AddEntry(tE, e, capE) && k < |tE'|
    ensures k < |tE| ==> k < |tD| && tD[k] == tE'[k]
    ensures k >= |tE| ==> k == |tD| && tE'[k] == e
  {
  }

  /** Codes that parse their phrases decode to the phrases' concatenation. */
  lemma DecodeParse(cs: seq<nat>, ps: seq<seq<nat>>, capE: Option<int>, capD: Option<int>, codeBitLength: nat)
    requires Parse(cs, ps, capE) && CapAtLeast(capD, capE) && cs != []
    ensures LzwDecoder.Decode(cs, codeBitLength, capD) == Ok(Concat(ps))
  {
    assert ParsesAt(cs, ps, capE, 0);
    assert cs[0] <= LzwDecoder.MaxCodePoint;
    DecodePrefix(cs, ps, capE, capD, |cs|);
    assert After(ps, |cs|, capD).result == ps;
  }

  /** `lzw_decompress(lzw_compress(s, capE), b, capD) == s` for every
      non-empty text over the 256 initial symbols, for every bit length, when
      the decoder's cap is no smaller than the encoder's. */
  lemma RoundTrip(s: seq<nat>, capE: Option<int>, capD: Option<int>, codeBitLength: nat)
    requires s != [] && AllBelow(s, AlphabetSize) && CapAtLeast(capD, capE)
    ensures LzwEncoder.Encode(s, capE).Ok?
    ensures LzwDecoder.Decode(LzwEncoder.Encode(s, capE).value, codeBitLength, capD) == Ok(s)
  {
    var ps := EncodeParse(s, capE);
    EncodeLength(s, capE);
    DecodeParse(LzwEncoder.Encode(s, capE).value, ps, capE, capD, codeBitLength);
  }

  /** The empty text compresses to no codes, which the decoder rejects. */
  lemma EmptyRoundTrip(capE: Option<int>, capD: Option<int>, codeBitLength: nat)
    ensures LzwEncoder.Encode([], capE) == Ok([])
    ensures LzwDecoder.Decode([], codeBitLength, capD) == Err(EmptyCodeList)
  {
  }
}
