/** The parameters travel from compressor to decompressor in the name of
    the output directory.  The test harness writes
    `output_dict<M>_code<b>bit`, or `output_nodictlimit_code<b>bit` when
    there is no cap or the cap is 0, and the manual compressor always
    writes `output_dict<M>_code<b>bit`.  The decompressor reads the name
    back with `re.match(r'output_(dict\d+|nodictlimit)_code(\d+)bit', ...)`:
    anchored at the start only, so anything after `bit` is ignored. */
module DirNames {
  import opened Common

  predicate IsDigit(c: char)
  {
    '0' <= c <= '9'
  }

  predicate AllDigits(s: string)
  {
    forall i :: 0 <= i < |s| ==> IsDigit(s[i])
  }

  function DigitChar(d: nat): (c: char)
    requires d < 10
    ensures IsDigit(c)
  {
    ('0' as int + d) as char
  }

  function DigitValue(c: char): (d: nat)
    requires IsDigit(c)
    ensures d < 10
  {
    c as int - '0' as int
  }

  /** `str(n)` for a natural number: decimal, no leading zeros. */
  function NatToDecimal(n: nat): (s: string)
    ensures s != [] && AllDigits(s)
    ensures n > 0 ==> s[0] != '0'
    decreases n
  {
    if n < 10 then [DigitChar(n)]
    else
      var init := NatToDecimal(n / 10);
      assert forall i :: 0 <= i < |init| ==> (init + [DigitChar(n % 10)])[i] == init[i];
      init + [DigitChar(n % 10)]
  }

  /** `str(i)` for any integer: a minus sign in front of a negative one. */
  function IntToDecimal(i: int): (r: string)
  {
    if i < 0 then "-" + NatToDecimal(-i) else NatToDecimal(i)
  }

  /** `int(s)` of a string of decimal digits (leading zeros allowed). */
  function DecimalValue(s: string): (r: nat)
    requires AllDigits(s)
    decreases |s|
  {
    if s == [] then 0 else DecimalValue(s[..|s| - 1]) * 10 + DigitValue(s[|s| - 1])
  }

  /** How many decimal digits `s` starts with: what the greedy `\d+`
      consumes. */
  function DigitRun(s: string): (n: nat)
    ensures n <= |s| && AllDigits(s[..n]) && (n < |s| ==> !IsDigit(s[n]))
    decreases |s|
  {
    if s == [] || !IsDigit(s[0]) then 0
    else
      var m := DigitRun(s[1..]);
      assert s[..m + 1] == [s[0]] + s[1..][..m];
      m + 1
  }

  datatype DirParams = DirParams(maxDictSize: Option<int>, codeBitLength: nat)

  /** The dictionary part of the test harness's directory name: `dict<M>`
      for a non-zero cap, `nodictlimit` for none or `0`. */
  function DictField(maxDictSize: Option<int>): (r: string)
  {
    if maxDictSize.Some? && maxDictSize.value != 0 then "dict" + IntToDecimal(maxDictSize.value)
    else "nodictlimit"
  }

  /** The test harness's output directory name. */
  function OutputDirName(maxDictSize: Option<int>, codeBitLength: int): (r: string)
  {
    "output_" + DictField(maxDictSize) + "_code" + IntToDecimal(codeBitLength) + "bit"
  }

  /** The manual compressor's output directory name. */
  function ManualOutputDirName(maxDictSize: int, codeBitLength: int): (r: string)
  {
    "output_dict" + IntToDecimal(maxDictSize) + "_code" + IntToDecimal(codeBitLength) + "bit"
  }

  /** `_code(\d+)bit` at the start of `t`.  The greedy digits can only be
      followed by `b`, so giving some of them back never helps: the match is
      decided by the longest digit run. */
  function ParseCodeField(t: string): (r: Option<nat>)
  {
    if !("_code" <= t) then None
    else
      var u := t[5..];
      var n := DigitRun(u);
      if n == 0 || !("bit" <= u[n..]) then None else Some(DecimalValue(u[..n]))
  }

  /** The decompressor's `re.match` and the conversions after it: `None` is
      the "Cannot extract parameters" branch. */
  function ParseOutputDirName(name: string): (r: Option<DirParams>)
  {
    if "output_" <= name then ParseFields(name[7..]) else None
  }

  /** `(dict\d+|nodictlimit)_code(\d+)bit` at the start of `rest`.  A `dict`
      alternative whose digits are missing falls through to `nodictlimit`,
      which cannot match a name that goes on with `dict`. */
  function ParseFields(rest: string): (r: Option<DirParams>)
  {
    var u := if "dict" <= rest then rest[4..] else [];
    var d := DigitRun(u);
    if "dict" <= rest && d > 0 then
      match ParseCodeField(u[d..])
      case None => None
      case Some(b) => Some(DirParams(Some(DecimalValue(u[..d])), b))
    else if "nodictlimit" <= rest then
      match ParseCodeField(rest[11..])
      case None => None
      case Some(b) => Some(DirParams(None, b))
    else None
  }

  lemma Assoc(x: string, y: string, z: string)
    ensures x + y + z == x + (y + z)
  {
  }

  lemma DropPrefix(p: string, x: string)
    ensures p <= p + x && (p + x)[|p|..] == x
  {
  }

  /** Reading the digits of `str(n)` gives `n`. */
  lemma {:induction false} DecimalRoundTrip(n: nat)
    ensures DecimalValue(NatToDecimal(n)) == n
    decreases n
  {
    if n >= 10 {
      var init := NatToDecimal(n / 10);
      DecimalRoundTrip(n / 10);
      assert (init + [DigitChar(n % 10)])[..|init|] == init;
    }
  }

  /** A digit run stops where the digits stop. */
  lemma DigitRunOf(digits: string, t: string)
    requires AllDigits(digits) && (t == [] || !IsDigit(t[0]))
    ensures DigitRun(digits + t) == |digits| && (digits + t)[..|digits|] == digits
    decreases |digits|
  {
    if digits != [] {
      assert (digits + t)[1..] == digits[1..] + t;
      DigitRunOf(digits[1..], t);
    } else {
      assert digits + t == t;
    }
  }

  /** `_code<b>bit` followed by anything reads as `b`. */
  lemma ParseCodeFieldOf(b: nat, suffix: string)
    ensures ParseCodeField("_code" + (NatToDecimal(b) + ("bit" + suffix))) == Some(b)
  {
    var digits := NatToDecimal(b);
    DropPrefix("_code", digits + ("bit" + suffix));
    DigitRunOf(digits, "bit" + suffix);
    DropPrefix(digits, "bit" + suffix);
    DecimalRoundTrip(b);
  }

  /** `dict<m>` followed by `_code<b>bit` and anything reads back as
      `(m, b)` for a non-negative `m`. */
  lemma ParseDictFields(m: nat, b: nat, suffix: string)
    ensures ParseFields("dict" + (NatToDecimal(m) + ("_code" + (NatToDecimal(b) + ("bit" + suffix)))))
            == Some(DirParams(Some(m), b))
  {
    var digits := NatToDecimal(m);
    var tail := "_code" + (NatToDecimal(b) + ("bit" + suffix));
    DropPrefix("dict", digits + tail);
    DigitRunOf(digits, tail);
    DropPrefix(digits, tail);
    ParseCodeFieldOf(b, suffix);
    DecimalRoundTrip(m);
  }

  /** `_code<b>bit` as the builders write it. */
  lemma CodeField(b: nat)
    ensures "_code" + IntToDecimal(b) + "bit" == "_code" + (NatToDecimal(b) + ("bit" + []))
  {
  }

  /** The test harness's name for a non-zero cap is the manual compressor's. */
  lemma DictNameIsManual(m: int, b: nat)
    requires m != 0
    ensures OutputDirName(Some(m), b) == ManualOutputDirName(m, b)
  {
  }

  /** `nodictlimit` followed by `_code<b>bit` and anything reads back as
      no cap and `b`. */
  lemma ParseNoDictFields(b: nat, suffix: string)
    ensures ParseFields("nodictlimit" + ("_code" + (NatToDecimal(b) + ("bit" + suffix))))
            == Some(DirParams(None, b))
  {
    var x := "nodictlimit" + ("_code" + (NatToDecimal(b) + ("bit" + suffix)));
    assert x[0] == 'n';
    DropPrefix("nodictlimit", "_code" + (NatToDecimal(b) + ("bit" + suffix)));
    ParseCodeFieldOf(b, suffix);
  }

  /** Without a cap, or with the cap `0`, the name reads back as no cap. */
  lemma ParseNoDictLimitName(maxDictSize: Option<int>, b: nat)
    requires maxDictSize.None? || maxDictSize.value == 0
    ensures ParseOutputDirName(OutputDirName(maxDictSize, b)) == Some(DirParams(None, b))
  {
    var field, code := "nodictlimit", "_code" + (NatToDecimal(b) + ("bit" + []));
    NameShape("output_" + field, NatToDecimal(b));
    Assoc("output_", field, code);
    DropPrefix("output_", field + code);
    ParseNoDictFields(b, []);
  }

  /** The name the manual compressor builds reads back as `(M, b)` exactly
      when `M` is not negative; `dict0` gives a cap of 0. */
  lemma ParseManualOutputDirNameOf(m: int, b: nat)
    ensures ParseOutputDirName(ManualOutputDirName(m, b)) ==
            if m < 0 then None else Some(DirParams(Some(m), b))
  {
    if m < 0 {
      ParseNegativeName(m, b);
    } else {
      ParseDictName(m, b);
    }
  }

  /** `output_dict<M>_code<b>bit` for a natural `M` reads back as `(M, b)`. */
  lemma ParseDictName(m: nat, b: nat)
    ensures ParseOutputDirName(ManualOutputDirName(m, b)) == Some(DirParams(Some(m), b))
  {
    var code := "_code" + (NatToDecimal(b) + ("bit" + []));
    CodeField(b);
    var rest := "dict" + (NatToDecimal(m) + code);
    assert ManualOutputDirName(m, b) == "output_" + rest;
    DropPrefix("output_", rest);
    ParseDictFields(m, b, []);
  }

  /** `output_dict-<M>_code<b>bit` matches no alternative of the pattern. */
  lemma ParseNegativeName(m: int, b: nat)
    requires m < 0
    ensures ParseOutputDirName(ManualOutputDirName(m, b)) == None
  {
    var head := "output_dict" + IntToDecimal(m);
    NameShape(head, IntToDecimal(b));
    var name := head + ("_code" + (IntToDecimal(b) + ("bit" + [])));
    assert name[..12] == head[..12];
    DashNameUnreadable(name);
  }

  /** A name the builders write: a head, then `_code<digits>bit`. */
  lemma NameShape(head: string, digits: string)
    ensures head + "_code" + digits + "bit" == head + ("_code" + (digits + ("bit" + [])))
  {
    assert "bit" + [] == "bit";
  }

  /** No name that starts with `output_dict-` matches the pattern. */
  lemma DashNameUnreadable(name: string)
    requires |name| >= 12 && name[..12] == "output_dict-"
    ensures ParseOutputDirName(name) == None
  {
    assert name[..7] == "output_";
    var rest := name[7..];
    assert rest[..4] == "dict" && rest[4] == '-' && rest[0] == 'd';
  }

  /** The name the test harness builds reads back as its bit length, with
      the cap it names: no cap for `None` or `0`, and no match at all for a
      negative cap. */
  lemma ParseOutputDirNameOf(maxDictSize: Option<int>, b: nat)
    ensures ParseOutputDirName(OutputDirName(maxDictSize, b)) ==
            if maxDictSize.Some? && maxDictSize.value < 0 then None
            else if maxDictSize.Some? && maxDictSize.value != 0 then Some(DirParams(maxDictSize, b))
            else Some(DirParams(None, b))
  {
    if maxDictSize.Some? && maxDictSize.value != 0 {
      DictNameIsManual(maxDictSize.value, b);
      ParseManualOutputDirNameOf(maxDictSize.value, b);
    } else {
      ParseNoDictLimitName(maxDictSize, b);
    }
  }
}
