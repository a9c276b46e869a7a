/** Exact decimal text of on-chain amounts, and the hex quantity they are read from (src/ops-read-service.ts). */
module AtomicUnits {
  import opened Ascii
  import opened Wrappers
  import opened Arithmetic

  // ----- Numerals -----

  predicate IsDigit(c: char) {
    '0' <= c <= '9'
  }

  function DigitValue(c: char): nat
    requires IsDigit(c)
  {
    (c - '0') as nat
  }

  function DigitChar(d: nat): char
    requires d < 10
  {
    '0' + d as char
  }

  predicate AllDigits(s: string) {
    forall i :: 0 <= i < |s| ==> IsDigit(s[i])
  }

  /** The number a run of digits stands for. */
  function Value(s: string): nat
    requires AllDigits(s)
  {
    if s == "" then 0 else 10 * Value(s[..|s| - 1]) + DigitValue(s[|s| - 1])
  }

  /** `BigInt.prototype.toString` */
  function ToText(n: nat): string {
    if n < 10 then [DigitChar(n)] else ToText(n / 10) + [DigitChar(n % 10)]
  }

  function Pow10(k: nat): nat {
    if k == 0 then 1 else 10 * Pow10(k - 1)
  }

  function Zeros(k: nat): string {
    seq(k, i => '0')
  }

  /** `padStart(width, "0")` */
  function PadStart(s: string, width: nat): string {
    if |s| >= width then s else Zeros(width - |s|) + s
  }

  /** `replace(/0+$/, "")` */
  function StripZeros(s: string): string {
    if s != "" && s[|s| - 1] == '0' then StripZeros(s[..|s| - 1]) else s
  }

  // ----- Quotient and remainder -----

  /** `value / divisor` and `value % divisor`, for a value that is not negative. */
  function Divide(value: nat, divisor: nat): (r: (nat, nat))
    requires divisor > 0
    ensures value == r.0 * divisor + r.1 && r.1 < divisor
  {
    (value / divisor, value % divisor)
  }

  lemma DivideIs(q: nat, r: nat, divisor: nat)
    requires r < divisor
    ensures q * divisor + r >= 0 && Divide(q * divisor + r, divisor) == (q, r)
  {
    MulMonotone(0, q, divisor);
    DivideUnique(q, r, Divide(q * divisor + r, divisor).0, Divide(q * divisor + r, divisor).1, divisor);
  }

  lemma DivideUnique(q: nat, r: nat, q2: nat, r2: nat, divisor: nat)
    requires r < divisor && r2 < divisor && q * divisor + r == q2 * divisor + r2
    ensures q == q2 && r == r2
  {
    MulSuccessor(q, divisor);
    MulSuccessor(q2, divisor);
    if q < q2 { MulMonotone(q + 1, q2, divisor); }
    if q2 < q { MulMonotone(q2 + 1, q, divisor); }
  }

  // ----- The printer -----

  datatype Error = Negative | NotHex | BadSyntax

  function FormatAtomicUnits(value: int, decimals: nat): Result<string, Error> {
    if value < 0 then Err(Negative)
    else if decimals == 0 then Ok(ToText(value))
    else
      Pow10Positive(decimals);
      var (whole, fraction) := Divide(value, Pow10(decimals));
      if fraction == 0 then Ok(ToText(whole))
      else Ok(ToText(whole) + "." + StripZeros(PadStart(ToText(fraction), decimals)))
  }

  // ----- The reader -----

  function FirstDot(s: string): nat {
    if s == "" || s[0] == '.' then 0 else 1 + FirstDot(s[1..])
  }

  /** The atomic amount a decimal text denotes, when it has at most `decimals` fraction digits. */
  function ParseScaled(s: string, decimals: nat): Option<nat> {
    FirstDotBound(s);
    var whole := s[..FirstDot(s)];
    var fraction := if FirstDot(s) < |s| then s[FirstDot(s) + 1..] else "";
    if AllDigits(whole) && AllDigits(fraction) && |fraction| <= decimals
    then Some(Value(whole) * Pow10(decimals) + Value(fraction) * Pow10(decimals - |fraction|))
    else None
  }

  /** No superfluous zero on either side, digits on both sides of a dot. */
  predicate CanonicalWhole(s: string) {
    s != "" && AllDigits(s) && (s[0] == '0' ==> s == "0")
  }

  predicate CanonicalFraction(s: string) {
    s != "" && AllDigits(s) && s[|s| - 1] != '0'
  }

  ghost predicate Canonical(s: string, decimals: nat) {
    CanonicalWhole(s)
    || exists w: string, f: string :: s == w + "." + f && CanonicalWhole(w) && CanonicalFraction(f) && |f| <= decimals
  }

  // ----- Facts about numerals -----

  lemma {:induction false} Pow10Positive(k: nat)
    ensures Pow10(k) > 0
  {
    if k > 0 { Pow10Positive(k - 1); }
  }

  lemma {:induction false} FirstDotBound(s: string)
    ensures FirstDot(s) <= |s|
    ensures FirstDot(s) < |s| ==> s[FirstDot(s)] == '.'
    decreases |s|
  {
    if s != "" && s[0] != '.' { FirstDotBound(s[1..]); }
  }

  lemma {:induction false} FirstDotAfter(w: string, rest: string)
    requires AllDigits(w)
    ensures FirstDot(w + rest) == |w| + FirstDot(rest)
    decreases |w|
  {
    if w == "" {
      assert w + rest == rest;
    } else {
      assert (w + rest)[1..] == w[1..] + rest;
      FirstDotAfter(w[1..], rest);
    }
  }

  lemma {:induction false} ToTextIs(n: nat)
    ensures CanonicalWhole(ToText(n)) && Value(ToText(n)) == n
  {
    if n >= 10 {
      ToTextIs(n / 10);
      assert ToText(n)[..|ToText(n)| - 1] == ToText(n / 10);
    }
  }

  lemma {:induction false} ValueBound(s: string)
    requires AllDigits(s)
    ensures Value(s) < Pow10(|s|)
    decreases |s|
  {
    if s != "" { ValueBound(s[..|s| - 1]); }
  }

  /** A numeral without a superfluous zero needs as many digits as its value. */
  lemma {:induction false} LongNumeral(s: string)
    requires CanonicalWhole(s) && s != "0"
    ensures Value(s) >= Pow10(|s| - 1)
    decreases |s|
  {
    if |s| > 1 {
      assert s[..|s| - 1][0] == s[0];
      LongNumeral(s[..|s| - 1]);
    }
  }

  lemma {:induction false} Pow10Monotone(a: nat, b: nat)
    requires a <= b
    ensures Pow10(a) <= Pow10(b)
    decreases b
  {
    if a < b { Pow10Monotone(a, b - 1); }
  }

  lemma TextFits(n: nat, width: nat)
    requires 0 < n < Pow10(width)
    ensures |ToText(n)| <= width
  {
    ToTextIs(n);
    LongNumeral(ToText(n));
    if |ToText(n)| > width { Pow10Monotone(width, |ToText(n)| - 1); }
  }

  lemma {:induction false} ValueInjective(a: string, b: string)
    requires AllDigits(a) && AllDigits(b) && |a| == |b| && Value(a) == Value(b)
    ensures a == b
    decreases |a|
  {
    if a != "" {
      ValueInjective(a[..|a| - 1], b[..|b| - 1]);
      assert a == a[..|a| - 1] + [a[|a| - 1]] && b == b[..|b| - 1] + [b[|b| - 1]];
    }
  }

  lemma {:induction false} LeadingZeros(k: nat, s: string)
    requires AllDigits(s)
    ensures AllDigits(Zeros(k) + s) && Value(Zeros(k) + s) == Value(s)
    decreases k + |s|
  {
    if s != "" {
      LeadingZeros(k, s[..|s| - 1]);
      assert (Zeros(k) + s)[..k + |s| - 1] == Zeros(k) + s[..|s| - 1];
    } else if k > 0 {
      LeadingZeros(k - 1, "");
      assert (Zeros(k) + "")[..k - 1] == Zeros(k - 1) + "";
    }
  }

  lemma MulTen(a: nat, b: nat)
    ensures 10 * (a * b) == a * (10 * b)
  {
  }

  lemma AppendZero(s: string, k: nat)
    requires AllDigits(s + Zeros(k))
    ensures AllDigits(s + Zeros(k + 1)) && Value(s + Zeros(k + 1)) == 10 * Value(s + Zeros(k))
  {
    var t := s + Zeros(k + 1);
    assert t[..|t| - 1] == s + Zeros(k) && t[|t| - 1] == '0';
  }

  lemma {:induction false} TrailingZeros(s: string, k: nat)
    requires AllDigits(s)
    ensures AllDigits(s + Zeros(k)) && Value(s + Zeros(k)) == Value(s) * Pow10(k)
    decreases k
  {
    if k == 0 {
      assert s + Zeros(k) == s;
    } else {
      TrailingZeros(s, k - 1);
      AppendZero(s, k - 1);
      MulTen(Value(s), Pow10(k - 1));
    }
  }

  lemma {:induction false} StripZerosIs(s: string)
    requires AllDigits(s)
    ensures |StripZeros(s)| <= |s| && AllDigits(StripZeros(s)) && s == StripZeros(s) + Zeros(|s| - |StripZeros(s)|)
    ensures StripZeros(s) != "" ==> CanonicalFraction(StripZeros(s))
    decreases |s|
  {
    if s != "" && s[|s| - 1] == '0' {
      StripZerosIs(s[..|s| - 1]);
      assert s == s[..|s| - 1] + ['0'];
    } else {
      assert s == s + Zeros(0);
    }
  }

  lemma {:induction false} StripKeeps(f: string, k: nat)
    requires CanonicalFraction(f)
    ensures StripZeros(f + Zeros(k)) == f
    decreases k
  {
    if k == 0 {
      assert f + Zeros(k) == f;
    } else {
      StripKeeps(f, k - 1);
      assert (f + Zeros(k))[..|f| + k - 1] == f + Zeros(k - 1);
    }
  }

  /** The fraction text of `n` atomic units: canonical, at most `decimals` digits, and worth `n`. */
  lemma FractionText(n: nat, decimals: nat)
    requires 0 < n < Pow10(decimals)
    ensures var f := StripZeros(PadStart(ToText(n), decimals));
      CanonicalFraction(f) && |f| <= decimals && Value(f) * Pow10(decimals - |f|) == n
  {
    ToTextIs(n);
    TextFits(n, decimals);
    var padded := PadStart(ToText(n), decimals);
    LeadingZeros(decimals - |ToText(n)|, ToText(n));
    assert padded == Zeros(decimals - |ToText(n)|) + ToText(n);
    StripZerosIs(padded);
    var f := StripZeros(padded);
    TrailingZeros(f, decimals - |f|);
  }

  /** Decimal numerals: what the digits are and what appending one does. */
  lemma NumeralMeans(s: string, d: nat)
    requires AllDigits(s) && d < 10
    ensures forall c :: IsDigit(c) <==> c in "0123456789"
    ensures Value("") == 0 && Value(s + ["0123456789"[d]]) == 10 * Value(s) + d
  {
    var t := s + ["0123456789"[d]];
    assert t[..|t| - 1] == s;
    DigitTable(d);
  }

  lemma DigitTable(d: nat)
    requires d < 10
    ensures "0123456789"[d] == '0' + d as char
    ensures forall c :: c in "0123456789" <==> '0' <= c <= '9'
  {
    assert "0123456789" == ['0', '1', '2', '3', '4', '5', '6', '7', '8', '9'];
    forall c: char | '0' <= c <= '9' ensures c in "0123456789" {
      assert "0123456789"[(c - '0') as nat] == c;
    }
  }

  // ----- Print, then read -----

  lemma ReadWhole(w: string, decimals: nat)
    requires CanonicalWhole(w)
    ensures ParseScaled(w, decimals) == Some(Value(w) * Pow10(decimals))
  {
    FirstDotAfter(w, "");
    assert w + "" == w && w[..|w|] == w;
  }

  lemma ReadBoth(w: string, f: string, decimals: nat)
    requires CanonicalWhole(w) && AllDigits(f) && |f| <= decimals
    ensures ParseScaled(w + "." + f, decimals)
         == Some(Value(w) * Pow10(decimals) + Value(f) * Pow10(decimals - |f|))
  {
    var s := w + "." + f;
    FirstDotAfter(w, "." + f);
    assert s == w + ("." + f);
    assert s[..|w|] == w && s[|w| + 1..] == f;
  }

  /** Every amount prints as canonical text, and reading the text gives the amount back. */
  lemma PrintThenRead(value: nat, decimals: nat)
    ensures FormatAtomicUnits(value, decimals).Ok?
    ensures forall debt: int :: debt < 0 ==> FormatAtomicUnits(debt, decimals) == Err(Negative)
    ensures Canonical(FormatAtomicUnits(value, decimals).value, decimals)
    ensures ParseScaled(FormatAtomicUnits(value, decimals).value, decimals) == Some(value)
  {
    var text := FormatAtomicUnits(value, decimals).value;
    Pow10Positive(decimals);
    if decimals == 0 {
      ToTextIs(value);
      ReadWhole(text, decimals);
    } else {
      var (whole, fraction) := Divide(value, Pow10(decimals));
      ToTextIs(whole);
      if fraction == 0 {
        ReadWhole(text, decimals);
      } else {
        FractionText(fraction, decimals);
        ReadBoth(ToText(whole), StripZeros(PadStart(ToText(fraction), decimals)), decimals);
      }
    }
  }

  /** Different amounts print differently. */
  lemma PrintInjective(a: nat, b: nat, decimals: nat)
    ensures FormatAtomicUnits(a, decimals) == FormatAtomicUnits(b, decimals) <==> a == b
  {
    PrintThenRead(a, decimals);
    PrintThenRead(b, decimals);
  }

  // ----- Read, then print -----

  lemma WholeText(w: string)
    requires CanonicalWhole(w)
    ensures ToText(Value(w)) == w
  {
    var t := ToText(Value(w));
    ToTextIs(Value(w));
    ValueBound(t);
    ValueBound(w);
    if w != "0" { LongNumeral(w); }
    if t != "0" { LongNumeral(t); }
    if |t| < |w| { Pow10Monotone(|t|, |w| - 1); }
    if |w| < |t| { Pow10Monotone(|w|, |t| - 1); }
    ValueInjective(t, w);
  }

  lemma FractionPrints(f: string, decimals: nat)
    requires CanonicalFraction(f) && |f| <= decimals
    ensures var n := Value(f) * Pow10(decimals - |f|);
      0 < n < Pow10(decimals) && StripZeros(PadStart(ToText(n), decimals)) == f
  {
    var k := decimals - |f|;
    TrailingZeros(f, k);
    ValueBound(f + Zeros(k));
    var n := Value(f) * Pow10(k);
    Pow10Positive(k);
    assert Value(f) > 0;
    assert n > 0;
    ToTextIs(n);
    TextFits(n, decimals);
    LeadingZeros(decimals - |ToText(n)|, ToText(n));
    var padded := Zeros(decimals - |ToText(n)|) + ToText(n);
    assert padded == PadStart(ToText(n), decimals);
    ValueInjective(padded, f + Zeros(k));
    StripKeeps(f, k);
  }

  lemma WholeRoundTrip(w: string, decimals: nat)
    requires CanonicalWhole(w)
    ensures ParseScaled(w, decimals).Some? && FormatAtomicUnits(ParseScaled(w, decimals).value, decimals) == Ok(w)
  {
    ReadWhole(w, decimals);
    Pow10Positive(decimals);
    WholeText(w);
    DivideIs(Value(w), 0, Pow10(decimals));
  }

  lemma BothRoundTrip(w: string, f: string, decimals: nat)
    requires CanonicalWhole(w) && CanonicalFraction(f) && |f| <= decimals
    ensures ParseScaled(w + "." + f, decimals).Some?
    ensures FormatAtomicUnits(ParseScaled(w + "." + f, decimals).value, decimals) == Ok(w + "." + f)
  {
    ReadBoth(w, f, decimals);
    WholeText(w);
    FractionPrints(f, decimals);
    PrintsBoth(Value(w), Value(f) * Pow10(decimals - |f|), decimals);
  }

  lemma PrintsBoth(whole: nat, fraction: nat, decimals: nat)
    requires 0 < fraction < Pow10(decimals)
    ensures whole * Pow10(decimals) + fraction >= 0
    ensures FormatAtomicUnits(whole * Pow10(decimals) + fraction, decimals)
         == Ok(ToText(whole) + "." + StripZeros(PadStart(ToText(fraction), decimals)))
  {
    DivideIs(whole, fraction, Pow10(decimals));
  }

  /** Every canonical text is printed for the amount it denotes: printing is a bijection between amounts and
      canonical texts with at most `decimals` fraction digits. */
  lemma ReadThenPrint(s: string, decimals: nat)
    requires Canonical(s, decimals)
    ensures ParseScaled(s, decimals).Some?
    ensures FormatAtomicUnits(ParseScaled(s, decimals).value, decimals) == Ok(s)
  {
    if CanonicalWhole(s) {
      WholeRoundTrip(s, decimals);
    } else {
      var w: string, f: string :| s == w + "." + f && CanonicalWhole(w) && CanonicalFraction(f) && |f| <= decimals;
      BothRoundTrip(w, f, decimals);
    }
  }

  // ----- Hex quantities -----

  predicate IsHexDigit(c: char) {
    '0' <= c <= '9' || 'a' <= c <= 'f' || 'A' <= c <= 'F'
  }

  function HexDigitValue(c: char): (d: nat)
    requires IsHexDigit(c)
    ensures d < 16
  {
    if '0' <= c <= '9' then (c - '0') as nat
    else if 'a' <= c <= 'f' then (c - 'a') as nat + 10
    else (c - 'A') as nat + 10
  }

  predicate AllHex(s: string) {
    forall i :: 0 <= i < |s| ==> IsHexDigit(s[i])
  }

  function HexValue(s: string): nat
    requires AllHex(s)
  {
    if s == "" then 0 else 16 * HexValue(s[..|s| - 1]) + HexDigitValue(s[|s| - 1])
  }

  /** Hexadecimal numerals: what the digits are and what appending one does, in either case. */
  lemma HexNumeralMeans(s: string, d: nat)
    requires AllHex(s) && d < 16
    ensures forall c :: IsHexDigit(c) <==> c in "0123456789abcdefABCDEF"
    ensures HexValue("") == 0 && HexValue(s + ["0123456789abcdef"[d]]) == 16 * HexValue(s) + d
    ensures HexValue(s + ["0123456789ABCDEF"[d]]) == 16 * HexValue(s) + d
  {
    HexTable(d);
    var t, u := s + ["0123456789abcdef"[d]], s + ["0123456789ABCDEF"[d]];
    assert t[..|t| - 1] == s && u[..|u| - 1] == s;
  }

  lemma HexTable(d: nat)
    requires d < 16
    ensures "0123456789abcdef"[d] == if d < 10 then '0' + d as char else 'a' + (d - 10) as char
    ensures "0123456789ABCDEF"[d] == if d < 10 then '0' + d as char else 'A' + (d - 10) as char
    ensures forall c :: IsHexDigit(c) <==> c in "0123456789abcdefABCDEF"
  {
    var all := "0123456789abcdefABCDEF";
    forall c | IsHexDigit(c) ensures c in all {
      var k := if '0' <= c <= '9' then (c - '0') as nat else if 'a' <= c <= 'f' then (c - 'a') as nat + 10 else (c - 'A') as nat + 16;
      assert all[k] == c;
    }
    forall c | c in all ensures IsHexDigit(c) {
      var k :| 0 <= k < |all| && all[k] == c;
    }
  }

  /** A JSON-RPC result: some other JSON value, or a string. The pattern accepts a bare "0x", which BigInt then
      refuses. */
  function ParseJsonRpcHexQuantity(value: Option<string>): Result<nat, Error> {
    if value.None? || |value.value| < 2 || value.value[..2] != "0x" || !AllHex(value.value[2..]) then Err(NotHex)
    else if |value.value| == 2 then Err(BadSyntax)
    else Ok(HexValue(value.value[2..]))
  }

  /** What the parser accepts, and which error it gives otherwise. */
  lemma ParseHexMeans(value: Option<string>)
    ensures var r := ParseJsonRpcHexQuantity(value);
      && (r.Ok? <==> exists h :: value == Some("0x" + h) && h != "" && AllHex(h))
      && (forall h :: value == Some("0x" + h) && h != "" && AllHex(h) ==> r == Ok(HexValue(h)))
      && (r == Err(BadSyntax) <==> value == Some("0x"))
      && (r.Err? && value != Some("0x") ==> r == Err(NotHex))
  {
    if value.Some? && |value.value| >= 2 && value.value[..2] == "0x" {
      var h := value.value[2..];
      assert value.value == "0x" + h;
      assert value == Some("0x" + h);
      assert h == "" ==> value.value == "0x";
    }
    assert "0x"[..2] == "0x" && "0x"[2..] == "";
    forall h | value == Some("0x" + h) && h != "" && AllHex(h) ensures ParseJsonRpcHexQuantity(value) == Ok(HexValue(h)) {
      ParsePrefixed(h);
    }
  }

  /** `raw.result` to the balance text. */
  function BalanceText(value: Option<string>, decimals: nat): Result<string, Error> {
    match ParseJsonRpcHexQuantity(value)
    case Ok(n) => FormatAtomicUnits(n, decimals)
    case Err(e) => Err(e)
  }

  /** How a node writes a quantity. */
  function ToHex(n: nat): string {
    if n < 16 then [HexChar(n)] else ToHex(n / 16) + [HexChar(n % 16)]
  }

  function HexChar(d: nat): char
    requires d < 16
  {
    if d < 10 then '0' + d as char else 'a' + (d - 10) as char
  }

  lemma {:induction false} ToHexIs(n: nat)
    ensures ToHex(n) != "" && AllHex(ToHex(n)) && HexValue(ToHex(n)) == n
  {
    if n >= 16 {
      ToHexIs(n / 16);
      assert ToHex(n)[..|ToHex(n)| - 1] == ToHex(n / 16);
    }
  }

  lemma {:induction false} HexLeadingZeros(k: nat, s: string)
    requires AllHex(s)
    ensures AllHex(Zeros(k) + s) && HexValue(Zeros(k) + s) == HexValue(s)
    decreases k + |s|
  {
    if s != "" {
      HexLeadingZeros(k, s[..|s| - 1]);
      assert (Zeros(k) + s)[..k + |s| - 1] == Zeros(k) + s[..|s| - 1];
    } else if k > 0 {
      HexLeadingZeros(k - 1, "");
      assert (Zeros(k) + "")[..k - 1] == Zeros(k - 1) + "";
    }
  }

  lemma ParsePrefixed(h: string)
    requires AllHex(h) && h != ""
    ensures ParseJsonRpcHexQuantity(Some("0x" + h)) == Ok(HexValue(h))
  {
    assert ("0x" + h)[..2] == "0x" && ("0x" + h)[2..] == h;
  }

  /** From the node's hex word to the balance text and back the amount is kept. */
  lemma BalanceKeepsAmount(h: string, decimals: nat)
    requires AllHex(h) && h != ""
    ensures var text := BalanceText(Some("0x" + h), decimals);
      text.Ok? && Canonical(text.value, decimals) && ParseScaled(text.value, decimals) == Some(HexValue(h))
  {
    ParsePrefixed(h);
    PrintThenRead(HexValue(h), decimals);
  }

  /** A node may write the amount in any width: the parser reads back what was written. */
  lemma PaddedWordReads(n: nat, padding: nat)
    ensures ParseJsonRpcHexQuantity(Some("0x" + (Zeros(padding) + ToHex(n)))) == Ok(n)
  {
    ToHexIs(n);
    HexLeadingZeros(padding, ToHex(n));
    ParsePrefixed(Zeros(padding) + ToHex(n));
  }

  // ----- The call the amount is asked with -----

  const BALANCE_OF := "0x70a08231"

  /** `encodeErc20BalanceOfCall`, for an address without surrounding blanks. */
  function EncodeBalanceOf(address: string): string {
    var text := Lower(address);
    BALANCE_OF + PadStart(if "0x" <= text then text[2..] else text, 64)
  }

  lemma {:induction false} LowerHex(h: string)
    requires AllHex(h)
    ensures AllHex(Lower(h)) && HexValue(Lower(h)) == HexValue(h)
  {
    if h != "" {
      var n := |h| - 1;
      LowerHex(h[..n]);
      assert Lower(h)[..n] == Lower(h[..n]);
    }
  }

  lemma NoPrefix(h: string)
    requires AllHex(h)
    ensures !("0x" <= h)
  {
    if |h| >= 2 { assert IsHexDigit(h[1]) && "0x"[1] == 'x'; }
  }

  lemma LowerPrefixed(h: string, prefixed: bool)
    requires AllHex(h)
    ensures EncodeBalanceOf(if prefixed then "0x" + h else h) == BALANCE_OF + PadStart(Lower(h), 64)
  {
    LowerHex(h);
    if prefixed {
      var text := Lower("0x" + h);
      assert text[..2] == "0x" && text[2..] == Lower(h);
    } else {
      NoPrefix(Lower(h));
    }
  }

  /** The call data is the selector and one 32-byte word holding the address's number, whether or not the address
      is prefixed and whatever the case of its digits. */
  lemma CallCarriesAddress(h: string, prefixed: bool)
    requires AllHex(h) && |h| <= 64
    ensures var call := EncodeBalanceOf(if prefixed then "0x" + h else h);
      |call| == 74 && call[..10] == "0x70a08231" && AllHex(call[10..]) && HexValue(call[10..]) == HexValue(h)
  {
    LowerPrefixed(h, prefixed);
    LowerHex(h);
    HexLeadingZeros(64 - |h|, Lower(h));
    var call := EncodeBalanceOf(if prefixed then "0x" + h else h);
    assert call[10..] == PadStart(Lower(h), 64);
  }

  /** Two addresses of the same length are asked about with the same call exactly when they differ in case only. */
  lemma SameCallIffSameAddress(a: string, b: string)
    requires AllHex(a) && AllHex(b) && |a| == |b| <= 64
    ensures EncodeBalanceOf(a) == EncodeBalanceOf(b) <==> Lower(a) == Lower(b)
  {
    LowerPrefixed(a, false);
    LowerPrefixed(b, false);
    var x, y := PadStart(Lower(a), 64), PadStart(Lower(b), 64);
    assert (BALANCE_OF + x)[10..] == x && (BALANCE_OF + y)[10..] == y;
    assert x[64 - |a|..] == Lower(a) && y[64 - |b|..] == Lower(b);
  }
}
