/** `parse_number`: the lenient reader the BMI action applies to the weight and
    height slots. Numbers pass through; any other value is searched, as text, for
    its first unsigned decimal, a comma counting as the decimal point. Values are
    exact rationals (`real`); binary floating point is not modelled. */
module NumberParse {
  import opened Text
  import opened Dialogue

  /** The value of one ASCII digit. */
  function DigitValue(c: char): (d: nat)
    requires IsDigit(c)
    ensures d < 10
  {
    c as int - '0' as int
  }

  predicate AllDigits(s: string) {
    forall i :: 0 <= i < |s| ==> IsDigit(s[i])
  }

  predicate NoDigits(s: string) {
    forall i :: 0 <= i < |s| ==> !IsDigit(s[i])
  }

  /** The natural number a string of decimal digits denotes. */
  function DigitsValue(ds: string): nat
    requires AllDigits(ds)
    decreases |ds|
  {
    if ds == [] then 0 else DigitsValue(ds[..|ds| - 1]) * 10 + DigitValue(ds[|ds| - 1])
  }

  function Pow10(n: nat): (p: nat)
    ensures p >= 1
  {
    if n == 0 then 1 else 10 * Pow10(n - 1)
  }

  /** The value of the decimal literal `whole.frac`; an empty `frac` means no fraction. */
  function DecimalValue(whole: string, frac: string): (v: real)
    requires AllDigits(whole) && AllDigits(frac)
    ensures v >= 0.0
  {
    DigitsValue(whole) as real + DigitsValue(frac) as real / Pow10(|frac|) as real
  }

  /** `str(value).replace(",", ".")` on a string: commas become dots, nothing else moves. */
  function CommaToDot(s: string): (t: string)
    ensures |t| == |s|
    ensures forall i :: 0 <= i < |s| ==> t[i] == if s[i] == ',' then '.' else s[i]
  {
    ReplaceOneChar(s, ',', '.');
    ReplaceAll(s, ",", ".")
  }

  /** The position of the first digit of `t` at or after `i`, or `|t|` if there is none. */
  function FirstDigitFrom(t: string, i: nat): (k: nat)
    requires i <= |t|
    ensures i <= k <= |t|
    ensures forall j :: i <= j < k ==> !IsDigit(t[j])
    ensures k < |t| ==> IsDigit(t[k])
    decreases |t| - i
  {
    if i == |t| || IsDigit(t[i]) then i else FirstDigitFrom(t, i + 1)
  }

  /** The end of the longest run of digits of `t` that starts at `i`. */
  function DigitRunEnd(t: string, i: nat): (k: nat)
    requires i <= |t|
    ensures i <= k <= |t|
    ensures forall j :: i <= j < k ==> IsDigit(t[j])
    ensures k < |t| ==> !IsDigit(t[k])
    decreases |t| - i
  {
    if i < |t| && IsDigit(t[i]) then DigitRunEnd(t, i + 1) else i
  }

  /** `re.search(r"(\d+(\.\d+)?)", t)` and `float(m.group(1))`: the match starts at the
      first digit, takes the longest run of digits, and takes a fraction only when a
      dot is directly followed by a digit; the fraction is again the longest run. */
  function SearchDecimal(t: string): (r: Option<real>)
    ensures r == None <==> NoDigits(t)
    ensures r.Some? ==> r.value >= 0.0
  {
    var start := FirstDigitFrom(t, 0);
    if start == |t| then
      None
    else
      var wholeEnd := DigitRunEnd(t, start);
      if wholeEnd + 1 < |t| && t[wholeEnd] == '.' && IsDigit(t[wholeEnd + 1]) then
        var fracEnd := DigitRunEnd(t, wholeEnd + 1);
        Some(DecimalValue(t[start..wholeEnd], t[wholeEnd + 1..fracEnd]))
      else
        Some(DecimalValue(t[start..wholeEnd], []))
  }

  /** `parse_number(value)`: None stays None; a bool, int or float is returned as a
      float (Python counts `True` as 1); any other value yields the first unsigned
      decimal of its text, or None when the text holds no digit at all. */
  function ParseNumber(v: SlotValue): (r: Option<real>)
    ensures v.Null? ==> r == None
    ensures v.Num? ==> r == Some(v.x)
    ensures v.Bool? ==> r == Some(if v.b then 1.0 else 0.0)
    ensures v.Str? ==> (r == None <==> NoDigits(v.s))
    ensures v.Str? && r.Some? ==> r.value >= 0.0
  {
    match v
    case Null => None
    case Bool(b) => Some(if b then 1.0 else 0.0)
    case Num(x) => Some(x)
    case Str(s) => SearchDecimal(CommaToDot(s))
  }

  /** A digit at `p` preceded only by non-digits is where the match starts. */
  lemma FirstDigitAt(t: string, p: nat)
    requires p < |t| && IsDigit(t[p])
    requires NoDigits(t[..p])
    ensures FirstDigitFrom(t, 0) == p
  {
    assert forall j :: 0 <= j < p ==> !IsDigit(t[j]) by {
      forall j | 0 <= j < p ensures !IsDigit(t[j]) { assert t[..p][j] == t[j]; }
    }
  }

  /** A run of digits from `p` to `q` followed by a non-digit is a longest run. */
  lemma RunEndsAt(t: string, p: nat, q: nat)
    requires p <= q <= |t|
    requires AllDigits(t[p..q])
    requires q < |t| ==> !IsDigit(t[q])
    ensures DigitRunEnd(t, p) == q
  {
    assert forall j :: p <= j < q ==> IsDigit(t[j]) by {
      forall j | p <= j < q ensures IsDigit(t[j]) { assert t[p..q][j - p] == t[j]; }
    }
  }

  /** The scanner finds `whole.frac` when the dotted text has it at `p`. */
  lemma SearchFindsFraction(t: string, p: nat, q: nat, f: nat)
    requires p < q && q + 1 < f <= |t|
    requires NoDigits(t[..p])
    requires AllDigits(t[p..q]) && t[q] == '.' && AllDigits(t[q + 1..f])
    requires f < |t| ==> !IsDigit(t[f])
    ensures SearchDecimal(t) == Some(DecimalValue(t[p..q], t[q + 1..f]))
  {
    assert IsDigit(t[p]) by { assert t[p..q][0] == t[p]; }
    assert IsDigit(t[q + 1]) by { assert t[q + 1..f][0] == t[q + 1]; }
    FirstDigitAt(t, p);
    RunEndsAt(t, p, q);
    RunEndsAt(t, q + 1, f);
  }

  /** The scanner finds `whole` when the dotted text has it at `p`, not followed by a
      dot and a digit. */
  lemma SearchFindsWhole(t: string, p: nat, q: nat)
    requires p < q <= |t|
    requires NoDigits(t[..p]) && AllDigits(t[p..q])
    requires q < |t| ==> !IsDigit(t[q])
    requires q + 1 < |t| && t[q] == '.' ==> !IsDigit(t[q + 1])
    ensures SearchDecimal(t) == Some(DigitsValue(t[p..q]) as real)
  {
    assert IsDigit(t[p]) by { assert t[p..q][0] == t[p]; }
    FirstDigitAt(t, p);
    RunEndsAt(t, p, q);
  }

  /** Commas are dotted one by one, so dotting distributes over concatenation. */
  lemma CommaToDotConcat(a: string, b: string)
    ensures CommaToDot(a + b) == CommaToDot(a) + CommaToDot(b)
  {
  }

  /** Dotting changes neither digits nor non-digits. */
  lemma CommaToDotDigits(s: string)
    ensures AllDigits(s) ==> CommaToDot(s) == s
    ensures NoDigits(s) ==> NoDigits(CommaToDot(s))
  {
  }

  /** A number with a fraction, written with a dot or a comma, after text without
      digits and before text that does not continue it, is read exactly. */
  lemma ReadsDecimal(prefix: string, whole: string, sep: char, frac: string, rest: string)
    requires NoDigits(prefix)
    requires whole != [] && AllDigits(whole)
    requires sep == '.' || sep == ','
    requires frac != [] && AllDigits(frac)
    requires rest == [] || !IsDigit(rest[0])
    ensures ParseNumber(Str(prefix + whole + [sep] + frac + rest)) == Some(DecimalValue(whole, frac))
  {
    DottedPieces(prefix, whole, sep, frac, rest);
    CommaToDotDigits(prefix);
    FractionFound(CommaToDot(prefix), whole, frac, CommaToDot(rest));
  }

  /** The scanner finds `whole.frac` after text without digits. */
  lemma FractionFound(a: string, whole: string, frac: string, rest: string)
    requires NoDigits(a)
    requires whole != [] && AllDigits(whole)
    requires frac != [] && AllDigits(frac)
    requires rest == [] || !IsDigit(rest[0])
    ensures SearchDecimal(a + whole + ['.'] + frac + rest) == Some(DecimalValue(whole, frac))
  {
    var u := whole + ['.'] + frac;
    var t := a + u + rest;
    assert a + whole + ['.'] + frac + rest == t;
    var p, q := |a|, |a| + |whole|;
    var f := q + 1 + |frac|;
    Framed(a, u, rest);
    assert u[..|whole|] == whole && u[|whole|] == '.' && u[|whole| + 1..] == frac;
    assert t[p..q] == u[..|whole|];
    assert t[q + 1..f] == u[|whole| + 1..];
    assert t[q] == u[|whole|];
    SearchFindsFraction(t, p, q, f);
  }

  /** The middle of `a + u + rest` is `u`, preceded by `a` and followed by `rest`. */
  lemma Framed(a: string, u: string, rest: string)
    ensures var t := a + u + rest;
      && t[..|a|] == a && t[|a|..|a| + |u|] == u
      && (forall j :: 0 <= j < |u| ==> t[|a| + j] == u[j])
      && (rest != [] ==> t[|a| + |u|] == rest[0])
  {
  }

  /** Dotting the text of a number with a fraction dots only its separator and the
      text around it. */
  lemma DottedPieces(prefix: string, whole: string, sep: char, frac: string, rest: string)
    requires AllDigits(whole) && AllDigits(frac)
    requires sep == '.' || sep == ','
    ensures CommaToDot(prefix + whole + [sep] + frac + rest)
      == CommaToDot(prefix) + whole + ['.'] + frac + CommaToDot(rest)
  {
    CommaToDotDigits(whole);
    CommaToDotDigits(frac);
    var a := prefix + whole;
    CommaToDotConcat(prefix, whole);
    CommaToDotConcat(a, [sep]);
    CommaToDotConcat(a + [sep], frac);
    CommaToDotConcat(a + [sep] + frac, rest);
  }

  /** A number without a fraction, after text without digits and before text that
      does not start with a digit or with a dot or comma followed by a digit, is read
      exactly. */
  lemma ReadsWholeNumber(prefix: string, whole: string, rest: string)
    requires NoDigits(prefix)
    requires whole != [] && AllDigits(whole)
    requires rest == [] || !IsDigit(rest[0])
    requires |rest| >= 2 && (rest[0] == '.' || rest[0] == ',') ==> !IsDigit(rest[1])
    ensures ParseNumber(Str(prefix + whole + rest)) == Some(DigitsValue(whole) as real)
  {
    var t := CommaToDot(prefix) + whole + CommaToDot(rest);
    CommaToDotConcat(prefix + whole, rest);
    CommaToDotConcat(prefix, whole);
    CommaToDotDigits(prefix);
    CommaToDotDigits(whole);
    assert CommaToDot(prefix + whole + rest) == t;
    var p, q := |prefix|, |prefix| + |whole|;
    assert t[..p] == CommaToDot(prefix);
    assert t[p..q] == whole;
    SearchFindsWhole(t, p, q);
  }

  /** A comma is a decimal point and a unit after the number is ignored. */
  lemma ReadsCommaDecimal(s: string)
    requires s == "58,5 kg"
    ensures ParseNumber(Str(s)) == Some(58.5)
  {
    var whole, frac, rest := "58", "5", " kg";
    assert s == [] + whole + [','] + frac + rest;
    assert DigitsValue(whole) == 58 by { assert whole[..1] == "5"; }
    assert DigitsValue(frac) == 5 by { assert frac[..0] == ""; }
    assert Pow10(|frac|) == 10;
    assert DecimalValue(whole, frac) == 58.5;
    ReadsDecimal([], whole, ',', frac, rest);
  }

  /** Text before the number is skipped, and so is a unit after it. */
  lemma ReadsEmbeddedWhole(s: string)
    requires s == "mido 164 cm"
    ensures ParseNumber(Str(s)) == Some(164.0)
  {
    var prefix, whole, rest := "mido ", "164", " cm";
    assert s == prefix + whole + rest;
    assert NoDigits(prefix);
    assert DigitsValue(whole) == 164 by { assert whole[..2] == "16"; assert "16"[..1] == "1"; }
    ReadsWholeNumber(prefix, whole, rest);
  }

  /** Text without a digit cannot be read. */
  lemma ReadsNothing()
    ensures ParseNumber(Str("abc")) == None
  {
    assert !IsDigit("abc"[0]) && !IsDigit("abc"[1]) && !IsDigit("abc"[2]);
  }

  /** A minus sign is not part of the number: negative text reads as positive. */
  lemma DropsMinusSign(s: string)
    requires s == "-60"
    ensures ParseNumber(Str(s)) == Some(60.0)
  {
    var prefix, whole := "-", "60";
    assert NoDigits(prefix) && AllDigits(whole);
    assert prefix + whole + "" == s;
    ReadsWholeNumber(prefix, whole, "");
    assert DigitsValue("60") == 60 by { assert "60"[..1] == "6"; }
  }
}
