/** `ActionCalcularIMC`: reads weight and height from the slots, reads a height above
    3 as centimetres, rejects non-positive values, computes the body-mass index
    `peso / altura²`, classifies it into one of three bands and persists four slots.
    Arithmetic is exact (`real`); the two-decimal text of the index is rounded half to
    even on the exact value. */
module Bmi {
  import opened Text
  import opened Dialogue
  import opened NumberParse

  datatype Band = Low | Healthy | High

  /** The band of an index: below 18.5 low, from 18.5 up to 25 healthy, from 25 high. */
  function Classify(imc: real): (b: Band)
    ensures b == Low <==> imc < 18.5
    ensures b == Healthy <==> 18.5 <= imc < 25.0
    ensures b == High <==> 25.0 <= imc
  {
    if imc < 18.5 then Low else if imc < 25.0 then Healthy else High
  }

  function BandRank(b: Band): nat {
    match b
    case Low => 0
    case Healthy => 1
    case High => 2
  }

  /** The three bands are told apart by their interpretation texts. */
  lemma InterpretationsDiffer(a: Band, b: Band)
    ensures Interpretation(a) == Interpretation(b) <==> a == b
  {
    var low, healthy, high := Interpretation(Low), Interpretation(Healthy), Interpretation(High);
    assert low == "Tu IMC est\U{E1} bajo. Podr\U{ED}as necesitar comer un poquito m\U{E1}s para crecer fuerte.";
    assert healthy == "\U{A1}Tu IMC es saludable! Sigue as\U{ED}.";
    assert high == "Tu IMC est\U{E1} un poco alto. Te recomiendo moverte m\U{E1}s y comer saludable.";
    assert low[|low| - 3] == 't' && healthy[|healthy| - 3] == 's' && high[|high| - 3] == 'l';
  }

  /** A larger index never falls into a lower band. */
  lemma ClassifyMonotone(a: real, b: real)
    requires a <= b
    ensures BandRank(Classify(a)) <= BandRank(Classify(b))
  {
  }

  /** The interpretation text persisted for each band. */
  function Interpretation(b: Band): string {
    match b
    case Low => "Tu IMC est\U{E1} bajo. Podr\U{ED}as necesitar comer un poquito m\U{E1}s para crecer fuerte."
    case Healthy => "\U{A1}Tu IMC es saludable! Sigue as\U{ED}."
    case High => "Tu IMC est\U{E1} un poco alto. Te recomiendo moverte m\U{E1}s y comer saludable."
  }

  /** `peso / (altura ** 2)`: positive for a positive weight and height. */
  function Imc(w: real, m: real): (imc: real)
    requires w > 0.0 && m > 0.0
    ensures imc > 0.0
    ensures imc * (m * m) == w
  {
    var sq := m * m;
    assert sq > 0.0;
    w / sq
  }

  /** The height in metres: a value above 3 is taken to be centimetres and divided by
      100, any other value is kept. The sign is kept, and a height of at most 300 ends
      up at most 3. */
  function Metres(h: real): (m: real)
    ensures h <= 3.0 ==> m == h
    ensures h > 3.0 ==> m * 100.0 == h
    ensures m > 0.0 <==> h > 0.0
    ensures h <= 300.0 ==> m <= 3.0
  {
    if h > 3.0 then h / 100.0 else h
  }

  /** `x` rounded half to even to a whole number of hundredths. */
  function RoundToCents(x: real): (n: nat)
    requires x >= 0.0
    ensures -0.5 <= n as real - 100.0 * x <= 0.5
  {
    var q := 100.0 * x;
    var lo := q.Floor;
    var above := q - lo as real;
    if above > 0.5 || (above == 0.5 && lo % 2 == 1) then lo + 1 else lo
  }

  function DigitChar(d: nat): (c: char)
    requires d < 10
    ensures IsDigit(c) && DigitValue(c) == d
  {
    (d + '0' as int) as char
  }

  /** The decimal numeral of `n`, without leading zeros. */
  function Numeral(n: nat): (s: string)
    ensures s != [] && AllDigits(s) && DigitsValue(s) == n
    ensures s[0] != '0' || s == "0"
    decreases n
  {
    if n < 10 then
      [DigitChar(n)]
    else
      var s := Numeral(n / 10) + [DigitChar(n % 10)];
      assert s[..|s| - 1] == Numeral(n / 10);
      s
  }

  /** `f"{x:.2f}"` for a non-negative `x`: a whole part without leading zeros, a dot,
      and exactly two digits of hundredths. */
  function FormatCents(x: real): (s: string)
    requires x >= 0.0
    ensures |s| >= 4 && s[|s| - 3] == '.'
    ensures AllDigits(s[..|s| - 3]) && AllDigits(s[|s| - 2..])
    ensures s[0] != '0' || s[1] == '.'
  {
    var n := RoundToCents(x);
    var whole := Numeral(n / 100);
    var s := whole + "." + [DigitChar(n / 10 % 10), DigitChar(n % 10)];
    assert s[..|s| - 3] == whole;
    assert s[|s| - 2..] == [DigitChar(n / 10 % 10), DigitChar(n % 10)];
    s
  }

  /** The two-digit fraction of a cents count denotes its last two decimal places. */
  lemma CentsDigits(n: nat)
    ensures var frac := [DigitChar(n / 10 % 10), DigitChar(n % 10)];
      AllDigits(frac) && DigitsValue(frac) == n % 100
  {
    var a, b := n / 10 % 10, n % 10;
    var frac := [DigitChar(a), DigitChar(b)];
    assert frac[..1] == [DigitChar(a)];
    assert [DigitChar(a)][..0] == [];
    assert DigitsValue([DigitChar(a)]) == a;
    assert DigitsValue(frac) == 10 * a + b;
    LastTwoDigits(n);
  }

  /** The last two decimal digits of `n` make up `n % 100`. */
  lemma LastTwoDigits(n: nat)
    ensures n % 100 == 10 * (n / 10 % 10) + n % 10
  {
    var t, b := n / 10, n % 10;
    var q, a := t / 10, t % 10;
    assert n == 10 * t + b;
    assert t == 10 * q + a;
    assert n == 100 * q + (10 * a + b);
    assert 0 <= 10 * a + b < 100;
  }

  /** Whole part and two-digit fraction together denote the cents count over 100. */
  lemma CentsValue(n: nat)
    ensures var frac := [DigitChar(n / 10 % 10), DigitChar(n % 10)];
      AllDigits(frac) && DecimalValue(Numeral(n / 100), frac) == n as real / 100.0
  {
    CentsDigits(n);
    var frac := [DigitChar(n / 10 % 10), DigitChar(n % 10)];
    assert Pow10(|frac|) == 100;
    var q, r := n / 100, n % 100;
    assert DigitsValue(Numeral(q)) == q && DigitsValue(frac) == r;
    assert DecimalValue(Numeral(q), frac) == q as real + r as real / 100.0;
    CentsSum(n, q, r);
  }

  /** `q + r/100` is `n/100` when `n = 100q + r`. */
  lemma CentsSum(n: nat, q: nat, r: nat)
    requires q == n / 100 && r == n % 100
    ensures q as real + r as real / 100.0 == n as real / 100.0
  {
    assert n == 100 * q + r;
    assert (100 * q + r) as real == 100.0 * q as real + r as real;
  }

  /** Reading back the two-decimal text gives the value rounded to hundredths, which
      is within half a hundredth of the value. */
  lemma FormatCentsReadsBack(x: real)
    requires x >= 0.0
    ensures ParseNumber(Str(FormatCents(x))) == Some(RoundToCents(x) as real / 100.0)
    ensures -0.005 <= RoundToCents(x) as real / 100.0 - x <= 0.005
  {
    CentsReadBack(RoundToCents(x));
    var n := RoundToCents(x) as real;
    assert n / 100.0 - x == (n - 100.0 * x) / 100.0;
  }

  /** The text of a cents count, whole part, dot and two digits, reads back as the
      count over 100. */
  lemma CentsReadBack(n: nat)
    ensures ParseNumber(Str(Numeral(n / 100) + "." + [DigitChar(n / 10 % 10), DigitChar(n % 10)]))
      == Some(n as real / 100.0)
  {
    var whole := Numeral(n / 100);
    var frac := [DigitChar(n / 10 % 10), DigitChar(n % 10)];
    CentsValue(n);
    DotJoin(whole, frac);
    ReadsDecimal([], whole, '.', frac, []);
  }

  /** The whole part, the dot and the fraction, as the number scanner splits them. */
  lemma DotJoin(whole: string, frac: string)
    ensures whole + "." + frac == [] + whole + ['.'] + frac + []
  {
  }

  /** The four slot updates of a completed assessment, in the order the action returns
      them: weight, height in metres, the two-decimal index text, the interpretation. */
  function Persisted(w: real, m: real): (e: seq<Event>)
    requires w > 0.0 && m > 0.0
    ensures |e| == 4
    ensures e[0] == SlotSet(WeightSlot, Num(w)) && e[1] == SlotSet(HeightSlot, Num(m))
    ensures e[2] == SlotSet(BmiSlot, Str(FormatCents(w / (m * m))))
    ensures e[3] == SlotSet(InterpretationSlot, Str(Interpretation(Classify(w / (m * m)))))
  {
    var imc := Imc(w, m);
    [
      SlotSet(WeightSlot, Num(w)),
      SlotSet(HeightSlot, Num(m)),
      SlotSet(BmiSlot, Str(FormatCents(imc))),
      SlotSet(InterpretationSlot, Str(Interpretation(Classify(imc))))
    ]
  }

  /** The persisted index text reads back as the index `w / m²` rounded to hundredths,
      at most half a hundredth away. */
  lemma PersistedIndex(w: real, m: real)
    requires w > 0.0 && m > 0.0
    ensures var v := ParseNumber(Persisted(w, m)[2].value);
      v.Some? && -0.005 <= v.value - w / (m * m) <= 0.005
  {
    var x := Imc(w, m);
    assert x == w / (m * m);
    FormatCentsReadsBack(x);
  }

  /** An index `w / sq` is healthy exactly when `w` lies between 18.5 and 25 times `sq`. */
  lemma HealthyWeights(w: real, sq: real)
    requires w > 0.0 && sq > 0.0
    ensures Classify(w / sq) == Healthy <==> 18.5 * sq <= w < 25.0 * sq
  {
    var x := w / sq;
    assert x * sq == w;
    ScaledBound(x, sq, w, 18.5);
    ScaledBound(x, sq, w, 25.0);
  }

  /** Comparing `x` with `c` is comparing `x * sq` with `c * sq`, for a positive `sq`. */
  lemma ScaledBound(x: real, sq: real, w: real, c: real)
    requires sq > 0.0 && x * sq == w
    ensures c <= x <==> c * sq <= w
  {
    assert w - c * sq == (x - c) * sq;
    if c <= x {
      assert (x - c) * sq >= 0.0;
    } else {
      assert (c - x) * sq > 0.0;
    }
  }

  /** `ActionCalcularIMC.run`. If weight or height cannot be read it asks for both
      again; if either is not positive once the height is in metres it says so; in
      both cases no slot is set. Otherwise it utters nothing and persists the weight,
      the height in metres, the index text and the interpretation of its band. */
  function CalcularImc(slots: Slots): (r: Response)
    ensures r.Response?
    ensures var w, a := ParseNumber(Get(slots, WeightSlot)), ParseNumber(Get(slots, HeightSlot));
      && (w.None? || a.None? ==> r == Response([AskWeightAndHeight], []))
      && (w.Some? && a.Some? && (w.value <= 0.0 || Metres(a.value) <= 0.0) ==>
            r == Response([ValuesMustBePositive], []))
      && (w.Some? && a.Some? && w.value > 0.0 && Metres(a.value) > 0.0 ==>
            r == Response([], Persisted(w.value, Metres(a.value))))
  {
    var peso := ParseNumber(Get(slots, WeightSlot));
    var altura := ParseNumber(Get(slots, HeightSlot));
    if peso.None? || altura.None? then
      Response([AskWeightAndHeight], [])
    else
      var w := peso.value;
      var m := Metres(altura.value);
      if w <= 0.0 || m <= 0.0 then
        Response([ValuesMustBePositive], [])
      else
        Response([], Persisted(w, m))
  }

  /** A height given in centimetres, up to 300, gives exactly the same reply as the
      same height given in metres; above 300 the division by 100 still leaves more
      than 3 metres, and the height is not divided a second time. */
  lemma CentimetresAsMetres(slots: Slots, h: real)
    requires 3.0 < h <= 300.0
    ensures CalcularImc(slots[HeightSlot := Num(h)]) == CalcularImc(slots[HeightSlot := Num(h / 100.0)])
  {
    var s1, s2 := slots[HeightSlot := Num(h)], slots[HeightSlot := Num(h / 100.0)];
    assert Get(s1, WeightSlot) == Get(slots, WeightSlot) == Get(s2, WeightSlot);
    assert Get(s1, HeightSlot) == Num(h) && Get(s2, HeightSlot) == Num(h / 100.0);
    SameReadingSameReply(s1, s2);
  }

  /** The reply depends on the slots only through the weight read and the height read,
      taken in metres. */
  lemma SameReadingSameReply(s1: Slots, s2: Slots)
    requires ParseNumber(Get(s1, WeightSlot)) == ParseNumber(Get(s2, WeightSlot))
    requires ParseNumber(Get(s1, HeightSlot)).Some? && ParseNumber(Get(s2, HeightSlot)).Some?
    requires Metres(ParseNumber(Get(s1, HeightSlot)).value) == Metres(ParseNumber(Get(s2, HeightSlot)).value)
    ensures CalcularImc(s1) == CalcularImc(s2)
  {
  }

  /** The four slots of an assessment are distinct, so each keeps what was written to it. */
  lemma ReadBackFour(slots: Slots, a: SlotValue, b: SlotValue, c: SlotValue, d: SlotValue)
    ensures var events := [SlotSet(WeightSlot, a), SlotSet(HeightSlot, b), SlotSet(BmiSlot, c), SlotSet(InterpretationSlot, d)];
      Get(Apply(slots, events), WeightSlot) == a && Get(Apply(slots, events), HeightSlot) == b
  {
    var events := [SlotSet(WeightSlot, a), SlotSet(HeightSlot, b), SlotSet(BmiSlot, c), SlotSet(InterpretationSlot, d)];
    assert forall j :: 0 < j < |events| ==> events[j].slot != WeightSlot;
    assert forall j :: 1 < j < |events| ==> events[j].slot != HeightSlot;
    ApplyLastWrite(slots, events, 0);
    ApplyLastWrite(slots, events, 1);
  }

  /** Once persisted, the weight and height slots hold the numbers written. */
  lemma PersistedReadBack(slots: Slots, w: real, m: real)
    requires w > 0.0 && m > 0.0
    ensures Get(Apply(slots, Persisted(w, m)), WeightSlot) == Num(w)
    ensures Get(Apply(slots, Persisted(w, m)), HeightSlot) == Num(m)
  {
    var imc := Imc(w, m);
    ReadBackFour(slots, Num(w), Num(m), Str(FormatCents(imc)), Str(Interpretation(Classify(imc))));
  }

  /** Positive numbers in the weight and height slots are assessed directly. */
  lemma AssessesNumbers(slots: Slots, w: real, h: real)
    requires Get(slots, WeightSlot) == Num(w) && Get(slots, HeightSlot) == Num(h)
    requires w > 0.0 && h > 0.0
    ensures CalcularImc(slots) == Response([], Persisted(w, Metres(h)))
  {
  }

  /** A second run reads the persisted numbers back and converts the height once more. */
  lemma RerunReads(slots: Slots, w: real, m: real)
    requires w > 0.0 && m > 0.0
    ensures CalcularImc(Apply(slots, Persisted(w, m))) == Response([], Persisted(w, Metres(m)))
  {
    PersistedReadBack(slots, w, m);
    AssessesNumbers(Apply(slots, Persisted(w, m)), w, m);
  }

  /** Running the action again on the slots it persisted gives the same slot updates
      exactly when the persisted height is at most 3, that is, when the height typed
      was at most 3 metres or at most 300 centimetres. */
  lemma RerunPersistsSame(slots: Slots)
    requires CalcularImc(slots).events != []
    ensures var events := CalcularImc(slots).events;
      events[1].value.Num? &&
      (CalcularImc(Apply(slots, events)).events == events <==> events[1].value.x <= 3.0)
  {
    var peso, altura := ParseNumber(Get(slots, WeightSlot)), ParseNumber(Get(slots, HeightSlot));
    var w, m := peso.value, Metres(altura.value);
    assert CalcularImc(slots).events == Persisted(w, m);
    RerunReads(slots, w, m);
    PersistedDeterminesHeight(w, m, Metres(m));
  }

  /** The second update of an assessment persists the height. */
  lemma PersistedHeight(w: real, m: real)
    requires w > 0.0 && m > 0.0
    ensures |Persisted(w, m)| == 4 && Persisted(w, m)[1] == SlotSet(HeightSlot, Num(m))
  {
  }

  /** Two assessments of the same weight persist the same updates exactly when they
      persist the same height. */
  lemma PersistedDeterminesHeight(w: real, m: real, m': real)
    requires w > 0.0 && m > 0.0 && m' > 0.0
    ensures Persisted(w, m)[1] == SlotSet(HeightSlot, Num(m))
    ensures Persisted(w, m) == Persisted(w, m') <==> m == m'
  {
    PersistedHeight(w, m);
    PersistedHeight(w, m');
  }

  /** The reply depends only on the band boundaries: indices on either side of 18.5
      and 25 are interpreted differently, the boundaries themselves belong to the upper
      band. */
  lemma BandBoundaries()
    ensures Classify(17.0) == Low && Classify(18.5) == Healthy
    ensures Classify(24.99) == Healthy && Classify(25.0) == High
  {
  }

  /** 58 kg at 1.64 m (an index of about 21.57) is assessed as healthy. */
  lemma HealthyExample(slots: Slots)
    requires Get(slots, WeightSlot) == Num(58.0) && Get(slots, HeightSlot) == Num(1.64)
    ensures CalcularImc(slots).events != []
    ensures CalcularImc(slots).events[3] == SlotSet(InterpretationSlot, Str(Interpretation(Healthy)))
  {
    var imc := Imc(58.0, 1.64);
    assert imc == 58.0 / 2.6896;
    assert 18.5 <= imc < 25.0;
    AssessesNumbers(slots, 58.0, 1.64);
  }

  /** A weight of 0 is rejected as not positive, and nothing is persisted. */
  lemma ZeroWeightRejected(slots: Slots)
    requires Get(slots, WeightSlot) == Num(0.0) && Get(slots, HeightSlot) == Num(1.5)
    ensures CalcularImc(slots) == Response([ValuesMustBePositive], [])
  {
  }
}
