/** The CPF (Brazilian taxpayer number) check-digit validator: the modulo-11
    scheme of the Receita Federal as the form's validator runs it, on the
    digit string left after stripping every non-digit from the field. */
module Cpf {
  import opened JsValues

  // ---------------------------------------------------------------------
  // The scheme
  // ---------------------------------------------------------------------

  /** `confirmaDigito`: the check digit for a weighted sum. A NaN sum stays
      NaN; for a sum that is not negative the digit is the one that brings the
      sum to a multiple of 11, or 0 when that would take 10 or 11. */
  function ConfirmaDigito(soma: JsNumber): (r: JsNumber)
    ensures soma.NaN? <==> r.NaN?
    ensures soma.Num? && soma.n >= 0 ==> 0 <= r.n <= 9
    ensures soma.Num? && soma.n >= 0 ==> (r.n == 0 <==> soma.n % 11 <= 1)
    ensures soma.Num? && soma.n >= 0 && r.n != 0 ==> (soma.n + r.n) % 11 == 0
  {
    match soma
    case NaN => NaN
    case Num(s) =>
      var resto := 11 - JsRemainder(s, 11);
      assert s >= 0 ==> s + resto == 11 * (s / 11) + 11;
      if resto == 10 || resto == 11 then Num(0) else Num(resto)
  }

  /** The sum, over the first `n` digits of `s`, of digit i times the
      weight `w - i`. */
  function WeightedSum(s: string, n: int, w: int): int
    requires IsDigits(s) && 0 <= n <= |s|
  {
    if n == 0 then 0
    else WeightedSum(s, n - 1, w) + DigitValue(s[n - 1]) * (w - (n - 1))
  }

  /** The check digit the scheme assigns to the first `n` digits of `s`:
      weights run from n + 1 down to 2 (10..2 for the first check digit,
      11..2 for the second). */
  function ExpectedDigit(s: string, n: int): (d: int)
    requires IsDigits(s) && 0 <= n <= |s|
    ensures 0 <= d <= 9
  {
    WeightedSumNonNegative(s, n, n + 1);
    ConfirmaDigito(Num(WeightedSum(s, n, n + 1))).n
  }

  lemma {:induction false} WeightedSumNonNegative(s: string, n: int, w: int)
    requires IsDigits(s) && 0 <= n <= |s| && w >= n
    ensures WeightedSum(s, n, w) >= 0
  {
    if n > 0 {
      WeightedSumNonNegative(s, n - 1, w);
    }
  }

  /** The weighted sum reads only the first `n` digits. */
  lemma {:induction false} WeightedSumPrefix(s: string, t: string, n: int, w: int)
    requires IsDigits(s) && IsDigits(t) && 0 <= n <= |s| && n <= |t|
    requires s[..n] == t[..n]
    ensures WeightedSum(s, n, w) == WeightedSum(t, n, w)
  {
    if n > 0 {
      assert s[..n - 1] == s[..n][..n - 1] && t[..n - 1] == t[..n][..n - 1];
      assert s[n - 1] == s[..n][n - 1] && t[n - 1] == t[..n][n - 1];
      WeightedSumPrefix(s, t, n - 1, w);
    }
  }

  /** Changing the digit at index i moves the sum by the change times the
      weight of that index. */
  lemma {:induction false} WeightedSumChangeOne(s: string, t: string, n: int, w: int, i: int)
    requires IsDigits(s) && IsDigits(t) && |s| == |t| && 0 <= i < n <= |s|
    requires forall j :: 0 <= j < |s| && j != i ==> s[j] == t[j]
    ensures WeightedSum(t, n, w) - WeightedSum(s, n, w) == (DigitValue(t[i]) - DigitValue(s[i])) * (w - i)
  {
    if n - 1 == i {
      assert s[..n - 1] == t[..n - 1];
      WeightedSumPrefix(s, t, n - 1, w);
    } else {
      assert t[n - 1] == s[n - 1];
      WeightedSumChangeOne(s, t, n - 1, w, i);
    }
  }

  /** The ten strings `checaCPFRepetido` refuses, as listed in the source. */
  const ValoresRepetidos: seq<string> := [
    "00000000000", "11111111111", "22222222222", "33333333333", "44444444444",
    "55555555555", "66666666666", "77777777777", "88888888888", "99999999999"
  ]

  /** Eleven copies of one digit. */
  predicate IsUniform(s: string) {
    |s| == 11 && IsDigitChar(s[0]) && forall i :: 0 <= i < 11 ==> s[i] == s[0]
  }

  /** Whether check position k (10 or 11: the 1-based position of the digit
      being checked) passes, as `checaDigitoVerificador` decides it: the first
      k - 1 digits must exist, and the digit at index k - 1 must match. A
      missing digit reads as '' and '' == 0 holds in JavaScript. */
  predicate PositionOk(cpf: string, k: int)
    requires IsDigits(cpf) && k >= 1
  {
    |cpf| >= k - 1 &&
    (if k - 1 < |cpf| then DigitValue(cpf[k - 1]) else 0) == ExpectedDigit(cpf, k - 1)
  }

  /** What `checaEstruturaCPF` accepts: at least ten digits, digit 10 equal to
      the check digit of the first nine, and either an 11th digit equal to the
      check digit of the first ten, or exactly ten digits whose own second
      check digit is 0. Digits after the 11th are never looked at. */
  predicate StructureAccepted(s: string)
    requires IsDigits(s)
  {
    |s| >= 10 &&
    DigitValue(s[9]) == ExpectedDigit(s, 9) &&
    if |s| >= 11 then DigitValue(s[10]) == ExpectedDigit(s, 10)
    else ExpectedDigit(s, 10) == 0
  }

  /** What `validaCPF` accepts, for the stripped digit string `s`. */
  predicate CpfAccepted(s: string)
    requires IsDigits(s)
  {
    !IsUniform(s) && StructureAccepted(s)
  }

  // ---------------------------------------------------------------------
  // The validator's code
  // ---------------------------------------------------------------------

  /** `checaCPFRepetido`: true unless `cpf` is one of the ten repeated
      strings. */
  method ChecaCpfRepetido(cpf: string) returns (cpfEhValido: bool)
    ensures cpfEhValido <==> cpf !in ValoresRepetidos
    ensures IsDigits(cpf) ==> (cpfEhValido <==> !IsUniform(cpf))
  {
    cpfEhValido := true;
    var i := 0;
    while i < |ValoresRepetidos|
      invariant 0 <= i <= |ValoresRepetidos|
      invariant cpfEhValido <==> cpf !in ValoresRepetidos[..i]
    {
      if ValoresRepetidos[i] == cpf {
        cpfEhValido := false;
      }
      assert ValoresRepetidos[..i + 1] == ValoresRepetidos[..i] + [ValoresRepetidos[i]];
      i := i + 1;
    }
    assert ValoresRepetidos[..i] == ValoresRepetidos;
    if IsDigits(cpf) {
      RepeatedIffUniform(cpf);
    }
  }

  /** The listed strings are exactly the uniform eleven-digit strings. */
  lemma RepeatedIffUniform(s: string)
    requires IsDigits(s)
    ensures s in ValoresRepetidos <==> IsUniform(s)
  {
    if IsUniform(s) {
      var d := DigitValue(s[0]);
      assert s == ValoresRepetidos[d];
    }
  }

  /** The weighted sum `checaDigitoVerificador` accumulates: the first
      `multiplicador - 1` characters times the weights `multiplicador` down to 2. When the string
      is too short, `undefined` enters the sum and it becomes NaN. */
  method SomaPonderada(cpf: string, multiplicador: int) returns (soma: JsNumber)
    requires IsDigits(cpf) && multiplicador >= 1
    ensures |cpf| >= multiplicador - 1 ==>
              soma == Num(WeightedSum(cpf, multiplicador - 1, multiplicador))
    ensures |cpf| < multiplicador - 1 ==> soma == NaN
  {
    var semDigitos := if multiplicador - 1 <= |cpf| then cpf[..multiplicador - 1] else cpf;
    var multiplicadorInicial := multiplicador;
    var contador := 0;
    soma := Num(0);
    while multiplicadorInicial > 1
      invariant 1 <= multiplicadorInicial <= multiplicador
      invariant contador == multiplicador - multiplicadorInicial
      invariant semDigitos == cpf[..|semDigitos|]
      invariant contador <= |semDigitos| ==> soma == Num(WeightedSum(cpf, contador, multiplicador))
      invariant contador > |semDigitos| ==> soma == NaN
    {
      if contador < |semDigitos| && soma.Num? {
        assert semDigitos[contador] == cpf[contador];
        soma := Num(soma.n + DigitValue(semDigitos[contador]) * multiplicadorInicial);
      } else {
        soma := NaN;
      }
      contador := contador + 1;
      multiplicadorInicial := multiplicadorInicial - 1;
    }
  }

  /** `checaDigitoVerificador`: checks position `multiplicador` and, when it
      passes, every later position up to 11. */
  method ChecaDigitoVerificador(cpf: string, multiplicador: int) returns (ok: bool)
    requires IsDigits(cpf) && multiplicador >= 1
    ensures ok <==> forall k :: multiplicador <= k < 12 ==> PositionOk(cpf, k)
    decreases 12 - multiplicador
  {
    if multiplicador >= 12 {
      return true;
    }
    var soma := SomaPonderada(cpf, multiplicador);
    var digitoVerificador := CharAt(cpf, multiplicador - 1);
    if LooseEquals(digitoVerificador, ConfirmaDigito(soma)) {
      ok := ChecaDigitoVerificador(cpf, multiplicador + 1);
      assert PositionOk(cpf, multiplicador);
    } else {
      assert !PositionOk(cpf, multiplicador);
      ok := false;
    }
  }

  /** `checaEstruturaCPF`: both check positions, starting at multiplier 10. */
  method ChecaEstruturaCpf(cpf: string) returns (ok: bool)
    requires IsDigits(cpf)
    ensures ok <==> StructureAccepted(cpf)
  {
    ok := ChecaDigitoVerificador(cpf, 10);
    assert ok ==> PositionOk(cpf, 10) && PositionOk(cpf, 11);
  }

  /** The condition of `validaCPF`: strip, then neither repeated nor
      structurally wrong. */
  method CpfValido(value: string) returns (ok: bool)
    ensures ok <==> CpfAccepted(StripNonDigits(value))
  {
    var cpfFormatado := StripNonDigits(value);
    var naoRepetido := ChecaCpfRepetido(cpfFormatado);
    if !naoRepetido {
      return false;
    }
    ok := ChecaEstruturaCpf(cpfFormatado);
  }

  // ---------------------------------------------------------------------
  // Properties of the scheme as the validator applies it
  // ---------------------------------------------------------------------

  /** The published example is accepted. */
  lemma KnownValidCpf()
    ensures CpfAccepted("52998224725")
  {
  }

  /** Stripping the usual mask "ddd.ddd.ddd-dd" leaves the eleven digits. */
  lemma {:induction false} MaskedCpfStrips(a: string, b: string, c: string, d: string)
    requires IsDigits(a) && IsDigits(b) && IsDigits(c) && IsDigits(d)
    ensures StripNonDigits(a + "." + b + "." + c + "-" + d) == a + b + c + d
  {
    var dot, dash := ".", "-";
    assert StripNonDigits(dot) == "" by { assert dot[1..] == []; }
    assert StripNonDigits(dash) == "" by { assert dash[1..] == []; }
    var p1 := a + dot;
    assert StripNonDigits(p1) == a by { StripConcat(a, dot); }
    var p2 := p1 + b;
    assert StripNonDigits(p2) == a + b by { StripConcat(p1, b); }
    var p3 := p2 + dot;
    assert StripNonDigits(p3) == a + b by { StripConcat(p2, dot); }
    var p4 := p3 + c;
    assert StripNonDigits(p4) == a + b + c by { StripConcat(p3, c); }
    var p5 := p4 + dash;
    assert StripNonDigits(p5) == a + b + c by { StripConcat(p4, dash); }
    StripConcat(p5, d);
  }

  /** Every uniform string is refused, although "00000000000" passes the
      checksum on its own. */
  lemma UniformRejected(s: string)
    requires IsDigits(s) && IsUniform(s)
    ensures !CpfAccepted(s)
  {
  }

  lemma ZerosPassChecksum()
    ensures StructureAccepted("00000000000")
  {
  }

  /** Fewer than ten digits never pass. */
  lemma ShortRejected(s: string)
    requires IsDigits(s) && |s| < 10
    ensures !CpfAccepted(s)
  {
  }

  /** Beyond eleven digits only the first eleven are checked, and the
      uniform test no longer applies. */
  lemma LongInputFirstElevenDecide(s: string)
    requires IsDigits(s) && |s| >= 12
    ensures CpfAccepted(s) <==> StructureAccepted(s[..11])
  {
    var t := s[..11];
    assert t[..9] == s[..9] && t[..10] == s[..10];
    WeightedSumPrefix(s, t, 9, 10);
    WeightedSumPrefix(s, t, 10, 11);
  }

  /** Twelve zeros are accepted: the checksum passes and the whole string is
      not one of the listed uniform strings. */
  lemma TwelveZerosAccepted()
    ensures CpfAccepted("000000000000")
  {
  }

  /** A ten-digit string whose missing 11th digit would have to be 0 is
      accepted, because '' == 0 when the missing check digit is compared. */
  lemma TenDigitsAccepted()
    ensures CpfAccepted("1000000028")
  {
  }

  /** For a weight 2..10 and a digit change of 1..9 in either direction, the
      sum moves by something that is not a multiple of 11 (11 is prime). */
  lemma ChangeNotMultipleOf11(delta: int, weight: int)
    requires -9 <= delta <= 9 && delta != 0 && 2 <= weight <= 10
    ensures (delta * weight) % 11 != 0
  {
    var x := delta * weight;
    if weight == 2 { assert x == 2 * delta; }
    else if weight == 3 { assert x == 3 * delta; }
    else if weight == 4 { assert x == 4 * delta; }
    else if weight == 5 { assert x == 5 * delta; }
    else if weight == 6 { assert x == 6 * delta; }
    else if weight == 7 { assert x == 7 * delta; }
    else if weight == 8 { assert x == 8 * delta; }
    else if weight == 9 { assert x == 9 * delta; }
    else { assert x == 10 * delta; }
  }

  /** Two accepted eleven-digit strings that share their first nine digits
      are equal: the check digits are determined by the body. */
  lemma CheckDigitsDetermined(s: string, t: string)
    requires IsDigits(s) && IsDigits(t) && |s| == 11 && |t| == 11
    requires CpfAccepted(s) && CpfAccepted(t)
    requires s[..9] == t[..9]
    ensures s == t
  {
    WeightedSumPrefix(s, t, 9, 10);
    assert s[9] == t[9] by {
      assert DigitValue(s[9]) == DigitValue(t[9]);
    }
    assert s[..10] == t[..10] by {
      assert s[..10] == s[..9] + [s[9]] && t[..10] == t[..9] + [t[9]];
    }
    WeightedSumPrefix(s, t, 10, 11);
    assert DigitValue(s[10]) == DigitValue(t[10]);
    assert s == s[..10] + [s[10]] && t == t[..10] + [t[10]];
  }

  /** Two sums that get the same nonzero check digit are congruent
      modulo 11. */
  lemma SameNonzeroDigitSameRemainder(a: int, b: int)
    requires a >= 0 && b >= 0
    requires ConfirmaDigito(Num(a)) == ConfirmaDigito(Num(b)) && ConfirmaDigito(Num(a)).n != 0
    ensures (b - a) % 11 == 0
  {
    var d := ConfirmaDigito(Num(a)).n;
    assert (a + d) % 11 == 0 && (b + d) % 11 == 0;
  }

  /** A change in one of the first nine digits changes the first check digit
      unless that digit is 0. */
  lemma BodyChangeDetected(s: string, t: string, i: int)
    requires IsDigits(s) && IsDigits(t) && |s| == 11 && |t| == 11
    requires 0 <= i < 9 && t[i] != s[i]
    requires forall j :: 0 <= j < 11 && j != i ==> s[j] == t[j]
    requires ExpectedDigit(s, 9) != 0
    ensures ExpectedDigit(t, 9) != ExpectedDigit(s, 9)
  {
    WeightedSumChangeOne(s, t, 9, 10, i);
    WeightedSumNonNegative(s, 9, 10);
    WeightedSumNonNegative(t, 9, 10);
    var a, b := WeightedSum(s, 9, 10), WeightedSum(t, 9, 10);
    if ExpectedDigit(t, 9) == ExpectedDigit(s, 9) {
      SameNonzeroDigitSameRemainder(a, b);
      ChangeNotMultipleOf11(DigitValue(t[i]) - DigitValue(s[i]), 10 - i);
      assert false;
    }
  }

  /** Single-digit transcription errors are caught whenever the first check
      digit of the original is not 0: changing any one of the eleven digits
      of an accepted number yields a rejected one. */
  lemma SingleDigitChangeDetected(s: string, t: string, i: int)
    requires IsDigits(s) && IsDigits(t) && |s| == 11 && |t| == 11
    requires CpfAccepted(s) && s[9] != '0'
    requires 0 <= i < 11 && t[i] != s[i]
    requires forall j :: 0 <= j < 11 && j != i ==> s[j] == t[j]
    ensures !CpfAccepted(t)
  {
    if i < 9 {
      BodyChangeDetected(s, t, i);
      assert t[9] == s[9];
    } else {
      assert s[..9] == t[..9];
      if CpfAccepted(t) {
        CheckDigitsDetermined(s, t);
        assert false;
      }
    }
  }

  /** Without the hypothesis on the first check digit, detection fails: these
      two accepted numbers differ only in their first digit. */
  lemma SingleDigitChangeUndetected()
    ensures CpfAccepted("10000000108") && CpfAccepted("20000000108")
  {
    FirstDigitOneAccepted();
    FirstDigitTwoAccepted();
  }

  lemma FirstDigitOneAccepted()
    ensures CpfAccepted("10000000108")
  {
    assert "10000000108"[1] != "10000000108"[0];
  }

  lemma FirstDigitTwoAccepted()
    ensures CpfAccepted("20000000108")
  {
    assert "20000000108"[1] != "20000000108"[0];
  }
}
