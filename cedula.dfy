/**
 * `validar_cedula_ecuador`: the Ecuadorian identity-card number check. After
 * stripping, the number must be ten digits, start with a province code 01-24,
 * have a third digit below 6 (a natural person), and end in the check digit of
 * a weighted sum of the first nine digits.
 */
module Cedula {
  import opened Wrappers
  import opened PyText

  /** The four `ValidationError` messages, one per check. */
  datatype CedulaError =
    | FormatoInvalido       // "debe tener 10 dígitos numéricos"
    | ProvinciaInvalida     // "código de provincia es inválido"
    | NoPersonaNatural      // "no corresponde a una persona natural"
    | CedulaInvalida        // "no es válida": wrong check digit

  /** The weights of the first nine digits. */
  const Coeficientes: seq<int> := [2, 1, 2, 1, 2, 1, 2, 1, 2]

  /** What digit `d` weighted by `coef` adds to the sum: a product of 10 or more is reduced by 9. */
  function Aporte(d: int, coef: int): int
  {
    if d * coef >= 10 then d * coef - 9 else d * coef
  }

  /** The sum the loop has built after `n` digits. */
  function Suma(t: string, n: nat): int
    requires n <= |Coeficientes| && n <= |t| && AllDigits(t)
  {
    if n == 0 then 0 else Suma(t, n - 1) + Aporte(DigitValue(t[n - 1]), Coeficientes[n - 1])
  }

  /** The check digit of a sum: what brings the sum to a multiple of ten. */
  function DigitoVerificador(suma: int): (d: int)
    ensures 0 <= d <= 9
    ensures (suma + d) % 10 == 0
  {
    var d := 10 - suma % 10;
    if d == 10 then 0 else d
  }

  /** The check digit is the only digit that brings the sum to a multiple of ten. */
  lemma DigitoVerificadorUnico(suma: int, x: int)
    requires 0 <= x <= 9
    ensures (suma + x) % 10 == 0 <==> x == DigitoVerificador(suma)
  {
  }

  predicate Formato(t: string)
  {
    AllDigits(t) && |t| == 10
  }

  predicate ProvinciaValida(t: string)
    requires Formato(t)
  {
    1 <= Number(t[0..2]) <= 24
  }

  predicate PersonaNatural(t: string)
    requires Formato(t)
  {
    DigitValue(t[2]) < 6
  }

  /** The weighted sum of the first nine digits plus the tenth is a multiple of ten. */
  predicate SumaDeControl(t: string)
    requires Formato(t)
  {
    (Suma(t, 9) + DigitValue(t[9])) % 10 == 0
  }

  /** A stripped number the validator accepts. */
  predicate Valida(t: string)
  {
    Formato(t) && ProvinciaValida(t) && PersonaNatural(t) && SumaDeControl(t)
  }

  /**
   * `validar_cedula_ecuador(cedula)`: `Pass` when it returns normally, otherwise
   * the error of the first check that fails.
   */
  method ValidarCedula(cedula: string) returns (r: Outcome<CedulaError>)
    ensures r == Pass <==> Valida(Strip(cedula))
    ensures r == Fail(FormatoInvalido) <==> !Formato(Strip(cedula))
    ensures r == Fail(ProvinciaInvalida) <==> Formato(Strip(cedula)) && !ProvinciaValida(Strip(cedula))
    ensures r == Fail(NoPersonaNatural) <==>
      Formato(Strip(cedula)) && ProvinciaValida(Strip(cedula)) && !PersonaNatural(Strip(cedula))
    ensures r == Fail(CedulaInvalida) <==>
      Formato(Strip(cedula)) && ProvinciaValida(Strip(cedula)) && PersonaNatural(Strip(cedula))
      && !SumaDeControl(Strip(cedula))
  {
    var t := Strip(cedula);
    if !AllDigits(t) || |t| != 10 {
      return Fail(FormatoInvalido);
    }
    var provincia := Number(t[0..2]);
    if provincia < 1 || provincia > 24 {
      return Fail(ProvinciaInvalida);
    }
    if DigitValue(t[2]) >= 6 {
      return Fail(NoPersonaNatural);
    }
    var coeficientes := [2, 1, 2, 1, 2, 1, 2, 1, 2];
    var suma := 0;
    for i := 0 to 9
      invariant suma == Suma(t, i)
    {
      var valor := DigitValue(t[i]) * coeficientes[i];
      if valor >= 10 {
        valor := valor - 9;
      }
      suma := suma + valor;
    }
    var digitoVerificador := 10 - suma % 10;
    if digitoVerificador == 10 {
      digitoVerificador := 0;
    }
    assert digitoVerificador == DigitoVerificador(suma);
    DigitoVerificadorUnico(suma, DigitValue(t[9]));
    if digitoVerificador != DigitValue(t[9]) {
      return Fail(CedulaInvalida);
    }
    return Pass;
  }

  /** A weighted digit adds the sum of the product's decimal digits, as in the Luhn scheme. */
  lemma AporteSumaDeDigitos(d: int, coef: int)
    requires 0 <= d <= 9 && (coef == 1 || coef == 2)
    ensures Aporte(d, coef) == (d * coef) / 10 + (d * coef) % 10
    ensures 0 <= Aporte(d, coef) <= 9
  {
  }

  /** Different digits under the same weight add different amounts. */
  lemma AporteInyectivo(a: int, b: int, coef: int)
    requires 0 <= a <= 9 && 0 <= b <= 9 && a != b && (coef == 1 || coef == 2)
    ensures Aporte(a, coef) != Aporte(b, coef)
  {
    if coef == 2 {
      // below 5 the contribution is even, from 5 on it is odd
      assert a < 5 ==> Aporte(a, 2) == 2 * a;
      assert a >= 5 ==> Aporte(a, 2) == 2 * a - 9;
      assert b < 5 ==> Aporte(b, 2) == 2 * b;
      assert b >= 5 ==> Aporte(b, 2) == 2 * b - 9;
    }
  }

  /** Changing digit `k` changes the sum by exactly the change of that digit's contribution. */
  lemma {:induction false} SumaCambioUnDigito(t: string, u: string, k: int, n: nat)
    requires Formato(t) && Formato(u) && 0 <= k < 10 && n <= 9
    requires forall i | 0 <= i < 10 && i != k :: u[i] == t[i]
    ensures Suma(u, n) == Suma(t, n)
      + (if k < n then Aporte(DigitValue(u[k]), Coeficientes[k]) - Aporte(DigitValue(t[k]), Coeficientes[k]) else 0)
  {
    if n > 0 {
      SumaCambioUnDigito(t, u, k, n - 1);
    }
  }

  /**
   * A single mistyped digit is always caught: a number that differs from a
   * valid one in exactly one position fails the check-digit test.
   */
  lemma DetectaUnDigitoErrado(t: string, u: string, k: int)
    requires Valida(t) && Formato(u) && 0 <= k < 10 && u[k] != t[k]
    requires forall i | 0 <= i < 10 && i != k :: u[i] == t[i]
    ensures !SumaDeControl(u) && !Valida(u)
  {
    var total := Suma(t, 9) + DigitValue(t[9]);
    var delta: int;
    if k < 9 {
      SumaCambioUnDigito(t, u, k, 9);
      AporteInyectivo(DigitValue(u[k]), DigitValue(t[k]), Coeficientes[k]);
      AporteSumaDeDigitos(DigitValue(u[k]), Coeficientes[k]);
      AporteSumaDeDigitos(DigitValue(t[k]), Coeficientes[k]);
      delta := Aporte(DigitValue(u[k]), Coeficientes[k]) - Aporte(DigitValue(t[k]), Coeficientes[k]);
    } else {
      SumaCambioUnDigito(t, u, 9, 9);
      delta := DigitValue(u[9]) - DigitValue(t[9]);
    }
    assert Suma(u, 9) + DigitValue(u[9]) == total + delta;
    MultiploMasPequeno(total, delta);
  }

  /** Adding a nonzero amount smaller than ten to a multiple of ten leaves a non-multiple. */
  lemma MultiploMasPequeno(x: int, delta: int)
    requires x % 10 == 0 && -10 < delta < 10 && delta != 0
    ensures (x + delta) % 10 != 0
  {
  }

  /** "0950000000", the number the project's fixtures use, is valid. */
  lemma EjemploValido()
    ensures Valida(Strip("0950000000"))
  {
    var t := "0950000000";
    StripSinBordes(t);
    assert Formato(t);
    assert t[0..2] == "09";
    assert Number("09") == 9 by {
      assert "09"[..1] == "0";
    }
    SumaDelEjemplo(t);
  }

  lemma SumaDelEjemplo(t: string)
    requires t == "0950000000"
    ensures Formato(t) && Suma(t, 9) == 10 && DigitValue(t[9]) == 0
  {
    assert t[0] == '0' && t[1] == '9' && t[2] == '5';
    assert forall i | 3 <= i < 10 :: t[i] == '0';
    assert Suma(t, 1) == 0;
    assert Suma(t, 2) == 9;
    assert Suma(t, 3) == 10;
    assert Suma(t, 4) == 10;
    assert Suma(t, 5) == 10;
    assert Suma(t, 6) == 10;
    assert Suma(t, 7) == 10;
    assert Suma(t, 8) == 10;
  }
}
