/**
 * `normalizar_fecha_hora`: a display date such as "Dec. 5, 2025" becomes
 * "2025-12-05", and display times such as "9:30 a.m." become 24-hour "09:30".
 *
 * The date is read as `strptime(..., "%b %d, %Y")` after its dots are removed;
 * each time as `strptime(..., "%I:%M %p")` after its dots are removed and it is
 * stripped and lower-cased. In a `strptime` format a blank stands for one or
 * more whitespace characters, and the whole text must be consumed.
 */
module Normalizador {
  import opened Wrappers
  import opened PyText

  /** Which of the three `strptime` calls raised `ValueError`. */
  datatype NormError = FechaInvalida | HoraInicioInvalida | HoraFinInvalida

  datatype Fecha = Fecha(anio: int, mes: int, dia: int)

  /** A time of day in 24-hour form. */
  datatype Hora = Hora(hora: int, minuto: int)

  // ===== Calendar =====

  predicate Bisiesto(y: int)
  {
    y % 4 == 0 && (y % 100 != 0 || y % 400 == 0)
  }

  function DiasDelMes(y: int, m: int): int
  {
    if m == 2 then (if Bisiesto(y) then 29 else 28)
    else if m == 4 || m == 6 || m == 9 || m == 11 then 30
    else 31
  }

  /** A date `datetime.date` can hold. */
  predicate FechaValida(f: Fecha)
  {
    1 <= f.anio <= 9999 && 1 <= f.mes <= 12 && 1 <= f.dia <= DiasDelMes(f.anio, f.mes)
  }

  // ===== Tokens =====

  /** The English month abbreviations `%b` accepts, lower-cased; month `i + 1` at index `i`. */
  const Meses: seq<string> := ["jan", "feb", "mar", "apr", "may", "jun",
                               "jul", "aug", "sep", "oct", "nov", "dec"]

  /** The month a three-letter text names, ignoring ASCII case; 0 when it names none. */
  function MesDe(s: string): (m: int)
    ensures 0 <= m <= 12
    ensures m != 0 ==> LowerAscii(s) == Meses[m - 1]
    ensures m == 0 ==> LowerAscii(s) !in Meses
  {
    MesEn(LowerAscii(s), 0)
  }

  function MesEn(s: string, i: nat): (m: int)
    requires i <= |Meses|
    ensures m == 0 || i < m <= 12
    ensures m != 0 ==> s == Meses[m - 1]
    ensures m == 0 ==> forall j | i <= j < |Meses| :: s != Meses[j]
    decreases |Meses| - i
  {
    if i == |Meses| then 0 else if s == Meses[i] then i + 1 else MesEn(s, i + 1)
  }

  /** A number token of one or two ASCII digits with value in [lo, hi], as `%d`, `%I` and `%M` read them. */
  predicate Numeral(s: string, lo: int, hi: int)
  {
    1 <= |s| <= 2 && AllDigits(s) && lo <= Number(s) <= hi
  }

  /** The text before the first `c` and the text after it. */
  function Partir(s: string, c: char): (r: Option<(string, string)>)
    ensures r.Some? ==> s == r.value.0 + [c] + r.value.1 && c !in r.value.0
    ensures r.None? <==> c !in s
  {
    if s == [] then None
    else if s[0] == c then
      assert s == [] + [c] + s[1..];
      Some(([], s[1..]))
    else
      match Partir(s[1..], c)
      case None => None
      case Some((a, b)) =>
        assert s == [s[0]] + a + [c] + b by { assert s == [s[0]] + s[1..]; }
        Some(([s[0]] + a, b))
  }

  /** The leading run of ASCII digits. */
  function Digitos(s: string): (d: string)
    ensures AllDigits(d) && d <= s
    ensures |d| < |s| ==> !IsDigit(s[|d|])
  {
    if s == [] || !IsDigit(s[0]) then [] else [s[0]] + Digitos(s[1..])
  }

  /** One or more whitespace characters, then the rest: `\s+` as the format's blanks read it. */
  function TrasBlancos(s: string): (r: Option<string>)
    ensures r.Some? <==> s != [] && IsSpace(s[0])
    ensures r.Some? ==> r.value == [] || !IsSpace(r.value[0])
  {
    if s == [] || !IsSpace(s[0]) then None else Some(StripLeft(s))
  }

  // ===== The date =====

  /** `datetime.strptime(s, "%b %d, %Y")`: `None` where it raises `ValueError`. */
  function LeerFecha(s: string): (r: Option<Fecha>)
    ensures r.Some? ==> FechaValida(r.value)
  {
    if |s| < 3 || MesDe(s[..3]) == 0 then None
    else
      match TrasBlancos(s[3..])
      case None => None
      case Some(resto) =>
        match Partir(resto, ',')
        case None => None
        case Some((dia, tras)) =>
          if !Numeral(dia, 1, 31) then None
          else
            match TrasBlancos(tras)
            case None => None
            case Some(anio) =>
              if !(|anio| == 4 && AllDigits(anio)) then None
              else
                var f := Fecha(Number(anio), MesDe(s[..3]), Number(dia));
                if FechaValida(f) then Some(f) else None
  }

  /** `strftime("%Y-%m-%d")`. */
  function FechaIso(f: Fecha): (s: string)
    requires FechaValida(f)
    ensures |s| == 10 && s[4] == '-' && s[7] == '-'
    ensures AllDigits(s[..4]) && AllDigits(s[5..7]) && AllDigits(s[8..])
    ensures Number(s[..4]) == f.anio && Number(s[5..7]) == f.mes && Number(s[8..]) == f.dia
  {
    var y, m, d := Padded(f.anio, 4), Padded(f.mes, 2), Padded(f.dia, 2);
    TrozosIso(y, m, d);
    Pow10Pequenas();
    NumberPadded(f.anio, 4);
    NumberPadded(f.mes, 2);
    NumberPadded(f.dia, 2);
    y + "-" + m + "-" + d
  }

  lemma TrozosIso(y: string, m: string, d: string)
    requires |y| == 4 && |m| == 2 && |d| == 2
    ensures var s := y + "-" + m + "-" + d;
      |s| == 10 && s[4] == '-' && s[7] == '-' && s[..4] == y && s[5..7] == m && s[8..] == d
  {
  }

  /** The date part: dots removed, then read and written back in ISO form. */
  function NormalizarFecha(fecha: string): Option<string>
  {
    match LeerFecha(Remove(fecha, '.'))
    case None => None
    case Some(f) => Some(FechaIso(f))
  }

  // ===== The times =====

  /** `%I` with `%p`: 12 a.m. is hour 0, p.m. adds 12 except to 12. */
  function A24(h12: int, pm: bool): (h: int)
    requires 1 <= h12 <= 12
    ensures 0 <= h <= 23
    ensures h < 12 <==> !pm
    ensures h % 12 == h12 % 12
  {
    if !pm then (if h12 == 12 then 0 else h12)
    else (if h12 == 12 then 12 else h12 + 12)
  }

  /** `datetime.strptime(s, "%I:%M %p")` on a cleaned text: `None` where it raises `ValueError`. */
  function LeerHora(s: string): (r: Option<Hora>)
    ensures r.Some? ==> 0 <= r.value.hora <= 23 && 0 <= r.value.minuto <= 59
  {
    match Partir(s, ':')
    case None => None
    case Some((h, tras)) =>
      var m := Digitos(tras);
      if !Numeral(h, 1, 12) || !Numeral(m, 0, 59) then None
      else
        match TrasBlancos(tras[|m|..])
        case None => None
        case Some(p) =>
          if p == "am" then Some(Hora(A24(Number(h), false), Number(m)))
          else if p == "pm" then Some(Hora(A24(Number(h), true), Number(m)))
          else None
  }

  /** `strftime("%H:%M")`. */
  function HoraTexto(t: Hora): (s: string)
    requires 0 <= t.hora <= 23 && 0 <= t.minuto <= 59
    ensures |s| == 5 && s[2] == ':' && AllDigits(s[..2]) && AllDigits(s[3..])
    ensures Number(s[..2]) == t.hora && Number(s[3..]) == t.minuto
  {
    var h, m := Padded(t.hora, 2), Padded(t.minuto, 2);
    TrozosHora(h, m);
    Pow10Pequenas();
    NumberPadded(t.hora, 2);
    NumberPadded(t.minuto, 2);
    h + ":" + m
  }

  lemma TrozosHora(h: string, m: string)
    requires |h| == 2 && |m| == 2
    ensures var s := h + ":" + m; |s| == 5 && s[2] == ':' && s[..2] == h && s[3..] == m
  {
  }

  /** The cleaning applied to a time before it is read: dots removed, stripped, lower-cased. */
  function LimpiarHora(s: string): string
  {
    LowerAscii(Strip(Remove(s, '.')))
  }

  function NormalizarHora(hora: string): Option<string>
  {
    match LeerHora(LimpiarHora(hora))
    case None => None
    case Some(t) => Some(HoraTexto(t))
  }

  // ===== normalizar_fecha_hora =====

  /**
   * `normalizar_fecha_hora(fecha_str, hora_ini_str, hora_fin_str)`: the three
   * outputs, or the first of the three readings that fails.
   */
  function NormalizarFechaHora(fecha: string, horaIni: string, horaFin: string)
    : (r: Result<(string, string, string), NormError>)
    ensures r == Err(FechaInvalida) <==> NormalizarFecha(fecha).None?
    ensures r == Err(HoraInicioInvalida) <==> NormalizarFecha(fecha).Some? && NormalizarHora(horaIni).None?
    ensures r == Err(HoraFinInvalida) <==>
      NormalizarFecha(fecha).Some? && NormalizarHora(horaIni).Some? && NormalizarHora(horaFin).None?
    ensures r.Ok? ==> |r.value.0| == 10 && |r.value.1| == 5 && |r.value.2| == 5
    ensures r.Ok? ==>
      && LeerFecha(Remove(fecha, '.')).Some? && r.value.0 == FechaIso(LeerFecha(Remove(fecha, '.')).value)
      && LeerHora(LimpiarHora(horaIni)).Some? && r.value.1 == HoraTexto(LeerHora(LimpiarHora(horaIni)).value)
      && LeerHora(LimpiarHora(horaFin)).Some? && r.value.2 == HoraTexto(LeerHora(LimpiarHora(horaFin)).value)
  {
    match NormalizarFecha(fecha)
    case None => Err(FechaInvalida)
    case Some(f) =>
      match NormalizarHora(horaIni)
      case None => Err(HoraInicioInvalida)
      case Some(i) =>
        match NormalizarHora(horaFin)
        case None => Err(HoraFinInvalida)
        case Some(t) => Ok((f, i, t))
  }

  // ===== What the readings accept =====

  /** The pieces of a time `strptime(..., "%I:%M %p")` accepts once the text is cleaned. */
  predicate FormaHora(h: string, m: string, w: string, p: string)
  {
    Numeral(h, 1, 12) && Numeral(m, 0, 59) && |w| >= 1 && AllSpace(w) && (p == "am" || p == "pm")
  }

  function TextoHora(h: string, m: string, w: string, p: string): string
  {
    h + ":" + m + w + p
  }

  lemma {:induction false} PartirEn(a: string, c: char, b: string)
    requires c !in a
    ensures Partir(a + [c] + b, c) == Some((a, b))
  {
    if a == [] {
      assert a + [c] + b == [c] + b;
    } else {
      assert (a + [c] + b)[1..] == a[1..] + [c] + b;
      PartirEn(a[1..], c, b);
      assert [a[0]] + a[1..] == a;
    }
  }

  lemma {:induction false} DigitosDe(d: string, resto: string)
    requires AllDigits(d) && (resto == [] || !IsDigit(resto[0]))
    ensures Digitos(d + resto) == d
  {
    if d == [] {
      assert d + resto == resto;
    } else {
      assert (d + resto)[1..] == d[1..] + resto;
      DigitosDe(d[1..], resto);
      assert [d[0]] + d[1..] == d;
    }
  }

  /**
   * Every text of the accepted form is read: hour 1-12 and minute 0-59 of one or
   * two digits, blanks, then "am" or "pm"; a.m. and p.m. map to 24 hours.
   */
  lemma LeerHoraAcepta(h: string, m: string, w: string, p: string)
    requires FormaHora(h, m, w, p)
    ensures LeerHora(TextoHora(h, m, w, p)) == Some(Hora(A24(Number(h), p == "pm"), Number(m)))
  {
    var s := TextoHora(h, m, w, p);
    var tras := m + (w + p);
    TextoHoraDe(s, h, tras, m, w + p, w, p);
    PartirDigitos(h, ':', tras);
    MinutosAntesDeBlancos(m, w, p);
    TrasBlancosDe(w, p);
    LeerHoraDePartes(s, h, tras, p);
  }

  lemma MinutosAntesDeBlancos(m: string, w: string, p: string)
    requires AllDigits(m) && |w| >= 1 && AllSpace(w)
    ensures Digitos(m + (w + p)) == m && (m + (w + p))[|m|..] == w + p
  {
    assert (w + p)[0] == w[0];
    DigitosDe(m, w + p);
  }

  lemma TextoHoraDe(s: string, h: string, tras: string, m: string, resto: string, w: string, p: string)
    requires tras == m + resto && resto == w + p
    ensures s == h + [':'] + tras <==> TextoHora(h, m, w, p) == s
  {
  }

  lemma LeerHoraDePartes(s: string, h: string, tras: string, p: string)
    requires Partir(s, ':') == Some((h, tras))
    requires Numeral(h, 1, 12) && Numeral(Digitos(tras), 0, 59)
    requires TrasBlancos(tras[|Digitos(tras)|..]) == Some(p) && (p == "am" || p == "pm")
    ensures LeerHora(s) == Some(Hora(A24(Number(h), p == "pm"), Number(Digitos(tras))))
  {
  }

  /** Only texts of that form are read. */
  lemma LeerHoraSoloForma(s: string)
    requires LeerHora(s).Some?
    ensures exists h, m, w, p :: (FormaHora(h, m, w, p) && TextoHora(h, m, w, p) == s
      && LeerHora(s) == Some(Hora(A24(Number(h), p == "pm"), Number(m))))
  {
    var h, m, w, p := FormaHoraLeida(s);
  }

  lemma FormaHoraLeida(s: string) returns (h: string, m: string, w: string, p: string)
    requires LeerHora(s).Some?
    ensures FormaHora(h, m, w, p) && TextoHora(h, m, w, p) == s
    ensures LeerHora(s) == Some(Hora(A24(Number(h), p == "pm"), Number(m)))
  {
    var tras;
    h, tras, p := PartesDeHora(s);
    m := Digitos(tras);
    var resto := tras[|m|..];
    var i := LeadingSpaces(resto);
    w := resto[..i];
    Partido(resto, i);
    Partido(tras, |m|);
    TextoHoraDe(s, h, tras, m, resto, w, p);
    LeerHoraDePartes(s, h, tras, p);
  }

  lemma PartesDeHora(s: string) returns (h: string, tras: string, p: string)
    requires LeerHora(s).Some?
    ensures Partir(s, ':') == Some((h, tras))
    ensures Numeral(h, 1, 12) && Numeral(Digitos(tras), 0, 59)
    ensures TrasBlancos(tras[|Digitos(tras)|..]) == Some(p) && (p == "am" || p == "pm")
  {
    h, tras := Partir(s, ':').value.0, Partir(s, ':').value.1;
    p := TrasBlancos(tras[|Digitos(tras)|..]).value;
  }

  /** The date pieces `strptime(..., "%b %d, %Y")` accepts. */
  predicate FormaFecha(mes: string, w1: string, d: string, w2: string, y: string)
  {
    && |mes| == 3 && LowerAscii(mes) in Meses
    && |w1| >= 1 && AllSpace(w1) && Numeral(d, 1, 31)
    && |w2| >= 1 && AllSpace(w2) && |y| == 4 && AllDigits(y)
  }

  function TextoFecha(mes: string, w1: string, d: string, w2: string, y: string): string
  {
    mes + w1 + d + "," + w2 + y
  }

  /** No two month abbreviations are the same. */
  lemma MesesDistintos(i: int, j: int)
    requires 0 <= i < 12 && 0 <= j < 12 && i != j
    ensures Meses[i] != Meses[j]
  {
    var a, b := Meses[i], Meses[j];
    assert a[0] != b[0] || a[1] != b[1] || a[2] != b[2];
  }

  /**
   * Every text of the accepted form with a real calendar date is read as that
   * date; one naming a day the month does not have, or year 0, is rejected.
   */
  lemma LeerFechaAcepta(mes: string, w1: string, d: string, w2: string, y: string)
    requires FormaFecha(mes, w1, d, w2, y)
    ensures var f := Fecha(Number(y), MesDe(mes), Number(d));
      && LowerAscii(mes) == Meses[f.mes - 1]
      && LeerFecha(TextoFecha(mes, w1, d, w2, y)) == (if FechaValida(f) then Some(f) else None)
  {
    var s := TextoFecha(mes, w1, d, w2, y);
    var resto := PiezasDeFecha(mes, w1, d, w2, y);
    LeerFechaDePartes(s, resto, d, w2 + y, y);
  }

  lemma PiezasDeFecha(mes: string, w1: string, d: string, w2: string, y: string) returns (resto: string)
    requires |mes| == 3 && |w1| >= 1 && AllSpace(w1) && Numeral(d, 1, 31)
    requires |w2| >= 1 && AllSpace(w2) && |y| == 4 && AllDigits(y)
    ensures var s := TextoFecha(mes, w1, d, w2, y);
      && |s| >= 3 && s[..3] == mes && TrasBlancos(s[3..]) == Some(resto)
      && Partir(resto, ',') == Some((d, w2 + y)) && TrasBlancos(w2 + y) == Some(y)
  {
    var s := TextoFecha(mes, w1, d, w2, y);
    resto := d + [','] + (w2 + y);
    assert IsDigit(resto[0]) && IsDigit(y[0]);
    TextoFechaDe(s, mes, w1, resto, d, w2 + y, w2, y);
    TrasBlancosDe(w1, resto);
    PartirDigitos(d, ',', w2 + y);
    TrasBlancosDe(w2, y);
  }

  /** Blanks followed by a text that does not start with one are skipped exactly. */
  lemma TrasBlancosDe(w: string, t: string)
    requires |w| >= 1 && AllSpace(w) && |t| >= 1 && !IsSpace(t[0])
    ensures TrasBlancos(w + t) == Some(t)
  {
    StripLeftRodeado(w, t);
  }

  lemma PartirDigitos(d: string, c: char, t: string)
    requires AllDigits(d) && !IsDigit(c)
    ensures Partir(d + [c] + t, c) == Some((d, t))
  {
    assert c !in d by {
      forall i | 0 <= i < |d| ensures d[i] != c { assert IsDigit(d[i]); }
    }
    PartirEn(d, c, t);
  }

  lemma TextoFechaDe(s: string, mes: string, w1: string, resto: string, d: string, tras: string, w2: string, y: string)
    requires s == TextoFecha(mes, w1, d, w2, y) && |mes| == 3
    requires resto == d + [','] + tras && tras == w2 + y
    ensures s[..3] == mes && s[3..] == w1 + resto
  {
    assert s == mes + (w1 + resto);
  }

  lemma LeerFechaDePartes(s: string, resto: string, d: string, tras: string, y: string)
    requires |s| >= 3 && MesDe(s[..3]) != 0 && TrasBlancos(s[3..]) == Some(resto)
    requires Partir(resto, ',') == Some((d, tras)) && Numeral(d, 1, 31)
    requires TrasBlancos(tras) == Some(y) && |y| == 4 && AllDigits(y)
    ensures var f := Fecha(Number(y), MesDe(s[..3]), Number(d));
      LeerFecha(s) == (if FechaValida(f) then Some(f) else None)
  {
  }

  /** Only texts of that form are read. */
  lemma LeerFechaSoloForma(s: string)
    requires LeerFecha(s).Some?
    ensures exists mes, w1, d, w2, y :: (FormaFecha(mes, w1, d, w2, y) && TextoFecha(mes, w1, d, w2, y) == s
      && LeerFecha(s) == Some(Fecha(Number(y), MesDe(mes), Number(d))))
  {
    var mes, w1, d, w2, y := FormaLeida(s);
  }

  lemma FormaLeida(s: string) returns (mes: string, w1: string, d: string, w2: string, y: string)
    requires LeerFecha(s).Some?
    ensures FormaFecha(mes, w1, d, w2, y) && TextoFecha(mes, w1, d, w2, y) == s
    ensures LeerFecha(s) == Some(Fecha(Number(y), MesDe(mes), Number(d)))
  {
    var resto, tras;
    resto, d, tras, y := PartesDeFecha(s);
    mes := s[..3];
    var i := LeadingSpaces(s[3..]);
    w1 := s[3..][..i];
    var j := LeadingSpaces(tras);
    w2 := tras[..j];
    Partido(s[3..], i);
    Partido(tras, j);
    FechaDeTexto(s, mes, w1, resto, d, tras, w2, y);
    assert LowerAscii(mes) in Meses by {
      assert LowerAscii(mes) == Meses[MesDe(mes) - 1];
    }
  }

  lemma Partido(t: string, i: nat)
    requires i <= |t|
    ensures t == t[..i] + t[i..]
  {
  }

  lemma FechaDeTexto(s: string, mes: string, w1: string, resto: string, d: string, tras: string, w2: string, y: string)
    requires |s| >= 3 && mes == s[..3] && s[3..] == w1 + resto
    requires resto == d + [','] + tras && tras == w2 + y
    ensures TextoFecha(mes, w1, d, w2, y) == s
  {
    assert s == s[..3] + s[3..];
  }

  lemma PartesDeFecha(s: string) returns (resto: string, d: string, tras: string, y: string)
    requires LeerFecha(s).Some?
    ensures |s| >= 3 && MesDe(s[..3]) != 0 && TrasBlancos(s[3..]) == Some(resto)
    ensures Partir(resto, ',') == Some((d, tras)) && Numeral(d, 1, 31)
    ensures TrasBlancos(tras) == Some(y) && |y| == 4 && AllDigits(y)
    ensures LeerFecha(s) == Some(Fecha(Number(y), MesDe(s[..3]), Number(d)))
  {
    resto := TrasBlancos(s[3..]).value;
    d, tras := Partir(resto, ',').value.0, Partir(resto, ',').value.1;
    y := TrasBlancos(tras).value;
  }

  /** The whole-number text of a day or an hour, without padding ("5", "12"). */
  function SinCeros(n: int): (s: string)
    requires 1 <= n <= 99
    ensures Numeral(s, n, n)
  {
    if n < 10 then [DigitChar(n)]
    else
      Pow10Pequenas();
      NumberPadded(n, 2);
      Padded(n, 2)
  }

  /** A month's abbreviation with its first letter capitalised: "Dec". */
  function Abreviatura(m: int): (r: string)
    requires 1 <= m <= 12
    ensures |r| == 3 && LowerAscii(r) == Meses[m - 1] && '.' !in r
  {
    var a := Meses[m - 1];
    MesEnMinusculas(m - 1);
    var r := [(a[0] as int - 32) as char] + a[1..];
    assert LowerAscii(r) == a;
    r
  }

  lemma MesEnMinusculas(k: int)
    requires 0 <= k < 12
    ensures |Meses[k]| == 3 && forall i | 0 <= i < 3 :: 'a' <= Meses[k][i] <= 'z'
  {
  }

  /** How a date is displayed: "Dec. 5, 2025". */
  function MostrarFecha(f: Fecha): string
    requires FechaValida(f)
  {
    Abreviatura(f.mes) + ". " + SinCeros(f.dia) + ", " + Padded(f.anio, 4)
  }

  /** A displayed date is normalised to the ISO form of the same date. */
  lemma FechaIdaYVuelta(f: Fecha)
    requires FechaValida(f)
    ensures NormalizarFecha(MostrarFecha(f)) == Some(FechaIso(f))
  {
    var mes, d, y := Abreviatura(f.mes), SinCeros(f.dia), Padded(f.anio, 4);
    FechaSinPuntos(mes, d, y);
    assert Number(y) == f.anio by {
      Pow10Pequenas();
      NumberPadded(f.anio, 4);
    }
    LeerFechaAcepta(mes, " ", d, " ", y);
    MesesUnicos(f.mes, MesDe(mes));
  }

  /** Removing the dots of a displayed date leaves the text `%b %d, %Y` reads. */
  lemma FechaSinPuntos(mes: string, d: string, y: string)
    requires '.' !in mes && AllDigits(d) && AllDigits(y)
    ensures Remove(mes + ". " + d + ", " + y, '.') == TextoFecha(mes, " ", d, " ", y)
  {
    var resto := " " + d + ", " + y;
    RestoSinPuntos(d, y);
    FechaConPunto(mes, d, y);
    QuitarUno(mes, '.', resto);
  }

  lemma RestoSinPuntos(d: string, y: string)
    requires AllDigits(d) && AllDigits(y)
    ensures '.' !in " " + d + ", " + y
  {
    DigitosSinPunto(d);
    DigitosSinPunto(y);
    SinEnConcat(" ", d, '.');
    SinEnConcat(" " + d, ", ", '.');
    SinEnConcat(" " + d + ", ", y, '.');
  }

  lemma FechaConPunto(mes: string, d: string, y: string)
    ensures mes + ". " + d + ", " + y == mes + ['.'] + (" " + d + ", " + y)
    ensures mes + (" " + d + ", " + y) == TextoFecha(mes, " ", d, " ", y)
  {
  }

  lemma SinEnConcat(a: string, b: string, c: char)
    requires c !in a && c !in b
    ensures c !in a + b
  {
  }

  lemma DigitosSinPunto(s: string)
    requires AllDigits(s)
    ensures '.' !in s
  {
    forall i | 0 <= i < |s| ensures s[i] != '.' { assert IsDigit(s[i]); }
  }

  /** Removing `c` around a single `c` between two texts free of it joins them. */
  lemma QuitarUno(a: string, c: char, b: string)
    requires c !in a && c !in b
    ensures Remove(a + [c] + b, c) == a + b
  {
    assert Remove([c], c) == [] by {
      assert [c][1..] == [];
    }
    RemoveConcat(a, [c], c);
    assert Remove(a + [c], c) == a;
    RemoveConcat(a + [c], b, c);
  }

  lemma MesesUnicos(a: int, b: int)
    requires 1 <= a <= 12 && 1 <= b <= 12 && Meses[a - 1] == Meses[b - 1]
    ensures a == b
  {
    if a != b { MesesDistintos(a - 1, b - 1); }
  }

  lemma SinPuntos(s: string)
    requires AllDigits(s)
    ensures Remove(s, '.') == s
  {
    assert '.' !in s by {
      forall i | 0 <= i < |s| ensures s[i] != '.' { assert IsDigit(s[i]); }
    }
  }

  /** The hour and a.m./p.m. a 24-hour time is displayed with. */
  function A12(h: int): (r: (int, bool))
    requires 0 <= h <= 23
    ensures 1 <= r.0 <= 12 && A24(r.0, r.1) == h
  {
    if h == 0 then (12, false) else if h < 12 then (h, false) else if h == 12 then (12, true) else (h - 12, true)
  }

  /** How a time is displayed: "9:30 a.m.", "12:05 p.m.". */
  function MostrarHora(t: Hora): string
    requires 0 <= t.hora <= 23 && 0 <= t.minuto <= 59
  {
    var h12 := A12(t.hora);
    SinCeros(h12.0) + ":" + Padded(t.minuto, 2) + " " + (if h12.1 then "p.m." else "a.m.")
  }

  /** A displayed time is normalised to the 24-hour form of the same time. */
  lemma HoraIdaYVuelta(t: Hora)
    requires 0 <= t.hora <= 23 && 0 <= t.minuto <= 59
    ensures NormalizarHora(MostrarHora(t)) == Some(HoraTexto(t))
  {
    var limpio := HoraMostradaLimpia(t);
    HoraLimpiaLeida(t, limpio);
  }

  lemma HoraMostradaLimpia(t: Hora) returns (limpio: string)
    requires 0 <= t.hora <= 23 && 0 <= t.minuto <= 59
    ensures LimpiarHora(MostrarHora(t)) == limpio
    ensures limpio == TextoHora(SinCeros(A12(t.hora).0), Padded(t.minuto, 2), " ", if A12(t.hora).1 then "pm" else "am")
  {
    var h, pm := A12(t.hora).0, A12(t.hora).1;
    var hs, ms := SinCeros(h), Padded(t.minuto, 2);
    var p := if pm then "pm" else "am";
    HoraSinPuntos(hs, ms, pm);
    HoraYaLimpia(hs, ms, p);
    limpio := TextoHora(hs, ms, " ", p);
  }

  lemma HoraLimpiaLeida(t: Hora, limpio: string)
    requires 0 <= t.hora <= 23 && 0 <= t.minuto <= 59
    requires limpio == TextoHora(SinCeros(A12(t.hora).0), Padded(t.minuto, 2), " ", if A12(t.hora).1 then "pm" else "am")
    ensures LeerHora(limpio) == Some(t)
  {
    var h, pm := A12(t.hora).0, A12(t.hora).1;
    var hs, ms := SinCeros(h), Padded(t.minuto, 2);
    var p := if pm then "pm" else "am";
    MinutosMostrados(t.minuto);
    assert AllSpace(" ");
    assert FormaHora(hs, ms, " ", p);
    LeerHoraAcepta(hs, ms, " ", p);
  }

  /** Two zero-padded digits are a minute numeral that reads back as the minute. */
  lemma MinutosMostrados(minuto: int)
    requires 0 <= minuto <= 59
    ensures Numeral(Padded(minuto, 2), 0, 59) && Number(Padded(minuto, 2)) == minuto
  {
    Pow10Pequenas();
    NumberPadded(minuto, 2);
  }

  /** Removing the dots of a displayed time leaves "h:mm am" or "h:mm pm". */
  lemma HoraSinPuntos(hs: string, ms: string, pm: bool)
    requires AllDigits(hs) && AllDigits(ms)
    ensures Remove(hs + ":" + ms + " " + (if pm then "p.m." else "a.m."), '.')
      == TextoHora(hs, ms, " ", if pm then "pm" else "am")
  {
    var x := if pm then "p" else "a";
    var antes := hs + ":" + ms + " " + x;
    AntesSinPuntos(hs, ms, x);
    HoraConPuntos(hs, ms, pm, antes);
    RemoveConcat(antes + ['.'] + "m", ".", '.');
    QuitarUno(antes, '.', "m");
    assert Remove(".", '.') == [];
  }

  lemma AntesSinPuntos(hs: string, ms: string, x: string)
    requires AllDigits(hs) && AllDigits(ms) && '.' !in x
    ensures '.' !in hs + ":" + ms + " " + x
  {
    DigitosSinPunto(hs);
    DigitosSinPunto(ms);
    SinEnConcat(hs, ":", '.');
    SinEnConcat(hs + ":", ms, '.');
    SinEnConcat(hs + ":" + ms, " ", '.');
    SinEnConcat(hs + ":" + ms + " ", x, '.');
  }

  lemma HoraConPuntos(hs: string, ms: string, pm: bool, antes: string)
    requires antes == hs + ":" + ms + " " + (if pm then "p" else "a")
    ensures hs + ":" + ms + " " + (if pm then "p.m." else "a.m.") == (antes + ['.'] + "m") + "."
    ensures antes + "m" == TextoHora(hs, ms, " ", if pm then "pm" else "am")
  {
  }

  /** "h:mm am" has nothing to strip and nothing to lower-case. */
  lemma HoraYaLimpia(hs: string, ms: string, p: string)
    requires AllDigits(hs) && |hs| >= 1 && AllDigits(ms) && (p == "am" || p == "pm")
    ensures var s := TextoHora(hs, ms, " ", p); LowerAscii(Strip(s)) == s
  {
    var s := TextoHora(hs, ms, " ", p);
    HoraSinBordes(hs, ms, p);
    HoraSinMayusculas(hs, ms, p);
    LowerAsciiNoUpper(s);
  }

  lemma HoraSinBordes(hs: string, ms: string, p: string)
    requires AllDigits(hs) && |hs| >= 1 && (p == "am" || p == "pm")
    ensures Strip(TextoHora(hs, ms, " ", p)) == TextoHora(hs, ms, " ", p)
  {
    var s := TextoHora(hs, ms, " ", p);
    assert s[0] == hs[0] && IsDigit(hs[0]);
    assert s[|s| - 1] == p[1];
    StripSinBordes(s);
  }

  lemma HoraSinMayusculas(hs: string, ms: string, p: string)
    requires AllDigits(hs) && AllDigits(ms) && (p == "am" || p == "pm")
    ensures NoUpper(TextoHora(hs, ms, " ", p))
  {
    DigitsNoUpper(hs);
    DigitsNoUpper(ms);
    assert NoUpper(":") && NoUpper(" ") && NoUpper(p);
    NoUpperConcat(hs, ":");
    NoUpperConcat(hs + ":", ms);
    NoUpperConcat(hs + ":" + ms, " ");
    NoUpperConcat(hs + ":" + ms + " ", p);
  }

  /**
   * Blanks around a time, capitals in "AM"/"PM" and the dots of "a.m."/"p.m."
   * do not change what is read: the text cleans to the plain form.
   */
  lemma HoraCualquierEscritura(h: string, m: string, w: string, p: string, a: string, b: string, sufijo: string)
    requires FormaHora(h, m, w, p) && AllSpace(a) && AllSpace(b)
    requires LowerAscii(Remove(sufijo, '.')) == p
    ensures LimpiarHora(a + TextoHora(h, m, w, sufijo) + b) == TextoHora(h, m, w, p)
    ensures NormalizarHora(a + TextoHora(h, m, w, sufijo) + b)
         == Some(HoraTexto(Hora(A24(Number(h), p == "pm"), Number(m))))
  {
    var x := h + ":" + m + w;
    var r := Remove(sufijo, '.');
    LimpioSinPuntoNiMayuscula(h, m, w);
    BlancosSinPunto(a);
    BlancosSinPunto(b);
    SinPuntosAlrededor(a, x, sufijo, b);
    SufijoSinBordeFinal(r, p);
    StripRodeado(a, x + r, b);
    MinusculasTrasLimpio(x, r);
    LeerHoraAcepta(h, m, w, p);
  }

  /** Removing dots from a dot-free text followed by a suffix, between dot-free ends, only touches the suffix. */
  lemma SinPuntosAlrededor(a: string, x: string, sufijo: string, b: string)
    requires '.' !in a && '.' !in b && '.' !in x
    ensures Remove(a + (x + sufijo) + b, '.') == a + (x + Remove(sufijo, '.')) + b
  {
    RemoveConcat(a + (x + sufijo), b, '.');
    RemoveConcat(a, x + sufijo, '.');
    RemoveConcat(x, sufijo, '.');
  }

  lemma BlancosSinPunto(a: string)
    requires AllSpace(a)
    ensures '.' !in a && Remove(a, '.') == a
  {
    forall i | 0 <= i < |a| ensures a[i] != '.' { assert IsSpace(a[i]); }
  }

  /** A suffix that lower-cases to "am" or "pm" ends in "m" or "M", not in a blank. */
  lemma SufijoSinBordeFinal(r: string, p: string)
    requires LowerAscii(r) == p && (p == "am" || p == "pm")
    ensures |r| == 2 && !IsSpace(r[1])
  {
    assert LowerAscii(r)[1] == 'm';
  }

  /** Lower-casing a text with no capitals followed by a suffix lower-cases the suffix alone. */
  lemma MinusculasTrasLimpio(x: string, r: string)
    requires NoUpper(x)
    ensures LowerAscii(x + r) == x + LowerAscii(r)
  {
  }

  /** The digits, colon and blanks of a time hold no dot and no capital. */
  lemma LimpioSinPuntoNiMayuscula(h: string, m: string, w: string)
    requires AllDigits(h) && AllDigits(m) && AllSpace(w) && h != []
    ensures '.' !in h + ":" + m + w && NoUpper(h + ":" + m + w)
    ensures IsDigit((h + ":" + m + w)[0])
  {
    var x := h + ":" + m + w;
    forall i | 0 <= i < |x| ensures x[i] != '.' && !('A' <= x[i] <= 'Z') {
      if i < |h| {
        assert x[i] == h[i] && IsDigit(h[i]);
      } else if i == |h| {
        assert x[i] == ':';
      } else if i < |h| + 1 + |m| {
        assert x[i] == m[i - |h| - 1] && IsDigit(m[i - |h| - 1]);
      } else {
        assert x[i] == w[i - |h| - 1 - |m|] && IsSpace(w[i - |h| - 1 - |m|]);
      }
    }
    assert x[0] == h[0];
  }

  /** "9:30 AM", " 9:30 am " and "9:30 a.m." are all normalised to "09:30". */
  lemma NueveYMedia()
    ensures NormalizarHora("9:30 AM") == Some("09:30")
    ensures NormalizarHora(" 9:30 am ") == Some("09:30")
    ensures NormalizarHora("9:30 a.m.") == Some("09:30")
  {
    NueveYMediaPartes();
    SufijosDeLaManana();
    TextosDeNueveYMedia();
    assert AllSpace("") && AllSpace(" ");
    HoraCualquierEscritura("9", "30", " ", "am", "", "", "AM");
    HoraCualquierEscritura("9", "30", " ", "am", " ", " ", "am");
    HoraCualquierEscritura("9", "30", " ", "am", "", "", "a.m.");
  }

  lemma TextosDeNueveYMedia()
    ensures "" + TextoHora("9", "30", " ", "AM") + "" == "9:30 AM"
    ensures " " + TextoHora("9", "30", " ", "am") + " " == " 9:30 am "
    ensures "" + TextoHora("9", "30", " ", "a.m.") + "" == "9:30 a.m."
  {
  }

  lemma NueveYMediaPartes()
    ensures FormaHora("9", "30", " ", "am") && Number("9") == 9 && Number("30") == 30
    ensures HoraTexto(Hora(A24(9, false), 30)) == "09:30"
  {
    assert Number("9") == 9 && Number("30") == 30;
    assert AllSpace(" ");
    assert Padded(9, 2) == "09" && Padded(30, 2) == "30";
  }

  lemma SufijosDeLaManana()
    ensures LowerAscii(Remove("AM", '.')) == "am"
    ensures LowerAscii(Remove("am", '.')) == "am"
    ensures LowerAscii(Remove("a.m.", '.')) == "am"
  {
    assert Remove("AM", '.') == "AM" && Remove("am", '.') == "am";
    assert Remove("a.m.", '.') == "am" by {
      assert "a.m." == "a" + "." + "m" + ".";
      RemoveConcat("a" + "." + "m", ".", '.');
      RemoveConcat("a" + ".", "m", '.');
      RemoveConcat("a", ".", '.');
    }
  }

  /** Different 12-hour readings give different 24-hour hours. */
  lemma A24Inyectiva(h1: int, pm1: bool, h2: int, pm2: bool)
    requires 1 <= h1 <= 12 && 1 <= h2 <= 12
    requires A24(h1, pm1) == A24(h2, pm2)
    ensures h1 == h2 && pm1 == pm2
  {
  }
}
