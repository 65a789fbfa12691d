/**
 * The scheduler board's client-side overlap test: `timeToMinutes` reads a
 * "HH:MM" or "HH:MM:SS" text as minutes since midnight, and `checkOverlap`
 * asks whether a new range collides with one of the appointments on screen.
 * JavaScript numbers are modelled as whole numbers or NaN.
 */
module TimeUtils {
  import opened Wrappers
  import opened PyText

  /** A JavaScript number as these functions can produce it: a whole number or NaN. */
  datatype JsNumber = Num(v: int) | NaN

  /** `a * k`: NaN stays NaN. */
  function Times(a: JsNumber, k: int): JsNumber
  {
    if a.NaN? then NaN else Num(a.v * k)
  }

  /** `a + b`: NaN when either side is NaN. */
  function Plus(a: JsNumber, b: JsNumber): JsNumber
  {
    if a.NaN? || b.NaN? then NaN else Num(a.v + b.v)
  }

  /** `a < b`: every comparison with NaN is false. */
  predicate Less(a: JsNumber, b: JsNumber)
  {
    a.Num? && b.Num? && a.v < b.v
  }

  // ===== String.prototype.split with a one-character separator =====

  /** `s.split(c)`: the pieces between the separators, in order; "" gives [""]. */
  function Split(s: string, c: char): (r: seq<string>)
    ensures |r| >= 1
    decreases |s|
  {
    if s == [] then [[]]
    else
      var rest := Split(s[1..], c);
      if s[0] == c then [[]] + rest else [[s[0]] + rest[0]] + rest[1..]
  }

  /** `pieces.join(c)`. */
  function Join(pieces: seq<string>, c: char): string
  {
    if |pieces| <= 1 then (if pieces == [] then [] else pieces[0])
    else pieces[0] + [c] + Join(pieces[1..], c)
  }

  /** Splitting loses nothing: joining the pieces back with the separator gives the text. */
  lemma SplitJoin(s: string, c: char)
    ensures Join(Split(s, c), c) == s
    ensures forall k | 0 <= k < |Split(s, c)| :: c !in Split(s, c)[k]
  {
    JoinSplit(s, c);
    PiezasSinSeparador(s, c);
  }

  lemma {:induction false} JoinSplit(s: string, c: char)
    ensures Join(Split(s, c), c) == s
    decreases |s|
  {
    if s != [] {
      JoinSplit(s[1..], c);
      var rest := Split(s[1..], c);
      if s[0] == c {
        assert Split(s, c) == [[]] + rest;
        assert Join(Split(s, c), c) == [] + [c] + Join(rest, c);
      } else {
        var r := Split(s, c);
        assert r[0] == [s[0]] + rest[0] && r[1..] == rest[1..];
        if |rest| == 1 {
          assert Join(r, c) == r[0];
        } else {
          assert Join(rest, c) == rest[0] + [c] + Join(rest[1..], c);
          assert Join(r, c) == r[0] + [c] + Join(r[1..], c);
        }
      }
    }
  }

  lemma {:induction false} PiezasSinSeparador(s: string, c: char)
    ensures forall k | 0 <= k < |Split(s, c)| :: c !in Split(s, c)[k]
    decreases |s|
  {
    if s != [] {
      PiezasSinSeparador(s[1..], c);
      var rest := Split(s[1..], c);
      var r := Split(s, c);
      if s[0] == c {
        assert r == [[]] + rest;
      } else {
        assert r[0] == [s[0]] + rest[0] && r[1..] == rest[1..];
        forall k | 0 <= k < |r| ensures c !in r[k] {
          if k > 0 {
            assert r[k] == rest[k];
          }
        }
      }
    }
  }

  /** A piece free of the separator comes off the front of the split unchanged. */
  lemma {:induction false} SplitFront(a: string, c: char, b: string)
    requires c !in a
    ensures Split(a + [c] + b, c) == [a] + Split(b, c)
    decreases |a|
  {
    if a == [] {
      assert a + [c] + b == [c] + b;
      assert ([c] + b)[1..] == b;
    } else {
      assert (a + [c] + b)[1..] == a[1..] + [c] + b;
      SplitFront(a[1..], c, b);
      assert [a[0]] + a[1..] == a;
    }
  }

  /** A text without the separator is a single piece. */
  lemma {:induction false} SplitWhole(s: string, c: char)
    requires c !in s
    ensures Split(s, c) == [s]
    decreases |s|
  {
    if s != [] {
      SplitWhole(s[1..], c);
      assert [s[0]] + s[1..] == s;
    }
  }

  // ===== Number(string) =====

  /** The characters `String.prototype.trim` removes: white space and line terminators. */
  predicate JsSpace(c: char)
  {
    var n := c as int;
    || (9 <= n <= 13) || n == 32 || n == 0xA0 || n == 0x1680 || (0x2000 <= n <= 0x200A)
    || n == 0x2028 || n == 0x2029 || n == 0x202F || n == 0x205F || n == 0x3000 || n == 0xFEFF
  }

  function TrimStart(s: string): (r: string)
    ensures r == [] || !JsSpace(r[0])
    decreases |s|
  {
    if s != [] && JsSpace(s[0]) then TrimStart(s[1..]) else s
  }

  function TrimEnd(s: string): (r: string)
    ensures r == [] || !JsSpace(r[|r| - 1])
    decreases |s|
  {
    if s != [] && JsSpace(s[|s| - 1]) then TrimEnd(s[..|s| - 1]) else s
  }

  /** Decimal digits, optionally after a sign: the numerals read as whole numbers. */
  predicate SignedDigits(t: string)
  {
    if t != [] && (t[0] == '+' || t[0] == '-') then |t| > 1 && AllDigits(t[1..])
    else t != [] && AllDigits(t)
  }

  /**
   * `Number(s)`: surrounding white space is ignored, an empty text is 0, an
   * optionally signed run of digits is its value, and anything else is NaN.
   */
  function StringToNumber(s: string): (r: JsNumber)
  {
    var t := TrimEnd(TrimStart(s));
    if t == [] then Num(0)
    else if !SignedDigits(t) then NaN
    else if t[0] == '-' then Num(-Number(t[1..]))
    else if t[0] == '+' then Num(Number(t[1..]))
    else Num(Number(t))
  }

  /** A run of digits is read as its decimal value; a text that is no numeral is NaN. */
  lemma StringToNumberDigits(s: string)
    requires s != [] && AllDigits(s)
    ensures StringToNumber(s) == Num(Number(s))
  {
    assert IsDigit(s[0]) && IsDigit(s[|s| - 1]);
    assert TrimStart(s) == s;
    assert TrimEnd(s) == s;
  }

  // ===== timeToMinutes =====

  /**
   * `timeToMinutes(time)`: the first two ':'-separated fields as numbers, hours
   * times 60 plus minutes. With no second field the minutes are `undefined`
   * and the sum is NaN; a third field is never looked at.
   */
  function TimeToMinutes(time: string): (r: JsNumber)
  {
    var parts := Split(time, ':');
    var h := StringToNumber(parts[0]);
    var m := if |parts| > 1 then StringToNumber(parts[1]) else NaN;
    Plus(Times(h, 60), m)
  }

  /**
   * "HH:MM" and "HH:MM:SS" are read as 60 * HH + MM: whatever follows the
   * minutes, from the next ':' on, is ignored, seconds included.
   */
  lemma TimeToMinutesReads(time: string, hh: string, mm: string, rest: string)
    requires hh != [] && AllDigits(hh) && mm != [] && AllDigits(mm)
    requires rest == [] || rest[0] == ':'
    requires time == hh + ":" + mm + rest
    ensures TimeToMinutes(time) == Num(60 * Number(hh) + Number(mm))
  {
    PartesDeHora(hh, mm, rest);
    MinutosDePartes(time, hh, mm);
  }

  lemma MinutosDePartes(time: string, a: string, b: string)
    requires a != [] && AllDigits(a) && b != [] && AllDigits(b)
    requires |Split(time, ':')| >= 2 && Split(time, ':')[0] == a && Split(time, ':')[1] == b
    ensures TimeToMinutes(time) == Num(60 * Number(a) + Number(b))
  {
    Campos(time, a, b);
    StringToNumberDigits(a);
    StringToNumberDigits(b);
  }

  lemma Campos(time: string, a: string, b: string)
    requires |Split(time, ':')| >= 2 && Split(time, ':')[0] == a && Split(time, ':')[1] == b
    ensures TimeToMinutes(time) == Plus(Times(StringToNumber(a), 60), StringToNumber(b))
  {
  }

  lemma SinSeparador(s: string)
    requires AllDigits(s)
    ensures ':' !in s
  {
    forall i | 0 <= i < |s| ensures s[i] != ':' { assert IsDigit(s[i]); }
  }

  /** The hour and the minute are the first two pieces of "hh:mm" followed by nothing or ":...". */
  lemma PartesDeHora(hh: string, mm: string, rest: string)
    requires AllDigits(hh) && AllDigits(mm)
    requires rest == [] || rest[0] == ':'
    ensures |Split(hh + ":" + mm + rest, ':')| >= 2
    ensures Split(hh + ":" + mm + rest, ':')[0] == hh && Split(hh + ":" + mm + rest, ':')[1] == mm
  {
    SinSeparador(hh);
    SinSeparador(mm);
    assert hh + ":" + mm + rest == hh + [':'] + (mm + rest);
    SplitFront(hh, ':', mm + rest);
    if rest == [] {
      assert mm + rest == mm;
      SplitWhole(mm, ':');
    } else {
      assert mm + rest == mm + [':'] + rest[1..];
      SplitFront(mm, ':', rest[1..]);
    }
  }

  /** A text with no ':' has no minutes field, so it reads as NaN. */
  lemma TimeToMinutesSinSeparador(time: string)
    requires ':' !in time
    ensures TimeToMinutes(time) == NaN
  {
    SplitWhole(time, ':');
  }

  /** The zero-padded time `h:m:s` the API sends reads back as its minute of the day. */
  lemma TimeToMinutesRoundTrip(h: int, m: int, s: int)
    requires 0 <= h < 24 && 0 <= m < 60 && 0 <= s < 60
    ensures TimeToMinutes(Padded(h, 2) + ":" + Padded(m, 2) + ":" + Padded(s, 2)) == Num(60 * h + m)
  {
    DosCifras(h, m);
    LeerTextoApi(Padded(h, 2), Padded(m, 2), Padded(s, 2), h, m);
  }

  lemma LeerTextoApi(hh: string, mm: string, ss: string, h: int, m: int)
    requires hh != [] && AllDigits(hh) && mm != [] && AllDigits(mm)
    requires Number(hh) == h && Number(mm) == m
    ensures TimeToMinutes(hh + ":" + mm + ":" + ss) == Num(60 * h + m)
  {
    TimeToMinutesReads(hh + ":" + mm + ":" + ss, hh, mm, ":" + ss);
  }

  lemma DosCifras(h: int, m: int)
    requires 0 <= h < 100 && 0 <= m < 100
    ensures Number(Padded(h, 2)) == h && Number(Padded(m, 2)) == m
  {
    Pow10Pequenas();
    NumberPadded(h, 2);
    NumberPadded(m, 2);
  }

  // ===== checkOverlap =====

  /** The fields of an appointment the board reads: `id`, `hora_inicio`, `hora_fin`. */
  datatype CitaJs = CitaJs(id: int, horaInicio: string, horaFin: string)

  /**
   * `excludeCitaId && cita.id === excludeCitaId`: only a given, nonzero id
   * excludes, since 0 and `undefined` are falsy.
   */
  predicate Excluida(c: CitaJs, excludeCitaId: Option<int>)
  {
    excludeCitaId.Some? && excludeCitaId.value != 0 && c.id == excludeCitaId.value
  }

  /** `(newStartMin < citaEnd) && (newEndMin > citaStart)`. */
  predicate ChocaJs(newStartMin: JsNumber, newEndMin: JsNumber, c: CitaJs)
  {
    Less(newStartMin, TimeToMinutes(c.horaFin)) && Less(TimeToMinutes(c.horaInicio), newEndMin)
  }

  /** The `existingCitas.some(...)` callback, applied front to back. */
  function AlgunaChoca(newStartMin: JsNumber, newEndMin: JsNumber, citas: seq<CitaJs>,
                       excludeCitaId: Option<int>): (r: bool)
    ensures r <==> exists c | c in citas :: !Excluida(c, excludeCitaId) && ChocaJs(newStartMin, newEndMin, c)
  {
    if citas == [] then false
    else if !Excluida(citas[0], excludeCitaId) && ChocaJs(newStartMin, newEndMin, citas[0]) then true
    else
      assert citas == [citas[0]] + citas[1..];
      AlgunaChoca(newStartMin, newEndMin, citas[1..], excludeCitaId)
  }

  /** `checkOverlap(newStart, newEnd, existingCitas, excludeCitaId)`. */
  function CheckOverlap(newStart: string, newEnd: string, citas: seq<CitaJs>, excludeCitaId: Option<int>): (r: bool)
    ensures r <==> exists c | c in citas ::
      !Excluida(c, excludeCitaId) && ChocaJs(TimeToMinutes(newStart), TimeToMinutes(newEnd), c)
    ensures citas == [] ==> !r
  {
    AlgunaChoca(TimeToMinutes(newStart), TimeToMinutes(newEnd), citas, excludeCitaId)
  }

  /** The appointments whose id is not `id`. */
  function SinId(citas: seq<CitaJs>, id: int): (r: seq<CitaJs>)
    ensures forall c :: c in r <==> c in citas && c.id != id
  {
    if citas == [] then []
    else (if citas[0].id == id then [] else [citas[0]]) + SinId(citas[1..], id)
  }

  /**
   * Excluding a nonzero id is checking against the list without that id;
   * excluding 0 excludes nothing.
   */
  lemma ExcluirEsQuitar(newStart: string, newEnd: string, citas: seq<CitaJs>, id: int)
    ensures id != 0 ==> CheckOverlap(newStart, newEnd, citas, Some(id)) == CheckOverlap(newStart, newEnd, SinId(citas, id), None)
    ensures id == 0 ==> CheckOverlap(newStart, newEnd, citas, Some(id)) == CheckOverlap(newStart, newEnd, citas, None)
  {
    var ns, ne := TimeToMinutes(newStart), TimeToMinutes(newEnd);
    if id != 0 && CheckOverlap(newStart, newEnd, citas, Some(id)) {
      var c :| c in citas && !Excluida(c, Some(id)) && ChocaJs(ns, ne, c);
      assert c in SinId(citas, id);
    }
  }

  /** Back-to-back ranges do not collide: an end equal to the other's start is no overlap. */
  lemma ContiguasNoChocan(newStart: string, newEnd: string, citas: seq<CitaJs>, excludeCitaId: Option<int>)
    requires forall c | c in citas ::
      TimeToMinutes(newEnd) == TimeToMinutes(c.horaInicio) || TimeToMinutes(newStart) == TimeToMinutes(c.horaFin)
    ensures !CheckOverlap(newStart, newEnd, citas, excludeCitaId)
  {
  }

  /** A new range whose start or end does not read as a number collides with nothing. */
  lemma NaNNoChoca(newStart: string, newEnd: string, citas: seq<CitaJs>, excludeCitaId: Option<int>)
    requires TimeToMinutes(newStart) == NaN || TimeToMinutes(newEnd) == NaN
    ensures !CheckOverlap(newStart, newEnd, citas, excludeCitaId)
  {
  }
}
