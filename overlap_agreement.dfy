/**
 * The application tests "do two time ranges overlap" in four places: the
 * overlap query of `Cita.clean`, `hay_conflicto` of the availability service,
 * `hay_conflicto` of the views, and the board's `checkOverlap`. On whole-minute
 * times of one day, as the database stores them and the API sends them
 * ("HH:MM:SS"), all four give the same answer.
 */
module OverlapAgreement {
  import opened Wrappers
  import opened Clock
  import opened PyText
  import CM = CitaModels
  import CS = CitaService
  import CV = CitaViews
  import TU = TimeUtils

  /** A whole minute of the day. */
  predicate Minuto(m: int)
  {
    0 <= m < MinutesPerDay
  }

  /** A stored row whose start and end are minutes of the day. */
  predicate EnElDia(c: CM.CitaRow)
  {
    Minuto(c.horaInicio) && Minuto(c.horaFin)
  }

  /** How the API serialises the whole-minute time `m`: "HH:MM:00". */
  function TextoApi(m: int): (s: string)
    requires Minuto(m)
  {
    Padded(m / 60, 2) + ":" + Padded(m % 60, 2) + ":" + Padded(0, 2)
  }

  /** The board reads back the minute the API sent. */
  lemma LeerTextoApi(m: int)
    requires Minuto(m)
    ensures TU.TimeToMinutes(TextoApi(m)) == TU.Num(m)
  {
    var h, mi := m / 60, m % 60;
    assert 60 * h + mi == m;
    TU.TimeToMinutesRoundTrip(h, mi, 0);
  }

  /** A stored row as the views see it: `time` values at whole minutes. */
  function ComoFranja(c: CM.CitaRow): CV.Franja
    requires EnElDia(c)
  {
    CV.Franja(AtMinute(c.horaInicio), AtMinute(c.horaFin))
  }

  /** A stored row as the board receives it from the API. */
  function ComoJs(c: CM.CitaRow): TU.CitaJs
    requires EnElDia(c)
  {
    TU.CitaJs(c.pk, TextoApi(c.horaInicio), TextoApi(c.horaFin))
  }

  /** The four overlap tests agree on one appointment. */
  lemma CuatroPruebas(c: CM.CitaRow, inicio: int, fin: int)
    requires EnElDia(c) && Minuto(inicio) && Minuto(fin)
    ensures CM.SolapaQ(c, inicio, fin) == CS.Choque(inicio, fin, c)
    ensures CV.Solapa(AtMinute(inicio), AtMinute(fin), ComoFranja(c)) == CS.Choque(inicio, fin, c)
    ensures TU.ChocaJs(TU.TimeToMinutes(TextoApi(inicio)), TU.TimeToMinutes(TextoApi(fin)), ComoJs(c))
            == CS.Choque(inicio, fin, c)
  {
    MinutosOrdenados(inicio, c.horaFin);
    MinutosOrdenados(c.horaInicio, fin);
    LeerTextoApi(inicio);
    LeerTextoApi(fin);
    ComoJsSeLee(c);
  }

  /** Whole minutes compare as the `time` values at those minutes compare. */
  lemma MinutosOrdenados(a: int, b: int)
    requires Minuto(a) && Minuto(b)
    ensures Micros(AtMinute(a)) < Micros(AtMinute(b)) <==> a < b
  {
  }

  /** The board reads the times of `x` as the minutes of the stored row `c`. */
  predicate LeeComo(x: TU.CitaJs, c: CM.CitaRow)
  {
    TU.TimeToMinutes(x.horaInicio) == TU.Num(c.horaInicio) && TU.TimeToMinutes(x.horaFin) == TU.Num(c.horaFin)
  }

  lemma ComoJsSeLee(c: CM.CitaRow)
    requires EnElDia(c)
    ensures LeeComo(ComoJs(c), c)
  {
    LeerTextoApi(c.horaInicio);
    LeerTextoApi(c.horaFin);
  }

  function Franjas(citas: seq<CM.CitaRow>): (r: seq<CV.Franja>)
    requires forall c | c in citas :: EnElDia(c)
    ensures |r| == |citas| && forall i | 0 <= i < |citas| :: r[i] == ComoFranja(citas[i])
  {
    if citas == [] then [] else [ComoFranja(citas[0])] + Franjas(citas[1..])
  }

  function CitasJs(citas: seq<CM.CitaRow>): (r: seq<TU.CitaJs>)
    requires forall c | c in citas :: EnElDia(c)
    ensures |r| == |citas| && forall i | 0 <= i < |citas| :: r[i] == ComoJs(citas[i])
  {
    if citas == [] then [] else [ComoJs(citas[0])] + CitasJs(citas[1..])
  }

  /**
   * Over a whole list of appointments, the service, the views and the board
   * (with nothing excluded) find a conflict in exactly the same cases.
   */
  lemma ConflictosCoinciden(inicio: int, fin: int, citas: seq<CM.CitaRow>)
    requires Minuto(inicio) && Minuto(fin)
    requires forall c | c in citas :: EnElDia(c)
    ensures CV.HayConflicto(AtMinute(inicio), AtMinute(fin), Franjas(citas)) == CS.Conflicto(inicio, fin, citas)
    ensures TU.CheckOverlap(TextoApi(inicio), TextoApi(fin), CitasJs(citas), None) == CS.Conflicto(inicio, fin, citas)
  {
    FranjasDe(citas);
    ConflictoEnLasVistas(AtMinute(inicio), AtMinute(fin), inicio, fin, citas, Franjas(citas));
    LeerTextoApi(inicio);
    LeerTextoApi(fin);
    CitasJsSeLeen(citas);
    ConflictoEnLaPizarra(inicio, fin, citas, CitasJs(citas));
  }

  /** The `time` values of `f` are the minutes of the stored row `c`. */
  predicate FranjaDe(f: CV.Franja, c: CM.CitaRow)
  {
    Micros(f.horaInicio) == c.horaInicio * MicrosPerMinute && Micros(f.horaFin) == c.horaFin * MicrosPerMinute
  }

  lemma ConflictoEnLasVistas(ti: TimeOfDay, tf: TimeOfDay, inicio: int, fin: int,
                             citas: seq<CM.CitaRow>, fr: seq<CV.Franja>)
    requires Micros(ti) == inicio * MicrosPerMinute && Micros(tf) == fin * MicrosPerMinute
    requires |fr| == |citas| && forall i | 0 <= i < |fr| :: FranjaDe(fr[i], citas[i])
    ensures CV.HayConflicto(ti, tf, fr) == CS.Conflicto(inicio, fin, citas)
  {
    if CS.Conflicto(inicio, fin, citas) {
      var c :| c in citas && CS.Choque(inicio, fin, c);
      var i :| 0 <= i < |citas| && citas[i] == c;
      assert FranjaDe(fr[i], c);
      assert fr[i] in fr && CV.Solapa(ti, tf, fr[i]);
    }
    if CV.HayConflicto(ti, tf, fr) {
      var f :| f in fr && CV.Solapa(ti, tf, f);
      var i :| 0 <= i < |fr| && fr[i] == f;
      assert FranjaDe(f, citas[i]);
      assert citas[i] in citas && CS.Choque(inicio, fin, citas[i]);
    }
  }

  lemma ConflictoEnLaPizarra(inicio: int, fin: int, citas: seq<CM.CitaRow>, js: seq<TU.CitaJs>)
    requires |js| == |citas| && forall i | 0 <= i < |js| :: LeeComo(js[i], citas[i])
    ensures TU.AlgunaChoca(TU.Num(inicio), TU.Num(fin), js, None) == CS.Conflicto(inicio, fin, citas)
  {
    if CS.Conflicto(inicio, fin, citas) {
      var c :| c in citas && CS.Choque(inicio, fin, c);
      var i :| 0 <= i < |citas| && citas[i] == c;
      assert LeeComo(js[i], c);
      assert js[i] in js && !TU.Excluida(js[i], None) && TU.ChocaJs(TU.Num(inicio), TU.Num(fin), js[i]);
    }
    if TU.AlgunaChoca(TU.Num(inicio), TU.Num(fin), js, None) {
      var x :| x in js && TU.ChocaJs(TU.Num(inicio), TU.Num(fin), x);
      var i :| 0 <= i < |js| && js[i] == x;
      assert LeeComo(x, citas[i]);
      assert citas[i] in citas && CS.Choque(inicio, fin, citas[i]);
    }
  }

  lemma CitasJsSeLeen(citas: seq<CM.CitaRow>)
    requires forall c | c in citas :: EnElDia(c)
    ensures forall i | 0 <= i < |citas| :: LeeComo(CitasJs(citas)[i], citas[i])
  {
    forall i | 0 <= i < |citas| ensures LeeComo(CitasJs(citas)[i], citas[i]) {
      ComoJsSeLee(citas[i]);
    }
  }

  lemma FranjasDe(citas: seq<CM.CitaRow>)
    requires forall c | c in citas :: EnElDia(c)
    ensures forall i | 0 <= i < |citas| :: FranjaDe(Franjas(citas)[i], citas[i])
  {
  }
}
