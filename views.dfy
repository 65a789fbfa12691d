/**
 * The two helpers of the appointment views: `sumar_minutos`, which is
 * `Clock.AddMinutes`, and `hay_conflicto`, an existential search over
 * appointments whose times are `datetime.time` values.
 */
module CitaViews {
  import opened Clock

  /** The fields of an appointment `hay_conflicto` reads. */
  datatype Franja = Franja(horaInicio: TimeOfDay, horaFin: TimeOfDay)

  /** `not (fin <= c.hora_inicio or inicio >= c.hora_fin)`, with times ordered as Python orders them. */
  predicate Solapa(inicio: TimeOfDay, fin: TimeOfDay, c: Franja)
  {
    !(Micros(fin) <= Micros(c.horaInicio) || Micros(inicio) >= Micros(c.horaFin))
  }

  /** `hay_conflicto(inicio, fin, citas)`: the first appointment that overlaps ends the search. */
  function HayConflicto(inicio: TimeOfDay, fin: TimeOfDay, citas: seq<Franja>): (r: bool)
    ensures r <==> exists c | c in citas :: Solapa(inicio, fin, c)
  {
    if citas == [] then false
    else if Solapa(inicio, fin, citas[0]) then true
    else
      assert citas == [citas[0]] + citas[1..];
      HayConflicto(inicio, fin, citas[1..])
  }

  /** Whether there is a conflict does not depend on the order of the appointments. */
  lemma {:induction false} HayConflictoConcat(inicio: TimeOfDay, fin: TimeOfDay, a: seq<Franja>, b: seq<Franja>)
    ensures HayConflicto(inicio, fin, a + b) == (HayConflicto(inicio, fin, a) || HayConflicto(inicio, fin, b))
    ensures HayConflicto(inicio, fin, a + b) == HayConflicto(inicio, fin, b + a)
  {
    if HayConflicto(inicio, fin, a + b) {
      var c :| c in a + b && Solapa(inicio, fin, c);
      assert c in b + a;
    }
    if HayConflicto(inicio, fin, b + a) {
      var c :| c in b + a && Solapa(inicio, fin, c);
      assert c in a + b;
    }
  }

  /** Intervals that only touch do not conflict: ending where an appointment starts is allowed. */
  lemma ContiguasNoChocan(inicio: TimeOfDay, fin: TimeOfDay, citas: seq<Franja>)
    requires forall c | c in citas :: Micros(fin) == Micros(c.horaInicio) || Micros(inicio) == Micros(c.horaFin)
    ensures !HayConflicto(inicio, fin, citas)
  {
  }
}
