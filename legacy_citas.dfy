/**
 * The older `citasmedicas` application's validation: `HorarioMedico.clean`,
 * `Cita.clean` (interval, then date, then overlap with the doctor's other
 * appointments that day) and the `unique_together` constraint on
 * (doctor, date, start). The application's own stored `Cita` rows reuse the
 * row type `CitaModels.CitaRow`; times are integers ordered as the `time`
 * values they stand for.
 */
module LegacyCitas {
  import opened Wrappers
  import opened Clock
  import CM = CitaModels

  datatype LegacyError =
    | FinNoMayor    // `Cita.clean`: "La hora de fin debe ser mayor que la hora de inicio.";
                    // `HorarioMedico.clean`: "La hora fin debe ser posterior a la hora inicio."
    | FechaPasada   // "La fecha de la cita debe ser hoy o en el futuro."
    | Solapamiento  // "El médico ya tiene una cita en el horario seleccionado (solapamiento)."

  /** The appointment being validated; `pk` is absent until it is saved. */
  datatype CitaLegacy = CitaLegacy(pk: Option<int>, medico: int, fecha: Date, horaInicio: int, horaFin: int)

  /** `HorarioMedico.clean`: the end must come after the start. */
  function HorarioMedicoClean(horaInicio: int, horaFin: int): (r: Outcome<LegacyError>)
    ensures r.Pass? <==> horaInicio < horaFin
    ensures r.Fail? ==> r.error == FinNoMayor
  {
    if horaFin <= horaInicio then Fail(FinNoMayor) else Pass
  }

  /** Both applications accept the same schedule intervals. */
  lemma HorariosIguales(h: CM.Horario)
    ensures HorarioMedicoClean(h.horaInicio, h.horaFin).Pass? == CM.HorarioClean(h).Pass?
  {
  }

  /**
   * One row of the overlap query: same doctor and date, not this appointment
   * (`exclude(pk=self.pk)`; an unsaved appointment excludes nothing), starting
   * before our end and ending after our start.
   */
  predicate Rival(yo: CitaLegacy, c: CM.CitaRow)
  {
    && c.medico == yo.medico && c.fecha == yo.fecha
    && !(yo.pk.Some? && c.pk == yo.pk.value)
    && c.horaInicio < yo.horaFin && c.horaFin > yo.horaInicio
  }

  /** `Cita.clean` against today's date `hoy` and the stored appointments. */
  function CitaClean(yo: CitaLegacy, hoy: Date, citas: seq<CM.CitaRow>): (r: Outcome<LegacyError>)
    ensures r == Fail(FinNoMayor) <==> yo.horaFin <= yo.horaInicio
    ensures r == Fail(FechaPasada) <==> yo.horaInicio < yo.horaFin && yo.fecha < hoy
    ensures r == Fail(Solapamiento) <==>
      yo.horaInicio < yo.horaFin && hoy <= yo.fecha && exists c | c in citas :: Rival(yo, c)
    ensures r.Pass? ==> yo.horaInicio < yo.horaFin && hoy <= yo.fecha && forall c | c in citas :: !Rival(yo, c)
  {
    if yo.horaFin <= yo.horaInicio then Fail(FinNoMayor)
    else if yo.fecha < hoy then Fail(FechaPasada)
    else if exists c | c in citas :: Rival(yo, c) then Fail(Solapamiento)
    else Pass
  }

  /**
   * The legacy overlap query and the newer application's doctor-scoped one
   * find a conflict in the same cases. They differ only for a key of 0, which
   * the newer one treats as unsaved.
   */
  lemma MismoChoqueQueCitas(yo: CitaLegacy, p: CM.Propuesta, citas: seq<CM.CitaRow>)
    requires yo.pk != Some(0)
    requires p.pk == yo.pk && p.medico.id == yo.medico && p.fecha == yo.fecha
    requires p.horaInicio == yo.horaInicio && p.horaFin == yo.horaFin
    ensures (exists c | c in citas :: Rival(yo, c)) <==> CM.PrimerChoque(p, citas, CM.PorMedico).Some?
  {
    if CM.PrimerChoque(p, citas, CM.PorMedico).Some? {
      var c := CM.PrimerChoque(p, citas, CM.PorMedico).value;
      assert Rival(yo, c);
    }
    if exists c | c in citas :: Rival(yo, c) {
      var c :| c in citas && Rival(yo, c);
      assert CM.Choca(p, c, CM.PorMedico);
    }
  }

  /** The row `Cita.save` stores for an accepted appointment, under the key `pk`. */
  function Guardada(yo: CitaLegacy, pk: int): (c: CM.CitaRow)
    ensures c.pk == pk && c.medico == yo.medico && c.fecha == yo.fecha
    ensures c.horaInicio == yo.horaInicio && c.horaFin == yo.horaFin
  {
    CM.CitaRow(pk, yo.medico, None, yo.fecha, yo.horaInicio, yo.horaFin)
  }

  /** Two stored rows of one doctor and date overlap. */
  predicate Solapadas(a: CM.CitaRow, b: CM.CitaRow)
  {
    a.medico == b.medico && a.fecha == b.fecha && a.horaInicio < b.horaFin && a.horaFin > b.horaInicio
  }

  /** What `Cita.clean` keeps true of the stored rows: positive length and no overlaps. */
  predicate AgendaValida(citas: seq<CM.CitaRow>)
  {
    && (forall c | c in citas :: c.horaInicio < c.horaFin)
    && (forall i, j | 0 <= i < j < |citas| :: !Solapadas(citas[i], citas[j]))
  }

  /** `unique_together = ("medico", "fecha", "hora_inicio")`. */
  predicate UnicasPorInicio(citas: seq<CM.CitaRow>)
  {
    forall i, j | 0 <= i < j < |citas| ::
      !(citas[i].medico == citas[j].medico && citas[i].fecha == citas[j].fecha && citas[i].horaInicio == citas[j].horaInicio)
  }

  /** Positive-length appointments that never overlap also never share (doctor, date, start). */
  lemma ValidaEsUnica(citas: seq<CM.CitaRow>)
    requires AgendaValida(citas)
    ensures UnicasPorInicio(citas)
  {
    forall i, j | 0 <= i < j < |citas|
      ensures !(citas[i].medico == citas[j].medico && citas[i].fecha == citas[j].fecha
                && citas[i].horaInicio == citas[j].horaInicio)
    {
      assert citas[i] in citas && citas[j] in citas;
      assert !Solapadas(citas[i], citas[j]);
    }
  }

  /**
   * Saving a new appointment that `Cita.clean` accepted keeps the stored rows
   * valid, and so keeps the `unique_together` constraint.
   */
  lemma AltaMantieneAgenda(citas: seq<CM.CitaRow>, yo: CitaLegacy, hoy: Date, pk: int)
    requires AgendaValida(citas)
    requires yo.pk.None? && CitaClean(yo, hoy, citas).Pass?
    ensures AgendaValida(citas + [Guardada(yo, pk)])
    ensures UnicasPorInicio(citas + [Guardada(yo, pk)])
  {
    var nueva := Guardada(yo, pk);
    var xs := citas + [nueva];
    forall i, j | 0 <= i < j < |xs| ensures !Solapadas(xs[i], xs[j]) {
      if j == |citas| {
        assert xs[i] in citas && !Rival(yo, xs[i]);
      } else {
        assert xs[i] == citas[i] && xs[j] == citas[j];
      }
    }
    ValidaEsUnica(xs);
  }

  /** An appointment is never its own rival once saved: editing it does not clash with its old row. */
  lemma EdicionNoSeCompara(yo: CitaLegacy, hoy: Date, citas: seq<CM.CitaRow>, k: int)
    requires yo.pk == Some(k)
    requires yo.horaInicio < yo.horaFin && hoy <= yo.fecha
    requires forall c | c in citas :: c.pk == k || !Solapadas(c, Guardada(yo, k))
    ensures CitaClean(yo, hoy, citas).Pass?
  {
    forall c | c in citas ensures !Rival(yo, c) {
      if c.pk != k {
        assert !Solapadas(c, Guardada(yo, k));
      }
    }
  }
}
