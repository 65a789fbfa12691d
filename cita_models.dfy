/**
 * The scheduling entities of the hospital application and the checks that
 * gate every write: `Medico.clean`, `Horario.clean` and `Cita.clean`.
 * Database queries are sequences passed in as parameters, in the query's order;
 * stored times of day are whole minutes since midnight.
 */
module CitaModels {
  import opened Wrappers
  import opened Clock

  /** `tipo` of a room and of a doctor: 'interno' or 'externo'. */
  datatype Tipo = Interno | Externo

  /** The choices of `Especialidad.duracion_cita`: 15 or 30 minutes. */
  predicate DuracionPermitida(d: int)
  {
    d == 15 || d == 30
  }

  datatype Especialidad = Especialidad(id: int, nombre: string, duracionCita: int)

  datatype Consultorio = Consultorio(id: int, numero: int, tipo: Tipo)

  datatype Medico = Medico(id: int, especialidad: Option<Especialidad>, tipo: Tipo,
                           consultorio: Option<Consultorio>)

  /** A weekly schedule row: weekday 0 (Monday) to 6, start and end in minutes. */
  datatype Horario = Horario(id: int, medico: int, diaSemana: int, horaInicio: int, horaFin: int)

  /** A stored appointment row, with foreign keys as ids and times in minutes. */
  datatype CitaRow = CitaRow(pk: int, medico: int, consultorio: Option<int>, fecha: Date,
                             horaInicio: int, horaFin: int)

  function IdDe(c: Option<Consultorio>): Option<int>
  {
    if c.Some? then Some(c.value.id) else None
  }

  // ===== Medico.clean =====

  datatype MedicoError =
    | InternoSinConsultorio
    | ExternoConConsultorio
    | InternoRequiereInterno
    | ExternoRequiereExterno
    | ConsultorioYaAsignado(ocupante: int)

  /** Doctor `o` other than the one keyed `pk` holds room `c`. */
  predicate Ocupa(o: Medico, c: Consultorio, pk: int)
  {
    o.id != pk && o.consultorio.Some? && o.consultorio.value.id == c.id
  }

  /** `Medico.objects.filter(consultorio=c).exclude(pk=pk).first()`. */
  function Ocupante(medicos: seq<Medico>, c: Consultorio, pk: int): (r: Option<Medico>)
    ensures r.Some? ==> r.value in medicos && Ocupa(r.value, c, pk)
    ensures r.None? <==> forall o | o in medicos :: !Ocupa(o, c, pk)
  {
    if medicos == [] then None
    else if Ocupa(medicos[0], c, pk) then Some(medicos[0])
    else Ocupante(medicos[1..], c, pk)
  }

  /**
   * `Medico.clean` over the stored doctors. A doctor not yet saved is given a
   * key no stored doctor has, which is what `exclude(pk=None)` amounts to.
   */
  function MedicoClean(m: Medico, medicos: seq<Medico>): (r: Outcome<MedicoError>)
    ensures r.Pass? <==>
      && ((m.tipo == Interno && m.consultorio.Some? && m.consultorio.value.tipo == Interno)
          || (m.tipo == Externo && m.consultorio.None?))
      && (m.consultorio.Some? ==> forall o | o in medicos :: !Ocupa(o, m.consultorio.value, m.id))
    ensures r == Fail(InternoSinConsultorio) <==> m.tipo == Interno && m.consultorio.None?
    ensures r == Fail(ExternoConConsultorio) <==> m.tipo == Externo && m.consultorio.Some?
  {
    if m.tipo == Interno && m.consultorio.None? then Fail(InternoSinConsultorio)
    else if m.tipo == Externo && m.consultorio.Some? then Fail(ExternoConConsultorio)
    else if m.consultorio.Some? then
      var c := m.consultorio.value;
      if m.tipo == Interno && c.tipo != Interno then Fail(InternoRequiereInterno)
      else if m.tipo == Externo && c.tipo != Externo then Fail(ExternoRequiereExterno)
      else match Ocupante(medicos, c, m.id)
        case Some(o) => Fail(ConsultorioYaAsignado(o.id))
        case None =>
          assert m.tipo == Interno && c.tipo == Interno;
          Pass
    else Pass
  }

  /**
   * Room exclusivity: when every stored doctor passes `Medico.clean` against the
   * stored doctors, no two of them hold the same room.
   */
  lemma ExclusividadDeConsultorio(medicos: seq<Medico>, i: int, j: int)
    requires forall a, b | 0 <= a < b < |medicos| :: medicos[a].id != medicos[b].id
    requires forall k | 0 <= k < |medicos| :: MedicoClean(medicos[k], medicos).Pass?
    requires 0 <= i < |medicos| && 0 <= j < |medicos| && i != j
    requires medicos[i].consultorio.Some? && medicos[j].consultorio.Some?
    ensures medicos[i].consultorio.value.id != medicos[j].consultorio.value.id
  {
    var ci := medicos[i].consultorio.value;
    assert medicos[i].id != medicos[j].id by {
      if i < j {} else {}
    }
    assert MedicoClean(medicos[i], medicos).Pass?;
    assert medicos[j] in medicos;
    assert !Ocupa(medicos[j], ci, medicos[i].id);
  }

  // ===== Horario.clean and unique_together ('medico', 'dia_semana') =====

  datatype HorarioError = HorarioFinNoPosterior

  function HorarioClean(h: Horario): (r: Outcome<HorarioError>)
    ensures r.Pass? <==> h.horaInicio < h.horaFin
  {
    if h.horaFin <= h.horaInicio then Fail(HorarioFinNoPosterior) else Pass
  }

  /** At most one schedule per (doctor, weekday). */
  predicate HorariosUnicos(hs: seq<Horario>)
  {
    forall i, j | 0 <= i < j < |hs| :: !(hs[i].medico == hs[j].medico && hs[i].diaSemana == hs[j].diaSemana)
  }

  /** `Horario.objects.filter(medico=medico, dia_semana=dia).first()`. */
  function HorarioDelDia(hs: seq<Horario>, medico: int, dia: int): (r: Option<Horario>)
    ensures r.Some? ==> r.value in hs && r.value.medico == medico && r.value.diaSemana == dia
    ensures r.None? <==> forall h | h in hs :: !(h.medico == medico && h.diaSemana == dia)
  {
    if hs == [] then None
    else if hs[0].medico == medico && hs[0].diaSemana == dia then Some(hs[0])
    else HorarioDelDia(hs[1..], medico, dia)
  }

  /** Under the uniqueness constraint, the first schedule found is the only one there is. */
  lemma {:induction false} HorarioDelDiaUnico(hs: seq<Horario>, h: Horario)
    requires HorariosUnicos(hs)
    requires h in hs
    ensures HorarioDelDia(hs, h.medico, h.diaSemana) == Some(h)
  {
    if hs[0] != h {
      var j :| 0 <= j < |hs| && hs[j] == h;
      assert j != 0;
      assert !(hs[0].medico == h.medico && hs[0].diaSemana == h.diaSemana);
      assert h in hs[1..] by { assert hs[1..][j - 1] == h; }
      assert HorariosUnicos(hs[1..]) by {
        forall a, b | 0 <= a < b < |hs[1..]|
          ensures !(hs[1..][a].medico == hs[1..][b].medico && hs[1..][a].diaSemana == hs[1..][b].diaSemana)
        {
          assert hs[1..][a] == hs[a + 1] && hs[1..][b] == hs[b + 1];
        }
      }
      HorarioDelDiaUnico(hs[1..], h);
    }
  }

  // ===== Cita.clean =====

  datatype CitaError =
    | FinNoPosterior
    | SinConsultorio
    | SinEspecialidad
    | DuracionIncorrecta(duracion: int, esperada: int)
    | ChoqueMedico(conflicto: int)
    | ConsultorioOcupado(conflicto: int)
    | NoAtiende(dia: int)
    | FueraDeHorario(inicio: int, fin: int)
    | InternoOtroConsultorio
    | ExternoRequiereConsultorioExterno

  /**
   * An appointment as the checks of `Cita.clean` read it, after its times were
   * truncated to whole minutes.
   */
  datatype Propuesta = Propuesta(pk: Option<int>, medico: Medico, consultorio: Option<Consultorio>,
                                 especialidad: Option<Especialidad>, fecha: Date,
                                 horaInicio: int, horaFin: int)

  /** `if self.pk: ... .exclude(pk=int(self.pk))`: only a truthy key is excluded. */
  predicate Excluida(pk: Option<int>, rowPk: int)
  {
    pk.Some? && pk.value != 0 && rowPk == pk.value
  }

  /** The filter `Q(hora_inicio__lt=fin) & Q(hora_fin__gt=inicio)` on one stored row. */
  predicate SolapaQ(c: CitaRow, inicio: int, fin: int)
  {
    c.horaInicio < fin && c.horaFin > inicio
  }

  /** The two overlap queries: scoped by the doctor (step 4) or by the room (step 4.1). */
  datatype Alcance = PorMedico | PorConsultorio

  predicate EnAlcance(p: Propuesta, c: CitaRow, a: Alcance)
  {
    match a
    case PorMedico => c.medico == p.medico.id
    case PorConsultorio => p.consultorio.Some? && c.consultorio == Some(p.consultorio.value.id)
  }

  predicate Choca(p: Propuesta, c: CitaRow, a: Alcance)
  {
    EnAlcance(p, c, a) && c.fecha == p.fecha && !Excluida(p.pk, c.pk) && SolapaQ(c, p.horaInicio, p.horaFin)
  }

  /** The first row the overlap query returns (`solapadas.first()`). */
  function PrimerChoque(p: Propuesta, citas: seq<CitaRow>, a: Alcance): (r: Option<CitaRow>)
    ensures r.Some? ==> r.value in citas && Choca(p, r.value, a)
    ensures r.None? <==> forall c | c in citas :: !Choca(p, c, a)
  {
    if citas == [] then None
    else if Choca(p, citas[0], a) then Some(citas[0])
    else PrimerChoque(p, citas[1..], a)
  }

  /** `self.especialidad or self.medico.especialidad`. */
  function EspecialidadEfectiva(p: Propuesta): Option<Especialidad>
  {
    if p.especialidad.Some? then p.especialidad else p.medico.especialidad
  }

  /** `self.consultorio != self.medico.consultorio` is false: the same room, by key. */
  predicate MismoConsultorio(a: Option<Consultorio>, b: Option<Consultorio>)
  {
    IdDe(a) == IdDe(b)
  }

  /** Every rule of `Cita.clean`, stated all at once. */
  predicate ReglasDeCita(p: Propuesta, citas: seq<CitaRow>, horarios: seq<Horario>)
  {
    && p.horaInicio < p.horaFin
    && p.consultorio.Some?
    && EspecialidadEfectiva(p).Some?
    && p.horaFin - p.horaInicio == EspecialidadEfectiva(p).value.duracionCita
    && (forall c | c in citas :: !Choca(p, c, PorMedico))
    && (forall c | c in citas :: !Choca(p, c, PorConsultorio))
    && HorarioDelDia(horarios, p.medico.id, Weekday(p.fecha)).Some?
    && HorarioDelDia(horarios, p.medico.id, Weekday(p.fecha)).value.horaInicio <= p.horaInicio
    && p.horaFin <= HorarioDelDia(horarios, p.medico.id, Weekday(p.fecha)).value.horaFin
    && (p.medico.tipo == Interno ==> MismoConsultorio(p.consultorio, p.medico.consultorio))
    && (p.medico.tipo == Externo ==> p.consultorio.value.tipo == Externo)
  }

  /**
   * The checks of `Cita.clean` after truncation, in the source's order; the first
   * one that fails is the error.
   */
  function ValidarCita(p: Propuesta, citas: seq<CitaRow>, horarios: seq<Horario>): (r: Outcome<CitaError>)
    ensures r.Pass? <==> ReglasDeCita(p, citas, horarios)
    ensures r == Fail(FinNoPosterior) <==> p.horaFin <= p.horaInicio
    ensures r == Fail(SinConsultorio) <==> p.horaInicio < p.horaFin && p.consultorio.None?
    ensures r.Fail? && r.error.ChoqueMedico? ==>
      exists c | c in citas :: c.pk == r.error.conflicto && Choca(p, c, PorMedico)
    ensures r.Fail? && r.error.ConsultorioOcupado? ==>
      (forall c | c in citas :: !Choca(p, c, PorMedico))
      && exists c | c in citas :: c.pk == r.error.conflicto && Choca(p, c, PorConsultorio)
  {
    if p.horaFin <= p.horaInicio then Fail(FinNoPosterior)
    else if p.consultorio.None? then Fail(SinConsultorio)
    else if EspecialidadEfectiva(p).None? then Fail(SinEspecialidad)
    else
      var duracion := p.horaFin - p.horaInicio;
      var esperada := EspecialidadEfectiva(p).value.duracionCita;
      if duracion != esperada then Fail(DuracionIncorrecta(duracion, esperada))
      else match PrimerChoque(p, citas, PorMedico)
        case Some(c) => Fail(ChoqueMedico(c.pk))
        case None =>
          match PrimerChoque(p, citas, PorConsultorio)
          case Some(c) => Fail(ConsultorioOcupado(c.pk))
          case None =>
            var dia := Weekday(p.fecha);
            match HorarioDelDia(horarios, p.medico.id, dia)
            case None => Fail(NoAtiende(dia))
            case Some(h) =>
              if !(h.horaInicio <= p.horaInicio && p.horaFin <= h.horaFin) then
                Fail(FueraDeHorario(h.horaInicio, h.horaFin))
              else if p.medico.tipo == Interno then
                if !MismoConsultorio(p.consultorio, p.medico.consultorio) then Fail(InternoOtroConsultorio)
                else Pass
              else if p.consultorio.value.tipo != Externo then Fail(ExternoRequiereConsultorioExterno)
              else Pass
  }

  /** With at most one schedule per weekday, "inside the schedule" means inside the one the doctor has. */
  lemma AceptadaDentroDeSuHorario(p: Propuesta, citas: seq<CitaRow>, horarios: seq<Horario>, h: Horario)
    requires HorariosUnicos(horarios)
    requires h in horarios && h.medico == p.medico.id && h.diaSemana == Weekday(p.fecha)
    requires ValidarCita(p, citas, horarios).Pass?
    ensures h.horaInicio <= p.horaInicio && p.horaFin <= h.horaFin
  {
    HorarioDelDiaUnico(horarios, h);
  }

  // ===== Cita: the model instance whose clean() truncates its own times =====

  class Cita {
    var pk: Option<int>
    var medico: Medico
    var consultorio: Option<Consultorio>
    var especialidad: Option<Especialidad>
    var fecha: Date
    var horaInicio: TimeOfDay
    var horaFin: TimeOfDay

    constructor (pk: Option<int>, medico: Medico, consultorio: Option<Consultorio>,
                 especialidad: Option<Especialidad>, fecha: Date, horaInicio: TimeOfDay, horaFin: TimeOfDay)
      ensures this.pk == pk && this.medico == medico && this.consultorio == consultorio
      ensures this.especialidad == especialidad && this.fecha == fecha
      ensures this.horaInicio == horaInicio && this.horaFin == horaFin
    {
      this.pk := pk;
      this.medico := medico;
      this.consultorio := consultorio;
      this.especialidad := especialidad;
      this.fecha := fecha;
      this.horaInicio := horaInicio;
      this.horaFin := horaFin;
    }

    /** The instance as the checks read it: start and end as whole minutes. */
    function Vista(): Propuesta
      reads this
    {
      Propuesta(pk, medico, consultorio, especialidad, fecha, MinuteOf(horaInicio), MinuteOf(horaFin))
    }

    /**
     * `Cita.clean`: truncates both times to whole minutes in place, then runs the
     * checks; the start/end comparison is the one on the truncated `time` values.
     */
    method Clean(citas: seq<CitaRow>, horarios: seq<Horario>) returns (r: Outcome<CitaError>)
      modifies this`horaInicio, this`horaFin
      ensures horaInicio == Truncate(old(horaInicio)) && horaFin == Truncate(old(horaFin))
      ensures r == ValidarCita(Vista(), citas, horarios)
      ensures r == Fail(FinNoPosterior) <==> Micros(horaFin) <= Micros(horaInicio)
      ensures r.Pass? ==> ReglasDeCita(Vista(), citas, horarios)
    {
      horaInicio := Truncate(horaInicio);
      horaFin := Truncate(horaFin);
      TruncatedOrder(horaFin, horaInicio);
      r := ValidarCita(Vista(), citas, horarios);
    }
  }

  // ===== The stored agenda and what accepting a write preserves =====

  /** Two stored rows collide: same date, same doctor or same room, overlapping times. */
  predicate ChocanFilas(a: CitaRow, b: CitaRow)
  {
    && a.fecha == b.fecha
    && (a.medico == b.medico || (a.consultorio.Some? && a.consultorio == b.consultorio))
    && a.horaInicio < b.horaFin && b.horaInicio < a.horaFin
  }

  predicate ClavesUnicas(citas: seq<CitaRow>)
  {
    forall i, j | 0 <= i < j < |citas| :: citas[i].pk != citas[j].pk
  }

  /**
   * The state the validator is meant to keep: distinct keys, positive-length
   * appointments, and no two of them colliding by doctor or by room.
   */
  predicate AgendaConsistente(citas: seq<CitaRow>)
  {
    && ClavesUnicas(citas)
    && (forall c | c in citas :: c.horaInicio < c.horaFin)
    && (forall a, b | a in citas && b in citas && a.pk != b.pk :: !ChocanFilas(a, b))
  }

  /** The row `p` is stored as under key `k`. */
  function Fila(p: Propuesta, k: int): CitaRow
  {
    CitaRow(k, p.medico.id, IdDe(p.consultorio), p.fecha, p.horaInicio, p.horaFin)
  }

  /** The stored rows other than the one keyed `k`, in order. */
  function SinClave(citas: seq<CitaRow>, k: int): (r: seq<CitaRow>)
    ensures forall c :: c in r <==> c in citas && c.pk != k
  {
    if citas == [] then []
    else if citas[0].pk == k then SinClave(citas[1..], k)
    else [citas[0]] + SinClave(citas[1..], k)
  }

  lemma {:induction false} SinClaveUnicas(citas: seq<CitaRow>, k: int)
    requires ClavesUnicas(citas)
    ensures ClavesUnicas(SinClave(citas, k))
  {
    if citas != [] {
      assert ClavesUnicas(citas[1..]) by {
        forall a, b | 0 <= a < b < |citas[1..]| ensures citas[1..][a].pk != citas[1..][b].pk {
          assert citas[1..][a] == citas[a + 1] && citas[1..][b] == citas[b + 1];
        }
      }
      SinClaveUnicas(citas[1..], k);
      var rest := SinClave(citas[1..], k);
      if citas[0].pk != k {
        forall c | c in rest ensures c.pk != citas[0].pk {
          var j :| 0 <= j < |citas[1..]| && citas[1..][j] == c;
          assert citas[j + 1] == c;
        }
        var r := [citas[0]] + rest;
        forall a, b | 0 <= a < b < |r| ensures r[a].pk != r[b].pk {
          if a == 0 { assert r[b] in rest; } else { assert r[a] == rest[a - 1] && r[b] == rest[b - 1]; }
        }
      }
    }
  }

  /** Store `p` under key `k`: the row keyed `k`, if any, is replaced. */
  function Guardar(citas: seq<CitaRow>, p: Propuesta, k: int): seq<CitaRow>
  {
    SinClave(citas, k) + [Fila(p, k)]
  }

  /**
   * The key a write may use: an edit keeps its own truthy key; a new
   * appointment gets a key no stored row has.
   */
  predicate ClaveDeEscritura(p: Propuesta, citas: seq<CitaRow>, k: int)
  {
    if p.pk.Some? && p.pk.value != 0 then k == p.pk.value
    else forall c | c in citas :: c.pk != k
  }

  /**
   * The central invariant: storing an appointment that `Cita.clean` accepted,
   * as a creation or as an edit of itself, keeps the agenda free of doctor and
   * room overlaps.
   */
  lemma GuardarPreservaAgenda(citas: seq<CitaRow>, horarios: seq<Horario>, p: Propuesta, k: int)
    requires AgendaConsistente(citas)
    requires ValidarCita(p, citas, horarios).Pass?
    requires ClaveDeEscritura(p, citas, k)
    ensures AgendaConsistente(Guardar(citas, p, k))
  {
    var rest := SinClave(citas, k);
    var nueva := Fila(p, k);
    var s := rest + [nueva];
    SinClaveUnicas(citas, k);
    forall a, b | 0 <= a < b < |s| ensures s[a].pk != s[b].pk {
      if b == |s| - 1 { assert s[a] in rest; } else { assert s[a] == rest[a] && s[b] == rest[b]; }
    }
    forall a | a in rest ensures !ChocanFilas(a, nueva) && !ChocanFilas(nueva, a) {
      assert !Excluida(p.pk, a.pk);
      assert !Choca(p, a, PorMedico);
      assert !Choca(p, a, PorConsultorio);
    }
    forall a, b | a in s && b in s && a.pk != b.pk ensures !ChocanFilas(a, b) {
      if a != nueva && b != nueva {
        assert a in citas && b in citas;
      }
    }
  }

  /**
   * `unique_together = ('medico', 'fecha', 'hora_inicio')` follows from the
   * agenda invariant: two appointments of one doctor on one day never share a start.
   */
  lemma AgendaRespetaUnicidad(citas: seq<CitaRow>, i: int, j: int)
    requires AgendaConsistente(citas)
    requires 0 <= i < j < |citas|
    requires citas[i].medico == citas[j].medico && citas[i].fecha == citas[j].fecha
    ensures citas[i].horaInicio != citas[j].horaInicio
  {
    assert citas[i] in citas && citas[j] in citas;
    assert citas[i].pk != citas[j].pk;
    if citas[i].horaInicio == citas[j].horaInicio {
      assert ChocanFilas(citas[i], citas[j]);
    }
  }

  /**
   * Excluding its own key, an appointment already stored in a consistent agenda
   * meets neither overlap query when it is validated again unchanged.
   */
  lemma RevalidarSinAutoChoque(citas: seq<CitaRow>, p: Propuesta, a: Alcance)
    requires AgendaConsistente(citas)
    requires p.pk.Some? && p.pk.value != 0
    requires Fila(p, p.pk.value) in citas
    ensures PrimerChoque(p, citas, a).None?
  {
    var propia := Fila(p, p.pk.value);
    forall c | c in citas ensures !Choca(p, c, a) {
      if Choca(p, c, a) {
        assert c.pk != propia.pk;
        assert ChocanFilas(c, propia);
        assert false;
      }
    }
  }
}
