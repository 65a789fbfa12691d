/**
 * `CitaService`: the first-fit search for a free slot (`buscar_disponibilidad`),
 * its conflict test (`hay_conflicto`) and its room choice (`asignar_consultorio`).
 *
 * The search is modelled with a cursor that does not wrap at midnight; the
 * wrapping `sumar_minutos` of the source and what it does to the two loops are
 * modelled as written at the end of this module.
 */
module CitaService {
  import opened Wrappers
  import opened Clock
  import opened CitaModels

  /** The rows the service reads; `consultorios` in `numero` order, the model's default ordering. */
  datatype Db = Db(medicos: seq<Medico>, horarios: seq<Horario>, citas: seq<CitaRow>,
                   consultorios: seq<Consultorio>)

  /** The returned tuple `(medico, hora_actual, hora_fin, consultorio)`. */
  datatype Hallazgo = Hallazgo(medico: Medico, inicio: int, fin: int, consultorio: Consultorio)

  /**
   * The fixed inputs of one search: the date asked for, the specialty's slot
   * length, the snapshot, and the clock's `localdate()` and `localtime()`.
   */
  datatype Busqueda = Busqueda(fecha: Date, duracion: int, db: Db, hoy: Date, ahora: TimeOfDay)

  // ===== The queries, as filters over the snapshot =====

  predicate TieneEspecialidad(m: Medico, esp: int)
  {
    m.especialidad.Some? && m.especialidad.value.id == esp
  }

  /** `Medico.objects.filter(especialidad=especialidad)`. */
  function MedicosDe(ms: seq<Medico>, esp: int): (r: seq<Medico>)
    ensures forall m {:trigger m in r} :: m in r <==> m in ms && TieneEspecialidad(m, esp)
  {
    if ms == [] then []
    else (if TieneEspecialidad(ms[0], esp) then [ms[0]] else []) + MedicosDe(ms[1..], esp)
  }

  /** `Horario.objects.filter(medico=medico, dia_semana=dia)`. */
  function HorariosDe(hs: seq<Horario>, medico: int, dia: int): (r: seq<Horario>)
    ensures forall h {:trigger h in r} :: h in r <==> h in hs && h.medico == medico && h.diaSemana == dia
  {
    if hs == [] then []
    else (if hs[0].medico == medico && hs[0].diaSemana == dia then [hs[0]] else [])
         + HorariosDe(hs[1..], medico, dia)
  }

  /** `Cita.objects.filter(medico=medico, fecha=fecha)`. */
  function CitasDe(cs: seq<CitaRow>, medico: int, fecha: Date): (r: seq<CitaRow>)
    ensures forall c {:trigger c in r} :: c in r <==> c in cs && c.medico == medico && c.fecha == fecha
  {
    if cs == [] then []
    else (if cs[0].medico == medico && cs[0].fecha == fecha then [cs[0]] else [])
         + CitasDe(cs[1..], medico, fecha)
  }

  /** The appointments of one room on one date. */
  function CitasDeConsultorio(cs: seq<CitaRow>, consultorio: int, fecha: Date): (r: seq<CitaRow>)
    ensures forall c {:trigger c in r} :: c in r <==> c in cs && c.consultorio == Some(consultorio) && c.fecha == fecha
  {
    if cs == [] then []
    else (if cs[0].consultorio == Some(consultorio) && cs[0].fecha == fecha then [cs[0]] else [])
         + CitasDeConsultorio(cs[1..], consultorio, fecha)
  }

  /** `Consultorio.objects.filter(tipo="externo")`, order kept. */
  function Externos(cs: seq<Consultorio>): (r: seq<Consultorio>)
    ensures forall c {:trigger c in r} :: c in r <==> c in cs && c.tipo == Externo
  {
    if cs == [] then []
    else (if cs[0].tipo == Externo then [cs[0]] else []) + Externos(cs[1..])
  }

  // ===== hay_conflicto =====

  /** `not (fin <= c.hora_inicio or inicio >= c.hora_fin)`. */
  predicate Choque(inicio: int, fin: int, c: CitaRow)
  {
    !(fin <= c.horaInicio || inicio >= c.horaFin)
  }

  predicate Conflicto(inicio: int, fin: int, citas: seq<CitaRow>)
  {
    exists c | c in citas :: Choque(inicio, fin, c)
  }

  /** Doctor `medico` has an appointment on `fecha` colliding with [inicio, fin). */
  predicate ChocaConCitaDe(medico: int, fecha: Date, inicio: int, fin: int, citas: seq<CitaRow>)
  {
    exists c | c in citas :: c.medico == medico && c.fecha == fecha && Choque(inicio, fin, c)
  }

  /** `hay_conflicto` over the doctor's appointments of the day is a collision with one of them. */
  lemma ConflictoDelMedico(medico: int, fecha: Date, inicio: int, fin: int, citas: seq<CitaRow>)
    ensures Conflicto(inicio, fin, CitasDe(citas, medico, fecha)) <==> ChocaConCitaDe(medico, fecha, inicio, fin, citas)
  {
    if ChocaConCitaDe(medico, fecha, inicio, fin, citas) {
      var c :| c in citas && c.medico == medico && c.fecha == fecha && Choque(inicio, fin, c);
      assert c in CitasDe(citas, medico, fecha);
    }
  }

  /** `hay_conflicto`: true exactly when some appointment collides with [inicio, fin). */
  method HayConflicto(inicio: int, fin: int, citas: seq<CitaRow>) returns (b: bool)
    ensures b <==> exists c | c in citas :: !(fin <= c.horaInicio || inicio >= c.horaFin)
  {
    for i := 0 to |citas|
      invariant forall k | 0 <= k < i :: !Choque(inicio, fin, citas[k])
    {
      if !(fin <= citas[i].horaInicio || inicio >= citas[i].horaFin) {
        return true;
      }
    }
    return false;
  }

  // ===== asignar_consultorio =====

  /** Room `c` has an appointment colliding with [inicio, fin) on `fecha`. */
  predicate Ocupado(c: Consultorio, fecha: Date, inicio: int, fin: int, citas: seq<CitaRow>)
  {
    exists x | x in citas :: x.consultorio == Some(c.id) && x.fecha == fecha && Choque(inicio, fin, x)
  }

  /** `hay_conflicto` over the room's appointments of the day is the room being taken. */
  lemma ConflictoEnConsultorio(c: Consultorio, fecha: Date, inicio: int, fin: int, citas: seq<CitaRow>)
    ensures Conflicto(inicio, fin, CitasDeConsultorio(citas, c.id, fecha)) <==> Ocupado(c, fecha, inicio, fin, citas)
  {
    if Ocupado(c, fecha, inicio, fin, citas) {
      var x :| x in citas && x.consultorio == Some(c.id) && x.fecha == fecha && Choque(inicio, fin, x);
      assert x in CitasDeConsultorio(citas, c.id, fecha);
    }
  }

  /** The first room of `rooms` free over [inicio, fin) on `fecha`. */
  function PrimerLibre(rooms: seq<Consultorio>, fecha: Date, inicio: int, fin: int, citas: seq<CitaRow>)
    : (r: Option<Consultorio>)
    ensures r.None? <==> forall c | c in rooms :: Ocupado(c, fecha, inicio, fin, citas)
    ensures r.Some? ==> r.value in rooms && !Ocupado(r.value, fecha, inicio, fin, citas)
  {
    if rooms == [] then None
    else if !Ocupado(rooms[0], fecha, inicio, fin, citas) then Some(rooms[0])
    else PrimerLibre(rooms[1..], fecha, inicio, fin, citas)
  }

  /** The room chosen is the first free one: every room listed before it is taken. */
  lemma {:induction false} PrimerLibreEsElPrimero(rooms: seq<Consultorio>, fecha: Date, inicio: int, fin: int,
                                                  citas: seq<CitaRow>)
    returns (i: nat)
    requires PrimerLibre(rooms, fecha, inicio, fin, citas).Some?
    ensures i < |rooms| && rooms[i] == PrimerLibre(rooms, fecha, inicio, fin, citas).value
    ensures forall j | 0 <= j < i :: Ocupado(rooms[j], fecha, inicio, fin, citas)
  {
    if Ocupado(rooms[0], fecha, inicio, fin, citas) {
      assert PrimerLibre(rooms, fecha, inicio, fin, citas) == PrimerLibre(rooms[1..], fecha, inicio, fin, citas);
      var k := PrimerLibreEsElPrimero(rooms[1..], fecha, inicio, fin, citas);
      i := k + 1;
      OcupadosTrasElPrimero(rooms, k, fecha, inicio, fin, citas);
    } else {
      assert PrimerLibre(rooms, fecha, inicio, fin, citas) == Some(rooms[0]);
      i := 0;
    }
  }

  lemma OcupadosTrasElPrimero(rooms: seq<Consultorio>, k: nat, fecha: Date, inicio: int, fin: int,
                              citas: seq<CitaRow>)
    requires k < |rooms| && Ocupado(rooms[0], fecha, inicio, fin, citas)
    requires forall j | 0 <= j < k :: Ocupado(rooms[1..][j], fecha, inicio, fin, citas)
    ensures forall j | 0 <= j < k + 1 :: Ocupado(rooms[j], fecha, inicio, fin, citas)
  {
    forall j | 0 < j < k + 1 ensures Ocupado(rooms[j], fecha, inicio, fin, citas) {
      assert rooms[j] == rooms[1..][j - 1];
    }
  }

  /**
   * The room `asignar_consultorio` gives: the doctor's own room unless the doctor
   * is external; otherwise the first external room free over the slot.
   */
  function ConsultorioPara(m: Medico, fecha: Date, inicio: int, fin: int, db: Db): Option<Consultorio>
  {
    if m.tipo != Externo then m.consultorio
    else PrimerLibre(Externos(db.consultorios), fecha, inicio, fin, db.citas)
  }

  /** A doctor who is not external is always given the doctor's own room, free or not. */
  lemma ConsultorioPropio(m: Medico, fecha: Date, inicio: int, fin: int, db: Db)
    requires m.tipo != Externo
    ensures ConsultorioPara(m, fecha, inicio, fin, db) == m.consultorio
  {
  }

  method AsignarConsultorio(m: Medico, fecha: Date, inicio: int, fin: int, db: Db)
    returns (r: Option<Consultorio>)
    ensures r == ConsultorioPara(m, fecha, inicio, fin, db)
    ensures m.tipo == Externo && r.Some? ==>
      r.value in db.consultorios && r.value.tipo == Externo && !Ocupado(r.value, fecha, inicio, fin, db.citas)
  {
    if m.tipo != Externo {
      return m.consultorio;
    }
    var consultorios := Externos(db.consultorios);
    for i := 0 to |consultorios|
      invariant PrimerLibre(consultorios, fecha, inicio, fin, db.citas)
             == PrimerLibre(consultorios[i..], fecha, inicio, fin, db.citas)
    {
      assert consultorios[i..][1..] == consultorios[i + 1..];
      var ocupado := HayConflicto(inicio, fin, CitasDeConsultorio(db.citas, consultorios[i].id, fecha));
      ConflictoEnConsultorio(consultorios[i], fecha, inicio, fin, db.citas);
      if !ocupado {
        return Some(consultorios[i]);
      }
    }
    return None;
  }

  // ===== buscar_disponibilidad, specified by a first-fit search =====

  /**
   * The room the slot [s, s + d) of doctor `m` gets: none when the slot collides
   * with one of the doctor's appointments, otherwise what `asignar_consultorio` gives.
   */
  function SalaLibre(m: Medico, b: Busqueda, s: int): Option<Consultorio>
  {
    if ChocaConCitaDe(m.id, b.fecha, s, s + b.duracion, b.db.citas) then None
    else ConsultorioPara(m, b.fecha, s, s + b.duracion, b.db)
  }

  /** The slot [s, s + d) of doctor `m` is free of the doctor's appointments and gets a room. */
  predicate Libre(m: Medico, b: Busqueda, s: int)
  {
    SalaLibre(m, b, s).Some?
  }

  /** The `k`-th candidate start after `base`: the cursor moves by exactly one duration per round. */
  function Paso(base: int, d: int, k: nat): int
  {
    base + k * d
  }

  /** The "skip past now" loop: advance by whole durations until the cursor is not before `ahora`. */
  function SaltarPasado(cursor: int, d: int, ahora: TimeOfDay): (r: int)
    requires d > 0
    decreases Micros(ahora) - cursor * MicrosPerMinute
    ensures cursor <= r && !MinuteBefore(r, ahora)
    ensures exists k: nat :: r == Paso(cursor, d, k)
    ensures r > cursor ==> MinuteBefore(r - d, ahora)
  {
    if MinuteBefore(cursor, ahora) then
      var r := SaltarPasado(cursor + d, d, ahora);
      var k: nat :| r == Paso(cursor + d, d, k);
      PasoSiguiente(cursor, d, k);
      r
    else
      assert cursor == Paso(cursor, d, 0);
      cursor
  }

  lemma PasoSiguiente(base: int, d: int, k: nat)
    ensures Paso(base + d, d, k) == Paso(base, d, k + 1)
  {
    assert (k + 1) * d == k * d + d;
  }

  lemma PasoNoDecrece(base: int, d: int, k: nat)
    requires d > 0
    ensures Paso(base, d, k) >= base
  {
  }

  /** Where the slot loop of schedule `h` starts. */
  function Arranque(h: Horario, b: Busqueda): int
    requires b.duracion > 0
  {
    if b.fecha == b.hoy then SaltarPasado(h.horaInicio, b.duracion, b.ahora) else h.horaInicio
  }

  /** The slot loop of one schedule from `cursor` on: the first free slot that fits before the end. */
  function HuecoEn(m: Medico, h: Horario, cursor: int, b: Busqueda): (r: Option<Hallazgo>)
    requires b.duracion > 0
    decreases h.horaFin - cursor
    ensures r.Some? ==> (r.value.medico == m && cursor <= r.value.inicio
      && r.value.fin == r.value.inicio + b.duracion && r.value.fin <= h.horaFin)
  {
    if cursor + b.duracion > h.horaFin then None
    else if Libre(m, b, cursor) then Some(Hallazgo(m, cursor, cursor + b.duracion, SalaLibre(m, b, cursor).value))
    else HuecoEn(m, h, cursor + b.duracion, b)
  }

  /** The schedules of one doctor, in order. */
  function EnHorarios(m: Medico, hs: seq<Horario>, b: Busqueda): Option<Hallazgo>
    requires b.duracion > 0
  {
    if hs == [] then None
    else OrElse(HuecoEn(m, hs[0], Arranque(hs[0], b), b), EnHorarios(m, hs[1..], b))
  }

  /** The search over one doctor: that doctor's schedules for the date's weekday. */
  function EnMedico(m: Medico, b: Busqueda): Option<Hallazgo>
    requires b.duracion > 0
  {
    EnHorarios(m, HorariosDe(b.db.horarios, m.id, Weekday(b.fecha)), b)
  }

  /** The doctors, in order. */
  function EnMedicos(ms: seq<Medico>, b: Busqueda): Option<Hallazgo>
    requires b.duracion > 0
  {
    if ms == [] then None else OrElse(EnMedico(ms[0], b), EnMedicos(ms[1..], b))
  }

  /** What `buscar_disponibilidad(fecha, especialidad)` returns. */
  function PrimerHueco(esp: Especialidad, b: Busqueda): Option<Hallazgo>
    requires b.duracion > 0
  {
    EnMedicos(MedicosDe(b.db.medicos, esp.id), b)
  }

  /** The "skip past now" loop of lines 29-31, with the cursor not wrapping. */
  method Saltar(inicio: int, duracion: int, ahora: TimeOfDay) returns (c: int)
    requires duracion > 0
    ensures c == SaltarPasado(inicio, duracion, ahora)
  {
    c := inicio;
    while MinuteBefore(c, ahora)
      invariant SaltarPasado(c, duracion, ahora) == SaltarPasado(inicio, duracion, ahora)
      decreases Micros(ahora) - c * MicrosPerMinute
    {
      c := c + duracion;
    }
  }

  /**
   * One schedule's part of `buscar_disponibilidad` (lines 26-43): start at the
   * schedule's start, skip past the current time when the date is today, then
   * walk duration-sized slots until one is free and has a room.
   */
  method RecorrerHorario(medico: Medico, horario: Horario, citasExistentes: seq<CitaRow>, b: Busqueda)
    returns (r: Option<Hallazgo>)
    requires b.duracion > 0
    requires citasExistentes == CitasDe(b.db.citas, medico.id, b.fecha)
    ensures r == HuecoEn(medico, horario, Arranque(horario, b), b)
  {
    var duracion := b.duracion;
    var horaActual := horario.horaInicio;
    if b.fecha == b.hoy {
      horaActual := Saltar(horaActual, duracion, b.ahora);
    }
    ghost var arranque := horaActual;
    while horaActual + duracion <= horario.horaFin
      invariant HuecoEn(medico, horario, arranque, b) == HuecoEn(medico, horario, horaActual, b)
      decreases horario.horaFin - horaActual
    {
      var horaFin := horaActual + duracion;
      var choque := HayConflicto(horaActual, horaFin, citasExistentes);
      ConflictoDelMedico(medico.id, b.fecha, horaActual, horaFin, b.db.citas);
      if !choque {
        var consultorio := AsignarConsultorio(medico, b.fecha, horaActual, horaFin, b.db);
        if consultorio.Some? {
          assert Libre(medico, b, horaActual);
          return Some(Hallazgo(medico, horaActual, horaFin, consultorio.value));
        }
      }
      assert !Libre(medico, b, horaActual);
      horaActual := horaFin;
    }
    return None;
  }

  /**
   * `buscar_disponibilidad`: doctors of the specialty, then their schedules for
   * the weekday, then duration-sized slots; the first slot with no conflict and
   * an assignable room is returned.
   */
  method BuscarDisponibilidad(fecha: Date, esp: Especialidad, db: Db, hoy: Date, ahora: TimeOfDay)
    returns (r: Option<Hallazgo>)
    requires esp.duracionCita > 0
    ensures r == PrimerHueco(esp, Busqueda(fecha, esp.duracionCita, db, hoy, ahora))
  {
    var b := Busqueda(fecha, esp.duracionCita, db, hoy, ahora);
    var diaSemana := Weekday(fecha);
    var medicos := MedicosDe(db.medicos, esp.id);
    for i := 0 to |medicos|
      invariant PrimerHueco(esp, b) == EnMedicos(medicos[i..], b)
    {
      assert medicos[i..][1..] == medicos[i + 1..];
      var medico := medicos[i];
      var horarios := HorariosDe(db.horarios, medico.id, diaSemana);
      var citasExistentes := CitasDe(db.citas, medico.id, fecha);
      for j := 0 to |horarios|
        invariant PrimerHueco(esp, b) == OrElse(EnHorarios(medico, horarios[j..], b), EnMedicos(medicos[i + 1..], b))
      {
        assert horarios[j..][1..] == horarios[j + 1..];
        var hallado := RecorrerHorario(medico, horarios[j], citasExistentes, b);
        if hallado.Some? {
          return hallado;
        }
      }
    }
    return None;
  }

  // ===== What the search promises =====

  /**
   * Within one schedule the slots tried are `cursor`, `cursor + d`, ...; the one
   * returned is the first free one, and nothing is returned exactly when no
   * slot that fits before the schedule's end is free.
   */
  lemma HuecoEnPrimero(m: Medico, h: Horario, cursor: int, b: Busqueda)
    requires b.duracion > 0
    ensures HuecoEn(m, h, cursor, b).Some? ==>
      exists k: nat :: (HuecoEn(m, h, cursor, b).value.inicio == Paso(cursor, b.duracion, k)
        && forall j: nat | j < k :: !Libre(m, b, Paso(cursor, b.duracion, j)))
  {
    if HuecoEn(m, h, cursor, b).Some? {
      var k := HuecoEnIndice(m, h, cursor, b);
    }
  }

  /** How many steps the slot loop takes before it finds the slot. */
  lemma {:induction false} HuecoEnIndice(m: Medico, h: Horario, cursor: int, b: Busqueda) returns (k: nat)
    requires b.duracion > 0 && HuecoEn(m, h, cursor, b).Some?
    decreases h.horaFin - cursor
    ensures HuecoEn(m, h, cursor, b).value.inicio == Paso(cursor, b.duracion, k)
    ensures forall j: nat | j < k :: !Libre(m, b, Paso(cursor, b.duracion, j))
  {
    var d := b.duracion;
    assert Paso(cursor, d, 0) == cursor;
    if Libre(m, b, cursor) {
      k := 0;
    } else {
      var siguiente := cursor + d;
      var k' := HuecoEnIndice(m, h, siguiente, b);
      PasoSiguiente(cursor, d, k');
      k := k' + 1;
      forall j: nat | j < k ensures !Libre(m, b, Paso(cursor, d, j)) {
        if j > 0 { PasoSiguiente(cursor, d, j - 1); }
      }
    }
  }

  /** The slot found is free and carries the room it gets. */
  lemma {:induction false} HuecoEnLibre(m: Medico, h: Horario, cursor: int, b: Busqueda, x: Hallazgo)
    requires b.duracion > 0 && HuecoEn(m, h, cursor, b) == Some(x)
    decreases h.horaFin - cursor
    ensures SalaLibre(x.medico, b, x.inicio) == Some(x.consultorio)
  {
    if !Libre(m, b, cursor) {
      assert HuecoEn(m, h, cursor, b) == HuecoEn(m, h, cursor + b.duracion, b);
      HuecoEnLibre(m, h, cursor + b.duracion, b, x);
    }
  }

  /** A slot gets a room exactly when it collides with none of the doctor's appointments and `asignar_consultorio` gives one. */
  lemma SalaLibreSignifica(m: Medico, b: Busqueda, s: int, sala: Consultorio)
    ensures SalaLibre(m, b, s) == Some(sala) <==>
      !ChocaConCitaDe(m.id, b.fecha, s, s + b.duracion, b.db.citas)
      && ConsultorioPara(m, b.fecha, s, s + b.duracion, b.db) == Some(sala)
  {
  }

  /** Nothing is found in a schedule exactly when no slot stepped through that fits is free. */
  lemma {:induction false} HuecoEnNinguno(m: Medico, h: Horario, cursor: int, b: Busqueda)
    requires b.duracion > 0
    decreases h.horaFin - cursor
    ensures HuecoEn(m, h, cursor, b).None? <==>
      forall k: nat :: Paso(cursor, b.duracion, k) + b.duracion <= h.horaFin ==> !Libre(m, b, Paso(cursor, b.duracion, k))
  {
    var d := b.duracion;
    assert Paso(cursor, d, 0) == cursor;
    if cursor + d > h.horaFin {
      forall k: nat ensures Paso(cursor, d, k) + d > h.horaFin {
        PasoNoDecrece(cursor, d, k);
      }
    } else if !Libre(m, b, cursor) {
      var siguiente := cursor + d;
      HuecoEnNinguno(m, h, siguiente, b);
      if HuecoEn(m, h, siguiente, b).None? {
        forall k: nat | Paso(cursor, d, k) + d <= h.horaFin ensures !Libre(m, b, Paso(cursor, d, k)) {
          if k > 0 {
            PasoSiguiente(cursor, d, k - 1);
          }
        }
      } else {
        var k: nat :| Paso(siguiente, d, k) + d <= h.horaFin && Libre(m, b, Paso(siguiente, d, k));
        PasoSiguiente(cursor, d, k);
      }
    }
  }

  /** The schedules are tried in order: the first one with a free slot answers. */
  lemma {:induction false} EnHorariosPrimero(m: Medico, hs: seq<Horario>, b: Busqueda)
    requires b.duracion > 0
    ensures EnHorarios(m, hs, b).Some? ==>
      exists i | 0 <= i < |hs| :: (EnHorarios(m, hs, b) == HuecoEn(m, hs[i], Arranque(hs[i], b), b)
        && forall j | 0 <= j < i :: HuecoEn(m, hs[j], Arranque(hs[j], b), b).None?)
    ensures EnHorarios(m, hs, b).None? <==> forall h | h in hs :: HuecoEn(m, h, Arranque(h, b), b).None?
  {
    if hs != [] {
      EnHorariosPrimero(m, hs[1..], b);
      if HuecoEn(m, hs[0], Arranque(hs[0], b), b).None? && EnHorarios(m, hs[1..], b).Some? {
        var i :| 0 <= i < |hs[1..]| && EnHorarios(m, hs[1..], b) == HuecoEn(m, hs[1..][i], Arranque(hs[1..][i], b), b)
          && forall j | 0 <= j < i :: HuecoEn(m, hs[1..][j], Arranque(hs[1..][j], b), b).None?;
        assert hs[i + 1] == hs[1..][i];
        forall j | 0 <= j < i + 1 ensures HuecoEn(m, hs[j], Arranque(hs[j], b), b).None? {
          if j > 0 { assert hs[j] == hs[1..][j - 1]; }
        }
      }
      assert forall h | h in hs :: h == hs[0] || h in hs[1..];
    }
  }

  /** The doctors are tried in order: the first one with a free slot answers. */
  lemma {:induction false} EnMedicosPrimero(ms: seq<Medico>, b: Busqueda)
    requires b.duracion > 0
    ensures EnMedicos(ms, b).Some? ==>
      exists i | 0 <= i < |ms| :: (EnMedicos(ms, b) == EnMedico(ms[i], b)
        && forall j | 0 <= j < i :: EnMedico(ms[j], b).None?)
    ensures EnMedicos(ms, b).None? <==> forall m | m in ms :: EnMedico(m, b).None?
  {
    if ms != [] {
      EnMedicosPrimero(ms[1..], b);
      if EnMedico(ms[0], b).None? && EnMedicos(ms[1..], b).Some? {
        var i :| 0 <= i < |ms[1..]| && EnMedicos(ms[1..], b) == EnMedico(ms[1..][i], b)
          && forall j | 0 <= j < i :: EnMedico(ms[1..][j], b).None?;
        assert ms[i + 1] == ms[1..][i];
        forall j | 0 <= j < i + 1 ensures EnMedico(ms[j], b).None? {
          if j > 0 { assert ms[j] == ms[1..][j - 1]; }
        }
      }
      assert forall m | m in ms :: m == ms[0] || m in ms[1..];
    }
  }

  /** The schedule a slot comes from covers it, and it lies on the date's weekday. */
  predicate Cubre(h: Horario, m: Medico, b: Busqueda, x: Hallazgo)
  {
    && h.medico == m.id && h.diaSemana == Weekday(b.fecha)
    && h.horaInicio <= x.inicio && x.fin <= h.horaFin
  }

  /**
   * A slot `buscar_disponibilidad` returns belongs to a doctor of the specialty,
   * lies inside one of that doctor's schedules for the weekday, lasts the
   * specialty's duration, collides with none of the doctor's appointments that
   * day, carries the room `asignar_consultorio` gives, and on today's date does
   * not start before the current time.
   */
  lemma PrimerHuecoCorrecto(esp: Especialidad, b: Busqueda)
    requires b.duracion > 0
    ensures PrimerHueco(esp, b).Some? ==> (
      var x := PrimerHueco(esp, b).value;
      && x.medico in b.db.medicos && TieneEspecialidad(x.medico, esp.id)
      && (exists h | h in b.db.horarios :: Cubre(h, x.medico, b, x))
      && x.fin == x.inicio + b.duracion
      && !ChocaConCitaDe(x.medico.id, b.fecha, x.inicio, x.inicio + b.duracion, b.db.citas)
      && ConsultorioPara(x.medico, b.fecha, x.inicio, x.inicio + b.duracion, b.db) == Some(x.consultorio)
      && (b.fecha == b.hoy ==> !MinuteBefore(x.inicio, b.ahora)))
  {
    if PrimerHueco(esp, b).Some? {
      var x := PrimerHueco(esp, b).value;
      var m, h := OrigenDelHueco(esp, b);
      HuecoDelHorario(m, h, b, x);
      assert h in b.db.horarios && Cubre(h, x.medico, b, x);
    }
  }

  /** The doctor of the specialty and the schedule the slot found comes from. */
  lemma OrigenDelHueco(esp: Especialidad, b: Busqueda) returns (m: Medico, h: Horario)
    requires b.duracion > 0 && PrimerHueco(esp, b).Some?
    ensures m in b.db.medicos && TieneEspecialidad(m, esp.id)
    ensures h in b.db.horarios && h.medico == m.id && h.diaSemana == Weekday(b.fecha)
    ensures PrimerHueco(esp, b) == HuecoEn(m, h, Arranque(h, b), b)
  {
    var ms := MedicosDe(b.db.medicos, esp.id);
    EnMedicosPrimero(ms, b);
    var i :| 0 <= i < |ms| && EnMedicos(ms, b) == EnMedico(ms[i], b);
    m := ms[i];
    assert m in ms;
    var hs := HorariosDe(b.db.horarios, m.id, Weekday(b.fecha));
    EnHorariosPrimero(m, hs, b);
    var j :| 0 <= j < |hs| && EnHorarios(m, hs, b) == HuecoEn(m, hs[j], Arranque(hs[j], b), b);
    h := hs[j];
    assert h in hs;
  }

  /** What a slot found in one schedule of one doctor satisfies. */
  lemma HuecoDelHorario(m: Medico, h: Horario, b: Busqueda, x: Hallazgo)
    requires b.duracion > 0 && HuecoEn(m, h, Arranque(h, b), b) == Some(x)
    requires h.medico == m.id && h.diaSemana == Weekday(b.fecha)
    ensures && x.medico == m && Cubre(h, m, b, x)
      && x.fin == x.inicio + b.duracion
      && !ChocaConCitaDe(x.medico.id, b.fecha, x.inicio, x.inicio + b.duracion, b.db.citas)
      && ConsultorioPara(x.medico, b.fecha, x.inicio, x.inicio + b.duracion, b.db) == Some(x.consultorio)
      && (b.fecha == b.hoy ==> !MinuteBefore(x.inicio, b.ahora))
  {
    HuecoDesde(m, h, Arranque(h, b), b, x);
    ArranqueCotas(h, b);
  }

  lemma ArranqueCotas(h: Horario, b: Busqueda)
    requires b.duracion > 0
    ensures h.horaInicio <= Arranque(h, b)
    ensures b.fecha == b.hoy ==> !MinuteBefore(Arranque(h, b), b.ahora)
  {
  }

  /** What a slot found in a schedule from `cursor` on satisfies. */
  lemma HuecoDesde(m: Medico, h: Horario, cursor: int, b: Busqueda, x: Hallazgo)
    requires b.duracion > 0 && HuecoEn(m, h, cursor, b) == Some(x)
    ensures && x.medico == m && cursor <= x.inicio && x.fin <= h.horaFin
      && x.fin == x.inicio + b.duracion
      && !ChocaConCitaDe(x.medico.id, b.fecha, x.inicio, x.inicio + b.duracion, b.db.citas)
      && ConsultorioPara(x.medico, b.fecha, x.inicio, x.inicio + b.duracion, b.db) == Some(x.consultorio)
  {
    HuecoEnLibre(m, h, cursor, b, x);
    SalaLibreSignifica(x.medico, b, x.inicio, x.consultorio);
  }

  /**
   * Nothing is found exactly when, for every doctor of the specialty and every
   * schedule of that doctor on the weekday, no slot the search steps through
   * that fits before the schedule's end is free.
   */
  lemma PrimerHuecoNinguno(esp: Especialidad, b: Busqueda)
    requires b.duracion > 0
    ensures PrimerHueco(esp, b).None? <==>
      forall m, h, k: nat | m in b.db.medicos && TieneEspecialidad(m, esp.id) && h in b.db.horarios
                            && h.medico == m.id && h.diaSemana == Weekday(b.fecha)
        :: Paso(Arranque(h, b), b.duracion, k) + b.duracion <= h.horaFin
           ==> !Libre(m, b, Paso(Arranque(h, b), b.duracion, k))
  {
    var ms := MedicosDe(b.db.medicos, esp.id);
    EnMedicosPrimero(ms, b);
    forall m | m in ms
      ensures EnMedico(m, b).None? <==>
        forall h, k: nat | h in b.db.horarios && h.medico == m.id && h.diaSemana == Weekday(b.fecha)
          :: Paso(Arranque(h, b), b.duracion, k) + b.duracion <= h.horaFin
             ==> !Libre(m, b, Paso(Arranque(h, b), b.duracion, k))
    {
      var hs := HorariosDe(b.db.horarios, m.id, Weekday(b.fecha));
      EnHorariosPrimero(m, hs, b);
      forall h | h in hs {
        HuecoEnNinguno(m, h, Arranque(h, b), b);
      }
    }
  }

  // ===== The cursor as written: `sumar_minutos` wraps at midnight =====

  /** `sumar_minutos(hora, minutos)` on a whole-minute cursor: addition modulo a day. */
  function SumarMinutos(hora: int, minutos: int): (r: int)
    requires 0 <= hora < MinutesPerDay
    ensures 0 <= r < MinutesPerDay
    ensures 0 <= hora + minutos < MinutesPerDay ==> r == hora + minutos
    ensures MinutesPerDay <= hora + minutos < 2 * MinutesPerDay ==> r == hora + minutos - MinutesPerDay
  {
    DiaModular(hora + minutos);
    (hora + minutos) % MinutesPerDay
  }

  /** The cursor arithmetic above is the clock's: the minute of the time of day `minutos` after `hora`. */
  lemma SumarMinutosEnElReloj(hora: int, minutos: int)
    requires 0 <= hora < MinutesPerDay
    ensures SumarMinutos(hora, minutos) == MinuteOf(AddMinutes(AtMinute(hora), minutos))
  {
  }

  lemma DiaModular(x: int)
    ensures 0 <= x < MinutesPerDay ==> x % MinutesPerDay == x
    ensures MinutesPerDay <= x < 2 * MinutesPerDay ==> x % MinutesPerDay == x - MinutesPerDay
  {
  }

  /** A loop run with a bound on its rounds: it finished, or the bound ran out first. */
  datatype Corrida<T> = Terminada(resultado: T) | Agotada

  /** The skip-past-now loop of `buscar_disponibilidad` as written, for at most `fuel` rounds; the cursor is always a time of day. */
  function SaltarEscrito(cursor: int, d: int, ahora: TimeOfDay, fuel: nat): (r: Corrida<int>)
    requires 0 <= cursor < MinutesPerDay
    decreases fuel
    ensures r.Terminada? ==> 0 <= r.resultado < MinutesPerDay && !MinuteBefore(r.resultado, ahora)
  {
    if !MinuteBefore(cursor, ahora) then Terminada(cursor)
    else if fuel == 0 then Agotada
    else SaltarEscrito(SumarMinutos(cursor, d), d, ahora, fuel - 1)
  }

  /** The slot loop of `buscar_disponibilidad` as written for one schedule, for at most `fuel` rounds. */
  function HuecoEscrito(m: Medico, h: Horario, cursor: int, b: Busqueda, fuel: nat): (r: Corrida<Option<Hallazgo>>)
    requires 0 <= cursor < MinutesPerDay
    decreases fuel
    ensures r.Terminada? && r.resultado.Some? ==>
      && 0 <= r.resultado.value.inicio < MinutesPerDay
      && r.resultado.value.fin == SumarMinutos(r.resultado.value.inicio, b.duracion)
      && r.resultado.value.fin <= h.horaFin
      && !ChocaConCitaDe(m.id, b.fecha, r.resultado.value.inicio, r.resultado.value.fin, b.db.citas)
  {
    var fin := SumarMinutos(cursor, b.duracion);
    if !(fin <= h.horaFin) then Terminada(None)
    else if !ChocaConCitaDe(m.id, b.fecha, cursor, fin, b.db.citas)
            && ConsultorioPara(m, b.fecha, cursor, fin, b.db).Some? then
      Terminada(Some(Hallazgo(m, cursor, fin, ConsultorioPara(m, b.fecha, cursor, fin, b.db).value)))
    else if fuel == 0 then Agotada
    else HuecoEscrito(m, h, fin, b, fuel - 1)
  }

  /** One schedule as written: the wrapping skip when the date is today, then the wrapping slot loop. */
  function HorarioEscrito(m: Medico, h: Horario, b: Busqueda, fuel: nat): Corrida<Option<Hallazgo>>
    requires 0 <= h.horaInicio < MinutesPerDay
  {
    if b.fecha == b.hoy then
      match SaltarEscrito(h.horaInicio, b.duracion, b.ahora, fuel)
      case Agotada => Agotada
      case Terminada(c) => HuecoEscrito(m, h, c, b, fuel)
    else HuecoEscrito(m, h, h.horaInicio, b, fuel)
  }

  /** The schedules of one doctor as written, in order; a run that does not end ends the search. */
  function EnHorariosEscrito(m: Medico, hs: seq<Horario>, b: Busqueda, fuel: nat): Corrida<Option<Hallazgo>>
    requires forall h | h in hs :: 0 <= h.horaInicio < MinutesPerDay
  {
    if hs == [] then Terminada(None)
    else
      assert hs[0] in hs;
      match HorarioEscrito(m, hs[0], b, fuel)
      case Agotada => Agotada
      case Terminada(Some(x)) => Terminada(Some(x))
      case Terminada(None) => EnHorariosEscrito(m, hs[1..], b, fuel)
  }

  /** The doctors as written, in order. */
  function EnMedicosEscrito(ms: seq<Medico>, b: Busqueda, fuel: nat): Corrida<Option<Hallazgo>>
    requires forall h | h in b.db.horarios :: 0 <= h.horaInicio < MinutesPerDay
  {
    if ms == [] then Terminada(None)
    else
      match EnHorariosEscrito(ms[0], HorariosDe(b.db.horarios, ms[0].id, Weekday(b.fecha)), b, fuel)
      case Agotada => Agotada
      case Terminada(Some(x)) => Terminada(Some(x))
      case Terminada(None) => EnMedicosEscrito(ms[1..], b, fuel)
  }

  /** `buscar_disponibilidad` as written, each of its loops run for at most `fuel` rounds. */
  function PrimerHuecoEscrito(esp: Especialidad, b: Busqueda, fuel: nat): Corrida<Option<Hallazgo>>
    requires forall h | h in b.db.horarios :: 0 <= h.horaInicio < MinutesPerDay
  {
    EnMedicosEscrito(MedicosDe(b.db.medicos, esp.id), b, fuel)
  }

  /**
   * The everyday case: the schedule ends more than one slot before midnight and
   * the first slot after now (on today's date) does too, so no cursor wraps.
   */
  predicate SinCruce(h: Horario, b: Busqueda)
    requires b.duracion > 0
  {
    h.horaFin + b.duracion < MinutesPerDay && Arranque(h, b) + b.duracion < MinutesPerDay
  }

  /** Below midnight, the skip as written ends where the non-wrapping skip does. */
  lemma {:induction false} SaltarEscritoCoincide(cursor: int, d: int, ahora: TimeOfDay, fuel: nat)
    requires d > 0 && 0 <= cursor && SaltarPasado(cursor, d, ahora) < MinutesPerDay
    requires fuel >= SaltarPasado(cursor, d, ahora) - cursor
    ensures SaltarEscrito(cursor, d, ahora, fuel) == Terminada(SaltarPasado(cursor, d, ahora))
    decreases fuel
  {
    if MinuteBefore(cursor, ahora) {
      PasadoUnPaso(cursor, d, ahora);
      SaltarEscritoUnPaso(cursor, d, ahora, fuel);
      SaltarEscritoCoincide(cursor + d, d, ahora, fuel - 1);
    }
  }

  lemma PasadoUnPaso(cursor: int, d: int, ahora: TimeOfDay)
    requires d > 0 && MinuteBefore(cursor, ahora)
    ensures SaltarPasado(cursor, d, ahora) == SaltarPasado(cursor + d, d, ahora) >= cursor + d
  {
  }

  lemma SaltarEscritoUnPaso(cursor: int, d: int, ahora: TimeOfDay, fuel: nat)
    requires 0 <= cursor && cursor + d < MinutesPerDay && d > 0 && MinuteBefore(cursor, ahora) && fuel > 0
    ensures SaltarEscrito(cursor, d, ahora, fuel) == SaltarEscrito(cursor + d, d, ahora, fuel - 1)
  {
  }

  /** Below midnight, the slot loop as written returns what the non-wrapping loop returns. */
  lemma {:induction false} HuecoEscritoCoincide(m: Medico, h: Horario, cursor: int, b: Busqueda, fuel: nat)
    requires b.duracion > 0 && 0 <= cursor
    requires cursor + b.duracion < MinutesPerDay && h.horaFin + b.duracion < MinutesPerDay
    requires fuel >= h.horaFin - cursor
    ensures HuecoEscrito(m, h, cursor, b, fuel) == Terminada(HuecoEn(m, h, cursor, b))
    decreases fuel
  {
    var d := b.duracion;
    if cursor + d <= h.horaFin && !Libre(m, b, cursor) {
      HuecoEscritoCoincide(m, h, cursor + d, b, fuel - 1);
      HuecoEscritoUnPaso(m, h, cursor, b, fuel);
    } else {
      HuecoEscritoAlto(m, h, cursor, b, fuel);
    }
  }

  /**
   * Below midnight, a taken slot that fits moves both loops one slot on, so they
   * agree from `cursor` when they agree from the next slot.
   */
  lemma HuecoEscritoUnPaso(m: Medico, h: Horario, cursor: int, b: Busqueda, fuel: nat)
    requires b.duracion > 0 && 0 <= cursor && cursor + b.duracion < MinutesPerDay
    requires cursor + b.duracion <= h.horaFin && !Libre(m, b, cursor) && fuel > 0
    requires HuecoEscrito(m, h, cursor + b.duracion, b, fuel - 1) == Terminada(HuecoEn(m, h, cursor + b.duracion, b))
    ensures HuecoEscrito(m, h, cursor, b, fuel) == Terminada(HuecoEn(m, h, cursor, b))
  {
    var fin := cursor + b.duracion;
    SumarSinCruce(cursor, b.duracion);
    assert ChocaConCitaDe(m.id, b.fecha, cursor, fin, b.db.citas) || ConsultorioPara(m, b.fecha, cursor, fin, b.db).None?;
    HuecoEnUnPaso(m, h, cursor, b);
  }

  lemma HuecoEnUnPaso(m: Medico, h: Horario, cursor: int, b: Busqueda)
    requires b.duracion > 0 && cursor + b.duracion <= h.horaFin && !Libre(m, b, cursor)
    ensures HuecoEn(m, h, cursor, b) == HuecoEn(m, h, cursor + b.duracion, b)
  {
  }

  lemma SumarSinCruce(cursor: int, d: int)
    requires 0 <= cursor && d > 0 && cursor + d < MinutesPerDay
    ensures SumarMinutos(cursor, d) == cursor + d
  {
  }

  /** Below midnight, the loop as written stops where the non-wrapping loop stops, with the same answer. */
  lemma HuecoEscritoAlto(m: Medico, h: Horario, cursor: int, b: Busqueda, fuel: nat)
    requires b.duracion > 0 && 0 <= cursor && cursor + b.duracion < MinutesPerDay
    requires !(cursor + b.duracion <= h.horaFin && !Libre(m, b, cursor))
    ensures HuecoEscrito(m, h, cursor, b, fuel) == Terminada(HuecoEn(m, h, cursor, b))
  {
  }

  /** Below midnight, one schedule as written gives what the non-wrapping search of it gives. */
  lemma HorarioEscritoCoincide(m: Medico, h: Horario, b: Busqueda, fuel: nat)
    requires b.duracion > 0 && fuel >= MinutesPerDay && 0 <= h.horaInicio < MinutesPerDay && SinCruce(h, b)
    ensures HorarioEscrito(m, h, b, fuel) == Terminada(HuecoEn(m, h, Arranque(h, b), b))
  {
    ArranqueCotas(h, b);
    if b.fecha == b.hoy {
      SaltarEscritoCoincide(h.horaInicio, b.duracion, b.ahora, fuel);
    }
    HuecoEscritoCoincide(m, h, Arranque(h, b), b, fuel);
  }

  lemma {:induction false} EnHorariosEscritoCoincide(m: Medico, hs: seq<Horario>, b: Busqueda, fuel: nat)
    requires b.duracion > 0 && fuel >= MinutesPerDay
    requires forall h | h in hs :: 0 <= h.horaInicio < MinutesPerDay && SinCruce(h, b)
    ensures EnHorariosEscrito(m, hs, b, fuel) == Terminada(EnHorarios(m, hs, b))
  {
    if hs != [] {
      assert hs[0] in hs;
      HorarioEscritoCoincide(m, hs[0], b, fuel);
      assert forall h | h in hs[1..] :: h in hs;
      EnHorariosEscritoCoincide(m, hs[1..], b, fuel);
    }
  }

  lemma {:induction false} EnMedicosEscritoCoincide(ms: seq<Medico>, b: Busqueda, fuel: nat)
    requires b.duracion > 0 && fuel >= MinutesPerDay
    requires forall h | h in b.db.horarios :: 0 <= h.horaInicio < MinutesPerDay && SinCruce(h, b)
    ensures EnMedicosEscrito(ms, b, fuel) == Terminada(EnMedicos(ms, b))
  {
    if ms != [] {
      EnHorariosEscritoCoincide(ms[0], HorariosDe(b.db.horarios, ms[0].id, Weekday(b.fecha)), b, fuel);
      EnMedicosEscritoCoincide(ms[1..], b, fuel);
    }
  }

  /**
   * When no schedule comes within one slot of midnight, `buscar_disponibilidad`
   * as written ends and returns exactly what the non-wrapping search returns, so
   * `PrimerHuecoCorrecto` and `PrimerHuecoNinguno` hold of it there.
   */
  lemma PrimerHuecoEscritoCoincide(esp: Especialidad, b: Busqueda, fuel: nat)
    requires b.duracion > 0 && fuel >= MinutesPerDay
    requires forall h | h in b.db.horarios :: 0 <= h.horaInicio < MinutesPerDay && SinCruce(h, b)
    ensures PrimerHuecoEscrito(esp, b, fuel) == Terminada(PrimerHueco(esp, b))
  {
    EnMedicosEscritoCoincide(MedicosDe(b.db.medicos, esp.id), b, fuel);
  }

  /**
   * With 30-minute slots, a schedule starting on the half hour and the search run
   * for today at 23:50, the wrapping skip loop never ends: every cursor it
   * reaches is a half hour no later than 23:30, so it is always before now.
   */
  lemma {:induction false} SaltoSinFin(k: int, fuel: nat)
    requires 0 <= k < 48
    ensures SaltarEscrito(30 * k, 30, TimeOfDay(23, 50, 0, 0), fuel) == Agotada
    decreases fuel
  {
    MinuteBeforeMinutos(30 * k, TimeOfDay(23, 50, 0, 0));
    if fuel > 0 {
      var siguiente := SiguienteMediaHora(k);
      SaltoSinFin(siguiente, fuel - 1);
    }
  }

  /** Half hour `k` plus 30 minutes, wrapped: half hour `k + 1`, or midnight after 23:30. */
  lemma SiguienteMediaHora(k: int) returns (siguiente: int)
    requires 0 <= k < 48
    ensures 0 <= siguiente < 48 && SumarMinutos(30 * k, 30) == 30 * siguiente
  {
    siguiente := if k < 47 then k + 1 else 0;
  }

  /** The wrapping skip of 15-minute slots from a quarter hour, run at 23:40, stops at 23:45. */
  lemma {:induction false} SaltoHasta2345(k: int, fuel: nat)
    requires 0 <= k <= 95 && fuel >= 95 - k
    ensures SaltarEscrito(15 * k, 15, TimeOfDay(23, 40, 0, 0), fuel) == Terminada(1425)
    decreases 95 - k
  {
    CuartoFrente2340(k);
    if k < 95 {
      SaltoHasta2345(k + 1, fuel - 1);
    }
  }

  /** Quarter hour `k` is before 23:40 exactly when it is not the last one, and the next is `k + 1`. */
  lemma CuartoFrente2340(k: int)
    requires 0 <= k <= 95
    ensures MinuteBefore(15 * k, TimeOfDay(23, 40, 0, 0)) <==> k < 95
    ensures k < 95 ==> SumarMinutos(15 * k, 15) == 15 * (k + 1)
  {
    MinuteBeforeMinutos(15 * k, TimeOfDay(23, 40, 0, 0));
  }

  /** The same skip without the wrap also stops at 23:45. */
  lemma {:induction false} SaltarPasadoHasta2345(k: int)
    requires 0 <= k <= 95
    ensures SaltarPasado(15 * k, 15, TimeOfDay(23, 40, 0, 0)) == 1425
    decreases 95 - k
  {
    if k < 95 {
      MinuteBeforeMinutos(15 * k, TimeOfDay(23, 40, 0, 0));
      SaltarPasadoHasta2345(k + 1);
    }
  }

  /**
   * The skip of a 07:00 schedule with 15-minute slots, run for today at 23:40,
   * stops at 23:45 both as written and without the wrap.
   */
  lemma SaltoA2345(h: Horario, b: Busqueda)
    requires h.horaInicio == 420
    requires b.duracion == 15 && b.fecha == b.hoy && b.ahora == TimeOfDay(23, 40, 0, 0)
    ensures SaltarEscrito(h.horaInicio, b.duracion, b.ahora, 67) == Terminada(1425)
    ensures Arranque(h, b) == 1425
  {
    SaltoHasta2345(28, 67);
    SaltarPasadoHasta2345(28);
  }

  /**
   * As written, for an internal doctor with a room and a cursor past the end of
   * the schedule whose slot ends exactly at midnight, `sumar_minutos` wraps the
   * slot end to 00:00, which is not after the schedule's end, and the slot
   * [cursor, 00:00) is returned although it lies outside the schedule. The
   * non-wrapping search returns nothing from that cursor.
   */
  lemma HuecoTrasMedianoche(m: Medico, h: Horario, b: Busqueda, cursor: int, fuel: nat)
    requires m.tipo == Interno && m.consultorio.Some?
    requires 0 <= h.horaFin < cursor < MinutesPerDay && cursor + b.duracion == MinutesPerDay
    requires forall c | c in b.db.citas && c.medico == m.id && c.fecha == b.fecha :: 0 <= c.horaInicio
    ensures HuecoEscrito(m, h, cursor, b, fuel) == Terminada(Some(Hallazgo(m, cursor, 0, m.consultorio.value)))
    ensures HuecoEn(m, h, cursor, b) == None
  {
    var fin := SumarMinutos(cursor, b.duracion);
    assert fin == 0;
    NadaChocaConMedianoche(m.id, b.fecha, b.db.citas, cursor);
    ConsultorioPropio(m, b.fecha, cursor, fin, b.db);
    HuecoEscritoDevuelve(m, h, cursor, b, fuel);
  }

  /** As written, a cursor whose wrapped slot end is within the schedule end and which is free is returned at once. */
  lemma HuecoEscritoDevuelve(m: Medico, h: Horario, cursor: int, b: Busqueda, fuel: nat)
    requires 0 <= cursor < MinutesPerDay
    requires SumarMinutos(cursor, b.duracion) <= h.horaFin
    requires !ChocaConCitaDe(m.id, b.fecha, cursor, SumarMinutos(cursor, b.duracion), b.db.citas)
    requires ConsultorioPara(m, b.fecha, cursor, SumarMinutos(cursor, b.duracion), b.db).Some?
    ensures HuecoEscrito(m, h, cursor, b, fuel)
         == Terminada(Some(Hallazgo(m, cursor, SumarMinutos(cursor, b.duracion),
                                    ConsultorioPara(m, b.fecha, cursor, SumarMinutos(cursor, b.duracion), b.db).value)))
  {
  }

  /** A slot ending at 00:00 is `[inicio, 0)`: it collides with no appointment starting at or after midnight. */
  lemma NadaChocaConMedianoche(medico: int, fecha: Date, citas: seq<CitaRow>, inicio: int)
    requires forall c | c in citas && c.medico == medico && c.fecha == fecha :: 0 <= c.horaInicio
    ensures !ChocaConCitaDe(medico, fecha, inicio, 0, citas)
  {
  }
}
