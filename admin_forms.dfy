/**
 * The administration forms of the hospital application: creating a doctor
 * (errors are collected field by field, not raised), building a weekly
 * schedule from hour and minute choices, and the uniqueness checks of a room
 * number and a specialty name.
 */
module AdminForms {
  import opened Wrappers
  import opened PyText
  import opened CitaModels

  // ===== CreateMedicoForm.clean =====

  /** The form fields an error can be attached to. */
  datatype Campo = CampoCedula | CampoTelefono | CampoFechaNacimiento | CampoEmail | CampoConsultorio

  datatype MensajeMedico =
    | Validador(mensaje: string)  // the message of a `ValidationError` raised by a login validator
    | CedulaRegistrada            // "Ya existe un usuario con esta cédula"
    | EmailRegistrado             // "Ya existe un usuario con este email"
    | InternoSinSala              // an internal doctor must have a room
    | ExternoConSala              // an external doctor cannot have a room
    | SalaDebeSerInterna          // "Debe seleccionar un consultorio de tipo interno"
    | SalaDebeSerExterna          // "Debe seleccionar un consultorio de tipo externo"

  datatype ErrorDeCampo = ErrorDeCampo(campo: Campo, mensaje: MensajeMedico)

  /**
   * What `cleaned_data` holds for the fields `clean` reads; a text field that
   * is missing reads as "", and `tipo` is absent when its choice was invalid.
   */
  datatype DatosMedico = DatosMedico(cedula: string, telefono: string, email: string,
                                     fechaNacimiento: Option<int>, tipo: Option<Tipo>,
                                     consultorio: Option<Consultorio>)

  /**
   * What the user-account validators (`validar_cedula_ecuador`, `validar_telefono`,
   * `validar_edad` of the login app) answer on this form's stripped values.
   */
  datatype Validadores = Validadores(cedula: Outcome<string>, telefono: Outcome<string>, edad: Outcome<string>)

  /** A stored user account, as far as the uniqueness checks look at it. */
  datatype Usuario = Usuario(cedula: string, email: string)

  predicate CedulaEnUso(usuarios: seq<Usuario>, cedula: string)
  {
    exists u | u in usuarios :: u.cedula == cedula
  }

  predicate EmailEnUso(usuarios: seq<Usuario>, email: string)
  {
    exists u | u in usuarios :: u.email == email
  }

  /** The errors of the room checks, in the order they are added. */
  function ErroresDeSala(tipo: Option<Tipo>, sala: Option<Consultorio>): seq<ErrorDeCampo>
  {
    (if tipo == Some(Interno) && sala.None? then [ErrorDeCampo(CampoConsultorio, InternoSinSala)] else [])
    + (if tipo == Some(Externo) && sala.Some? then [ErrorDeCampo(CampoConsultorio, ExternoConSala)] else [])
    + (if sala.Some? && tipo == Some(Interno) && sala.value.tipo != Interno
       then [ErrorDeCampo(CampoConsultorio, SalaDebeSerInterna)]
       else if sala.Some? && tipo == Some(Externo) && sala.value.tipo != Externo
       then [ErrorDeCampo(CampoConsultorio, SalaDebeSerExterna)]
       else [])
  }

  /** The errors of the three validators, on the fields they check. */
  function ErroresDeValidadores(d: DatosMedico, v: Validadores): seq<ErrorDeCampo>
  {
    (if Strip(d.cedula) != [] && v.cedula.Fail? then [ErrorDeCampo(CampoCedula, Validador(v.cedula.error))] else [])
    + (if Strip(d.telefono) != [] && v.telefono.Fail? then [ErrorDeCampo(CampoTelefono, Validador(v.telefono.error))] else [])
    + (if d.fechaNacimiento.Some? && v.edad.Fail? then [ErrorDeCampo(CampoFechaNacimiento, Validador(v.edad.error))] else [])
  }

  /** The errors of the two uniqueness checks against the stored accounts. */
  function ErroresDeDuplicados(d: DatosMedico, usuarios: seq<Usuario>): seq<ErrorDeCampo>
  {
    (if Strip(d.cedula) != [] && CedulaEnUso(usuarios, Strip(d.cedula)) then [ErrorDeCampo(CampoCedula, CedulaRegistrada)] else [])
    + (if Strip(d.email) != [] && EmailEnUso(usuarios, Strip(d.email)) then [ErrorDeCampo(CampoEmail, EmailRegistrado)] else [])
  }

  /** Every error `CreateMedicoForm.clean` adds, in order. */
  function ErroresMedico(d: DatosMedico, v: Validadores, usuarios: seq<Usuario>): seq<ErrorDeCampo>
  {
    ErroresDeValidadores(d, v) + ErroresDeDuplicados(d, usuarios) + ErroresDeSala(d.tipo, d.consultorio)
  }

  lemma Asociativa<T>(x: seq<T>, a: seq<T>, b: seq<T>, c: seq<T>)
    ensures x + a + b + c == x + (a + b + c)
  {
  }

  /** The form's error list, which `add_error` appends to. */
  class MedicoForm {
    var errores: seq<ErrorDeCampo>

    constructor ()
      ensures errores == []
    {
      errores := [];
    }

    /** `self.add_error(campo, mensaje)`. */
    method AddError(campo: Campo, mensaje: MensajeMedico)
      modifies this
      ensures errores == old(errores) + [ErrorDeCampo(campo, mensaje)]
    {
      errores := errores + [ErrorDeCampo(campo, mensaje)];
    }

    /** `CreateMedicoForm.clean`: runs every check and adds an error for each one that fails. */
    method Clean(d: DatosMedico, v: Validadores, usuarios: seq<Usuario>)
      modifies this
      ensures errores == old(errores) + ErroresMedico(d, v, usuarios)
    {
      ghost var antes := errores;
      AplicarValidadores(d, v);
      BuscarDuplicados(d, usuarios);
      RevisarConsultorio(d.tipo, d.consultorio);
      Asociativa(antes, ErroresDeValidadores(d, v), ErroresDeDuplicados(d, usuarios), ErroresDeSala(d.tipo, d.consultorio));
    }

    /** The cédula, phone and age validators, each on its stripped field when it was given. */
    method AplicarValidadores(d: DatosMedico, v: Validadores)
      modifies this
      ensures errores == old(errores) + ErroresDeValidadores(d, v)
    {
      var cedula := Strip(d.cedula);
      var telefono := Strip(d.telefono);
      if cedula != [] && v.cedula.Fail? {
        AddError(CampoCedula, Validador(v.cedula.error));
      }
      if telefono != [] && v.telefono.Fail? {
        AddError(CampoTelefono, Validador(v.telefono.error));
      }
      if d.fechaNacimiento.Some? && v.edad.Fail? {
        AddError(CampoFechaNacimiento, Validador(v.edad.error));
      }
    }

    /** A cédula or an email that an existing account already has. */
    method BuscarDuplicados(d: DatosMedico, usuarios: seq<Usuario>)
      modifies this
      ensures errores == old(errores) + ErroresDeDuplicados(d, usuarios)
    {
      var cedula := Strip(d.cedula);
      var email := Strip(d.email);
      if cedula != [] && CedulaEnUso(usuarios, cedula) {
        AddError(CampoCedula, CedulaRegistrada);
      }
      if email != [] && EmailEnUso(usuarios, email) {
        AddError(CampoEmail, EmailRegistrado);
      }
    }

    /** The room checks: presence by doctor type, then the room's own type. */
    method RevisarConsultorio(tipo: Option<Tipo>, sala: Option<Consultorio>)
      modifies this
      ensures errores == old(errores) + ErroresDeSala(tipo, sala)
    {
      if tipo == Some(Interno) && sala.None? {
        AddError(CampoConsultorio, InternoSinSala);
      }
      if tipo == Some(Externo) && sala.Some? {
        AddError(CampoConsultorio, ExternoConSala);
      }
      if sala.Some? {
        if tipo == Some(Interno) && sala.value.tipo != Interno {
          AddError(CampoConsultorio, SalaDebeSerInterna);
        } else if tipo == Some(Externo) && sala.value.tipo != Externo {
          AddError(CampoConsultorio, SalaDebeSerExterna);
        }
      }
    }
  }

  /** The room rule of the doctor form: internal doctors hold an internal room, external ones none. */
  predicate SalaCoherente(tipo: Option<Tipo>, sala: Option<Consultorio>)
  {
    && (tipo == Some(Interno) ==> sala.Some? && sala.value.tipo == Interno)
    && (tipo == Some(Externo) ==> sala.None?)
  }

  /** The room checks report an error exactly when the room rule is broken. */
  lemma ErroresDeSalaSignifican(tipo: Option<Tipo>, sala: Option<Consultorio>)
    ensures ErroresDeSala(tipo, sala) == [] <==> SalaCoherente(tipo, sala)
    ensures ErrorDeCampo(CampoConsultorio, InternoSinSala) in ErroresDeSala(tipo, sala)
            <==> tipo == Some(Interno) && sala.None?
    ensures ErrorDeCampo(CampoConsultorio, ExternoConSala) in ErroresDeSala(tipo, sala)
            <==> tipo == Some(Externo) && sala.Some?
    ensures ErrorDeCampo(CampoConsultorio, SalaDebeSerExterna) in ErroresDeSala(tipo, sala)
            <==> tipo == Some(Externo) && sala.Some? && sala.value.tipo != Externo
    ensures ErrorDeCampo(CampoConsultorio, SalaDebeSerInterna) in ErroresDeSala(tipo, sala)
            <==> tipo == Some(Interno) && sala.Some? && sala.value.tipo != Interno
    ensures forall e | e in ErroresDeSala(tipo, sala) :: e.campo == CampoConsultorio
  {
  }

  /**
   * Errors accumulate: an external doctor given an internal room is told both
   * that external doctors take no room and that the room has the wrong type.
   */
  lemma ExternoConSalaInterna(d: DatosMedico, v: Validadores, usuarios: seq<Usuario>)
    requires d.tipo == Some(Externo) && d.consultorio.Some? && d.consultorio.value.tipo == Interno
    ensures ErrorDeCampo(CampoConsultorio, ExternoConSala) in ErroresMedico(d, v, usuarios)
    ensures ErrorDeCampo(CampoConsultorio, SalaDebeSerExterna) in ErroresMedico(d, v, usuarios)
  {
    var s := ErroresDeSala(d.tipo, d.consultorio);
    assert s == [ErrorDeCampo(CampoConsultorio, ExternoConSala), ErrorDeCampo(CampoConsultorio, SalaDebeSerExterna)];
    assert s[0] in ErroresMedico(d, v, usuarios) && s[1] in ErroresMedico(d, v, usuarios);
  }

  /**
   * The form is accepted, with no error at all, exactly when every check passes:
   * the validators accept what was given, the cédula and email are unused, and
   * the room rule holds.
   */
  lemma SinErroresMedico(d: DatosMedico, v: Validadores, usuarios: seq<Usuario>)
    ensures ErroresMedico(d, v, usuarios) == [] <==>
      && (Strip(d.cedula) != [] ==> v.cedula.Pass? && !CedulaEnUso(usuarios, Strip(d.cedula)))
      && (Strip(d.telefono) != [] ==> v.telefono.Pass?)
      && (d.fechaNacimiento.Some? ==> v.edad.Pass?)
      && (Strip(d.email) != [] ==> !EmailEnUso(usuarios, Strip(d.email)))
      && SalaCoherente(d.tipo, d.consultorio)
  {
    ErroresDeSalaSignifican(d.tipo, d.consultorio);
    assert ErroresMedico(d, v, usuarios) == [] <==>
      ErroresDeValidadores(d, v) == [] && ErroresDeDuplicados(d, usuarios) == [] && ErroresDeSala(d.tipo, d.consultorio) == [];
  }

  /** A used cédula or email is always reported, on its own field. */
  lemma DuplicadosReportados(d: DatosMedico, v: Validadores, usuarios: seq<Usuario>)
    ensures ErrorDeCampo(CampoCedula, CedulaRegistrada) in ErroresMedico(d, v, usuarios)
            <==> Strip(d.cedula) != [] && CedulaEnUso(usuarios, Strip(d.cedula))
    ensures ErrorDeCampo(CampoEmail, EmailRegistrado) in ErroresMedico(d, v, usuarios)
            <==> Strip(d.email) != [] && EmailEnUso(usuarios, Strip(d.email))
  {
    var a, b, c := ErroresDeValidadores(d, v), ErroresDeDuplicados(d, usuarios), ErroresDeSala(d.tipo, d.consultorio);
    SoloValidadores(d, v);
    ErroresDeSalaSignifican(d.tipo, d.consultorio);
    var x, y := ErrorDeCampo(CampoCedula, CedulaRegistrada), ErrorDeCampo(CampoEmail, EmailRegistrado);
    assert x in a + b + c <==> x in b;
    assert y in a + b + c <==> y in b;
  }

  lemma SoloValidadores(d: DatosMedico, v: Validadores)
    ensures forall e | e in ErroresDeValidadores(d, v) :: e.mensaje.Validador?
  {
  }

  /**
   * The form and `Medico.clean` agree on rooms: for a doctor built from the
   * form's type and room, the form finds no room error exactly when
   * `Medico.clean` raises none of its four type errors.
   */
  lemma FormaAcordeConMedicoClean(d: DatosMedico, m: Medico, medicos: seq<Medico>)
    requires d.tipo == Some(m.tipo) && d.consultorio == m.consultorio
    ensures ErroresDeSala(d.tipo, d.consultorio) == [] <==>
      MedicoClean(m, medicos) !in {Fail(InternoSinConsultorio), Fail(ExternoConConsultorio),
                                   Fail(InternoRequiereInterno), Fail(ExternoRequiereExterno)}
  {
    ErroresDeSalaSignifican(d.tipo, d.consultorio);
    var r := MedicoClean(m, medicos);
    if m.consultorio.Some? && !(m.tipo == Interno && m.consultorio.value.tipo != Interno)
       && !(m.tipo == Externo && m.consultorio.value.tipo != Externo) && m.tipo == Interno {
      assert r.Pass? || r.error.ConsultorioYaAsignado?;
    }
  }

  // ===== CreateHorarioForm =====

  /** `HORAS_CHOICES`: the hours 07 to 20, two digits each. */
  const HorasChoices: seq<string> := seq(14, i requires 0 <= i < 14 => Padded(i + 7, 2))

  /** `MINUTOS_CHOICES`. */
  const MinutosChoices: seq<string> := ["00", "15", "30", "45"]

  /** A `ChoiceField`'s cleaned value: the submitted text when it is one of the choices. */
  function Elegida(enviado: Option<string>, choices: seq<string>): (r: Option<string>)
    ensures r.Some? ==> r.value in choices
  {
    if enviado.Some? && enviado.value in choices then enviado else None
  }

  /**
   * `int(s)` on non-empty ASCII digit texts, which is all the choices offer;
   * any other text is treated as raising `ValueError` (Python's `int` would also
   * take surrounding blanks, a sign or underscores, which no choice contains).
   */
  function Entero(s: string): Option<int>
  {
    if s != [] && AllDigits(s) then Some(Number(s)) else None
  }

  /** `time(h, m)` as minutes since midnight; out-of-range fields raise `ValueError`. */
  function Hora(h: int, m: int): Option<int>
  {
    if 0 <= h <= 23 && 0 <= m <= 59 then Some(h * 60 + m) else None
  }

  datatype HorarioFormError =
    | HoraInvalida     // "Hora inválida": a `ValueError` while building the times
    | FinAntesDeInicio // "La hora de fin debe ser posterior a la hora de inicio"
    | HorarioRepetido  // the doctor already has a schedule on that weekday

  /**
   * The times part of `clean`: nothing when a selector is empty, otherwise the
   * start and end in minutes, or the error raised.
   */
  function HorasCalculadas(hIni: Option<string>, mIni: Option<string>, hFin: Option<string>, mFin: Option<string>)
    : Result<Option<(int, int)>, HorarioFormError>
  {
    if hIni.Some? && hIni.value != [] && mIni.Some? && mIni.value != []
       && hFin.Some? && hFin.value != [] && mFin.Some? && mFin.value != [] then
      var hi, mi, hf, mf := Entero(hIni.value), Entero(mIni.value), Entero(hFin.value), Entero(mFin.value);
      if hi.None? || mi.None? || Hora(hi.value, mi.value).None? then Err(HoraInvalida)
      else if hf.None? || mf.None? || Hora(hf.value, mf.value).None? then Err(HoraInvalida)
      else
        var inicio, fin := Hora(hi.value, mi.value).value, Hora(hf.value, mf.value).value;
        if fin <= inicio then Err(FinAntesDeInicio) else Ok(Some((inicio, fin)))
    else Ok(None)
  }

  /** `Horario.objects.filter(medico=medico, dia_semana=dia).exclude(pk=pk).exists()`. */
  predicate OtroHorario(horarios: seq<Horario>, medico: int, dia: int, pk: Option<int>)
  {
    exists h | h in horarios :: h.medico == medico && h.diaSemana == dia && !(pk.Some? && h.id == pk.value)
  }

  /** The outcome of `CreateHorarioForm.clean`. */
  function HorarioFormClean(hIni: Option<string>, mIni: Option<string>, hFin: Option<string>, mFin: Option<string>,
                            medico: Option<int>, dia: Option<int>, pk: Option<int>, horarios: seq<Horario>)
    : Outcome<HorarioFormError>
  {
    match HorasCalculadas(hIni, mIni, hFin, mFin)
    case Err(e) => Fail(e)
    case Ok(_) =>
      if medico.Some? && dia.Some? && OtroHorario(horarios, medico.value, dia.value, pk) then Fail(HorarioRepetido)
      else Pass
  }

  /**
   * The schedule form: the instance being created or edited (its key and
   * times) and the two computed entries `clean` leaves in `cleaned_data`.
   */
  class HorarioForm {
    var pk: Option<int>
    var horaInicio: int
    var horaFin: int
    var horaInicioCalculada: Option<int>
    var horaFinCalculada: Option<int>

    constructor (pk: Option<int>, horaInicio: int, horaFin: int)
      ensures this.pk == pk && this.horaInicio == horaInicio && this.horaFin == horaFin
      ensures horaInicioCalculada.None? && horaFinCalculada.None?
    {
      this.pk := pk;
      this.horaInicio := horaInicio;
      this.horaFin := horaFin;
      horaInicioCalculada := None;
      horaFinCalculada := None;
    }

    /**
     * `CreateHorarioForm.clean`: builds the times from the four selectors,
     * records them in `cleaned_data` and on the instance, then checks that the
     * doctor has no other schedule on that weekday. The times are recorded even
     * when the uniqueness check then fails.
     */
    method Clean(hIni: Option<string>, mIni: Option<string>, hFin: Option<string>, mFin: Option<string>,
                 medico: Option<int>, dia: Option<int>, horarios: seq<Horario>)
      returns (r: Outcome<HorarioFormError>)
      modifies this
      ensures r == HorarioFormClean(hIni, mIni, hFin, mFin, medico, dia, old(pk), horarios)
      ensures pk == old(pk)
      ensures match HorasCalculadas(hIni, mIni, hFin, mFin)
        case Ok(Some(t)) =>
          horaInicioCalculada == Some(t.0) && horaFinCalculada == Some(t.1) && horaInicio == t.0 && horaFin == t.1
        case _ =>
          && horaInicioCalculada == old(horaInicioCalculada) && horaFinCalculada == old(horaFinCalculada)
          && horaInicio == old(horaInicio) && horaFin == old(horaFin)
    {
      var h := HorasCalculadas(hIni, mIni, hFin, mFin);
      if h.Err? {
        return Fail(h.error);
      }
      if h.value.Some? {
        var inicio, fin := h.value.value.0, h.value.value.1;
        horaInicioCalculada := Some(inicio);
        horaFinCalculada := Some(fin);
        horaInicio := inicio;
        horaFin := fin;
      }
      if medico.Some? && dia.Some? && OtroHorario(horarios, medico.value, dia.value, pk) {
        return Fail(HorarioRepetido);
      }
      return Pass;
    }

    /** `CreateHorarioForm.save`: the computed times, when present, replace the instance's. */
    method Save()
      modifies this
      ensures horaInicio == (if old(horaInicioCalculada).Some? then old(horaInicioCalculada).value else old(horaInicio))
      ensures horaFin == (if old(horaFinCalculada).Some? then old(horaFinCalculada).value else old(horaFin))
      ensures pk == old(pk) && horaInicioCalculada == old(horaInicioCalculada) && horaFinCalculada == old(horaFinCalculada)
    {
      if horaInicioCalculada.Some? {
        horaInicio := horaInicioCalculada.value;
      }
      if horaFinCalculada.Some? {
        horaFin := horaFinCalculada.value;
      }
    }
  }

  /** `int` on two digits. */
  lemma EnteroDosCifras(s: string)
    requires |s| == 2 && AllDigits(s)
    ensures Entero(s) == Some(10 * DigitValue(s[0]) + DigitValue(s[1]))
  {
    var t := s[..1];
    assert t[..|t| - 1] == [];
    assert Number(t) == DigitValue(s[0]);
    assert s[..|s| - 1] == t;
  }

  /** `int` reads back a zero-padded two-digit number. */
  lemma EnteroPadded(n: int)
    requires 0 <= n <= 99
    ensures Entero(Padded(n, 2)) == Some(n)
  {
    Pow10Pequenas();
    NumberPadded(n, 2);
  }

  /** Every hour choice is two digits reading as an hour from 7 to 20. */
  lemma HoraElegidaEnRango(s: string)
    requires s in HorasChoices
    ensures Entero(s).Some? && 7 <= Entero(s).value <= 20
  {
    var i :| 0 <= i < 14 && HorasChoices[i] == s;
    EnteroPadded(i + 7);
  }

  /** Every minute choice reads as a quarter hour. */
  lemma MinutoElegidoEnRango(s: string)
    requires s in MinutosChoices
    ensures Entero(s).Some? && Entero(s).value in {0, 15, 30, 45}
  {
    EnteroDosCifras(s);
  }

  /** A time on the quarter hour is a multiple of 15 minutes. */
  lemma CuartoDeHora(h: int, m: int)
    requires m in {0, 15, 30, 45}
    ensures (h * 60 + m) % 15 == 0
  {
    var k := 4 * h + m / 15;
    assert h * 60 + m == 15 * k;
  }

  /**
   * Once the four selectors read as an hour from 7 to 20 and a quarter hour,
   * `clean` builds both times and rejects an end that is not after the start.
   */
  lemma HorasDeEnteros(a: string, b: string, c: string, e: string, h1: int, m1: int, h2: int, m2: int)
    requires Entero(a) == Some(h1) && Entero(b) == Some(m1) && Entero(c) == Some(h2) && Entero(e) == Some(m2)
    requires 7 <= h1 <= 20 && 7 <= h2 <= 20 && m1 in {0, 15, 30, 45} && m2 in {0, 15, 30, 45}
    ensures HorasCalculadas(Some(a), Some(b), Some(c), Some(e)) ==
      if h2 * 60 + m2 <= h1 * 60 + m1 then Err(FinAntesDeInicio) else Ok(Some((h1 * 60 + m1, h2 * 60 + m2)))
  {
  }

  /**
   * With the selectors restricted to their choices, `clean` never meets a
   * `ValueError`, and the times it builds lie on the quarter hours from 07:00
   * to 20:45 with the end after the start.
   */
  lemma HorasDeLasOpciones(hIni: Option<string>, mIni: Option<string>, hFin: Option<string>, mFin: Option<string>)
    ensures HorasCalculadas(Elegida(hIni, HorasChoices), Elegida(mIni, MinutosChoices),
                            Elegida(hFin, HorasChoices), Elegida(mFin, MinutosChoices)) != Err(HoraInvalida)
    ensures var r := HorasCalculadas(Elegida(hIni, HorasChoices), Elegida(mIni, MinutosChoices),
                                     Elegida(hFin, HorasChoices), Elegida(mFin, MinutosChoices));
      r.Ok? && r.value.Some? ==>
        && 7 * 60 <= r.value.value.0 < r.value.value.1 <= 20 * 60 + 45
        && r.value.value.0 % 15 == 0 && r.value.value.1 % 15 == 0
  {
    var hi, mi := Elegida(hIni, HorasChoices), Elegida(mIni, MinutosChoices);
    var hf, mf := Elegida(hFin, HorasChoices), Elegida(mFin, MinutosChoices);
    if hi.Some? && mi.Some? && hf.Some? && mf.Some? {
      HoraElegidaEnRango(hi.value);
      MinutoElegidoEnRango(mi.value);
      HoraElegidaEnRango(hf.value);
      MinutoElegidoEnRango(mf.value);
      var h1, m1, h2, m2 := Entero(hi.value).value, Entero(mi.value).value, Entero(hf.value).value, Entero(mf.value).value;
      HorasDeEnteros(hi.value, mi.value, hf.value, mf.value, h1, m1, h2, m2);
      CuartoDeHora(h1, m1);
      CuartoDeHora(h2, m2);
    } else {
      assert HorasCalculadas(hi, mi, hf, mf) == Ok(None);
    }
  }

  /** An end at or before the start is rejected whenever all four selectors are filled in. */
  lemma FinAntesRechazado(h1: int, m1: int, h2: int, m2: int)
    requires 7 <= h1 <= 20 && 7 <= h2 <= 20 && m1 in {0, 15, 30, 45} && m2 in {0, 15, 30, 45}
    requires h2 * 60 + m2 <= h1 * 60 + m1
    ensures HorasCalculadas(Some(Padded(h1, 2)), Some(Padded(m1, 2)), Some(Padded(h2, 2)), Some(Padded(m2, 2)))
            == Err(FinAntesDeInicio)
  {
    EnteroPadded(h1);
    EnteroPadded(m1);
    EnteroPadded(h2);
    EnteroPadded(m2);
    HorasDeEnteros(Padded(h1, 2), Padded(m1, 2), Padded(h2, 2), Padded(m2, 2), h1, m1, h2, m2);
  }

  /**
   * The uniqueness check keeps the constraint: when every stored schedule is
   * unique per (doctor, weekday) and a new schedule passes `clean`, storing it
   * keeps every schedule unique.
   */
  lemma HorarioNuevoMantieneUnicidad(horarios: seq<Horario>, nuevo: Horario,
                                     hIni: Option<string>, mIni: Option<string>, hFin: Option<string>, mFin: Option<string>)
    requires HorariosUnicos(horarios)
    requires HorarioFormClean(hIni, mIni, hFin, mFin, Some(nuevo.medico), Some(nuevo.diaSemana), None, horarios).Pass?
    ensures HorariosUnicos(horarios + [nuevo])
  {
    var hs := horarios + [nuevo];
    forall i, j | 0 <= i < j < |hs| ensures !(hs[i].medico == hs[j].medico && hs[i].diaSemana == hs[j].diaSemana) {
      if j == |horarios| {
        assert hs[i] in horarios;
      } else {
        assert hs[i] == horarios[i] && hs[j] == horarios[j];
      }
    }
  }

  /**
   * Editing: the check excludes the schedule being edited by its key, so
   * replacing that stored row with an edit that passes `clean` keeps every
   * schedule unique per (doctor, weekday).
   */
  lemma HorarioEditadoMantieneUnicidad(horarios: seq<Horario>, k: int, editado: Horario,
                                       hIni: Option<string>, mIni: Option<string>, hFin: Option<string>, mFin: Option<string>)
    requires HorariosUnicos(horarios)
    requires forall i, j | 0 <= i < j < |horarios| :: horarios[i].id != horarios[j].id
    requires 0 <= k < |horarios| && editado.id == horarios[k].id
    requires HorarioFormClean(hIni, mIni, hFin, mFin, Some(editado.medico), Some(editado.diaSemana),
                              Some(editado.id), horarios).Pass?
    ensures HorariosUnicos(horarios[k := editado])
  {
    assert !OtroHorario(horarios, editado.medico, editado.diaSemana, Some(editado.id));
    var hs := horarios[k := editado];
    forall i, j | 0 <= i < j < |hs| ensures !(hs[i].medico == hs[j].medico && hs[i].diaSemana == hs[j].diaSemana) {
      if i == k {
        assert hs[j] == horarios[j] && horarios[j] in horarios && horarios[j].id != editado.id;
      } else if j == k {
        assert hs[i] == horarios[i] && horarios[i] in horarios && horarios[i].id != editado.id;
      } else {
        assert hs[i] == horarios[i] && hs[j] == horarios[j];
      }
    }
  }

  /** Re-validating a stored schedule with its own key does not find itself. */
  lemma HorarioPropioNoSeRepite(horarios: seq<Horario>, k: int,
                                hIni: Option<string>, mIni: Option<string>, hFin: Option<string>, mFin: Option<string>)
    requires HorariosUnicos(horarios) && 0 <= k < |horarios|
    ensures !OtroHorario(horarios, horarios[k].medico, horarios[k].diaSemana, Some(horarios[k].id))
    ensures HorarioFormClean(hIni, mIni, hFin, mFin, Some(horarios[k].medico), Some(horarios[k].diaSemana),
                             Some(horarios[k].id), horarios) != Fail(HorarioRepetido)
  {
    forall h | h in horarios && h.medico == horarios[k].medico && h.diaSemana == horarios[k].diaSemana
      ensures h.id == horarios[k].id
    {
      var j :| 0 <= j < |horarios| && horarios[j] == h;
      assert j == k;
    }
  }

  // ===== clean_numero and clean_nombre =====

  datatype UnicidadError = NumeroRepetido | NombreRepetido

  /**
   * `CreateConsultorioForm.clean_numero`: a number already used by another
   * room is rejected; a missing number or 0 is not checked.
   */
  function CleanNumero(numero: Option<int>, pk: Option<int>, consultorios: seq<Consultorio>): (r: Outcome<UnicidadError>)
    ensures r.Fail? <==>
      (numero.Some? && numero.value != 0 &&
       exists c | c in consultorios :: c.numero == numero.value && !(pk.Some? && c.id == pk.value))
  {
    if numero.Some? && numero.value != 0
       && exists c | c in consultorios :: c.numero == numero.value && !(pk.Some? && c.id == pk.value)
    then Fail(NumeroRepetido) else Pass
  }

  /**
   * `CreateEspecialidadForm.clean_nombre`: a name already used by another
   * specialty is rejected; an empty name is not checked.
   */
  function CleanNombre(nombre: string, pk: Option<int>, especialidades: seq<Especialidad>): (r: Outcome<UnicidadError>)
    ensures r.Fail? <==>
      (nombre != [] && exists e | e in especialidades :: e.nombre == nombre && !(pk.Some? && e.id == pk.value))
  {
    if nombre != [] && exists e | e in especialidades :: e.nombre == nombre && !(pk.Some? && e.id == pk.value)
    then Fail(NombreRepetido) else Pass
  }

  predicate NumerosUnicos(cs: seq<Consultorio>)
  {
    forall i, j | 0 <= i < j < |cs| :: cs[i].numero != cs[j].numero
  }

  predicate NombresUnicos(es: seq<Especialidad>)
  {
    forall i, j | 0 <= i < j < |es| :: es[i].nombre != es[j].nombre
  }

  /** Adding a new room whose nonzero number passes `clean_numero` keeps the numbers unique. */
  lemma NumeroNuevoMantieneUnicidad(cs: seq<Consultorio>, nuevo: Consultorio)
    requires NumerosUnicos(cs) && nuevo.numero != 0
    requires CleanNumero(Some(nuevo.numero), None, cs).Pass?
    ensures NumerosUnicos(cs + [nuevo])
  {
    var xs := cs + [nuevo];
    forall i, j | 0 <= i < j < |xs| ensures xs[i].numero != xs[j].numero {
      if j == |cs| {
        assert xs[i] in cs;
      } else {
        assert xs[i] == cs[i] && xs[j] == cs[j];
      }
    }
  }

  /** Adding a new specialty whose name passes `clean_nombre` keeps the names unique. */
  lemma NombreNuevoMantieneUnicidad(es: seq<Especialidad>, nuevo: Especialidad)
    requires NombresUnicos(es) && nuevo.nombre != []
    requires CleanNombre(nuevo.nombre, None, es).Pass?
    ensures NombresUnicos(es + [nuevo])
  {
    var xs := es + [nuevo];
    forall i, j | 0 <= i < j < |xs| ensures xs[i].nombre != xs[j].nombre {
      if j == |es| {
        assert xs[i] in es;
      } else {
        assert xs[i] == es[i] && xs[j] == es[j];
      }
    }
  }

  /** Re-validating a stored room with its own key does not find itself. */
  lemma NumeroPropioNoSeRepite(cs: seq<Consultorio>, k: int)
    requires NumerosUnicos(cs) && 0 <= k < |cs|
    requires forall i, j | 0 <= i < j < |cs| :: cs[i].id != cs[j].id
    ensures CleanNumero(Some(cs[k].numero), Some(cs[k].id), cs).Pass?
  {
    forall c | c in cs && c.numero == cs[k].numero ensures c.id == cs[k].id {
      var j :| 0 <= j < |cs| && cs[j] == c;
      assert j == k;
    }
  }
}
