# Hospital appointments: a verified model

This project models the rules of a hospital appointment system: doctors
(internal doctors keep their own room, external doctors share external rooms),
weekly schedules, specialties whose appointments last 15 or 30 minutes, and
appointments that belong to a doctor, a room, a date and a start and end time.

The Dafny modules follow the system's own files:

| module | file | what it holds |
|---|---|---|
| `CitaModels` | `cita_models.dfy` | `Medico.clean`, `Horario.clean`, `Cita.clean` (with the in-place truncation of the times) and the invariants the validators keep over the stored rows |
| `CitaService` | `cita_service.dfy` | `buscar_disponibilidad`, `hay_conflicto`, `asignar_consultorio` and `sumar_minutos` of the availability service |
| `Cedula` | `cedula.dfy` | the Ecuadorian identity-number validator |
| `Normalizador` | `normalizador.dfy` | `normalizar_fecha_hora`: reading "Dec. 5, 2025" / "9:30 a.m." and writing ISO dates and 24-hour times |
| `CitaViews` | `views.dfy` | `hay_conflicto` of the views; their `sumar_minutos` is `Clock.AddMinutes` |
| `TimeUtils` | `time_utils.dfy` | `timeToMinutes` and `checkOverlap` of the scheduler board, with JavaScript's `split`, `Number` and NaN |
| `AdminForms` | `admin_forms.dfy` | the administration forms: creating a doctor, a schedule, a room and a specialty |
| `LegacyCitas` | `legacy_citas.dfy` | `HorarioMedico.clean`, `Cita.clean` and `unique_together` of the older `citasmedicas` app |
| `OverlapAgreement` | `overlap_agreement.dfy` | the four overlap tests of the system give the same answers |
| `Clock`, `PyText`, `Wrappers` | `clock.dfy`, `py_text.dfy`, `wrappers.dfy` | `datetime.time` arithmetic, Python string operations, `Option`/`Outcome`/`Result` |

Modelling choices:

- The database is a set of parameters. These are sequences of stored doctors, rooms, schedules and appointment rows.
- A query is a quantifier or a filter over those sequences, in the order the rows come back.
- Stored appointment and schedule times are whole minutes since midnight. Sub-minute precision is kept only where the code itself handles it: the truncation in `Cita.clean` and the current time.
- "Today" and "now" are parameters.
- A validator that raises is a function returning `Outcome`: `Pass`, or `Fail` with the error of the first check that fails.
- Each validator raises on the first failing check, so the model reports only that check's error and keeps the order of the checks.
- `CreateMedicoForm.clean` is the exception. It collects its errors with `add_error`, and the model keeps that list.
- The availability search is modelled twice:
  - as written, with the wrapping `sumar_minutos` and a fuel bound;
  - without the wrap, as evidently intended.
- The as-written version shows the two defects listed under Findings.

## Model

| member | source | states |
|---|---|---|
| CitaModels.Ocupante | hospital/citas/models.py:84 | the occupant query returns a stored doctor other than this one who holds the room, and returns none exactly when no such doctor exists |
| CitaModels.MedicoClean | hospital/citas/models.py:67-88 | a doctor passes exactly when an internal doctor has an internal room or an external doctor has none, and no other doctor holds that room; each of the two presence errors is raised exactly in its own case |
| CitaModels.ExclusividadDeConsultorio | hospital/citas/models.py:83-88 | when every stored doctor passes `Medico.clean`, no two doctors hold the same room |
| CitaModels.HorarioClean | hospital/citas/models.py:115-117 | a schedule passes exactly when its end is after its start |
| CitaModels.HorarioDelDia | hospital/citas/models.py:203 | the `.first()` schedule of the doctor for the weekday belongs to that doctor and day; none exactly when the doctor has no schedule that day |
| CitaModels.HorarioDelDiaUnico | hospital/citas/models.py:111-112 | under `unique_together ('medico', 'dia_semana')`, the schedule found is the doctor's only one for that day |
| CitaModels.PrimerChoque | hospital/citas/models.py:165-199 | the overlap query's first row is a stored row in scope (same doctor or same room), same date, not excluded by a truthy key, starting before the end and ending after the start; none exactly when no row qualifies |
| CitaModels.ValidarCita | hospital/citas/models.py:150-217 | the checks of `Cita.clean` run in order: passing is equivalent to all rules holding together; end not after start gives the first error; a missing room gives the second; a doctor clash names a clashing row; a room clash is reported only when no doctor clash exists |
| CitaModels.AceptadaDentroDeSuHorario | hospital/citas/models.py:201-209 | an accepted appointment lies inside the doctor's one schedule for its weekday |
| CitaModels.Cita.constructor | hospital/citas/models.py:124-131 | a new instance holds the given doctor, room, specialty, date and times |
| CitaModels.Cita.Clean | hospital/citas/models.py:143-217 | the method truncates both times in place to whole minutes, then returns exactly what the checks give on the truncated values; end not after start is rejected on the truncated times |
| CitaModels.SinClave | hospital/citas/models.py:167-170 | the rows left after excluding a key are exactly the stored rows with another key |
| CitaModels.SinClaveUnicas | hospital/citas/models.py:167-170 | excluding a key keeps the stored keys distinct |
| CitaModels.GuardarPreservaAgenda | hospital/citas/models.py:143-217 | storing an accepted appointment, new or an edit of itself, keeps the stored rows free of doctor and room overlaps, with positive lengths and distinct keys |
| CitaModels.AgendaRespetaUnicidad | hospital/citas/models.py:134-136 | in a consistent agenda, two appointments of one doctor on one date never share a start, so `unique_together ('medico', 'fecha', 'hora_inicio')` holds |
| CitaModels.RevalidarSinAutoChoque | hospital/citas/models.py:167-170 | a stored appointment validated again with its own truthy key meets neither overlap query |
| CitaService.MedicosDe | hospital/citas/services/cita_service.py:12 | the doctors listed are exactly the stored doctors of the specialty |
| CitaService.HorariosDe | hospital/citas/services/cita_service.py:15-18 | the schedules listed are exactly the doctor's schedules for the weekday |
| CitaService.CitasDe | hospital/citas/services/cita_service.py:20-23 | the appointments listed are exactly the doctor's appointments on the date |
| CitaService.CitasDeConsultorio | hospital/citas/services/cita_service.py:63-69 | the appointments listed are exactly the room's appointments on the date |
| CitaService.Externos | hospital/citas/services/cita_service.py:62 | the rooms listed are exactly the external rooms |
| CitaService.HayConflicto | hospital/citas/services/cita_service.py:52-56 | the loop returns true exactly when some appointment overlaps [inicio, fin) |
| CitaService.ConflictoDelMedico | hospital/citas/services/cita_service.py:20-36 | a conflict among the doctor's appointments of the day is a clash with one of the doctor's stored appointments that day |
| CitaService.ConflictoEnConsultorio | hospital/citas/services/cita_service.py:63-70 | a conflict among the room's appointments of the day means the room is taken |
| CitaService.PrimerLibre | hospital/citas/services/cita_service.py:68-73 | the room returned is one of the listed rooms and is free; none exactly when every listed room is taken |
| CitaService.PrimerLibreEsElPrimero | hospital/citas/services/cita_service.py:68-71 | every room listed before the one returned is taken |
| CitaService.ConsultorioPropio | hospital/citas/services/cita_service.py:59-60 | a doctor who is not external gets the doctor's own room, free or not |
| CitaService.AsignarConsultorio | hospital/citas/services/cita_service.py:58-73 | the method returns the room the specification function gives; for an external doctor, that room is an external room free over the slot |
| CitaService.SaltarPasado | hospital/citas/services/cita_service.py:28-31 | the skip loop without wrap-around ends at a cursor not before now, a whole number of durations after the start, and the slot before it was still before now |
| CitaService.Saltar | hospital/citas/services/cita_service.py:28-31 | the loop computes the non-wrapping skip |
| CitaService.HuecoEn | hospital/citas/services/cita_service.py:33-43 | a slot found in one schedule belongs to the doctor, starts at or after the cursor, lasts one duration and ends by the schedule's end |
| CitaService.RecorrerHorario | hospital/citas/services/cita_service.py:25-43 | one schedule's loop returns what the slot search from the schedule's starting cursor gives |
| CitaService.BuscarDisponibilidad | hospital/citas/services/cita_service.py:8-45 | the nested loops return what the search over doctors, schedules and slots gives |
| CitaService.HuecoEnPrimero | hospital/citas/services/cita_service.py:33-43 | the slot found is the k-th candidate and every earlier candidate was not free |
| CitaService.HuecoEnLibre | hospital/citas/services/cita_service.py:36-41 | the slot found carries the room it is assigned |
| CitaService.SalaLibreSignifica | hospital/citas/services/cita_service.py:36-41 | a slot gets a room exactly when it clashes with none of the doctor's appointments and a room is assigned to it |
| CitaService.HuecoEnNinguno | hospital/citas/services/cita_service.py:33-43 | nothing is found in a schedule exactly when no candidate slot that fits before the end is free |
| CitaService.EnHorariosPrimero | hospital/citas/services/cita_service.py:25-43 | schedules are tried in order: the first with a free slot answers; none exactly when no schedule has one |
| CitaService.EnMedicosPrimero | hospital/citas/services/cita_service.py:14-43 | doctors are tried in order: the first with a free slot answers; none exactly when no doctor has one |
| CitaService.PrimerHuecoCorrecto | hospital/citas/services/cita_service.py:8-45 | a returned slot belongs to a doctor of the specialty, lies inside one of that doctor's schedules for the weekday, lasts the specialty's duration, clashes with none of the doctor's appointments, carries the room assigned, and on today's date does not start before now |
| CitaService.PrimerHuecoNinguno | hospital/citas/services/cita_service.py:8-45 | nothing is returned exactly when no candidate slot of any schedule of any doctor of the specialty is free |
| CitaService.OrigenDelHueco | hospital/citas/services/cita_service.py:14-26 | the slot found comes from a doctor of the specialty and one of that doctor's schedules for the weekday |
| CitaService.HuecoDelHorario | hospital/citas/services/cita_service.py:26-43 | a slot found in one schedule lies inside it, lasts one duration, is free of clashes, carries its room and is not before now on today's date |
| CitaService.ArranqueCotas | hospital/citas/services/cita_service.py:26-31 | the slot loop starts no earlier than the schedule's start and, on today's date, not before now |
| CitaService.HuecoDesde | hospital/citas/services/cita_service.py:33-43 | a slot found from a cursor starts at or after it, ends by the schedule's end, is free of clashes and carries its room |
| CitaService.SumarMinutos | hospital/citas/services/cita_service.py:47-50 | adding minutes to a whole-minute time stays within the day: plain addition before midnight, one day less after it |
| CitaService.SumarMinutosEnElReloj | hospital/citas/services/cita_service.py:47-50 | the cursor arithmetic is the minute of the time of day reached by adding the minutes on the clock |
| CitaService.SaltarEscrito | hospital/citas/services/cita_service.py:28-31 | the skip loop as written, when it ends, ends at a time of day not before now |
| CitaService.HuecoEscrito | hospital/citas/services/cita_service.py:33-43 | a slot the loop as written returns has its end computed with wrap-around, not after the schedule's end, and clashes with none of the doctor's appointments |
| CitaService.SaltarEscritoCoincide | hospital/citas/services/cita_service.py:28-31 | while the non-wrapping skip stays before midnight, the skip as written ends where it ends |
| CitaService.PasadoUnPaso | hospital/citas/services/cita_service.py:30-31 | a cursor before now is skipped: the non-wrapping skip ends where it ends from the next slot, no earlier than that slot |
| CitaService.SaltarEscritoUnPaso | hospital/citas/services/cita_service.py:30-31 | below midnight, the skip as written moves a cursor before now by exactly one slot |
| CitaService.HuecoEscritoCoincide | hospital/citas/services/cita_service.py:33-43 | while the schedule ends more than one slot before midnight, the slot loop as written returns what the non-wrapping loop returns |
| CitaService.HuecoEscritoUnPaso | hospital/citas/services/cita_service.py:33-43 | below midnight, a taken slot that fits moves both loops one slot on, so they agree from a cursor when they agree from the next slot |
| CitaService.HuecoEnUnPaso | hospital/citas/services/cita_service.py:33-43 | a taken slot that fits sends the non-wrapping loop to the next slot |
| CitaService.HuecoEscritoAlto | hospital/citas/services/cita_service.py:33-41 | below midnight, the two loops stop at the same cursor with the same answer: nothing when the slot does not fit, the same slot and room when it is free |
| CitaService.HorarioEscritoCoincide | hospital/citas/services/cita_service.py:25-43 | for a schedule that does not reach midnight, one schedule's search as written returns what the non-wrapping search returns |
| CitaService.EnHorariosEscritoCoincide | hospital/citas/services/cita_service.py:25-43 | the same over a doctor's schedules in order |
| CitaService.EnMedicosEscritoCoincide | hospital/citas/services/cita_service.py:14-43 | the same over the doctors in order |
| CitaService.PrimerHuecoEscritoCoincide | hospital/citas/services/cita_service.py:8-45 | when no schedule of the database reaches within one slot of midnight, `buscar_disponibilidad` as written ends and returns exactly what the non-wrapping search returns |
| CitaService.SumarSinCruce | hospital/citas/services/cita_service.py:47-50 | below midnight, adding minutes is plain addition |
| CitaService.SaltoSinFin | hospital/citas/services/cita_service.py:28-31 | with 30-minute slots starting on a half hour, at 23:50 on today's date, the skip loop as written never ends |
| CitaService.SiguienteMediaHora | hospital/citas/services/cita_service.py:47-50 | half hour k plus 30 minutes is half hour k + 1, or midnight after 23:30 |
| CitaService.SaltoHasta2345 | hospital/citas/services/cita_service.py:28-31 | with 15-minute slots at 23:40, the wrapping skip from any quarter hour stops at 23:45 |
| CitaService.CuartoFrente2340 | hospital/citas/services/cita_service.py:30 | a quarter hour is before 23:40 exactly when it is not 23:45, and the next quarter hour follows it |
| CitaService.SaltarPasadoHasta2345 | hospital/citas/services/cita_service.py:28-31 | the non-wrapping skip also stops at 23:45 |
| CitaService.SaltoA2345 | hospital/citas/services/cita_service.py:26-31 | a 07:00 schedule with 15-minute slots at 23:40 starts its slot loop at 23:45, as written and without the wrap |
| CitaService.HuecoTrasMedianoche | hospital/citas/services/cita_service.py:33-41 | as written, a slot ending exactly at midnight wraps to 00:00 and is returned even though it lies after the schedule's end; the non-wrapping loop returns nothing there |
| CitaService.HuecoEscritoDevuelve | hospital/citas/services/cita_service.py:33-41 | as written, a cursor whose wrapped end is within the schedule and which is free and gets a room is returned at once |
| CitaService.NadaChocaConMedianoche | hospital/citas/services/cita_service.py:52-56 | the wrapped slot [inicio, 00:00) overlaps no appointment |
| Cedula.DigitoVerificador | hospital/citas/validators.py:38-40 | the check digit lies in 0..9 and brings the sum to a multiple of ten |
| Cedula.DigitoVerificadorUnico | hospital/citas/validators.py:38-42 | the check digit is the only digit that brings the sum to a multiple of ten |
| Cedula.ValidarCedula | hospital/citas/validators.py:4-43 | the loop over nine weighted digits accepts exactly the valid numbers; each error is raised exactly when its check is the first to fail (format, province 01-24, third digit below 6, check digit) |
| Cedula.AporteSumaDeDigitos | hospital/citas/validators.py:33-35 | subtracting 9 from a product of 10 or more adds the sum of the product's digits, a single digit |
| Cedula.AporteInyectivo | hospital/citas/validators.py:33-35 | different digits under one weight contribute different amounts |
| Cedula.SumaCambioUnDigito | hospital/citas/validators.py:31-36 | changing one digit changes the sum by exactly that digit's change of contribution |
| Cedula.DetectaUnDigitoErrado | hospital/citas/validators.py:29-43 | a number differing from a valid one in a single digit is rejected |
| Cedula.EjemploValido | hospital/citas/validators.py:14-43 | the number 0950000000 is accepted |
| Normalizador.MesDe | hospital/citas/services/normalizador.py:9 | `%b` matches a three-letter month name ignoring case, and matches nothing else |
| Normalizador.Partir | hospital/citas/services/normalizador.py:9 | the text splits at the first separator, or the separator is absent |
| Normalizador.Digitos | hospital/citas/services/normalizador.py:9 | the leading run of digits is a prefix followed by a non-digit |
| Normalizador.TrasBlancos | hospital/citas/services/normalizador.py:9 | the format's blank skips one or more spaces and stops at a non-space |
| Normalizador.LeerFecha | hospital/citas/services/normalizador.py:9 | a date read by `%b %d, %Y` is a real calendar date |
| Normalizador.FechaIso | hospital/citas/services/normalizador.py:10 | `%Y-%m-%d` writes four, two and two digits separated by dashes that read back as the year, month and day |
| Normalizador.A24 | hospital/citas/services/normalizador.py:14 | `%I` with `%p` maps 12 a.m. to 0, keeps a.m. hours and adds 12 to p.m. hours other than 12 |
| Normalizador.LeerHora | hospital/citas/services/normalizador.py:14 | a time read by `%I:%M %p` has an hour in 0..23 and a minute in 0..59 |
| Normalizador.HoraTexto | hospital/citas/services/normalizador.py:15 | `%H:%M` writes two digits, a colon and two digits that read back as the hour and minute |
| Normalizador.NormalizarFechaHora | hospital/citas/services/normalizador.py:3-22 | the date is read first, then the start, then the end; the first reading that fails is the error; on success the outputs are the ISO date read from the date text with its dots removed and the 24-hour times read from the two cleaned time texts, 10, 5 and 5 characters long |
| Normalizador.LeerHoraAcepta | hospital/citas/services/normalizador.py:13-14 | every text of the accepted time form is read as that time in 24-hour terms |
| Normalizador.LeerHoraSoloForma | hospital/citas/services/normalizador.py:14 | only texts of that form are read |
| Normalizador.LeerFechaAcepta | hospital/citas/services/normalizador.py:6-9 | every text of the accepted date form naming a real date is read as that date; one naming a day the month lacks is rejected |
| Normalizador.LeerFechaSoloForma | hospital/citas/services/normalizador.py:9 | only texts of that form are read |
| Normalizador.MesesDistintos | hospital/citas/services/normalizador.py:9 | no two month abbreviations coincide |
| Normalizador.FechaIdaYVuelta | hospital/citas/services/normalizador.py:6-10 | a date displayed as "Dec. 5, 2025" is normalised to the ISO form of the same date |
| Normalizador.HoraIdaYVuelta | hospital/citas/services/normalizador.py:13-15 | a time displayed as "9:30 a.m." is normalised to the 24-hour form of the same time |
| Normalizador.HoraCualquierEscritura | hospital/citas/services/normalizador.py:13-15 | surrounding blanks, upper-case letters and dots in the a.m./p.m. marker do not change the normalised time: every such spelling gives the 24-hour form of the same reading |
| Normalizador.NueveYMedia | hospital/citas/services/normalizador.py:13-15 | "9:30 AM", " 9:30 am " and "9:30 a.m." all normalise to "09:30" |
| Normalizador.A24Inyectiva | hospital/citas/services/normalizador.py:14 | different 12-hour readings give different 24-hour hours |
| Normalizador.A12 | hospital/citas/services/normalizador.py:14 | every 24-hour hour has a 12-hour reading that maps back to it |
| Normalizador.HoraYaLimpia | hospital/citas/services/normalizador.py:13 | a cleaned time has nothing left to strip or lower-case |
| Normalizador.HoraSinPuntos | hospital/citas/services/normalizador.py:13 | removing the dots of "a.m."/"p.m." leaves "am"/"pm" |
| Normalizador.FechaSinPuntos | hospital/citas/services/normalizador.py:6 | removing the dots of a displayed date leaves the text `%b %d, %Y` reads |
| CitaViews.HayConflicto | hospital/citas/views.py:11-15 | there is a conflict exactly when some appointment overlaps the range, with `time` values compared as Python compares them |
| CitaViews.HayConflictoConcat | hospital/citas/views.py:11-15 | a conflict in two lists joined is a conflict in either list, in either order |
| CitaViews.ContiguasNoChocan | hospital/citas/views.py:13 | ranges that only touch do not conflict |
| Clock.AddMinutes | hospital/citas/views.py:6-8 | adding minutes moves the minute of the day modulo a day and keeps seconds and microseconds |
| Clock.AddMinutesSinCruce | hospital/citas/views.py:6-8 | without crossing midnight the result is plain addition on the time line |
| Clock.AddMinutesCruce | hospital/citas/views.py:6-8 | crossing midnight lands one day earlier than plain addition, before the original time |
| Clock.AddMinutesCompone | hospital/citas/views.py:6-8 | two additions are one addition of the total |
| Clock.Truncate | hospital/citas/models.py:145-148 | truncation keeps the minute and zeroes seconds and microseconds |
| Clock.TruncatedOrder | hospital/citas/models.py:145-152 | after truncation, comparing times is comparing whole minutes |
| Clock.TruncateWithinMinute | hospital/citas/models.py:145-148 | truncation never moves a time forward or out of its minute, and is idempotent |
| Clock.MinuteBeforeMinutos | hospital/citas/services/cita_service.py:30 | a whole minute is before a time exactly when it is an earlier minute, or the same minute while the time has seconds |
| Clock.Weekday | hospital/citas/models.py:202 | the weekday lies in 0..6 |
| Clock.WeekdayCalendario | hospital/citas/models.py:202 | 0001-01-01 is a Monday and 2025-12-05 a Friday, and the weekday advances by one each day and repeats every seven |
| TimeUtils.SplitJoin | frontend/src/components/Scheduler/utils/timeUtils.ts:77 | `split(':')` loses nothing: joining the pieces gives the text back, and no piece holds the separator |
| TimeUtils.SplitFront | frontend/src/components/Scheduler/utils/timeUtils.ts:77 | a separator-free prefix comes off the front of the split unchanged |
| TimeUtils.StringToNumberDigits | frontend/src/components/Scheduler/utils/timeUtils.ts:77 | `Number` reads a run of digits as its decimal value |
| TimeUtils.TimeToMinutesReads | frontend/src/components/Scheduler/utils/timeUtils.ts:76-79 | "HH:MM" and "HH:MM:SS" read as 60 * HH + MM, seconds ignored |
| TimeUtils.TimeToMinutesSinSeparador | frontend/src/components/Scheduler/utils/timeUtils.ts:76-79 | a text without ':' reads as NaN |
| TimeUtils.TimeToMinutesRoundTrip | frontend/src/components/Scheduler/utils/timeUtils.ts:76-79 | the zero-padded "hh:mm:ss" the API sends reads back as its minute of the day |
| TimeUtils.AlgunaChoca | frontend/src/components/Scheduler/utils/timeUtils.ts:65-73 | `some` is true exactly when a non-excluded appointment overlaps |
| TimeUtils.CheckOverlap | frontend/src/components/Scheduler/utils/timeUtils.ts:56-74 | there is a collision exactly when some appointment not excluded has a start before the new end and an end after the new start; an empty list never collides |
| TimeUtils.SinId | frontend/src/components/Scheduler/utils/timeUtils.ts:66 | the list without an id holds exactly the appointments with another id |
| TimeUtils.ExcluirEsQuitar | frontend/src/components/Scheduler/utils/timeUtils.ts:66 | excluding a nonzero id is checking the list without it; excluding 0 excludes nothing |
| TimeUtils.ContiguasNoChocan | frontend/src/components/Scheduler/utils/timeUtils.ts:72 | back-to-back ranges do not collide |
| TimeUtils.NaNNoChoca | frontend/src/components/Scheduler/utils/timeUtils.ts:72 | a new range with an unreadable start or end collides with nothing |
| OverlapAgreement.LeerTextoApi | frontend/src/components/Scheduler/utils/timeUtils.ts:76-79 | the board reads the minute the API serialised |
| OverlapAgreement.CuatroPruebas | hospital/citas/models.py:172-174 | for one appointment, the model's overlap filter, the service's and the views' `hay_conflicto` tests and the board's test all agree |
| OverlapAgreement.MinutosOrdenados | hospital/citas/views.py:13 | whole minutes compare as the `time` values at those minutes |
| OverlapAgreement.ConflictosCoinciden | hospital/citas/services/cita_service.py:52-56 | over a whole list, the service, the views and the board find a conflict in exactly the same cases |
| OverlapAgreement.ConflictoEnLasVistas | hospital/citas/views.py:11-15 | the views' search agrees with the service's on rows with the same minutes |
| OverlapAgreement.ConflictoEnLaPizarra | frontend/src/components/Scheduler/utils/timeUtils.ts:65-73 | the board's search agrees with the service's on rows it reads as the same minutes |
| AdminForms.MedicoForm.constructor | hospital/login/forms.py:97-98 | a new form has no errors |
| AdminForms.MedicoForm.AddError | hospital/login/forms.py:110 | `add_error` appends one error to the form's list |
| AdminForms.MedicoForm.Clean | hospital/login/forms.py:97-150 | `clean` appends exactly the errors of the failing checks, in order, and nothing else |
| AdminForms.MedicoForm.AplicarValidadores | hospital/login/forms.py:105-124 | each given field whose validator fails gets that validator's message |
| AdminForms.MedicoForm.BuscarDuplicados | hospital/login/forms.py:126-133 | a cédula or email already used by an account gets its error |
| AdminForms.MedicoForm.RevisarConsultorio | hospital/login/forms.py:135-148 | the room checks add their errors in order |
| AdminForms.ErroresDeSalaSignifican | hospital/login/forms.py:135-148 | the room checks report nothing exactly when internal doctors have an internal room and external ones none; each message is added exactly in its case, all on the room field |
| AdminForms.ExternoConSalaInterna | hospital/login/forms.py:140-148 | an external doctor given an internal room gets both room errors |
| AdminForms.SinErroresMedico | hospital/login/forms.py:97-150 | the form has no errors exactly when the validators accept the given fields, the cédula and email are unused, and the room rule holds |
| AdminForms.DuplicadosReportados | hospital/login/forms.py:126-133 | the duplicate errors appear exactly when the stripped cédula or email is given and already used |
| AdminForms.SoloValidadores | hospital/login/forms.py:105-124 | the validator checks add only validator messages |
| AdminForms.FormaAcordeConMedicoClean | hospital/login/forms.py:135-148 | the form's room checks and `Medico.clean`'s type checks reject the same doctors |
| AdminForms.Elegida | hospital/login/forms.py:181-201 | a choice field's value is one of its choices |
| AdminForms.HorarioForm.constructor | hospital/login/forms.py:174-209 | a new form holds the instance's key and times and no computed times |
| AdminForms.HorarioForm.Clean | hospital/login/forms.py:211-254 | `clean` returns what the rules give; with all four selectors it records both computed times on the form and the instance, even when the uniqueness check then fails; otherwise nothing changes |
| AdminForms.HorarioForm.Save | hospital/login/forms.py:256-266 | `save` copies each computed time to the instance when present and changes nothing else |
| AdminForms.EnteroDosCifras | hospital/login/forms.py:222-223 | `int` of two digits is ten times the first plus the second |
| AdminForms.EnteroPadded | hospital/login/forms.py:178 | `int` reads a zero-padded hour back |
| AdminForms.HoraElegidaEnRango | hospital/login/forms.py:178 | every hour choice reads as 7..20 |
| AdminForms.MinutoElegidoEnRango | hospital/login/forms.py:179 | every minute choice reads as 0, 15, 30 or 45 |
| AdminForms.CuartoDeHora | hospital/login/forms.py:179 | a time on a quarter hour is a multiple of 15 minutes |
| AdminForms.HorasDeEnteros | hospital/login/forms.py:220-230 | from valid selectors both times are built, and an end not after the start is rejected |
| AdminForms.HorasDeLasOpciones | hospital/login/forms.py:178-237 | selectors limited to their choices never raise 'Hora inválida', and the times built lie on quarter hours from 07:00 to 20:45 with the end after the start |
| AdminForms.FinAntesRechazado | hospital/login/forms.py:225-226 | an end at or before the start is rejected |
| AdminForms.HorarioNuevoMantieneUnicidad | hospital/login/forms.py:239-252 | storing a new schedule that passes `clean` keeps one schedule per doctor and weekday |
| AdminForms.HorarioEditadoMantieneUnicidad | hospital/login/forms.py:239-252 | saving an edited schedule that passes `clean`, with its own row excluded, keeps one schedule per doctor and weekday |
| AdminForms.HorarioPropioNoSeRepite | hospital/login/forms.py:243-252 | re-validating a stored schedule with its own doctor and weekday does not find itself as a duplicate |
| AdminForms.CleanNumero | hospital/login/forms.py:167-171 | a nonzero number used by another room is rejected, and only then |
| AdminForms.CleanNombre | hospital/login/forms.py:283-287 | a non-empty name used by another specialty is rejected, and only then |
| AdminForms.NumeroNuevoMantieneUnicidad | hospital/login/forms.py:167-171 | storing a new room whose number passes keeps room numbers unique |
| AdminForms.NombreNuevoMantieneUnicidad | hospital/login/forms.py:283-287 | storing a new specialty whose name passes keeps names unique |
| AdminForms.NumeroPropioNoSeRepite | hospital/login/forms.py:169 | re-validating a stored room with its own key does not find itself |
| LegacyCitas.HorarioMedicoClean | citasmedicas/models.py:61-63 | a schedule passes exactly when its end is after its start |
| LegacyCitas.HorariosIguales | citasmedicas/models.py:61-63 | the old and new apps accept the same schedule intervals |
| LegacyCitas.CitaClean | citasmedicas/models.py:84-106 | checks run in order: end not after start first, then a past date, then an overlap with another appointment of the doctor that day; accepted implies none applies |
| LegacyCitas.MismoChoqueQueCitas | citasmedicas/models.py:96-104 | the old overlap query finds a row exactly when the new app's doctor-scoped query does, for any key but 0 |
| LegacyCitas.Guardada | citasmedicas/models.py:70-76 | the stored row keeps the key, doctor, date and times |
| LegacyCitas.ValidaEsUnica | citasmedicas/models.py:79-81 | positive-length, non-overlapping appointments never share doctor, date and start |
| LegacyCitas.AltaMantieneAgenda | citasmedicas/models.py:84-106 | saving an accepted new appointment keeps the stored rows free of overlaps and keeps `unique_together` |
| LegacyCitas.EdicionNoSeCompara | citasmedicas/models.py:96-98 | an edited appointment is not compared with its own stored row |

## Left out

- The ORM, transactions, migrations and HTTP views are not modelled. Rows are sequences passed in. A `unique_together` or `unique=True` constraint is an invariant proved to follow from the validators, not enforcement by the database.
- Concurrent bookings are not modelled.
- `timezone.localdate()`, `timezone.localtime()` and `datetime.today()` are parameters. The date that `sumar_minutos` combines with is irrelevant, because its date part is dropped.
- The login validators `validar_telefono` and `validar_edad`, and `validar_cedula_ecuador` as the doctor form calls it, are parameters of `AdminForms.MedicoForm.Clean`. Their answers are given as `Outcome` values. `hospital/login/models.py` is not part of this model.
- Cedula.ValidarCedula: `str(cedula)` on a non-string argument is not modelled. `isdigit` is read as ASCII digits only, not Unicode digits.
- Normalizador: `strptime` is modelled for the forms the system feeds it. These are English month abbreviations, one- or two-digit day, hour and minute numerals, four-digit years and "am"/"pm" in lower case. Locale-dependent names are not modelled.
- TimeUtils.StringToNumber reads only an optionally signed run of decimal digits, or an empty or blank text. Other JavaScript numeric forms read as NaN in the model. These forms are fractions, exponents, hex, "Infinity" and numeric separators.
- TimeUtils: JavaScript's floating-point arithmetic is modelled on unbounded integers. Precision loss above 2^53 is not captured.
- `timeToPercent`, `percentToTime` and `durationToPercent` are floating-point display arithmetic and are left out.
- CitaService.SaltarEscrito and CitaService.HuecoEscrito: the as-written loops are bounded by a `fuel` parameter. They report running out rather than a non-terminating run. The as-written search built from them (`HorarioEscrito`, `EnHorariosEscrito`, `EnMedicosEscrito`, `PrimerHuecoEscrito`) carries the same bound; with a bound of at least a day's minutes it never runs out below midnight.
- AdminForms.HorarioForm.Save: the `commit` branch that writes the instance to the database is not modelled.
- `Cita.clean` of the newer app reads `especialidad.duracion_cita` even when no specialty is set; the model reports that case as an error instead of a crash (`SinEspecialidad`).
- The `print` in `Cita.clean` is not modelled.

## Findings

| source | as written | input that shows it | evidently intended | confidence | as-written member | corrected member |
|---|---|---|---|---|---|---|
| hospital/citas/services/cita_service.py:28-31 | the skip-past-now loop advances with `sumar_minutos`, which wraps at midnight, until the cursor is not before now | today's date, 30-minute slots, a schedule starting on a half hour, current time 23:50: the cursor reaches 23:30, wraps to 00:00 and is never past 23:50, so the loop never ends | stop once no later slot exists today | not executed | CitaService.SaltoSinFin | CitaService.SaltarPasado |
| hospital/citas/services/cita_service.py:33-43 | the slot loop compares the wrapped slot end with the schedule's end | today's date, 15-minute slots, a 07:00 schedule ending before midnight, current time 23:40: the skip stops at 23:45, `sumar_minutos(23:45, 15)` is 00:00, which is not after the end, so [23:45, 00:00) is offered outside the schedule | offer only slots that lie inside the schedule | not executed | CitaService.HuecoTrasMedianoche | CitaService.PrimerHuecoCorrecto |
