/** The in-memory store behind the HTTP handlers: the six collections of the
    school back end and one `_id` allocator. Each state-changing handler is a
    method that answers with a response and leaves the store unchanged on
    every error path except the one a partially applied bulk insert leaves. */
module Store {
  import opened Common
  import opened Text
  import opened Entities
  import opened Attendance
  import opened Quarters
  import opened Activities
  import opened Courses
  import opened Subjects
  import opened Users

  class Store {
    var usuarios: seq<Doc<Usuario>>
    var cursos: seq<Doc<Curso>>
    var materias: seq<Doc<Materia>>
    var trimestres: seq<Doc<Trimestre>>
    var actividades: seq<Doc<Actividad>>
    var asistencia: seq<Asistencia>
    var nextId: Id

    /** Ids are unique and below the allocator; users have unique `ci` and
        `email`; one course per teacher and per (nivel, paralelo); rosters
        have no repeats; at most three quarters and no repeated number per
        (subject, student); one attendance row per (course, student, date). */
    ghost predicate Valid()
      reads this
    {
      && IdsOk(usuarios, nextId) && IdsOk(cursos, nextId) && IdsOk(materias, nextId)
      && IdsOk(trimestres, nextId) && IdsOk(actividades, nextId)
      && UsersUnique(usuarios)
      && CoursesOk(cursos)
      && (forall i :: 0 <= i < |cursos| ==> Quarters.Distinct(cursos[i].val.estudiantes))
      && QuartersOk(Vals(trimestres))
      && Keyed(asistencia)
    }

    constructor ()
      ensures Valid() && NoEnrolment(cursos)
      ensures usuarios == [] && cursos == [] && materias == [] && trimestres == []
      ensures actividades == [] && asistencia == [] && nextId == 0
    {
      usuarios := [];
      cursos := [];
      materias := [];
      trimestres := [];
      actividades := [];
      asistencia := [];
      nextId := 0;
    }

    /** `registrarAsistenciaCurso`: insert-only registration of a course's
        attendance on a date. Students that already have a row for the course
        and date are skipped; the others are written by insert-only upserts. */
    method RegistrarAsistencia(cursoId: IdArg, fecha: FechaArg, estudiantes: Option<seq<Entrada>>, today: Date)
      returns (r: Response<Registro>)
      requires Valid()
      modifies this`asistencia
      ensures Valid()
      ensures r.Err? ==> asistencia == old(asistencia)
      ensures cursoId.NoId? || cursoId.BadId? || estudiantes.None? || estudiantes == Some([]) ==> r == Err(BadRequest)
      ensures r.Ok? ==> |old(asistencia)| <= |asistencia| && asistencia[..|old(asistencia)|] == old(asistencia)
      ensures r.Ok? ==> r.body.totalPresentes + r.body.totalAusentes + r.body.totalJustificados == r.body.totalInsertados
      ensures cursoId.AnId? && estudiantes.Some? && estudiantes.value != [] && Find(cursos, cursoId.id).None? ==>
        r == Err(NotFound)
      ensures cursoId.AnId? && estudiantes.Some? && estudiantes.value != [] && Find(cursos, cursoId.id).Some? ==>
        var f := NormalizeFecha(fecha, today);
        var nuevos := NewEntries(estudiantes.value, Marked(RowsOn(old(asistencia), cursoId.id, f)));
        (nuevos == [] <==> r.Err?) && (r.Err? ==> r.status == BadRequest)
      ensures r.Ok? ==> cursoId.AnId? && estudiantes.Some?
      ensures r.Ok? && cursoId.AnId? && estudiantes.Some? ==>
        var c := cursoId.id;
        var es := estudiantes.value;
        var f := NormalizeFecha(fecha, today);
        var nuevos := NewEntries(es, Marked(RowsOn(old(asistencia), c, f)));
        && asistencia == InsertOnly(old(asistencia), c, f, nuevos)
        && r.body == Registro(f, |nuevos|, CountEstado(nuevos, Presente), CountEstado(nuevos, Ausente),
                              CountEstado(nuevos, Justificado), |asistencia| - |old(asistencia)|, 0,
                              |es| - |nuevos|, Recipients(usuarios, AbsentIds(nuevos)))
    {
      if cursoId.NoId? || estudiantes.None? || estudiantes.value == [] {
        return Err(BadRequest);
      }
      if cursoId.BadId? {
        return Err(BadRequest);
      }
      var c := cursoId.id;
      var es := estudiantes.value;
      var f := NormalizeFecha(fecha, today);
      if Find(cursos, c).None? {
        return Err(NotFound);
      }
      var nuevos := NewEntries(es, Marked(RowsOn(asistencia, c, f)));
      if nuevos == [] {
        return Err(BadRequest);
      }
      var notificados := Recipients(usuarios, AbsentIds(nuevos));
      var t := InsertOnly(asistencia, c, f, nuevos);
      InsertOnlyKeepsKeyed(asistencia, c, f, nuevos);
      CountsPartition(nuevos);
      var before := |asistencia|;
      asistencia := t;
      r := Ok(Registro(f, |nuevos|, CountEstado(nuevos, Presente), CountEstado(nuevos, Ausente),
                       CountEstado(nuevos, Justificado), |t| - before, 0, |es| - |nuevos|, notificados));
    }

    /** `actualizarAsistenciaCurso`: update-only correction of the states
        already registered for a course on a date. The whole batch is refused
        when nothing is registered or when it would justify a student who is
        present. */
    method ActualizarAsistencia(cursoId: IdArg, fecha: string, estudiantes: Option<seq<Entrada>>)
      returns (r: Response<Correccion>)
      requires Valid()
      modifies this`asistencia
      ensures Valid()
      ensures r.Err? ==> asistencia == old(asistencia)
      ensures cursoId.NoId? || cursoId.BadId? || fecha == "" || estudiantes.None? || estudiantes == Some([]) ==>
        r == Err(BadRequest)
      ensures r.Ok? ==> |asistencia| == |old(asistencia)|
      ensures r.Ok? ==> forall k :: 0 <= k < |asistencia| && old(asistencia)[k].estado == Presente ==>
        asistencia[k].estado != Justificado
      ensures cursoId.AnId? && fecha != "" && estudiantes.Some? && estudiantes.value != [] ==>
        var c := cursoId.id;
        var es := estudiantes.value;
        var f := Trim(fecha);
        var rows := RowsOn(old(asistencia), c, f);
        var u := UpdateOnly(old(asistencia), c, f, es);
        && (Find(cursos, c).None? ==> r == Err(NotFound))
        && (Find(cursos, c).Some? && (rows == [] || JustifiesPresent(es, rows)) ==> r == Err(BadRequest))
        && (Find(cursos, c).Some? && rows != [] && !JustifiesPresent(es, rows) ==>
              r == Ok(Correccion(f, u.modified, |es|)) && asistencia == u.rows)
      ensures r.Ok? ==> cursoId.AnId? && estudiantes.Some?
      ensures r.Ok? && cursoId.AnId? && estudiantes.Some? && DistinctIds(estudiantes.value) ==>
        var es := estudiantes.value;
        && r.body.totalActualizados == Changed(old(asistencia), asistencia)
        && (forall k, i ::
              0 <= k < |asistencia| && 0 <= i < |es| && old(asistencia)[k].cursoId == cursoId.id
              && old(asistencia)[k].fecha == Trim(fecha) && old(asistencia)[k].estudianteId == es[i].id
              ==> asistencia[k].estado == es[i].estado)
    {
      if cursoId.NoId? || fecha == "" || estudiantes.None? || estudiantes.value == [] {
        return Err(BadRequest);
      }
      if cursoId.BadId? {
        return Err(BadRequest);
      }
      var c := cursoId.id;
      var es := estudiantes.value;
      var f := Trim(fecha);
      if Find(cursos, c).None? {
        return Err(NotFound);
      }
      var rows := RowsOn(asistencia, c, f);
      if rows == [] || JustifiesPresent(es, rows) {
        return Err(BadRequest);
      }
      var u := UpdateOnly(asistencia, c, f, es);
      CorrectionLaws(asistencia, c, f, es);
      asistencia := u.rows;
      r := Ok(Correccion(f, u.modified, |es|));
    }

    /** `insertMany` on the quarters collection: the new documents get
        consecutive fresh ids. */
    method InsertTrimestres(vals: seq<Trimestre>)
      requires Valid() && QuartersOk(Vals(trimestres) + vals)
      modifies this`trimestres, this`nextId
      ensures Valid()
      ensures trimestres == old(trimestres) + Stamp(vals, old(nextId)) && nextId == old(nextId) + |vals|
    {
      StampKeepsIdsOk(trimestres, vals, nextId);
      RaiseAll(nextId + |vals|);
      trimestres := trimestres + Stamp(vals, nextId);
      nextId := nextId + |vals|;
    }

    /** `insertMany` on the subjects collection. */
    method InsertMaterias(vals: seq<Materia>)
      requires Valid()
      modifies this`materias, this`nextId
      ensures Valid()
      ensures materias == old(materias) + Stamp(vals, old(nextId)) && nextId == old(nextId) + |vals|
    {
      StampKeepsIdsOk(materias, vals, nextId);
      RaiseAll(nextId + |vals|);
      materias := materias + Stamp(vals, nextId);
      nextId := nextId + |vals|;
    }

    /** `insertMany` on the activities collection. */
    method InsertActividades(vals: seq<Actividad>)
      requires Valid()
      modifies this`actividades, this`nextId
      ensures Valid()
      ensures actividades == old(actividades) + Stamp(vals, old(nextId)) && nextId == old(nextId) + |vals|
    {
      StampKeepsIdsOk(actividades, vals, nextId);
      RaiseAll(nextId + |vals|);
      actividades := actividades + Stamp(vals, nextId);
      nextId := nextId + |vals|;
    }

    /** Ordered `insertMany` on the users collection, whose `ci` and `email`
        indexes are unique: documents are stored in order until the first one
        that clashes, and the rest are dropped. */
    method InsertUsuarios(xs: seq<Usuario>) returns (stored: seq<Doc<Usuario>>)
      requires Valid()
      modifies this`usuarios, this`nextId
      ensures Valid()
      ensures stored == InsertUntilClash(old(usuarios), xs, old(nextId))
      ensures usuarios == old(usuarios) + stored && nextId == old(nextId) + |stored|
      ensures |stored| <= |xs| && forall i :: 0 <= i < |stored| ==> stored[i] == Doc(old(nextId) + i, xs[i])
      ensures |stored| < |xs| ==> Taken(usuarios, xs[|stored|].ci, xs[|stored|].email)
    {
      stored := InsertUntilClash(usuarios, xs, nextId);
      InsertUntilClashLaws(usuarios, xs, nextId);
      InsertUntilClashStops(usuarios, xs, nextId);
      InsertUntilClashPrefix(usuarios, xs, nextId);
      RaiseAll(nextId + |stored|);
      usuarios := usuarios + stored;
      nextId := nextId + |stored|;
    }

    /** Raising the allocator keeps every collection's ids below it. */
    lemma RaiseAll(next: Id)
      requires Valid() && nextId <= next
      ensures IdsOk(usuarios, next) && IdsOk(cursos, next) && IdsOk(materias, next)
      ensures IdsOk(trimestres, next) && IdsOk(actividades, next)
    {
      IdsOkRaise(usuarios, nextId, next);
      IdsOkRaise(cursos, nextId, next);
      IdsOkRaise(materias, nextId, next);
      IdsOkRaise(trimestres, nextId, next);
      IdsOkRaise(actividades, nextId, next);
    }

    /** `crearTrimestresPorCurso`: for every subject of the course and every
        enrolled student (subjects outside, students inside), a new quarter
        with the requested number unless the pair already has three quarters
        or one with that number; then one bulk insert. The number must be the
        JSON number 1, 2 or 3, without coercion. */
    method CrearTrimestres(cursoId: IdArg, numero: NumArg) returns (r: Response<Creacion>)
      requires Valid()
      modifies this`trimestres, this`nextId
      ensures Valid()
      ensures r.Err? ==> trimestres == old(trimestres) && nextId == old(nextId)
      ensures cursoId.NoId? || cursoId.BadId? || !(numero.Num? && 1 <= numero.n <= 3) ==> r == Err(BadRequest)
      ensures NoEnrolment(cursos) ==> r.Err?
      ensures cursoId.AnId? && numero.Num? && 1 <= numero.n <= 3
              && (Find(cursos, cursoId.id).None? || SubjectsOf(materias, cursoId.id) == []) ==>
        r == Err(NotFound)
      ensures cursoId.AnId? && numero.Num? && 1 <= numero.n <= 3
              && Find(cursos, cursoId.id).Some? && SubjectsOf(materias, cursoId.id) != [] ==>
        var ss := Populated(usuarios, Find(cursos, cursoId.id).value.estudiantes);
        var plan := Plan(IdsOf(SubjectsOf(materias, cursoId.id)), ss, Vals(old(trimestres)), numero.n);
        (plan == [] <==> r.Err?) && (r.Err? ==> r.status == BadRequest)
      ensures r.Ok? ==> cursoId.AnId? && numero.Num? && Find(cursos, cursoId.id).Some?
      ensures r.Ok? && cursoId.AnId? && numero.Num? && Find(cursos, cursoId.id).Some? ==>
        var ms := SubjectsOf(materias, cursoId.id);
        var ss := Populated(usuarios, Find(cursos, cursoId.id).value.estudiantes);
        var plan := Plan(IdsOf(ms), ss, Vals(old(trimestres)), numero.n);
        && r.body == Creacion(|plan|, |ms|, |ss|)
        && trimestres == old(trimestres) + Stamp(plan, old(nextId))
        && nextId == old(nextId) + |plan|
    {
      if cursoId.NoId? || !(numero.Num? && 1 <= numero.n <= 3) {
        return Err(BadRequest);
      }
      if cursoId.BadId? {
        return Err(BadRequest);
      }
      var c := cursoId.id;
      var n := numero.n;
      var curso := Find(cursos, c);
      if curso.None? {
        return Err(NotFound);
      }
      var ms := SubjectsOf(materias, c);
      if ms == [] {
        return Err(NotFound);
      }
      var ss := Populated(usuarios, curso.value.estudiantes);
      var ids := IdsOf(ms);
      var tv := Vals(trimestres);
      var nuevos := PlanQuarters(ids, ss, tv, n);
      if curso.value.estudiantes == [] {
        PlanWithoutStudents(ids, tv, n);
      }
      if nuevos == [] {
        return Err(BadRequest);
      }
      var k :| 0 <= k < |cursos| && cursos[k] == Doc(c, curso.value);
      PopulatedDistinct(usuarios, curso.value.estudiantes);
      SubjectsOfDistinct(materias, c);
      PlanKeepsQuartersOk(ids, ss, tv, n);
      InsertTrimestres(nuevos);
      r := Ok(Creacion(|nuevos|, |ms|, |ss|));
    }

    /** `crearActividadPorMateria`: one new activity for every open quarter
        of the subject with the given number. The number is read with
        Number(); a missing mark is 0, a null mark is stored as null, and a
        mark Number() cannot read fails the insert. */
    method CrearActividades(materiaId: IdArg, parametro: string, nombre: string, descripcion: string,
                            nota: NotaArg, numero: NumArg, now: Instant) returns (r: Response<Creadas>)
      requires Valid()
      modifies this`actividades, this`nextId
      ensures Valid()
      ensures r.Err? ==> actividades == old(actividades) && nextId == old(nextId)
      ensures materiaId.NoId? || parametro == "" || nombre == "" || descripcion == "" || Falsy(numero) ==>
        r == Err(BadRequest)
      ensures materiaId.BadId? || !(ToNumber(numero).Some? && 1 <= ToNumber(numero).value <= 3) ==> r == Err(BadRequest)
      ensures materiaId.AnId? && parametro != "" && nombre != "" && descripcion != "" && !Falsy(numero)
              && ToNumber(numero).Some? && 1 <= ToNumber(numero).value <= 3 ==>
        var m := materiaId.id;
        var qs := OpenQuarters(trimestres, m, ToNumber(numero).value);
        && (Find(materias, m).None? || qs == [] ==> r == Err(NotFound))
        && (Find(materias, m).Some? && qs != [] && nota.NaNota? ==> r == Err(InternalError))
        && (Find(materias, m).Some? && qs != [] && !nota.NaNota? ==>
              var acts := FanOut(qs, parametro, nombre, descripcion, if nota.Nota? then Some(nota.v) else if nota.NullNota? then None else Some(0.0), now);
              && r == Ok(Creadas(|qs|, Stamp(acts, old(nextId))))
              && actividades == old(actividades) + Stamp(acts, old(nextId))
              && nextId == old(nextId) + |acts|)
    {
      if materiaId.NoId? || parametro == "" || nombre == "" || descripcion == "" || Falsy(numero) {
        return Err(BadRequest);
      }
      var k := ToNumber(numero);
      if !(k.Some? && 1 <= k.value <= 3) {
        return Err(BadRequest);
      }
      if materiaId.BadId? {
        return Err(BadRequest);
      }
      var m := materiaId.id;
      if Find(materias, m).None? {
        return Err(NotFound);
      }
      var qs := OpenQuarters(trimestres, m, k.value);
      if qs == [] {
        return Err(NotFound);
      }
      if nota.NaNota? {
        return Err(InternalError);
      }
      var valor := if nota.Nota? then Some(nota.v) else if nota.NullNota? then None else Some(0.0);
      var acts := FanOut(qs, parametro, nombre, descripcion, valor, now);
      var creadas := Stamp(acts, nextId);
      InsertActividades(acts);
      r := Ok(Creadas(|qs|, creadas));
    }

    /** `calificarActividad`: sets the mark and the grading time of one
        activity and nothing else. */
    method CalificarActividad(actividadId: IdArg, nota: NotaArg, now: Instant) returns (r: Response<Doc<Actividad>>)
      requires Valid()
      modifies this`actividades
      ensures Valid()
      ensures r.Err? ==> actividades == old(actividades)
      ensures !actividadId.AnId? || !nota.Nota? ==> r == Err(BadRequest)
      ensures actividadId.AnId? && nota.Nota? ==>
        var id := actividadId.id;
        && (IndexOf(old(actividades), id).None? ==> r == Err(NotFound))
        && (IndexOf(old(actividades), id).Some? ==>
              var k := IndexOf(old(actividades), id).value;
              && actividades == old(actividades)[k := Doc(id, Calificada(old(actividades)[k].val, nota.v, now))]
              && r == Ok(actividades[k]))
    {
      if !actividadId.AnId? || !nota.Nota? {
        return Err(BadRequest);
      }
      var id := actividadId.id;
      var k := IndexOf(actividades, id);
      if k.None? {
        return Err(NotFound);
      }
      var d := Doc(id, Calificada(actividades[k.value].val, nota.v, now));
      actividades := actividades[k.value := d];
      r := Ok(d);
    }

    /** `crearCurso`: a new course with an empty roster, for a teacher who
        has no course yet, at a (nivel, paralelo) no course has. */
    method CrearCurso(nombre: string, nivel: string, paralelo: string, docenteId: IdArg) returns (r: Response<CursoCreado>)
      requires Valid()
      modifies this`cursos, this`nextId
      ensures Valid()
      ensures old(NoEnrolment(cursos)) ==> NoEnrolment(cursos)
      ensures r.Err? ==> cursos == old(cursos) && nextId == old(nextId)
      ensures nombre == "" || nivel == "" || paralelo == "" || docenteId.NoId? ==> r == Err(BadRequest)
      ensures nombre != "" && nivel != "" && paralelo != "" && docenteId.BadId? ==> r == Err(InternalError)
      ensures nombre != "" && nivel != "" && paralelo != "" && docenteId.AnId? ==>
        var d := docenteId.id;
        var u := Find(usuarios, d);
        var libre := !TeacherHasCourse(old(cursos), d) && !SectionTaken(old(cursos), nivel, paralelo);
        && (u.None? || u.value.rol != Docente || !libre ==> r == Err(BadRequest))
        && (u.Some? && u.value.rol == Docente && libre ==>
              && cursos == old(cursos) + [Doc(old(nextId), Curso(nombre, nivel, paralelo, d, []))]
              && nextId == old(nextId) + 1
              && r == Ok(CursoCreado(old(nextId), nombre, nivel, paralelo, u.value.nombres + " " + u.value.apellidos)))
    {
      if nombre == "" || nivel == "" || paralelo == "" || docenteId.NoId? {
        return Err(BadRequest);
      }
      if docenteId.BadId? {
        return Err(InternalError);
      }
      var d := docenteId.id;
      var u := Find(usuarios, d);
      if u.None? || u.value.rol != Docente {
        return Err(BadRequest);
      }
      if TeacherHasCourse(cursos, d) {
        return Err(BadRequest);
      }
      if SectionTaken(cursos, nivel, paralelo) {
        return Err(BadRequest);
      }
      var doc := Doc(nextId, Curso(nombre, nivel, paralelo, d, []));
      AddCourseKeepsOk(cursos, doc);
      cursos := cursos + [doc];
      nextId := nextId + 1;
      r := Ok(CursoCreado(doc.id, nombre, nivel, paralelo, u.value.nombres + " " + u.value.apellidos));
    }

    /** `crearMaterias`: one subject per entry, in order, for an existing
        course; an entry without a name or a description fails the whole
        insert. */
    method CrearMaterias(cursoId: IdArg, entradas: Option<seq<MateriaIn>>) returns (r: Response<seq<Doc<Materia>>>)
      requires Valid()
      modifies this`materias, this`nextId
      ensures Valid()
      ensures r.Err? ==> materias == old(materias) && nextId == old(nextId)
      ensures cursoId.NoId? || entradas.None? || entradas == Some([]) ==> r == Err(BadRequest)
      ensures cursoId.BadId? && entradas.Some? && entradas.value != [] ==> r == Err(InternalError)
      ensures cursoId.AnId? && entradas.Some? && entradas.value != [] && Find(cursos, cursoId.id).None? ==>
        r == Err(NotFound)
      ensures cursoId.AnId? && entradas.Some? && entradas.value != [] && Find(cursos, cursoId.id).Some? ==>
        (AllComplete(entradas.value) <==> r.Ok?) && (r.Err? ==> r.status == InternalError)
      ensures r.Ok? ==> cursoId.AnId? && entradas.Some?
      ensures r.Ok? && cursoId.AnId? && entradas.Some? ==>
        && r.body == Stamp(NuevasMaterias(entradas.value, cursoId.id), old(nextId))
        && materias == old(materias) + r.body
        && nextId == old(nextId) + |entradas.value|
        && SubjectsOf(materias, cursoId.id) == SubjectsOf(old(materias), cursoId.id) + r.body
    {
      if cursoId.NoId? || entradas.None? || entradas.value == [] {
        return Err(BadRequest);
      }
      if cursoId.BadId? {
        return Err(InternalError);
      }
      var c := cursoId.id;
      var xs := entradas.value;
      if Find(cursos, c).None? {
        return Err(NotFound);
      }
      if !AllComplete(xs) {
        return Err(InternalError);
      }
      var nuevas := Stamp(NuevasMaterias(xs, c), nextId);
      SubjectsOfAppend(materias, nuevas, c);
      SubjectsOfAll(nuevas, c);
      InsertMaterias(NuevasMaterias(xs, c));
      r := Ok(nuevas);
    }

    /** `crearProfesor`: a teacher account with a salted password, refused
        when any user already has the `ci` or the `email`. */
    method CrearProfesor(H: Hmac, nombres: string, apellidos: string, ci: string, email: string,
                         password: string, salt: string) returns (r: Response<Doc<Usuario>>)
      requires Valid()
      modifies this`usuarios, this`nextId
      ensures Valid()
      ensures r.Err? ==> usuarios == old(usuarios) && nextId == old(nextId)
      ensures nombres == "" || apellidos == "" || ci == "" || email == "" || password == "" ==> r == Err(BadRequest)
      ensures nombres != "" && apellidos != "" && ci != "" && email != "" && password != "" ==>
        && (Taken(old(usuarios), ci, email) ==> r == Err(BadRequest))
        && (!Taken(old(usuarios), ci, email) ==>
              && r == Ok(Doc(old(nextId), NuevoDocente(H, nombres, apellidos, ci, email, password, salt)))
              && usuarios == old(usuarios) + [r.body]
              && nextId == old(nextId) + 1)
      ensures r.Ok? && IsHex(salt) && IsHex(H(salt, password)) ==>
        forall attempt :: Login(H, usuarios, email, attempt).Ok? <==> H(salt, attempt) == H(salt, password)
    {
      if nombres == "" || apellidos == "" || ci == "" || email == "" || password == "" {
        return Err(BadRequest);
      }
      if Taken(usuarios, ci, email) {
        return Err(BadRequest);
      }
      var d := Doc(nextId, NuevoDocente(H, nombres, apellidos, ci, email, password, salt));
      AddUserKeepsUnique(usuarios, d);
      RaiseAll(nextId + 1);
      assert IdsOk(usuarios + [d], nextId + 1);
      usuarios := usuarios + [d];
      nextId := nextId + 1;
      r := Ok(d);
      if IsHex(salt) && IsHex(H(salt, password)) {
        LoginLastUser(H, usuarios, salt, password);
      }
    }

    /** `addEstudiantesEnCursos`: student accounts of an existing course,
        inserted in order. An entry missing a required field fails the whole
        insert; a `ci` or `email` already present stops the insert at that
        entry, keeping the ones before it. */
    method AgregarEstudiantes(H: Hmac, cursoId: IdArg, entradas: Option<seq<EstudianteIn>>, salts: seq<string>)
      returns (r: Response<seq<Doc<Usuario>>>)
      requires Valid()
      requires entradas.Some? ==> |salts| == |entradas.value|
      modifies this`usuarios, this`nextId
      ensures Valid()
      ensures cursoId.NoId? || entradas.None? || entradas == Some([]) ==> r == Err(BadRequest)
      ensures cursoId.BadId? && entradas.Some? && entradas.value != [] ==>
        r == Err(InternalError) && usuarios == old(usuarios) && nextId == old(nextId)
      ensures r.Err? && r.status != InternalError ==> usuarios == old(usuarios) && nextId == old(nextId)
      ensures r.Ok? ==> entradas.Some? && |r.body| == |entradas.value|
      ensures r.Ok? ==> forall i :: 0 <= i < |r.body| ==>
        r.body[i].val.rol == Estudiante && r.body[i].val.cursoId == Some(cursoId.id)
      ensures cursoId.AnId? && entradas.Some? && entradas.value != [] && Find(cursos, cursoId.id).None? ==>
        r == Err(NotFound)
      ensures cursoId.AnId? && entradas.Some? && entradas.value != [] && Find(cursos, cursoId.id).Some? ==>
        var xs := NuevosEstudiantes(H, entradas.value, cursoId.id, salts);
        !(forall i :: 0 <= i < |xs| ==> Complete(xs[i])) ==>
          r == Err(InternalError) && usuarios == old(usuarios) && nextId == old(nextId)
      ensures cursoId.AnId? && entradas.Some? && entradas.value != [] && Find(cursos, cursoId.id).Some? ==>
        var xs := NuevosEstudiantes(H, entradas.value, cursoId.id, salts);
        var stored := InsertUntilClash(old(usuarios), xs, old(nextId));
        (forall i :: 0 <= i < |xs| ==> Complete(xs[i])) ==>
          && usuarios == old(usuarios) + stored
          && nextId == old(nextId) + |stored|
          && (|stored| == |xs| ==> r == Ok(stored))
          && (|stored| < |xs| ==> r == Err(InternalError))
    {
      if cursoId.NoId? || entradas.None? || entradas.value == [] {
        return Err(BadRequest);
      }
      if cursoId.BadId? {
        return Err(InternalError);
      }
      var c := cursoId.id;
      if Find(cursos, c).None? {
        return Err(NotFound);
      }
      var xs := NuevosEstudiantes(H, entradas.value, c, salts);
      if !(forall i :: 0 <= i < |xs| ==> Complete(xs[i])) {
        return Err(InternalError);
      }
      var stored := InsertUsuarios(xs);
      if |stored| < |xs| {
        r := Err(InternalError);
      } else {
        r := Ok(stored);
      }
    }
  }
}
