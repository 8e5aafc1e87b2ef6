/** Quarter provisioning and the quarter detail view
    (src/controllers/trimestre.controller.js). A quarter belongs to one subject
    and one student; creation adds, for each pair of a course subject and an
    enrolled student, a quarter with the requested number unless the pair is
    full or already has that number. */
module Quarters {
  import opened Common
  import opened Entities

  /** The seven grading parameters every new quarter starts with. */
  const Plantilla: seq<Parametro> := [
    Parametro("Lecciones", 20, [], None),
    Parametro("Actividad intraclases", 20, [], None),
    Parametro("Tareas", 10, [], None),
    Parametro("Exposiciones", 10, [], None),
    Parametro("Talleres", 10, [], None),
    Parametro("Evaluación del periodo", 15, [], None),
    Parametro("Proyecto interdisciplinar", 15, [], None)
  ]

  function SumPorcentajes(ps: seq<Parametro>): nat
  {
    if ps == [] then 0 else ps[0].porcentaje + SumPorcentajes(ps[1..])
  }

  /** The template has seven parameters whose weights add up to 100, none with
      activities or an average yet. */
  lemma PlantillaLaws()
    ensures |Plantilla| == 7 && SumPorcentajes(Plantilla) == 100
    ensures forall i :: 0 <= i < |Plantilla| ==>
      Plantilla[i].actividades == [] && Plantilla[i].promedioParametro.None? && Plantilla[i].porcentaje > 0
  {
  }

  /** The quarter creation pushes for one pair. */
  function NuevoTrimestre(n: int, m: Id, s: Id): Trimestre
  {
    Trimestre(n, m, Plantilla, None, Abierto, s)
  }

  /** How many quarters the subject has for the student. */
  function CountPair(ts: seq<Trimestre>, m: Id, s: Id): (k: nat)
    ensures k <= |ts|
    ensures k == 0 <==> forall i :: 0 <= i < |ts| ==> ts[i].materiaId != m || ts[i].estudianteId != s
  {
    if ts == [] then 0
    else
      var x := ts[|ts| - 1];
      CountPair(ts[..|ts| - 1], m, s) + (if x.materiaId == m && x.estudianteId == s then 1 else 0)
  }

  lemma {:induction false} CountPairAppend(a: seq<Trimestre>, b: seq<Trimestre>, m: Id, s: Id)
    ensures CountPair(a + b, m, s) == CountPair(a, m, s) + CountPair(b, m, s)
  {
    if b == [] {
      assert a + b == a;
    } else {
      CountPairAppend(a, b[..|b| - 1], m, s);
      assert (a + b)[..|a + b| - 1] == a + b[..|b| - 1];
      assert (a + b)[|a + b| - 1] == b[|b| - 1];
    }
  }

  predicate HasNumero(ts: seq<Trimestre>, m: Id, s: Id, n: int)
  {
    exists i :: 0 <= i < |ts| && ts[i].materiaId == m && ts[i].estudianteId == s && ts[i].numero == n
  }

  /** The two reasons a pair gets no new quarter. */
  predicate Skipped(ts: seq<Trimestre>, m: Id, s: Id, n: int)
  {
    CountPair(ts, m, s) >= 3 || HasNumero(ts, m, s, n)
  }

  /** The quarters the inner loop pushes for subject `m`, students in order. */
  function Row(m: Id, ss: seq<Id>, ts: seq<Trimestre>, n: int): seq<Trimestre>
  {
    if ss == [] then []
    else
      var s := ss[|ss| - 1];
      Row(m, ss[..|ss| - 1], ts, n) + (if Skipped(ts, m, s, n) then [] else [NuevoTrimestre(n, m, s)])
  }

  /** The quarters the nested loops push (`nuevosTrimestres`), subjects outside,
      students inside; the skip rules look only at the stored quarters `ts`. */
  function Plan(ms: seq<Id>, ss: seq<Id>, ts: seq<Trimestre>, n: int): seq<Trimestre>
  {
    if ms == [] then [] else Plan(ms[..|ms| - 1], ss, ts, n) + Row(ms[|ms| - 1], ss, ts, n)
  }

  /** The nested loops of `crearTrimestresPorCurso`: for each subject, for
      each student, push a new quarter unless the pair is skipped. */
  method PlanQuarters(ms: seq<Id>, ss: seq<Id>, ts: seq<Trimestre>, n: int) returns (nuevos: seq<Trimestre>)
    ensures nuevos == Plan(ms, ss, ts, n)
  {
    nuevos := [];
    var i := 0;
    while i < |ms|
      invariant 0 <= i <= |ms|
      invariant nuevos == Plan(ms[..i], ss, ts, n)
    {
      var m := ms[i];
      var j := 0;
      while j < |ss|
        invariant 0 <= j <= |ss|
        invariant nuevos == Plan(ms[..i], ss, ts, n) + Row(m, ss[..j], ts, n)
      {
        var s := ss[j];
        assert ss[..j + 1][..j] == ss[..j];
        ghost var row := Row(m, ss[..j + 1], ts, n);
        assert row == Row(m, ss[..j], ts, n) + (if Skipped(ts, m, s, n) then [] else [NuevoTrimestre(n, m, s)]);
        if CountPair(ts, m, s) < 3 && !HasNumero(ts, m, s, n) {
          nuevos := nuevos + [NuevoTrimestre(n, m, s)];
        }
        j := j + 1;
      }
      assert ms[..i + 1][..i] == ms[..i];
      assert ss[..|ss|] == ss;
      assert Plan(ms[..i + 1], ss, ts, n) == Plan(ms[..i], ss, ts, n) + Row(m, ss, ts, n);
      i := i + 1;
    }
    assert ms[..|ms|] == ms;
  }

  ghost predicate Distinct(xs: seq<Id>)
  {
    forall i, j :: 0 <= i < j < |xs| ==> xs[i] != xs[j]
  }

  /** Pushed quarters are fresh template quarters for not-skipped pairs of the
      subject and a listed student; every such pair gets one; the students of a
      row are distinct when the roster is. */
  lemma {:induction false} RowLaws(m: Id, ss: seq<Id>, ts: seq<Trimestre>, n: int)
    ensures |Row(m, ss, ts, n)| <= |ss|
    ensures forall x :: x in Row(m, ss, ts, n) <==>
      x.materiaId == m && x.estudianteId in ss && x == NuevoTrimestre(n, m, x.estudianteId) && !Skipped(ts, m, x.estudianteId, n)
    ensures Distinct(ss) ==> forall i, j :: 0 <= i < j < |Row(m, ss, ts, n)| ==>
      Row(m, ss, ts, n)[i].estudianteId != Row(m, ss, ts, n)[j].estudianteId
  {
    if ss != [] {
      var pre := ss[..|ss| - 1];
      var s := ss[|ss| - 1];
      RowLaws(m, pre, ts, n);
      assert ss == pre + [s];
      var r := Row(m, ss, ts, n);
      var rp := Row(m, pre, ts, n);
      if Distinct(ss) && !Skipped(ts, m, s, n) {
        assert Distinct(pre);
        forall i, j | 0 <= i < j < |r| ensures r[i].estudianteId != r[j].estudianteId {
          if j == |rp| {
            assert r[i] in rp;
            var k :| 0 <= k < |pre| && pre[k] == r[i].estudianteId;
            assert ss[k] == pre[k];
          }
        }
      }
    }
  }

  /** The plan holds at most one quarter for each subject and student it is
      given; that no pair appears twice is PlanPairsDistinct's. */
  lemma {:induction false} PlanLength(ms: seq<Id>, ss: seq<Id>, ts: seq<Trimestre>, n: int)
    ensures |Plan(ms, ss, ts, n)| <= |ms| * |ss|
  {
    if ms != [] {
      PlanLength(ms[..|ms| - 1], ss, ts, n);
      RowLaws(ms[|ms| - 1], ss, ts, n);
      MulSucc(|ms| - 1, |ss|);
    }
  }

  lemma MulSucc(a: nat, b: nat)
    ensures (a + 1) * b == a * b + b
  {
  }

  /** Plan pushes exactly one fresh template quarter with number `n` for each
      (subject, student) pair that is not skipped, and nothing else. */
  lemma {:induction false} PlanMembers(ms: seq<Id>, ss: seq<Id>, ts: seq<Trimestre>, n: int)
    ensures forall x :: x in Plan(ms, ss, ts, n) <==>
      x.materiaId in ms && x.estudianteId in ss && x == NuevoTrimestre(n, x.materiaId, x.estudianteId)
      && !Skipped(ts, x.materiaId, x.estudianteId, n)
  {
    if ms != [] {
      var pre := ms[..|ms| - 1];
      var m := ms[|ms| - 1];
      PlanMembers(pre, ss, ts, n);
      RowLaws(m, ss, ts, n);
      assert ms == pre + [m];
    }
  }

  /** With distinct subjects and distinct students no pair is planned twice. */
  lemma {:induction false} PlanPairsDistinct(ms: seq<Id>, ss: seq<Id>, ts: seq<Trimestre>, n: int)
    requires Distinct(ms) && Distinct(ss)
    ensures forall i, j :: 0 <= i < j < |Plan(ms, ss, ts, n)| ==>
      Plan(ms, ss, ts, n)[i].materiaId != Plan(ms, ss, ts, n)[j].materiaId
      || Plan(ms, ss, ts, n)[i].estudianteId != Plan(ms, ss, ts, n)[j].estudianteId
  {
    if ms != [] {
      var pre := ms[..|ms| - 1];
      var m := ms[|ms| - 1];
      assert Distinct(pre);
      PlanPairsDistinct(pre, ss, ts, n);
      PlanMembers(pre, ss, ts, n);
      RowLaws(m, ss, ts, n);
      var p := Plan(pre, ss, ts, n);
      var row := Row(m, ss, ts, n);
      var r := p + row;
      assert r == Plan(ms, ss, ts, n);
      forall i, j | 0 <= i < j < |r|
        ensures r[i].materiaId != r[j].materiaId || r[i].estudianteId != r[j].estudianteId
      {
        if i < |p| && j >= |p| {
          assert r[i] in p && r[j] in row;
          var k :| 0 <= k < |pre| && pre[k] == r[i].materiaId;
          assert ms[k] == pre[k];
        } else if i >= |p| {
          assert r[i] == row[i - |p|] && r[j] == row[j - |p|];
        }
      }
    }
  }

  /** Nobody enrolled, nothing pushed. */
  lemma {:induction false} PlanWithoutStudents(ms: seq<Id>, ts: seq<Trimestre>, n: int)
    ensures Plan(ms, [], ts, n) == []
  {
    if ms != [] {
      PlanWithoutStudents(ms[..|ms| - 1], ts, n);
    }
  }

  /** The stored quarters' invariant: per (subject, student) at most three
      quarters and no number twice. */
  ghost predicate QuartersOk(ts: seq<Trimestre>)
  {
    && (forall m, s :: CountPair(ts, m, s) <= 3)
    && (forall i, j :: 0 <= i < j < |ts| && ts[i].materiaId == ts[j].materiaId && ts[i].estudianteId == ts[j].estudianteId
          ==> ts[i].numero != ts[j].numero)
  }

  /** Pairs that are pairwise distinct count at most once each. */
  lemma {:induction false} CountPairDistinct(p: seq<Trimestre>, m: Id, s: Id)
    requires forall i, j :: 0 <= i < j < |p| ==> p[i].materiaId != p[j].materiaId || p[i].estudianteId != p[j].estudianteId
    ensures CountPair(p, m, s) <= 1
  {
    if p != [] {
      var pre := p[..|p| - 1];
      CountPairDistinct(pre, m, s);
      var x := p[|p| - 1];
      if x.materiaId == m && x.estudianteId == s {
        forall i | 0 <= i < |pre| ensures pre[i].materiaId != m || pre[i].estudianteId != s {
          assert p[i] == pre[i];
        }
      }
    }
  }

  /** Creating quarters for distinct subjects and distinct students keeps at
      most three quarters and no repeated number per (subject, student). */
  lemma PlanKeepsQuartersOk(ms: seq<Id>, ss: seq<Id>, ts: seq<Trimestre>, n: int)
    requires QuartersOk(ts) && Distinct(ms) && Distinct(ss)
    ensures QuartersOk(ts + Plan(ms, ss, ts, n))
  {
    var p := Plan(ms, ss, ts, n);
    var all := ts + p;
    PlanMembers(ms, ss, ts, n);
    PlanPairsDistinct(ms, ss, ts, n);
    forall m, s ensures CountPair(all, m, s) <= 3 {
      CountPairAppend(ts, p, m, s);
      CountPairDistinct(p, m, s);
      if CountPair(p, m, s) != 0 {
        var i :| 0 <= i < |p| && p[i].materiaId == m && p[i].estudianteId == s;
        assert p[i] in p;
      }
    }
    forall i, j | 0 <= i < j < |all| && all[i].materiaId == all[j].materiaId && all[i].estudianteId == all[j].estudianteId
      ensures all[i].numero != all[j].numero
    {
      if j >= |ts| {
        assert all[j] == p[j - |ts|] && all[j] in p;
        if i < |ts| {
          assert all[i] == ts[i];
          assert !HasNumero(ts, all[j].materiaId, all[j].estudianteId, n);
        }
      }
    }
  }

  /** The enrolled ids `populate('estudiantes')` keeps: those naming a user,
      in roster order. */
  function Populated(us: seq<Doc<Usuario>>, roster: seq<Id>): (r: seq<Id>)
    ensures |r| <= |roster|
    ensures forall s :: s in r <==> s in roster && Find(us, s).Some?
  {
    if roster == [] then []
    else
      var rest := Populated(us, roster[..|roster| - 1]);
      var s := roster[|roster| - 1];
      assert roster == roster[..|roster| - 1] + [s];
      if Find(us, s).Some? then rest + [s] else rest
  }

  /** Dropping dangling ids keeps a roster free of repeats. */
  lemma {:induction false} PopulatedDistinct(us: seq<Doc<Usuario>>, roster: seq<Id>)
    requires Distinct(roster)
    ensures Distinct(Populated(us, roster))
  {
    if roster != [] {
      var pre := roster[..|roster| - 1];
      var s := roster[|roster| - 1];
      PopulatedDistinct(us, pre);
      var rest := Populated(us, pre);
      if Find(us, s).Some? {
        var r := rest + [s];
        forall i, j | 0 <= i < j < |r| ensures r[i] != r[j] {
          if j == |rest| {
            assert r[i] in pre;
            var k :| 0 <= k < |pre| && pre[k] == r[i];
            assert roster[k] == r[i];
          }
        }
      }
    }
  }

  /** The answer of a successful `crearTrimestresPorCurso`. */
  datatype Creacion = Creacion(creados: nat, totalMaterias: nat, totalEstudiantes: nat)

  /** The answer of `obtenerTrimestreDetallado`. */
  datatype Detalle = Detalle(
    id: Id,
    numero: int,
    estado: EstadoTrimestre,
    promedioTrimestre: Option<real>,
    materia: string,
    curso: string,
    docente: string,
    estudiante: string,
    parametros: seq<Parametro>)

  function FullName(u: Usuario): string
  {
    u.nombres + " " + u.apellidos
  }

  /** The quarter with the names around it. An invalid id is a bad request and
      an unknown one is not found; a missing student, subject, course or teacher
      only puts a placeholder in place of the name. */
  function ObtenerTrimestreDetallado(us: seq<Doc<Usuario>>, ms: seq<Doc<Materia>>, cs: seq<Doc<Curso>>,
                                     ts: seq<Doc<Trimestre>>, id: IdArg): (r: Response<Detalle>)
    ensures !id.AnId? ==> r == Err(BadRequest)
    ensures id.AnId? ==> (r.Err? <==> Find(ts, id.id).None?) && (r.Err? ==> r == Err(NotFound))
    ensures r.Ok? ==> (id.AnId? && Find(ts, id.id).Some? &&
      var t := Find(ts, id.id).value;
      var d := r.body;
      && d.id == id.id && d.numero == t.numero && d.estado == t.estado
      && d.promedioTrimestre == t.promedioTrimestre && d.parametros == t.parametros
      && d.estudiante == (match Find(us, t.estudianteId)
                          case Some(u) => FullName(u)
                          case None => "Estudiante no encontrado")
      && (Find(ms, t.materiaId).None? ==>
            d.materia == "Materia no encontrada" && d.curso == "Curso no encontrado" && d.docente == "Docente no asignado")
      && (Find(ms, t.materiaId).Some? ==>
            var m := Find(ms, t.materiaId).value;
            d.materia == m.nombre
            && (Find(cs, m.cursoId).None? ==> d.curso == "Curso no encontrado" && d.docente == "Docente no asignado")
            && (Find(cs, m.cursoId).Some? ==>
                  var c := Find(cs, m.cursoId).value;
                  d.curso == c.nombre + " " + c.paralelo
                  && d.docente == (match Find(us, c.docenteId)
                                   case Some(u) => FullName(u)
                                   case None => "Docente no asignado"))))
    ensures r.Err? ==> r.status == BadRequest || r.status == NotFound
  {
    if !id.AnId? then Err(BadRequest)
    else match Find(ts, id.id)
      case None => Err(NotFound)
      case Some(t) =>
        var estudiante := match Find(us, t.estudianteId)
          case Some(u) => FullName(u)
          case None => "Estudiante no encontrado";
        var (materia, curso, docente) := match Find(ms, t.materiaId)
          case None => ("Materia no encontrada", "Curso no encontrado", "Docente no asignado")
          case Some(m) =>
            match Find(cs, m.cursoId)
            case None => (m.nombre, "Curso no encontrado", "Docente no asignado")
            case Some(c) =>
              (m.nombre, c.nombre + " " + c.paralelo,
               match Find(us, c.docenteId)
               case Some(u) => FullName(u)
               case None => "Docente no asignado");
        Ok(Detalle(id.id, t.numero, t.estado, t.promedioTrimestre, materia, curso, docente, estudiante, t.parametros))
  }
}
