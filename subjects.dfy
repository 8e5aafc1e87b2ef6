/** Subjects of a course (src/controllers/materias.controller.js): bulk
    creation with defaults and the listing by course. */
module Subjects {
  import opened Common
  import opened Entities

  /** One entry of the `materias` array of a creation request. */
  datatype MateriaIn = MateriaIn(nombre: string, descripcion: string)

  /** The subjects of a course, in collection order (`find({ curso_id })`). */
  function SubjectsOf(ms: seq<Doc<Materia>>, c: Id): (r: seq<Doc<Materia>>)
    ensures |r| <= |ms|
    ensures forall d :: d in r <==> d in ms && d.val.cursoId == c
  {
    if ms == [] then []
    else
      var rest := SubjectsOf(ms[..|ms| - 1], c);
      var d := ms[|ms| - 1];
      assert ms == ms[..|ms| - 1] + [d];
      if d.val.cursoId == c then rest + [d] else rest
  }

  /** Listing distributes over a split collection. */
  lemma {:induction false} SubjectsOfAppend(a: seq<Doc<Materia>>, b: seq<Doc<Materia>>, c: Id)
    ensures SubjectsOf(a + b, c) == SubjectsOf(a, c) + SubjectsOf(b, c)
  {
    if b == [] {
      assert a + b == a;
    } else {
      var pre := b[..|b| - 1];
      SubjectsOfAppend(a, pre, c);
      assert (a + b)[..|a + b| - 1] == a + pre;
    }
  }

  /** A block whose documents all belong to the course is listed whole. */
  lemma {:induction false} SubjectsOfAll(b: seq<Doc<Materia>>, c: Id)
    requires forall i :: 0 <= i < |b| ==> b[i].val.cursoId == c
    ensures SubjectsOf(b, c) == b
  {
    if b != [] {
      SubjectsOfAll(b[..|b| - 1], c);
      assert b[..|b| - 1] + [b[|b| - 1]] == b;
    }
  }

  /** A sub-list, in order, of documents with distinct ids has distinct ids. */
  lemma {:induction false} SubjectsOfDistinct(ms: seq<Doc<Materia>>, c: Id)
    requires IdsDistinct(ms)
    ensures IdsDistinct(SubjectsOf(ms, c))
  {
    if ms != [] {
      var pre := ms[..|ms| - 1];
      var d := ms[|ms| - 1];
      SubjectsOfDistinct(pre, c);
      var rest := SubjectsOf(pre, c);
      if d.val.cursoId == c {
        var r := rest + [d];
        forall i, j | 0 <= i < j < |r| ensures r[i].id != r[j].id {
          if j == |rest| {
            assert r[i] in pre;
            var k :| 0 <= k < |pre| && pre[k] == r[i];
            assert ms[k] == r[i];
          }
        }
      }
    }
  }

  /** The records `crearMaterias` inserts: one per entry, in order, with the
      course, no quarters and no final average. */
  function NuevasMaterias(xs: seq<MateriaIn>, c: Id): (r: seq<Materia>)
    ensures |r| == |xs|
    ensures forall i :: 0 <= i < |xs| ==>
      r[i].nombre == xs[i].nombre && r[i].descripcion == xs[i].descripcion
      && r[i].cursoId == c && r[i].trimestres == [] && r[i].promedioFinal.None?
  {
    seq(|xs|, i requires 0 <= i < |xs| => Materia(xs[i].nombre, xs[i].descripcion, [], None, c))
  }

  /** The schema's required strings are present in every entry. */
  predicate AllComplete(xs: seq<MateriaIn>)
  {
    forall i :: 0 <= i < |xs| ==> xs[i].nombre != "" && xs[i].descripcion != ""
  }

  /** `obtenerMateriasPorCurso`: an id that is not a valid ObjectId is a bad
      request; a course without subjects is not found; otherwise exactly the
      course's subjects. */
  function ObtenerMaterias(ms: seq<Doc<Materia>>, cursoId: IdArg): (r: Response<seq<Doc<Materia>>>)
    ensures !cursoId.AnId? ==> r == Err(BadRequest)
    ensures cursoId.AnId? ==> (r == Err(NotFound) <==> forall i :: 0 <= i < |ms| ==> ms[i].val.cursoId != cursoId.id)
    ensures r.Ok? ==> (cursoId.AnId? && r.body != []
      && forall d :: d in r.body <==> d in ms && d.val.cursoId == cursoId.id)
    ensures r.Ok? ==> cursoId.AnId? && r.body == SubjectsOf(ms, cursoId.id)
    ensures cursoId.AnId? && SubjectsOf(ms, cursoId.id) != [] ==> r == Ok(SubjectsOf(ms, cursoId.id))
    ensures r.Err? ==> r.status == BadRequest || r.status == NotFound
  {
    if !cursoId.AnId? then Err(BadRequest)
    else
      var found := SubjectsOf(ms, cursoId.id);
      if found == [] then
        assert forall i :: 0 <= i < |ms| ==> ms[i] !in found;
        Err(NotFound)
      else
        assert found[0] in found;
        Ok(found)
  }
}
