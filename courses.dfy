/** Courses (src/controllers/cursos.controller.js): a course has one teacher,
    a teacher has at most one course, and (nivel, paralelo) identifies a
    course. */
module Courses {
  import opened Common
  import opened Entities

  /** `Curso.findOne({ docente_id })` finds something. */
  predicate TeacherHasCourse(cs: seq<Doc<Curso>>, d: Id)
  {
    exists i :: 0 <= i < |cs| && cs[i].val.docenteId == d
  }

  /** `Curso.findOne({ nivel, paralelo })` finds something. */
  predicate SectionTaken(cs: seq<Doc<Curso>>, nivel: string, paralelo: string)
  {
    exists i :: 0 <= i < |cs| && cs[i].val.nivel == nivel && cs[i].val.paralelo == paralelo
  }

  /** At most one course per teacher and per (nivel, paralelo). */
  ghost predicate CoursesOk(cs: seq<Doc<Curso>>)
  {
    forall i, j :: 0 <= i < j < |cs| ==>
      cs[i].val.docenteId != cs[j].val.docenteId
      && (cs[i].val.nivel != cs[j].val.nivel || cs[i].val.paralelo != cs[j].val.paralelo)
  }

  /** A course created past both guards keeps the collection's uniqueness. */
  lemma AddCourseKeepsOk(cs: seq<Doc<Curso>>, d: Doc<Curso>)
    requires CoursesOk(cs)
    requires !TeacherHasCourse(cs, d.val.docenteId) && !SectionTaken(cs, d.val.nivel, d.val.paralelo)
    ensures CoursesOk(cs + [d])
  {
    var all := cs + [d];
    forall i, j | 0 <= i < j < |all|
      ensures all[i].val.docenteId != all[j].val.docenteId
      ensures all[i].val.nivel != all[j].val.nivel || all[i].val.paralelo != all[j].val.paralelo
    {
      if j == |cs| {
        assert all[i] == cs[i];
      }
    }
  }

  /** Every course's enrolment list is empty, as every course `crearCurso`
      stores is. */
  predicate NoEnrolment(cs: seq<Doc<Curso>>)
  {
    forall i :: 0 <= i < |cs| ==> cs[i].val.estudiantes == []
  }

  /** The answer of a successful `crearCurso`. */
  datatype CursoCreado = CursoCreado(id: Id, nombre: string, nivel: string, paralelo: string, docente: string)
}
