/** The stored entities, field for field as the schemas declare them
    (the schemas under src/models). Numbers that only appear as null in the modelled
    handlers (averages) are kept as optional reals. */
module Entities {
  import opened Common

  datatype Rol = Docente | Estudiante

  /** A user account; `ci` and `email` are unique across the collection. */
  datatype Usuario = Usuario(
    nombres: string,
    apellidos: string,
    ci: string,
    email: string,
    password: string,
    rol: Rol,
    cursoId: Option<Id>)

  /** A course: one teacher and the list of enrolled students' ids. */
  datatype Curso = Curso(
    nombre: string,
    nivel: string,
    paralelo: string,
    docenteId: Id,
    estudiantes: seq<Id>)

  datatype TrimestreRef = TrimestreRef(trimestreId: Id, numero: int, estudianteId: Id)

  datatype Materia = Materia(
    nombre: string,
    descripcion: string,
    trimestres: seq<TrimestreRef>,
    promedioFinal: Option<real>,
    cursoId: Id)

  /** A weighted grading category of a quarter. */
  datatype Parametro = Parametro(
    nombre: string,
    porcentaje: nat,
    actividades: seq<Id>,
    promedioParametro: Option<real>)

  datatype EstadoTrimestre = Abierto | Cerrado

  /** One quarter of one subject for one student. */
  datatype Trimestre = Trimestre(
    numero: int,
    materiaId: Id,
    parametros: seq<Parametro>,
    promedioTrimestre: Option<real>,
    estado: EstadoTrimestre,
    estudianteId: Id)

  datatype Actividad = Actividad(
    parametro: string,
    trimestreId: Id,
    nombre: string,
    descripcion: string,
    nota: Option<real>,
    fechaRegistro: Instant,
    fechaCalificado: Option<Instant>)

  datatype EstadoAsistencia = Presente | Ausente | Justificado

  /** One attendance row; the date is the text `YYYY-MM-DD`, matched exactly. */
  datatype Asistencia = Asistencia(
    cursoId: Id,
    estudianteId: Id,
    fecha: string,
    estado: EstadoAsistencia)
}
