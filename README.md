# Sistema Escolar — guarded table operations

This project models the HTTP handlers of a school-management back end (Node.js,
Express and MongoDB through Mongoose). It has six collections:

- users (`usuarios`): teachers and students;
- courses (`cursos`);
- subjects (`materias`);
- quarters (`trimestres`): one per subject and student, with a seven-parameter grading template;
- activities (`actividades`);
- attendance (`asistencia`): one row per course, student and date text.

Every handler validates its request, consults the collections and then either
answers with an HTTP error or writes one batch and answers with a summary.

The store is the class `Store.Store`. Each collection is a `seq` field of
documents, a `Doc` pairing an `_id` with a value. Attendance rows have no id in
the model. `nextId` hands out fresh `_id`s. Each state-changing handler is a
method of the class, and it preserves the invariant `Valid()`:

- ids are unique and below the allocator;
- `ci` and `email` are unique among users;
- no teacher has two courses and no (nivel, paralelo) repeats;
- rosters have no repeats;
- each (subject, student) pair has at most three quarters and no repeated quarter number;
- there is one attendance row per (course, student, date).

Each method's `ensures` gives the response and the new contents of what it
modifies for every branch of the handler. The read-only handlers are pure
functions over the collections.

The pure parts (date normalisation, filters and counts, the insert-only and
update-only batch rules, the nested-loop quarter plan, the activity fan-out and
the password string) live in their own modules, with lemmas:

- `Common`: documents, responses, id arguments, lookups by id, id allocation.
- `Text`: JavaScript `trim`, digit strings, `Number()` on digit strings, `split`/`join`.
- `Entities`: the records of the six collections and their enums.
- `Attendance`: the three attendance handlers' pure parts.
- `Quarters`: the template, the skip rules, the nested loops and the detail view.
- `Activities`: the fan-out over open quarters and grading.
- `Courses`: the course uniqueness guards.
- `Subjects`: the subject filter and the bulk subject records.
- `Users`: password strings, login, bulk student insert, students of a course.
- `Store`: the store class and the state-changing handlers.

Request inputs are modelled like this:

- Absent or falsy text fields are the empty string.
- An id field is `NoId` (absent or falsy), `BadId` (not a well-formed ObjectId) or `AnId(id)`.
- `numero` fields are `NoNum`, a JSON number `Num(n)` or a text `Txt(s)`.
- `nota` fields are `NoNota` (absent), `NullNota` (null), `NaNota` (something `Number()` turns into NaN) or `Nota(v)`. A stored mark is `Option<real>`: an activity created with a null mark stores null.
- The HMAC, the random salts, today's date and the current instant are parameters.

Handlers that look a malformed id up with `findById` without checking it first
answer 500, because Mongoose throws a cast error. The model does the same.

One behaviour of the code is reproduced on purpose:

- A new course's `estudiantes` list is always empty (src/controllers/cursos.controller.js:42).
- Adding students only sets each user's `curso_id` (src/controllers/usuarios.controller.js:205).
- Quarter creation iterates `curso.estudiantes` (src/controllers/trimestre.controller.js:51).

So, starting from the empty store, quarter creation never creates a quarter. It
answers 404 or 400. `CrearTrimestres` states this as `NoEnrolment(cursos) ==>
r.Err?`. `CrearCurso` preserves `NoEnrolment`, and no other handler modifies `cursos`.

## Model

| member | source | states |
|---|---|---|
| Common.IndexOf | src/controllers/actividades.controller.js:89-98 | the position `findByIdAndUpdate` addresses: the first document with that id, None iff no document has it |
| Common.Find | src/controllers/cursos.controller.js:15 | `findById`: None iff no document has the id, otherwise the value of a document with that id |
| Common.FindUnique | src/controllers/cursos.controller.js:15 | with distinct ids, `findById` of a stored document's id yields that document |
| Common.Stamp | src/controllers/materias.controller.js:30 | `insertMany` gives the n-th new document the id `start + n` and keeps the values in order |
| Common.StampKeepsIdsOk | src/controllers/materias.controller.js:30 | appending stamped documents keeps ids distinct and below the raised allocator, and the stored values are the old ones followed by the new |
| Text.TrimStart | src/controllers/asistencia.controller.js:114-115 | the suffix left after dropping exactly the leading JavaScript white space |
| Text.TrimEnd | src/controllers/asistencia.controller.js:114-115 | the prefix left after dropping exactly the trailing JavaScript white space |
| Text.Trim | src/controllers/asistencia.controller.js:114-115 | `trim()`: no longer than its input and no white space left at either end |
| Text.TrimSlice | src/controllers/asistencia.controller.js:259 | `trim()` yields a slice of its input with no white space at either end |
| Text.TrimIdempotent | src/controllers/asistencia.controller.js:114-115 | trimming twice is trimming once |
| Text.DigitsRoundTrip | src/controllers/asistencia.controller.js:118 | the decimal text of a year reads back as that year |
| Text.DigitsLength | src/controllers/asistencia.controller.js:118-121 | one digit below 10, two below 100, four for four-digit years |
| Text.Pad2Length | src/controllers/asistencia.controller.js:119-120 | `padStart(2, '0')` of a month or day gives exactly two digits |
| Text.IsDateShape | src/controllers/asistencia.controller.js:114 | the regular expression `^\d{4}-\d{2}-\d{2}$`: ten characters, dashes at positions 4 and 7, digits everywhere else |
| Text.JsNumber | src/controllers/actividades.controller.js:18 | `Number()` of a text: a value exactly when the trimmed text is blank or all decimal digits, never negative; blank reads as 0, anything else as NaN |
| Text.TrimStartSpaces | src/controllers/actividades.controller.js:18 | leading white space in front of a non-space character is all that is cut |
| Text.TrimEndSpaces | src/controllers/actividades.controller.js:18 | trailing white space after a non-space character is all that is cut |
| Text.JsNumberPadded | src/controllers/actividades.controller.js:18 | a decimal numeral with white space around it reads as its value |
| Text.JsNumberBlank | src/controllers/actividades.controller.js:18 | empty or all-white-space text reads as 0 |
| Text.ToNumber | src/controllers/actividades.controller.js:18 | `Number()` of the request value: a JSON number is itself, a text is read as a decimal numeral |
| Text.JsNumberOfDigits | src/controllers/actividades.controller.js:18 | `Number()` of a decimal numeral is its value, so "2" and 2 both select quarter 2 |
| Text.Split | src/controllers/usuarios.controller.js:32 | `split` gives at least one piece, no piece holds the separator, and there is exactly one piece iff the text has no separator |
| Text.Join | src/controllers/usuarios.controller.js:144 | `join` starts with the first piece, followed by the separator when there are more; it builds the `sha256$salt$digest` template |
| Text.JoinSplit | src/controllers/usuarios.controller.js:32 | joining the `split('$')` pieces with `$` gives the string back |
| Text.SplitJoin | src/controllers/usuarios.controller.js:32 | splitting `$`-free pieces joined with `$` gives the pieces back |
| Text.SplitAtFirst | src/controllers/usuarios.controller.js:32 | `split` cuts at the first separator and continues on the rest |
| Attendance.NormalizeFecha | src/controllers/asistencia.controller.js:113-122 | the trimmed text when it has the YYYY-MM-DD shape, otherwise today's date |
| Attendance.DateStringShape | src/controllers/asistencia.controller.js:117-121 | today's zero-padded `yyyy-mm-dd` has the YYYY-MM-DD shape for four-digit years |
| Attendance.NormalizedIsDate | src/controllers/asistencia.controller.js:113-122 | whatever is sent, a registration is filed under a trimmed YYYY-MM-DD date |
| Attendance.RowsOn | src/controllers/asistencia.controller.js:131-134 | exactly the rows of that course and date; with `RowsOnAppend`, in table order and with their multiplicity |
| Attendance.RowsOnAppend | src/controllers/asistencia.controller.js:131-134 | the filter distributes over concatenation |
| Attendance.RowsOnOne | src/controllers/asistencia.controller.js:131-134 | a single row is kept iff it is of the course and date; with the append law this pins the filter's order and multiplicity |
| Attendance.MarkedIffHasRow | src/controllers/asistencia.controller.js:137-142 | a student is in the map of existing rows iff the table has a row for the course, student and date |
| Attendance.StateOf | src/controllers/asistencia.controller.js:280-282 | the map lookup: None iff no row is for the student, otherwise the state of a row for them |
| Attendance.StateOfKeyed | src/controllers/asistencia.controller.js:280-288 | in a keyed table the map gives each stored row's own state |
| Attendance.NewEntries | src/controllers/asistencia.controller.js:140-142 | exactly the listed entries whose student has no row yet; with `NewEntriesAppend`, in request order and with their multiplicity |
| Attendance.NewEntriesAppend | src/controllers/asistencia.controller.js:140-142 | the filter distributes over concatenation |
| Attendance.NewEntriesOne | src/controllers/asistencia.controller.js:140-142 | a single entry is kept iff its student has no row |
| Attendance.NewEntriesDistinct | src/controllers/asistencia.controller.js:140-142 | filtering keeps distinct student ids distinct |
| Attendance.CountsPartition | src/controllers/asistencia.controller.js:218-220 | present + absent + justified = number of new entries |
| Attendance.AbsentIds | src/controllers/asistencia.controller.js:152-154 | exactly the ids of new entries with state Ausente; as many as the absent count |
| Attendance.Recipients | src/controllers/asistencia.controller.js:174-181 | every absent student with a non-empty email is notified, and only they |
| Attendance.InsertOnly | src/controllers/asistencia.controller.js:159-171 | the batch of insert-only upserts keeps the old table as a prefix and adds at most one row per entry |
| Attendance.InsertOnlyLaws | src/controllers/asistencia.controller.js:159-171 | insert-only upserts keep the old table as a prefix; each added row is for the course and date, carries a requested state and is for a student without a row; keyedness is kept |
| Attendance.InsertOnlyKeepsKeyed | src/controllers/asistencia.controller.js:159-171 | the old rows stay in place and the table stays keyed |
| Attendance.InsertOnlyFresh | src/controllers/asistencia.controller.js:159-171 | for new, distinct students the batch appends exactly one row per entry, in order |
| Attendance.IndexOfRow | src/controllers/asistencia.controller.js:302-308 | the row an `updateOne` filter matches; None iff there is none |
| Attendance.UpdateOnly | src/controllers/asistencia.controller.js:302-314 | the batch of `$set` updates without upsert keeps the table's size |
| Attendance.UpdateOnlyLaws | src/controllers/asistencia.controller.js:302-317 | `$set` without upsert adds no row and changes no key; only rows of that course and date change, to a state asked for their student; `modifiedCount` ≤ batch size and 0 only if nothing changed |
| Attendance.Changed | src/controllers/asistencia.controller.js:314-317 | the number of places where two tables differ; zero iff they are equal |
| Attendance.ChangedOneMore | src/controllers/asistencia.controller.js:314-317 | changing one untouched row adds exactly one to that number |
| Attendance.UntouchedRow | src/controllers/asistencia.controller.js:302-314 | a row whose student no entry names is left as it was |
| Attendance.KeyKept | src/controllers/asistencia.controller.js:302-314 | a correction keeps every row's course, student and date |
| Attendance.LastTargetUntouched | src/controllers/asistencia.controller.js:302-314 | with distinct students, the row the last entry addresses was not touched before |
| Attendance.UpdateOnlyApplies | src/controllers/asistencia.controller.js:302-314 | with distinct students on a keyed table, every row of the course and date whose student is listed ends with the requested state |
| Attendance.UpdateOnlyCounts | src/controllers/asistencia.controller.js:314-317 | with distinct students, `modifiedCount` (`total_actualizados`) is exactly the number of rows that changed |
| Attendance.NoJustifiedOverPresent | src/controllers/asistencia.controller.js:284-299 | past the guard no Presente row becomes Justificado |
| Attendance.CorrectionLaws | src/controllers/asistencia.controller.js:284-317 | past the guards a correction leaves a keyed table of the same size with no Presente turned Justificado; for distinct students every listed row takes the requested state and `modifiedCount` is the number of rows that changed |
| Attendance.CountEstado | src/controllers/asistencia.controller.js:218-220 | a count of entries by state, bounded by the batch size |
| Attendance.AsEntradas | src/controllers/asistencia.controller.js:76-77 | the stored rows as (student, state) pairs, one per row, so the read view counts rows and not students |
| Attendance.MembersOf | src/controllers/asistencia.controller.js:38-40 | exactly the users whose `curso_id` is the course; with `MembersOfAppend`, in collection order and with their multiplicity |
| Attendance.MembersOfAppend | src/controllers/asistencia.controller.js:38-40 | the filter distributes over concatenation |
| Attendance.MembersOfOne | src/controllers/asistencia.controller.js:38-40 | a single user is kept iff its `curso_id` is the course |
| Attendance.Merge | src/controllers/asistencia.controller.js:65-73 | one line per member, in member order, with the member's id and names and the state the row map gives for them, None (null) when there is no row |
| Attendance.ObtenerAsistencia | src/controllers/asistencia.controller.js:8-96 | missing id or date → 400; malformed id → 500; otherwise line i is member i of the course (id, names) with the state the row map gives, None iff no row; present and absent counts are over the rows of the course and date; the course's name, level and section, or placeholders when the course is unknown |
| Attendance.ReadShowsStored | src/controllers/asistencia.controller.js:60-73 | on a keyed table the read view shows a member's stored state |
| Attendance.ReadAfterCorrection | src/controllers/asistencia.controller.js:243-329 | after a correction of distinct students, the read view shows the requested state for every listed member who had a row |
| Attendance.ReadAfterRegistration | src/controllers/asistencia.controller.js:98-241 | after a registration of distinct students, the read view shows the requested state for every listed member who had no row |
| Quarters.PlantillaLaws | src/controllers/trimestre.controller.js:37-45 | seven parameters weighing 20,20,10,10,10,15,15 (sum 100), each with no activities and a null average |
| Quarters.CountPair | src/controllers/trimestre.controller.js:53-59 | the number of stored quarters of the pair; 0 iff the pair has none |
| Quarters.CountPairAppend | src/controllers/trimestre.controller.js:53-59 | the pair count is additive over concatenation |
| Quarters.PlanQuarters | src/controllers/trimestre.controller.js:47-83 | the nested loops push exactly `Plan`: subjects outside, students inside, skipped pairs left out |
| Quarters.RowLaws | src/controllers/trimestre.controller.js:51-81 | a subject's row holds a fresh template quarter for each listed, not-skipped student and nothing else |
| Quarters.PlanLength | src/controllers/trimestre.controller.js:50-83 | the plan (`Plan`, built row by row with `Row`) has at most \|subjects\| × \|students\| quarters; one per pair is `PlanMembers` with `PlanPairsDistinct` |
| Quarters.PlanMembers | src/controllers/trimestre.controller.js:50-83 | a quarter is planned iff it is the requested number, open, template, for a listed subject and student whose pair is not skipped |
| Quarters.PlanPairsDistinct | src/controllers/trimestre.controller.js:50-83 | with distinct subjects and students, no pair is planned twice |
| Quarters.PlanWithoutStudents | src/controllers/trimestre.controller.js:51 | an empty roster plans nothing |
| Quarters.CountPairDistinct | src/controllers/trimestre.controller.js:50-83 | a plan with distinct pairs has at most one quarter per pair |
| Quarters.PlanKeepsQuartersOk | src/controllers/trimestre.controller.js:53-69 | the skip rules keep "at most three quarters and no repeated number per (subject, student)" |
| Quarters.Populated | src/controllers/trimestre.controller.js:25 | `populate('estudiantes')`: exactly the roster ids that are stored users |
| Quarters.PopulatedDistinct | src/controllers/trimestre.controller.js:25 | a roster without repeats populates without repeats |
| Quarters.ObtenerTrimestreDetallado | src/controllers/trimestre.controller.js:108-162 | invalid id → 400; with a valid id, an error iff the quarter is unknown, and then 404; a found quarter always succeeds, with its fields and the student, subject, course and teacher names, or the placeholder for each one missing |
| Users.PasswordFormat | src/controllers/usuarios.controller.js:142-144 | a hex salt and digest make the stored string split into exactly scheme, salt and digest |
| Users.PasswordHash | src/controllers/usuarios.controller.js:142-144 | the stored string is `sha256$`, the salt, `$` and the digest, in that order |
| Users.CheckPassword | src/controllers/usuarios.controller.js:32-43 | succeeds iff the stored string has a third `$` piece equal to the digest of the attempt under the second; without `$` it throws (500), exactly; every other failure is 401 |
| Users.PasswordRoundTrip | src/controllers/usuarios.controller.js:32-43 | the login check accepts an attempt iff its digest under the stored salt matches, so the original password passes |
| Users.FindByEmail | src/controllers/usuarios.controller.js:26 | `findOne({email})`: the first user with that email; None iff there is none |
| Users.Login | src/controllers/usuarios.controller.js:19-72 | unknown email → 404; for a known email success iff the password check succeeds, with that user's session, and otherwise the check's own status (401 or 500) |
| Users.AddUserKeepsUnique | src/controllers/usuarios.controller.js:136-139 | adding a user whose ci and email are free keeps them unique |
| Users.LoginStoredUser | src/controllers/usuarios.controller.js:26-43 | a user stored in the creation format logs in exactly with matching attempts, as themselves; other attempts get 401 |
| Users.LoginLastUser | src/controllers/usuarios.controller.js:26-43 | the user stored last logs in exactly with the matching attempts |
| Users.NuevosEstudiantes | src/controllers/usuarios.controller.js:193-207 | one record per entry, in order: names, ci and email copied, the password stored as `sha256$salt$digest` with the entry's own salt, role estudiante and the course id |
| Users.InsertUntilClash | src/controllers/usuarios.controller.js:210 | the ordered insert stores at most as many records as it is given |
| Users.InsertUntilClashPrefix | src/controllers/usuarios.controller.js:210 | what it stores is a prefix of the records, the n-th with id `next + n` |
| Users.InsertUntilClashStops | src/controllers/usuarios.controller.js:210 | the ordered `insertMany` stops only at a record whose ci or email clashes with what is stored by then |
| Users.InsertUntilClashLaws | src/controllers/usuarios.controller.js:210 | the ordered `insertMany` keeps ci, email and ids unique and below the allocator |
| Users.StudentsOf | src/controllers/usuarios.controller.js:92-95 | exactly the users with role estudiante and that course; with `StudentsOfAppend`, in collection order and with their multiplicity |
| Users.StudentsOfAppend | src/controllers/usuarios.controller.js:92-95 | the filter distributes over concatenation |
| Users.StudentsOfOne | src/controllers/usuarios.controller.js:92-95 | a single user is kept iff it is a student of the course |
| Users.ObtenerEstudiantesPorCurso | src/controllers/usuarios.controller.js:74-122 | malformed id → 500; unknown course → 404; otherwise the course fields, entry i is student i of the course (`StudentsOf`), the total is their number, and the teacher only when the course's `docente_id` is a docente |
| Subjects.SubjectsOf | src/controllers/materias.controller.js:60 | exactly the subjects of the course, in order |
| Subjects.SubjectsOfAppend | src/controllers/materias.controller.js:30 | the filter distributes over appended subjects |
| Subjects.SubjectsOfAll | src/controllers/materias.controller.js:22-28 | subjects created for a course are all found by the filter |
| Subjects.SubjectsOfDistinct | src/controllers/trimestre.controller.js:31 | with distinct ids, the subjects of a course have distinct ids |
| Subjects.NuevasMaterias | src/controllers/materias.controller.js:22-28 | one subject per entry, in order, with the course, no quarters and no final average |
| Subjects.ObtenerMaterias | src/controllers/materias.controller.js:47-71 | invalid id → 400; 404 iff the course has no subject; otherwise it succeeds with exactly `SubjectsOf`, the course's subjects in collection order |
| Courses.AddCourseKeepsOk | src/controllers/cursos.controller.js:21-34 | a course for a teacher without one and a free (nivel, paralelo) keeps both uniqueness rules |
| Activities.OpenQuarters | src/controllers/actividades.controller.js:33-37 | exactly the open quarters of the subject with that number; with `OpenQuartersAppend`, in collection order and with their multiplicity |
| Activities.OpenQuartersAppend | src/controllers/actividades.controller.js:33-37 | the filter distributes over concatenation |
| Activities.OpenQuartersOne | src/controllers/actividades.controller.js:33-37 | a single quarter is kept iff it is open, of the subject and of the number |
| Activities.FanOut | src/controllers/actividades.controller.js:46-53 | one activity per quarter, in order, carrying its id, the request fields, the mark (possibly null), the registration time and no grading time |
| Activities.CountFor | src/controllers/actividades.controller.js:46-53 | activities on a quarter; 0 iff none refers to it |
| Activities.ExactlyOnePerOpenQuarter | src/controllers/actividades.controller.js:33-53 | every open quarter of the subject and number gets exactly one activity and every other quarter none |
| Activities.Calificada | src/controllers/actividades.controller.js:89-98 | grading sets the mark and the grading time and nothing else |
| Store.Store.RegistrarAsistencia | src/controllers/asistencia.controller.js:98-241 | 400 for missing or invalid course or empty list, 404 for an unknown course, 400 when all listed already have rows; otherwise insert-only rows, exact counts, skipped = listed − new, notified = absentees' emails; old rows untouched; errors change nothing |
| Store.Store.ActualizarAsistencia | src/controllers/asistencia.controller.js:243-329 | 400 for missing fields, invalid id, no rows on that date or Justificado over Presente; 404 for an unknown course; otherwise the update-only batch: no row added and no Presente becomes Justificado; for distinct students every listed student's row of the course and date takes the requested state and `total_actualizados` is the number of rows that changed |
| Store.Store.InsertTrimestres | src/controllers/trimestre.controller.js:93 | `insertMany` of quarters appends them with fresh ids and keeps the store valid |
| Store.Store.InsertMaterias | src/controllers/materias.controller.js:30 | `insertMany` of subjects appends them with fresh ids |
| Store.Store.InsertActividades | src/controllers/actividades.controller.js:55 | `insertMany` of activities appends them with fresh ids |
| Store.Store.InsertUsuarios | src/controllers/usuarios.controller.js:210 | the ordered insert appends the stored prefix; a shorter prefix means a clash |
| Store.Store.CrearTrimestres | src/controllers/trimestre.controller.js:8-105 | 400 unless id given and valid and numero exactly 1, 2 or 3; 404 for an unknown course or no subjects; 400 when every pair is skipped; otherwise the planned quarters are appended and counted; never succeeds without enrolment |
| Store.Store.CrearActividades | src/controllers/actividades.controller.js:8-70 | 400 for a missing field or a number other than 1-3 after `Number()`; 404 for an unknown subject or no open quarter; 500 for a NaN mark; otherwise one activity per open quarter with the given mark, 0 when absent and null when null |
| Store.Store.CalificarActividad | src/controllers/actividades.controller.js:73-118 | 400 for an invalid id or a null/NaN mark; 404 for an unknown activity; otherwise only that activity's mark and grading time change |
| Store.Store.CrearCurso | src/controllers/cursos.controller.js:4-61 | 400 for a missing field, a non-teacher, a teacher with a course or a taken (nivel, paralelo); 500 for a malformed id; otherwise the course with an empty roster is appended |
| Store.Store.CrearMaterias | src/controllers/materias.controller.js:6-44 | 400 for a missing id or empty list; 404 for an unknown course; 500 when a name or description is missing; otherwise one subject per entry appended and listed by the course filter |
| Store.Store.CrearProfesor | src/controllers/usuarios.controller.js:125-174 | 400 for a missing field or a taken ci/email; otherwise a docente with the `sha256$salt$digest` password, who then logs in exactly with matching attempts |
| Store.Store.AgregarEstudiantes | src/controllers/usuarios.controller.js:176-226 | 400 for a missing id or empty list; 404 for an unknown course; 500 for a malformed id or an incomplete entry, with nothing stored; 500 for a clash after storing the prefix; otherwise one estudiante per entry, as many as sent |

## Left out

- Grade closing and aggregation (parameter, quarter, subject and course averages, `notas_finales`): the handlers shown never compute them; they are schema slots and would be floating-point averaging.
- src/config/db.js: the connection cache is I/O and global state.
- src/utils/email.js and the HTML body of the absence e-mail: SMTP I/O; only the recipients are modelled (`notificados`, which the real answer does not include), and a send failure is ignored by the code as well.
- index.js and src/routes/*: Express wiring. `actualizarAsistenciaCurso` is not routed, and src/routes/usuarios.routes.js:10-12 names handlers that do not exist; the model still has the update handler.
- `obtenerUsuarios` (list all users): not part of this model.
- Debug logging and the unfiltered sample query in `obtenerAsistenciaCurso`: side effects only.
- JWT signing in login: foreign crypto; the session carries the user fields only.
- HMAC, random salts, ObjectId validity and the clock: parameters (`H`, `salt`/`salts`, `IdArg`, `today`, `now`).
- Mongo atomicity, concurrency and partial failure of `bulkWrite`: every handler is one sequential step. The unique index on users is modelled as an ordered `insertMany` that stops at the first clash.
- Malformed ids inside attendance entries, non-string `fecha` in an update and a missing password field: each of these throws or fails a cast in the code (500). The model's input types cannot express them.
- Attendance states outside Presente, Ausente and Justificado: the model's state type has only these three, so such a request cannot be expressed. The code's `bulkWrite` runs no schema validation, so it would store the text as sent.
- Text.JsNumber: `Number()` on texts is modelled for decimal numerals with optional surrounding white space, and blank text as 0; a sign, hex, an exponent or a fraction is read as not a number, where JavaScript would read a value. `Store.Store.CrearActividades` inherits this for `numero_trimestre`.
- Store.Store.CrearActividades: the query for open quarters is given the numeric value of `numero_trimestre`, as Mongoose casts it to the schema's Number type.
- Store.Store.CrearTrimestres: the references to the new quarters are not pushed into the subjects' `trimestres` lists; the code does not push them either.
- Users.Login: `findOne({ email: undefined })` for a missing email is modelled as a lookup of the empty email.
