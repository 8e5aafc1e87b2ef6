/** Accounts (src/controllers/usuarios.controller.js): the `sha256$salt$digest`
    password string and the login check against it, the uniqueness of `ci` and
    `email`, the records teacher and bulk student creation build, and the
    students-by-course listing. HMAC-SHA256 is the parameter `H(salt, text)`,
    returning the digest as lower-case hex. */
module Users {
  import opened Common
  import opened Text
  import opened Entities

  /** HMAC-SHA256 keyed by the salt, as lower-case hex. */
  type Hmac = (string, string) -> string

  /** Lower-case hexadecimal text, as random salts and hex digests are. */
  predicate IsHex(s: string)
  {
    forall i :: 0 <= i < |s| ==> IsDigit(s[i]) || 'a' <= s[i] <= 'f'
  }

  /** The stored form of a password: `sha256$<salt>$<H(salt, password)>`. */
  function PasswordHash(H: Hmac, salt: string, pw: string): (r: string)
    ensures |r| == 8 + |salt| + |H(salt, pw)| && "sha256$" <= r
    ensures r[7..7 + |salt|] == salt && r[7 + |salt|] == '$' && r[8 + |salt|..] == H(salt, pw)
  {
    "sha256" + "$" + salt + "$" + H(salt, pw)
  }

  /** With a hex salt and digest the stored string splits on `$` into exactly
      the scheme, the salt and the digest. */
  lemma PasswordFormat(H: Hmac, salt: string, pw: string)
    requires IsHex(salt) && IsHex(H(salt, pw))
    ensures Split(PasswordHash(H, salt, pw), '$') == ["sha256", salt, H(salt, pw)]
  {
    var parts := ["sha256", salt, H(salt, pw)];
    assert '$' !in salt && '$' !in H(salt, pw) by {
      forall i | 0 <= i < |salt| ensures salt[i] != '$' { }
      forall i | 0 <= i < |H(salt, pw)| ensures H(salt, pw)[i] != '$' { }
    }
    assert '$' !in parts[0];
    assert Join(parts[2..], '$') == H(salt, pw);
    assert Join(parts, '$') == PasswordHash(H, salt, pw);
    SplitJoin(parts, '$');
  }

  /** Login's comparison: split the stored string on `$`, take the second
      piece as the salt and the third as the digest. Without a second piece
      there is no key for the HMAC and the call throws (a server error);
      without a third piece, or with a different digest, the password is wrong. */
  function CheckPassword(H: Hmac, stored: string, attempt: string): (r: Response<()>)
    ensures r == Err(InternalError) <==> '$' !in stored
    ensures r.Ok? <==> var p := Split(stored, '$'); |p| >= 3 && H(p[1], attempt) == p[2]
    ensures r.Err? ==> r.status == InternalError || r.status == Unauthorized
  {
    var p := Split(stored, '$');
    if |p| < 2 then Err(InternalError)
    else if |p| >= 3 && H(p[1], attempt) == p[2] then Ok(())
    else Err(Unauthorized)
  }

  /** A password stored in the creation format is accepted exactly for the
      attempts with the same digest, the original password among them, and
      otherwise rejected as wrong (never a server error). */
  lemma PasswordRoundTrip(H: Hmac, salt: string, pw: string, attempt: string)
    requires IsHex(salt) && IsHex(H(salt, pw))
    ensures CheckPassword(H, PasswordHash(H, salt, pw), attempt).Ok? <==> H(salt, attempt) == H(salt, pw)
    ensures CheckPassword(H, PasswordHash(H, salt, pw), attempt).Err? ==>
      CheckPassword(H, PasswordHash(H, salt, pw), attempt).status == Unauthorized
    ensures CheckPassword(H, PasswordHash(H, salt, pw), pw).Ok?
  {
    PasswordFormat(H, salt, pw);
  }

  /** The first user with that email (`findOne({ email })`). */
  function FindByEmail(us: seq<Doc<Usuario>>, email: string): (r: Option<nat>)
    ensures r.None? <==> forall i :: 0 <= i < |us| ==> us[i].val.email != email
    ensures r.Some? ==> r.value < |us| && us[r.value].val.email == email
    ensures r.Some? ==> forall i :: 0 <= i < r.value ==> us[i].val.email != email
  {
    if us == [] then None
    else if us[0].val.email == email then Some(0)
    else match FindByEmail(us[1..], email)
      case None => None
      case Some(k) => Some(k + 1)
  }

  /** The user part of a successful login answer. */
  datatype Sesion = Sesion(id: Id, nombres: string, apellidos: string, email: string, rol: Rol)

  /** `loginUsuario`: unknown email is not found; otherwise the stored
      password decides. */
  function Login(H: Hmac, us: seq<Doc<Usuario>>, email: string, pw: string): (r: Response<Sesion>)
    ensures FindByEmail(us, email).None? ==> r == Err(NotFound)
    ensures r.Ok? ==> (FindByEmail(us, email).Some? &&
      var u := us[FindByEmail(us, email).value];
      r.body == Sesion(u.id, u.val.nombres, u.val.apellidos, u.val.email, u.val.rol)
      && CheckPassword(H, u.val.password, pw).Ok?)
    ensures FindByEmail(us, email).Some? ==>
      var u := us[FindByEmail(us, email).value];
      && (r.Ok? <==> CheckPassword(H, u.val.password, pw).Ok?)
      && (r.Err? ==> CheckPassword(H, u.val.password, pw).Err? && r.status == CheckPassword(H, u.val.password, pw).status)
    ensures r.Err? ==> r.status in {NotFound, Unauthorized, InternalError}
  {
    match FindByEmail(us, email)
    case None => Err(NotFound)
    case Some(k) =>
      var u := us[k];
      match CheckPassword(H, u.val.password, pw)
      case Ok(_) => Ok(Sesion(u.id, u.val.nombres, u.val.apellidos, u.val.email, u.val.rol))
      case Err(st) => Err(st)
  }

  /** No two users share a `ci` or an `email` (the unique indexes). */
  ghost predicate UsersUnique(us: seq<Doc<Usuario>>)
  {
    forall i, j :: 0 <= i < j < |us| ==> us[i].val.ci != us[j].val.ci && us[i].val.email != us[j].val.email
  }

  /** Some user already has the `ci` or the `email`. */
  predicate Taken(us: seq<Doc<Usuario>>, ci: string, email: string)
  {
    exists i :: 0 <= i < |us| && (us[i].val.ci == ci || us[i].val.email == email)
  }

  /** Adding a user whose `ci` and `email` are free keeps them unique. */
  lemma AddUserKeepsUnique(us: seq<Doc<Usuario>>, d: Doc<Usuario>)
    requires UsersUnique(us) && !Taken(us, d.val.ci, d.val.email)
    ensures UsersUnique(us + [d])
  {
    var all := us + [d];
    forall i, j | 0 <= i < j < |all| ensures all[i].val.ci != all[j].val.ci && all[i].val.email != all[j].val.email {
      if j == |us| {
        assert all[i] == us[i];
      }
    }
  }

  /** With unique emails, a user stored with a hex salt and digest logs in
      exactly with the attempts whose digest matches, the original password
      among them, and the session is that user's. */
  lemma LoginStoredUser(H: Hmac, us: seq<Doc<Usuario>>, k: nat, salt: string, pw: string, attempt: string)
    requires UsersUnique(us) && k < |us|
    requires us[k].val.password == PasswordHash(H, salt, pw) && IsHex(salt) && IsHex(H(salt, pw))
    ensures Login(H, us, us[k].val.email, attempt).Ok? <==> H(salt, attempt) == H(salt, pw)
    ensures Login(H, us, us[k].val.email, attempt).Ok? ==> Login(H, us, us[k].val.email, attempt).body.id == us[k].id
    ensures Login(H, us, us[k].val.email, attempt).Err? ==> Login(H, us, us[k].val.email, attempt).status == Unauthorized
  {
    var r := FindByEmail(us, us[k].val.email);
    assert r.Some? && r.value == k;
    PasswordRoundTrip(H, salt, pw, attempt);
  }

  /** The user stored last logs in exactly with the attempts whose digest matches. */
  lemma LoginLastUser(H: Hmac, us: seq<Doc<Usuario>>, salt: string, pw: string)
    requires UsersUnique(us) && us != []
    requires us[|us| - 1].val.password == PasswordHash(H, salt, pw) && IsHex(salt) && IsHex(H(salt, pw))
    ensures forall attempt :: Login(H, us, us[|us| - 1].val.email, attempt).Ok? <==> H(salt, attempt) == H(salt, pw)
  {
    forall attempt ensures Login(H, us, us[|us| - 1].val.email, attempt).Ok? <==> H(salt, attempt) == H(salt, pw) {
      LoginStoredUser(H, us, |us| - 1, salt, pw, attempt);
    }
  }

  /** A new teacher account (`crearProfesor`). */
  function NuevoDocente(H: Hmac, nombres: string, apellidos: string, ci: string, email: string, pw: string, salt: string): Usuario
  {
    Usuario(nombres, apellidos, ci, email, PasswordHash(H, salt, pw), Docente, None)
  }

  /** One entry of the bulk student list. */
  datatype EstudianteIn = EstudianteIn(nombres: string, apellidos: string, ci: string, email: string, password: string)

  /** The record `addEstudiantesEnCursos` builds for an entry. */
  function NuevoEstudiante(H: Hmac, e: EstudianteIn, c: Id, salt: string): Usuario
  {
    Usuario(e.nombres, e.apellidos, e.ci, e.email, PasswordHash(H, salt, e.password), Estudiante, Some(c))
  }

  /** The records built for a bulk list, one per entry with its own salt. */
  function NuevosEstudiantes(H: Hmac, es: seq<EstudianteIn>, c: Id, salts: seq<string>): (r: seq<Usuario>)
    requires |salts| == |es|
    ensures |r| == |es|
    ensures forall i :: 0 <= i < |es| ==>
      && r[i].nombres == es[i].nombres && r[i].apellidos == es[i].apellidos
      && r[i].ci == es[i].ci && r[i].email == es[i].email
      && r[i].password == PasswordHash(H, salts[i], es[i].password)
      && r[i].rol == Estudiante && r[i].cursoId == Some(c)
  {
    seq(|es|, i requires 0 <= i < |es| => NuevoEstudiante(H, es[i], c, salts[i]))
  }

  /** The schema's required string fields are all non-empty. */
  predicate Complete(u: Usuario)
  {
    u.nombres != "" && u.apellidos != "" && u.ci != "" && u.email != "" && u.password != ""
  }

  /** An ordered bulk insert into a collection with unique `ci` and `email`:
      the records go in one by one with consecutive ids from `next` until the
      first one whose `ci` or `email` is already present; that one and the
      rest are not stored. The result is what was stored. */
  function InsertUntilClash(us: seq<Doc<Usuario>>, xs: seq<Usuario>, next: Id): (r: seq<Doc<Usuario>>)
    ensures |r| <= |xs|
    decreases |xs|
  {
    if xs == [] || Taken(us, xs[0].ci, xs[0].email) then []
    else [Doc(next, xs[0])] + InsertUntilClash(us + [Doc(next, xs[0])], xs[1..], next + 1)
  }

  /** The bulk insert stores a prefix of the records, the n-th with id `next + n`. */
  lemma {:induction false} InsertUntilClashPrefix(us: seq<Doc<Usuario>>, xs: seq<Usuario>, next: Id)
    ensures var r := InsertUntilClash(us, xs, next);
      forall i :: 0 <= i < |r| ==> r[i] == Doc(next + i, xs[i])
    decreases |xs|
  {
    if xs != [] && !Taken(us, xs[0].ci, xs[0].email) {
      InsertUntilClashPrefix(us + [Doc(next, xs[0])], xs[1..], next + 1);
    }
  }

  /** The bulk insert stops only at a record whose `ci` or `email` clashes
      with what is stored by then. */
  lemma {:induction false} InsertUntilClashStops(us: seq<Doc<Usuario>>, xs: seq<Usuario>, next: Id)
    ensures var r := InsertUntilClash(us, xs, next);
      |r| < |xs| ==> Taken(us + r, xs[|r|].ci, xs[|r|].email)
    decreases |xs|
  {
    if xs != [] && !Taken(us, xs[0].ci, xs[0].email) {
      var d := Doc(next, xs[0]);
      InsertUntilClashStops(us + [d], xs[1..], next + 1);
      var rest := InsertUntilClash(us + [d], xs[1..], next + 1);
      assert us + [d] + rest == us + ([d] + rest);
      if |rest| < |xs[1..]| {
        assert xs[1 + |rest|] == xs[1..][|rest|];
      }
    } else {
      assert us + [] == us;
    }
  }

  /** The bulk insert keeps `ci`, `email` and ids unique. */
  lemma {:induction false} InsertUntilClashLaws(us: seq<Doc<Usuario>>, xs: seq<Usuario>, next: Id)
    requires UsersUnique(us) && IdsOk(us, next)
    ensures var r := InsertUntilClash(us, xs, next);
      UsersUnique(us + r) && IdsOk(us + r, next + |r|)
    decreases |xs|
  {
    if xs != [] && !Taken(us, xs[0].ci, xs[0].email) {
      var d := Doc(next, xs[0]);
      AddUserKeepsUnique(us, d);
      assert IdsOk(us + [d], next + 1);
      InsertUntilClashLaws(us + [d], xs[1..], next + 1);
      var rest := InsertUntilClash(us + [d], xs[1..], next + 1);
      assert us + [d] + rest == us + ([d] + rest);
    } else {
      assert us + [] == us;
    }
  }

  /** The students of a course: role `estudiante` and that `curso_id`, in
      collection order. */
  function StudentsOf(us: seq<Doc<Usuario>>, c: Id): (r: seq<Doc<Usuario>>)
    ensures |r| <= |us|
    ensures forall d :: d in r <==> d in us && d.val.rol == Estudiante && d.val.cursoId == Some(c)
  {
    if us == [] then []
    else
      var rest := StudentsOf(us[..|us| - 1], c);
      var d := us[|us| - 1];
      assert us == us[..|us| - 1] + [d];
      if d.val.rol == Estudiante && d.val.cursoId == Some(c) then rest + [d] else rest
  }

  /** The students keep the collection's order. */
  lemma {:induction false} StudentsOfAppend(a: seq<Doc<Usuario>>, b: seq<Doc<Usuario>>, c: Id)
    ensures StudentsOf(a + b, c) == StudentsOf(a, c) + StudentsOf(b, c)
    decreases |b|
  {
    if b == [] {
      assert a + b == a;
    } else {
      var pre := b[..|b| - 1];
      var x := b[|b| - 1];
      assert (a + b)[..|a + b| - 1] == a + pre && (a + b)[|a + b| - 1] == x;
      StudentsOfAppend(a, pre, c);
      var fa, fp := StudentsOf(a, c), StudentsOf(pre, c);
      if x.val.rol == Estudiante && x.val.cursoId == Some(c) {
        assert fa + fp + [x] == fa + (fp + [x]);
      }
    }
  }

  /** A single user is kept exactly when it is a student of the course. */
  lemma StudentsOfOne(d: Doc<Usuario>, c: Id)
    ensures StudentsOf([d], c) == if d.val.rol == Estudiante && d.val.cursoId == Some(c) then [d] else []
  {
    assert [d][..0] == [];
  }


  datatype EstudianteInfo = EstudianteInfo(id: Id, nombres: string, apellidos: string, ci: string, email: string)

  datatype DocenteInfo = DocenteInfo(id: Id, nombre: string)

  /** The answer of `obtenerEstudiantesPorCurso`; `docente` is None where the
      answer says the teacher is not assigned. */
  datatype Listado = Listado(
    cursoId: Id,
    curso: string,
    nivel: string,
    paralelo: string,
    docente: Option<DocenteInfo>,
    totalEstudiantes: nat,
    estudiantes: seq<EstudianteInfo>)

  function Info(d: Doc<Usuario>): EstudianteInfo
  {
    EstudianteInfo(d.id, d.val.nombres, d.val.apellidos, d.val.ci, d.val.email)
  }

  /** The course's students with its teacher. A malformed id makes the lookup
      throw (a server error); an absent or unknown course is not found. The
      teacher shows only if the course's `docente_id` is a user with role
      `docente`. */
  function ObtenerEstudiantesPorCurso(us: seq<Doc<Usuario>>, cs: seq<Doc<Curso>>, cursoId: IdArg): (r: Response<Listado>)
    ensures cursoId.BadId? ==> r == Err(InternalError)
    ensures cursoId.NoId? ==> r == Err(NotFound)
    ensures cursoId.AnId? ==> (r.Err? <==> Find(cs, cursoId.id).None?)
    ensures cursoId.AnId? && r.Err? ==> r.status == NotFound
    ensures r.Ok? ==> (cursoId.AnId? && Find(cs, cursoId.id).Some? &&
      var c := Find(cs, cursoId.id).value;
      var l := r.body;
      && l.cursoId == cursoId.id && l.curso == c.nombre && l.nivel == c.nivel && l.paralelo == c.paralelo
      && l.totalEstudiantes == |l.estudiantes| == |StudentsOf(us, cursoId.id)|
      && (forall i :: 0 <= i < |l.estudiantes| ==> l.estudiantes[i] == Info(StudentsOf(us, cursoId.id)[i]))
      && (l.docente.Some? <==> Find(us, c.docenteId).Some? && Find(us, c.docenteId).value.rol == Docente)
      && (l.docente.Some? ==> l.docente.value.id == c.docenteId))
  {
    match cursoId
    case BadId => Err(InternalError)
    case NoId => Err(NotFound)
    case AnId(id) =>
      match Find(cs, id)
      case None => Err(NotFound)
      case Some(c) =>
        var ss := StudentsOf(us, id);
        var infos := seq(|ss|, i requires 0 <= i < |ss| => Info(ss[i]));
        var docente := match Find(us, c.docenteId)
          case Some(u) => if u.rol == Docente then Some(DocenteInfo(c.docenteId, u.nombres + " " + u.apellidos)) else None
          case None => None;
        Ok(Listado(id, c.nombre, c.nivel, c.paralelo, docente, |infos|, infos))
  }
}
