/** The attendance ledger (src/controllers/asistencia.controller.js): one row
    per (course, student, date text). This module holds what the handlers
    compute without changing the table: the date normalisation, the filters and
    counts, the read view, and the two batch rules the handlers apply row by
    row (insert-only registration, update-only correction), with their laws. */
module Attendance {
  import opened Common
  import opened Text
  import opened Entities

  /** The `fecha` of a request: absent, a text, or some other (truthy) JSON value. */
  datatype FechaArg = NoFecha | FechaText(s: string) | FechaOther

  /** The calendar date the server clock reads (local time). */
  datatype Date = Date(year: nat, month: nat, day: nat)

  /** One element of the request's `estudiantes` list. */
  datatype Entrada = Entrada(id: Id, estado: EstadoAsistencia)

  /** `${yyyy}-${mm}-${dd}`: the year as is, month and day padded to two digits. */
  function DateString(d: Date): string
  {
    Digits(d.year) + "-" + Pad2(d.month) + "-" + Pad2(d.day)
  }

  /** The date a registration is filed under: the trimmed request text when it
      has the shape YYYY-MM-DD, otherwise today's date. */
  function NormalizeFecha(f: FechaArg, today: Date): (r: string)
    ensures f.FechaText? && IsDateShape(Trim(f.s)) ==> r == Trim(f.s)
    ensures !(f.FechaText? && IsDateShape(Trim(f.s))) ==> r == DateString(today)
  {
    match f
    case FechaText(s) => if IsDateShape(Trim(s)) then Trim(s) else DateString(today)
    case _ => DateString(today)
  }

  /** For a four-digit year, today's date has the YYYY-MM-DD shape too. */
  lemma DateStringShape(d: Date)
    requires 1000 <= d.year <= 9999 && 1 <= d.month <= 12 && 1 <= d.day <= 31
    ensures IsDateShape(DateString(d))
  {
    DigitsLength(d.year);
    Pad2Length(d.month);
    Pad2Length(d.day);
    var s := DateString(d);
    assert s[..4] == Digits(d.year);
    assert s[5..7] == Pad2(d.month);
    assert s[8..] == Pad2(d.day);
  }

  /** Whatever the request sends, a registration is filed under a date of
      shape YYYY-MM-DD with no surrounding white space. */
  lemma NormalizedIsDate(f: FechaArg, today: Date)
    requires 1000 <= today.year <= 9999 && 1 <= today.month <= 12 && 1 <= today.day <= 31
    ensures IsDateShape(NormalizeFecha(f, today))
    ensures Trim(NormalizeFecha(f, today)) == NormalizeFecha(f, today)
  {
    var r := NormalizeFecha(f, today);
    if f.FechaText? && IsDateShape(Trim(f.s)) {
      TrimIdempotent(f.s);
    } else {
      DateStringShape(today);
      assert r[..4][0] == r[0] && r[8..][1] == r[9];
      DigitNotSpace(r[0]);
      DigitNotSpace(r[9]);
      TrimNoSpace(r);
    }
  }

  lemma DigitNotSpace(c: char)
    requires IsDigit(c)
    ensures !IsJsSpace(c)
  {
  }

  /** The table's rows for one course and date (Asistencia.find({curso_id, fecha})). */
  function RowsOn(table: seq<Asistencia>, c: Id, f: string): (r: seq<Asistencia>)
    ensures |r| <= |table|
    ensures forall x :: x in r <==> x in table && x.cursoId == c && x.fecha == f
  {
    if table == [] then []
    else
      var rest := RowsOn(table[..|table| - 1], c, f);
      var x := table[|table| - 1];
      assert table == table[..|table| - 1] + [x];
      if x.cursoId == c && x.fecha == f then rest + [x] else rest
  }

  /** The filter keeps the table's order: it distributes over concatenation. */
  lemma {:induction false} RowsOnAppend(a: seq<Asistencia>, b: seq<Asistencia>, c: Id, f: string)
    ensures RowsOn(a + b, c, f) == RowsOn(a, c, f) + RowsOn(b, c, f)
    decreases |b|
  {
    if b == [] {
      assert a + b == a;
    } else {
      var pre := b[..|b| - 1];
      var x := b[|b| - 1];
      assert (a + b)[..|a + b| - 1] == a + pre && (a + b)[|a + b| - 1] == x;
      RowsOnAppend(a, pre, c, f);
      var fa, fp := RowsOn(a, c, f), RowsOn(pre, c, f);
      if x.cursoId == c && x.fecha == f {
        assert fa + fp + [x] == fa + (fp + [x]);
      }
    }
  }

  /** A single row is kept exactly when it is of the course and date. */
  lemma RowsOnOne(d: Asistencia, c: Id, f: string)
    ensures RowsOn([d], c, f) == if d.cursoId == c && d.fecha == f then [d] else []
  {
    assert [d][..0] == [];
  }


  /** The students that have a row among `rows` (the keys of `existentesMap`). */
  function Marked(rows: seq<Asistencia>): set<Id>
  {
    set x | x in rows :: x.estudianteId
  }

  predicate HasRow(table: seq<Asistencia>, c: Id, s: Id, f: string)
  {
    exists i :: 0 <= i < |table| && table[i].cursoId == c && table[i].estudianteId == s && table[i].fecha == f
  }

  lemma MarkedIffHasRow(table: seq<Asistencia>, c: Id, f: string, s: Id)
    ensures s in Marked(RowsOn(table, c, f)) <==> HasRow(table, c, s, f)
  {
    if HasRow(table, c, s, f) {
      var i :| 0 <= i < |table| && table[i].cursoId == c && table[i].estudianteId == s && table[i].fecha == f;
      assert table[i] in RowsOn(table, c, f);
    }
  }

  /** The state stored for student `s` among `rows`, as a Map built from them
      reports it (a later row wins); None when there is no row. */
  function StateOf(rows: seq<Asistencia>, s: Id): (r: Option<EstadoAsistencia>)
    ensures r.None? <==> forall i :: 0 <= i < |rows| ==> rows[i].estudianteId != s
    ensures r.Some? ==> exists i :: 0 <= i < |rows| && rows[i].estudianteId == s && rows[i].estado == r.value
  {
    if rows == [] then None
    else if rows[|rows| - 1].estudianteId == s then Some(rows[|rows| - 1].estado)
    else StateOf(rows[..|rows| - 1], s)
  }

  /** No two rows share (course, student, date). */
  ghost predicate Keyed(table: seq<Asistencia>)
  {
    forall i, j :: 0 <= i < j < |table| ==>
      table[i].cursoId != table[j].cursoId || table[i].estudianteId != table[j].estudianteId || table[i].fecha != table[j].fecha
  }

  /** In a keyed table the lookup by student among a course's rows for a date
      finds that student's one row. */
  lemma {:induction false} StateOfKeyed(table: seq<Asistencia>, c: Id, f: string, k: nat)
    requires Keyed(table) && k < |table| && table[k].cursoId == c && table[k].fecha == f
    ensures StateOf(RowsOn(table, c, f), table[k].estudianteId) == Some(table[k].estado)
  {
    var n := |table| - 1;
    var pre := table[..n];
    var rest := RowsOn(pre, c, f);
    var x := table[n];
    if k < n {
      assert Keyed(pre);
      StateOfKeyed(pre, c, f, k);
      if x.cursoId == c && x.fecha == f {
        assert x.estudianteId != table[k].estudianteId;
        assert (rest + [x])[..|rest|] == rest;
      }
    }
  }

  /** The request entries whose student has no row yet (`nuevosRegistros`). */
  function NewEntries(es: seq<Entrada>, marked: set<Id>): (r: seq<Entrada>)
    ensures |r| <= |es|
    ensures forall e :: e in r <==> e in es && e.id !in marked
  {
    if es == [] then []
    else
      var rest := NewEntries(es[..|es| - 1], marked);
      var e := es[|es| - 1];
      assert es == es[..|es| - 1] + [e];
      if e.id !in marked then rest + [e] else rest
  }

  /** The new entries keep the request's order. */
  lemma {:induction false} NewEntriesAppend(a: seq<Entrada>, b: seq<Entrada>, marked: set<Id>)
    ensures NewEntries(a + b, marked) == NewEntries(a, marked) + NewEntries(b, marked)
    decreases |b|
  {
    if b == [] {
      assert a + b == a;
    } else {
      var pre := b[..|b| - 1];
      var x := b[|b| - 1];
      assert (a + b)[..|a + b| - 1] == a + pre && (a + b)[|a + b| - 1] == x;
      NewEntriesAppend(a, pre, marked);
      var fa, fp := NewEntries(a, marked), NewEntries(pre, marked);
      if x.id !in marked {
        assert fa + fp + [x] == fa + (fp + [x]);
      }
    }
  }

  /** A single entry is kept exactly when its student is unmarked. */
  lemma NewEntriesOne(d: Entrada, marked: set<Id>)
    ensures NewEntries([d], marked) == if d.id !in marked then [d] else []
  {
    assert [d][..0] == [];
  }


  ghost predicate DistinctIds(es: seq<Entrada>)
  {
    forall i, j :: 0 <= i < j < |es| ==> es[i].id != es[j].id
  }

  /** Keeping some entries of a list of distinct students keeps them distinct. */
  lemma {:induction false} NewEntriesDistinct(es: seq<Entrada>, marked: set<Id>)
    requires DistinctIds(es)
    ensures DistinctIds(NewEntries(es, marked))
  {
    if es != [] {
      var pre := es[..|es| - 1];
      var e := es[|es| - 1];
      var rest := NewEntries(pre, marked);
      NewEntriesDistinct(pre, marked);
      if e.id !in marked {
        var r := rest + [e];
        forall i, j | 0 <= i < j < |r| ensures r[i].id != r[j].id {
          if j == |rest| {
            assert r[i] in pre;
            var k :| 0 <= k < |pre| && pre[k] == r[i];
            assert es[k] == r[i];
          }
        }
      }
    }
  }

  /** How many entries carry state `st`. */
  function CountEstado(es: seq<Entrada>, st: EstadoAsistencia): (n: nat)
    ensures n <= |es|
  {
    if es == [] then 0
    else CountEstado(es[..|es| - 1], st) + (if es[|es| - 1].estado == st then 1 else 0)
  }

  /** The three state counts of a batch add up to its size. */
  lemma {:induction false} CountsPartition(es: seq<Entrada>)
    ensures CountEstado(es, Presente) + CountEstado(es, Ausente) + CountEstado(es, Justificado) == |es|
  {
    if es != [] {
      CountsPartition(es[..|es| - 1]);
    }
  }

  /** The students of the entries marked absent, in request order (`inasistentes`). */
  function AbsentIds(es: seq<Entrada>): (r: seq<Id>)
    ensures |r| == CountEstado(es, Ausente)
    ensures forall s :: s in r <==> Entrada(s, Ausente) in es
  {
    if es == [] then []
    else
      var e := es[|es| - 1];
      assert es == es[..|es| - 1] + [e];
      if e.estado == Ausente then AbsentIds(es[..|es| - 1]) + [e.id] else AbsentIds(es[..|es| - 1])
  }

  /** The addresses an absence notice goes to: the users among `ids`, in
      collection order, that have an email. */
  function Recipients(us: seq<Doc<Usuario>>, ids: seq<Id>): (r: seq<string>)
    ensures forall i :: 0 <= i < |us| && us[i].id in ids && us[i].val.email != "" ==> us[i].val.email in r
    ensures forall m :: m in r ==> m != "" && exists i :: 0 <= i < |us| && us[i].id in ids && us[i].val.email == m
  {
    if us == [] then []
    else
      var u := us[|us| - 1];
      var rest := Recipients(us[..|us| - 1], ids);
      assert forall i :: 0 <= i < |us| - 1 ==> us[..|us| - 1][i] == us[i];
      if u.id in ids && u.val.email != "" then rest + [u.val.email] else rest
  }

  function RowFor(c: Id, f: string, e: Entrada): Asistencia
  {
    Asistencia(c, e.id, f, e.estado)
  }

  /** The table after the batch of insert-only upserts of `registrarAsistenciaCurso`,
      applied in order: an entry adds its row unless a row for its
      (course, student, date) is already there, and never changes one. */
  function InsertOnly(table: seq<Asistencia>, c: Id, f: string, es: seq<Entrada>): (r: seq<Asistencia>)
    ensures |table| <= |r| <= |table| + |es|
    ensures r[..|table|] == table
  {
    if es == [] then table
    else
      var t := InsertOnly(table, c, f, es[..|es| - 1]);
      var e := es[|es| - 1];
      if HasRow(t, c, e.id, f) then t else t + [RowFor(c, f, e)]
  }

  /** Registration never changes an existing row: the old table is a prefix of
      the new one, every added row is for that course and date, carries the
      state some entry asked for and is for a student that had no row; and the
      table stays keyed. */
  lemma {:induction false} InsertOnlyLaws(table: seq<Asistencia>, c: Id, f: string, es: seq<Entrada>)
    ensures |table| <= |InsertOnly(table, c, f, es)| <= |table| + |es|
    ensures InsertOnly(table, c, f, es)[..|table|] == table
    ensures forall k :: |table| <= k < |InsertOnly(table, c, f, es)| ==>
      var x := InsertOnly(table, c, f, es)[k];
      x.cursoId == c && x.fecha == f && Entrada(x.estudianteId, x.estado) in es && !HasRow(table, c, x.estudianteId, f)
    ensures Keyed(table) ==> Keyed(InsertOnly(table, c, f, es))
  {
    if es != [] {
      var pre := es[..|es| - 1];
      var e := es[|es| - 1];
      InsertOnlyLaws(table, c, f, pre);
      var t := InsertOnly(table, c, f, pre);
      assert es == pre + [e];
      if !HasRow(t, c, e.id, f) {
        var r := t + [RowFor(c, f, e)];
        assert r[..|table|] == t[..|table|];
      }
    }
  }

  /** The part of `InsertOnlyLaws` a handler needs: the old rows are kept
      and the table stays keyed. */
  lemma InsertOnlyKeepsKeyed(table: seq<Asistencia>, c: Id, f: string, es: seq<Entrada>)
    requires Keyed(table)
    ensures |table| <= |InsertOnly(table, c, f, es)|
    ensures InsertOnly(table, c, f, es)[..|table|] == table
    ensures Keyed(InsertOnly(table, c, f, es))
  {
    InsertOnlyLaws(table, c, f, es);
  }

  /** The rows a batch of entries for distinct students adds when none of them has one. */
  function RowsFor(c: Id, f: string, es: seq<Entrada>): (r: seq<Asistencia>)
    ensures |r| == |es|
    ensures forall i :: 0 <= i < |es| ==> r[i] == RowFor(c, f, es[i])
  {
    seq(|es|, i requires 0 <= i < |es| => RowFor(c, f, es[i]))
  }

  /** When the entries are for distinct students without a row, each adds
      exactly its own row, in order. */
  lemma {:induction false} InsertOnlyFresh(table: seq<Asistencia>, c: Id, f: string, es: seq<Entrada>)
    requires DistinctIds(es)
    requires forall i :: 0 <= i < |es| ==> !HasRow(table, c, es[i].id, f)
    ensures InsertOnly(table, c, f, es) == table + RowsFor(c, f, es)
  {
    if es != [] {
      var pre := es[..|es| - 1];
      var e := es[|es| - 1];
      InsertOnlyFresh(table, c, f, pre);
      var t := table + RowsFor(c, f, pre);
      assert RowsFor(c, f, es) == RowsFor(c, f, pre) + [RowFor(c, f, e)];
    }
  }

  /** The first row for (course, student, date): the one `updateOne` addresses. */
  function IndexOfRow(table: seq<Asistencia>, c: Id, s: Id, f: string): (r: Option<nat>)
    ensures r.None? <==> !HasRow(table, c, s, f)
    ensures r.Some? ==> r.value < |table| && table[r.value].cursoId == c && table[r.value].estudianteId == s && table[r.value].fecha == f
  {
    if table == [] then None
    else if table[0].cursoId == c && table[0].estudianteId == s && table[0].fecha == f then Some(0)
    else
      match IndexOfRow(table[1..], c, s, f)
      case None =>
        assert forall i :: 1 <= i < |table| ==> table[i] == table[1..][i - 1];
        None
      case Some(k) => Some(k + 1)
  }

  /** The table after a batch of `$set` updates without upsert, and the number of
      rows whose state actually changed (`modifiedCount`). */
  datatype Updated = Updated(rows: seq<Asistencia>, modified: nat)

  function UpdateOnly(table: seq<Asistencia>, c: Id, f: string, es: seq<Entrada>): (r: Updated)
    ensures |r.rows| == |table|
  {
    if es == [] then Updated(table, 0)
    else
      var u := UpdateOnly(table, c, f, es[..|es| - 1]);
      var e := es[|es| - 1];
      match IndexOfRow(u.rows, c, e.id, f)
      case None => u
      case Some(k) =>
        if u.rows[k].estado == e.estado then u
        else Updated(u.rows[k := u.rows[k].(estado := e.estado)], u.modified + 1)
  }

  /** Correction never adds or removes a row and never changes a key; a row
      changes only if it is for that course and date and then takes a state an
      entry for its student asked for; the change count is at most the batch
      size and zero only when nothing changed. */
  lemma {:induction false} UpdateOnlyLaws(table: seq<Asistencia>, c: Id, f: string, es: seq<Entrada>)
    ensures |UpdateOnly(table, c, f, es).rows| == |table|
    ensures forall k :: 0 <= k < |table| ==>
      var x := UpdateOnly(table, c, f, es).rows[k];
      x == table[k].(estado := x.estado)
      && (x == table[k] || (table[k].cursoId == c && table[k].fecha == f && Entrada(table[k].estudianteId, x.estado) in es))
    ensures UpdateOnly(table, c, f, es).modified <= |es|
    ensures UpdateOnly(table, c, f, es).modified == 0 ==> UpdateOnly(table, c, f, es).rows == table
  {
    if es != [] {
      var pre := es[..|es| - 1];
      var e := es[|es| - 1];
      UpdateOnlyLaws(table, c, f, pre);
      assert es == pre + [e];
    }
  }

  /** How many places hold different rows in two tables of one size. */
  function Changed(a: seq<Asistencia>, b: seq<Asistencia>): (n: nat)
    requires |a| == |b|
    ensures n <= |a|
    ensures n == 0 <==> a == b
  {
    if a == [] then 0
    else
      var m := |a| - 1;
      assert a == a[..m] + [a[m]] && b == b[..m] + [b[m]];
      Changed(a[..m], b[..m]) + (if a[m] != b[m] then 1 else 0)
  }

  /** Changing one place that still held its original row adds one change. */
  lemma {:induction false} ChangedOneMore(a: seq<Asistencia>, b: seq<Asistencia>, k: nat, x: Asistencia)
    requires |a| == |b| && k < |a| && a[k] == b[k] && x != b[k]
    ensures Changed(a, b[k := x]) == Changed(a, b) + 1
  {
    var m := |a| - 1;
    var b' := b[k := x];
    var d := if a[m] != b[m] then 1 else 0;
    assert Changed(a, b) == Changed(a[..m], b[..m]) + d;
    if k < m {
      assert b'[..m] == b[..m][k := x] && b'[m] == b[m];
      ChangedOneMore(a[..m], b[..m], k, x);
      assert Changed(a, b') == Changed(a[..m], b'[..m]) + d;
    } else {
      assert b'[..m] == b[..m] && b'[m] == x && d == 0;
      assert Changed(a, b') == Changed(a[..m], b[..m]) + 1;
    }
  }

  /** A row whose student no entry names keeps its original contents. */
  lemma UntouchedRow(table: seq<Asistencia>, c: Id, f: string, es: seq<Entrada>, k: nat)
    requires k < |table| && forall j :: 0 <= j < |es| ==> es[j].id != table[k].estudianteId
    ensures |UpdateOnly(table, c, f, es).rows| == |table|
    ensures UpdateOnly(table, c, f, es).rows[k] == table[k]
  {
    UpdateOnlyLaws(table, c, f, es);
  }

  /** Correction keeps every row's key. */
  lemma KeyKept(table: seq<Asistencia>, c: Id, f: string, es: seq<Entrada>, k: nat)
    requires k < |table|
    ensures |UpdateOnly(table, c, f, es).rows| == |table|
    ensures UpdateOnly(table, c, f, es).rows[k] == table[k].(estado := UpdateOnly(table, c, f, es).rows[k].estado)
  {
    UpdateOnlyLaws(table, c, f, es);
  }

  /** The row the last of a batch of distinct entries addresses had not been
      touched by the entries before it. */
  lemma LastTargetUntouched(table: seq<Asistencia>, c: Id, f: string, es: seq<Entrada>, k: nat)
    requires DistinctIds(es) && es != []
    requires k < |UpdateOnly(table, c, f, es[..|es| - 1]).rows|
    requires UpdateOnly(table, c, f, es[..|es| - 1]).rows[k].estudianteId == es[|es| - 1].id
    ensures k < |table| && UpdateOnly(table, c, f, es[..|es| - 1]).rows[k] == table[k]
  {
    var pre := es[..|es| - 1];
    KeyKept(table, c, f, pre, k);
    forall j | 0 <= j < |pre| ensures pre[j].id != table[k].estudianteId {
      assert pre[j] == es[j];
    }
    UntouchedRow(table, c, f, pre, k);
  }

  /** For entries of distinct students on a keyed table, correction does what
      is asked: every row of the course and date whose student is listed ends
      with the state the entry asks for. */
  lemma {:induction false} UpdateOnlyApplies(table: seq<Asistencia>, c: Id, f: string, es: seq<Entrada>)
    requires Keyed(table) && DistinctIds(es)
    ensures var u := UpdateOnly(table, c, f, es);
      forall k, i ::
        0 <= k < |table| && 0 <= i < |es| && table[k].cursoId == c && table[k].fecha == f && table[k].estudianteId == es[i].id
        ==> u.rows[k].estado == es[i].estado
  {
    if es != [] {
      var n := |es| - 1;
      var pre := es[..n];
      var e := es[n];
      assert forall i :: 0 <= i < n ==> pre[i] == es[i];
      UpdateOnlyApplies(table, c, f, pre);
      UpdateOnlyLaws(table, c, f, pre);
      var t := UpdateOnly(table, c, f, pre).rows;
      match IndexOfRow(t, c, e.id, f)
      case None =>
      case Some(k0) =>
        LastTargetUntouched(table, c, f, es, k0);
    }
  }

  /** For entries of distinct students, `modifiedCount` is exactly the number
      of rows that changed. */
  lemma {:induction false} UpdateOnlyCounts(table: seq<Asistencia>, c: Id, f: string, es: seq<Entrada>)
    requires DistinctIds(es)
    ensures UpdateOnly(table, c, f, es).modified == Changed(table, UpdateOnly(table, c, f, es).rows)
  {
    if es != [] {
      var n := |es| - 1;
      var pre := es[..n];
      var e := es[n];
      assert DistinctIds(pre) by {
        forall i, j | 0 <= i < j < n ensures pre[i].id != pre[j].id {
          assert pre[i] == es[i] && pre[j] == es[j];
        }
      }
      UpdateOnlyCounts(table, c, f, pre);
      var u := UpdateOnly(table, c, f, pre);
      var t := u.rows;
      match IndexOfRow(t, c, e.id, f)
      case None =>
      case Some(k0) =>
        LastTargetUntouched(table, c, f, es, k0);
        if t[k0].estado != e.estado {
          var x := t[k0].(estado := e.estado);
          assert UpdateOnly(table, c, f, es) == Updated(t[k0 := x], u.modified + 1);
          ChangedOneMore(table, t, k0, x);
        }
    }
  }

  /** Same keys in the same places keep a table keyed. */
  lemma KeyedSameKeys(table: seq<Asistencia>, t: seq<Asistencia>)
    requires Keyed(table) && |t| == |table|
    requires forall k :: 0 <= k < |table| ==> t[k] == table[k].(estado := t[k].estado)
    ensures Keyed(t)
  {
  }

  /** Some entry asks for Justificado for a student whose stored state is Presente. */
  predicate JustifiesPresent(es: seq<Entrada>, rows: seq<Asistencia>)
  {
    exists i :: 0 <= i < |es| && es[i].estado == Justificado && StateOf(rows, es[i].id) == Some(Presente)
  }

  /** Past the guard, a correction cannot turn a Presente row into Justificado. */
  /** What a correction that passed the guards leaves behind: a keyed table
      of the same length in which no present row became justified, and, when
      the entries name distinct students, every addressed row in the
      requested state with `modified` counting the rows that changed. */
  lemma CorrectionLaws(table: seq<Asistencia>, c: Id, f: string, es: seq<Entrada>)
    requires Keyed(table)
    requires !JustifiesPresent(es, RowsOn(table, c, f))
    ensures var u := UpdateOnly(table, c, f, es);
      && |u.rows| == |table| && Keyed(u.rows)
      && (forall k :: 0 <= k < |table| && table[k].estado == Presente ==> u.rows[k].estado != Justificado)
    ensures var u := UpdateOnly(table, c, f, es);
      DistinctIds(es) ==>
        && u.modified == Changed(table, u.rows)
        && (forall k, i ::
              0 <= k < |table| && 0 <= i < |es| && table[k].cursoId == c && table[k].fecha == f
              && table[k].estudianteId == es[i].id
              ==> u.rows[k].estado == es[i].estado)
  {
    var u := UpdateOnly(table, c, f, es);
    UpdateOnlyLaws(table, c, f, es);
    KeyedSameKeys(table, u.rows);
    NoJustifiedOverPresent(table, c, f, es);
    if DistinctIds(es) {
      UpdateOnlyApplies(table, c, f, es);
      UpdateOnlyCounts(table, c, f, es);
    }
  }

  lemma NoJustifiedOverPresent(table: seq<Asistencia>, c: Id, f: string, es: seq<Entrada>)
    requires Keyed(table)
    requires !JustifiesPresent(es, RowsOn(table, c, f))
    ensures |UpdateOnly(table, c, f, es).rows| == |table|
    ensures forall k :: 0 <= k < |table| && table[k].estado == Presente ==>
      UpdateOnly(table, c, f, es).rows[k].estado != Justificado
  {
    UpdateOnlyLaws(table, c, f, es);
    var t := UpdateOnly(table, c, f, es).rows;
    forall k | 0 <= k < |table| && table[k].estado == Presente
      ensures t[k].estado != Justificado
    {
      if t[k].estado == Justificado {
        assert table[k].cursoId == c && table[k].fecha == f;
        var s := table[k].estudianteId;
        assert Entrada(s, Justificado) in es;
        StateOfKeyed(table, c, f, k);
      }
    }
  }

  /** The (student, state) pairs of stored rows, so that rows are counted by
      state the same way as entries. */
  function AsEntradas(rows: seq<Asistencia>): (r: seq<Entrada>)
    ensures |r| == |rows|
    ensures forall i :: 0 <= i < |rows| ==> r[i] == Entrada(rows[i].estudianteId, rows[i].estado)
  {
    seq(|rows|, i requires 0 <= i < |rows| => Entrada(rows[i].estudianteId, rows[i].estado))
  }

  /** The users whose `curso_id` is the course (any role). */
  function MembersOf(us: seq<Doc<Usuario>>, c: Id): (r: seq<Doc<Usuario>>)
    ensures |r| <= |us|
    ensures forall d :: d in r <==> d in us && d.val.cursoId == Some(c)
  {
    if us == [] then []
    else
      var rest := MembersOf(us[..|us| - 1], c);
      var d := us[|us| - 1];
      assert us == us[..|us| - 1] + [d];
      if d.val.cursoId == Some(c) then rest + [d] else rest
  }

  /** The members keep the collection's order. */
  lemma {:induction false} MembersOfAppend(a: seq<Doc<Usuario>>, b: seq<Doc<Usuario>>, c: Id)
    ensures MembersOf(a + b, c) == MembersOf(a, c) + MembersOf(b, c)
    decreases |b|
  {
    if b == [] {
      assert a + b == a;
    } else {
      var pre := b[..|b| - 1];
      var x := b[|b| - 1];
      assert (a + b)[..|a + b| - 1] == a + pre && (a + b)[|a + b| - 1] == x;
      MembersOfAppend(a, pre, c);
      var fa, fp := MembersOf(a, c), MembersOf(pre, c);
      if x.val.cursoId == Some(c) {
        assert fa + fp + [x] == fa + (fp + [x]);
      }
    }
  }

  /** A single user is kept exactly when it is of the course. */
  lemma MembersOfOne(d: Doc<Usuario>, c: Id)
    ensures MembersOf([d], c) == if d.val.cursoId == Some(c) then [d] else []
  {
    assert [d][..0] == [];
  }


  /** One line of the read view: a course member and the state stored for them, or none. */
  datatype Fila = Fila(id: Id, nombres: string, apellidos: string, estado: Option<EstadoAsistencia>)

  function Merge(members: seq<Doc<Usuario>>, rows: seq<Asistencia>): (r: seq<Fila>)
    ensures |r| == |members|
    ensures forall i :: 0 <= i < |members| ==>
      r[i].id == members[i].id && r[i].nombres == members[i].val.nombres && r[i].apellidos == members[i].val.apellidos
      && (r[i].estado.None? <==> members[i].id !in Marked(rows))
      && (r[i].estado.Some? ==> exists x :: x in rows && x.estudianteId == members[i].id && x.estado == r[i].estado.value)
      && r[i].estado == StateOf(rows, members[i].id)
  {
    seq(|members|, i requires 0 <= i < |members| =>
      Fila(members[i].id, members[i].val.nombres, members[i].val.apellidos, StateOf(rows, members[i].id)))
  }

  /** The answer of `obtenerAsistenciaCurso`. */
  datatype Vista = Vista(
    cursoId: Id,
    curso: string,
    nivel: string,
    paralelo: string,
    fecha: string,
    totalEstudiantes: nat,
    totalPresentes: nat,
    totalAusentes: nat,
    estudiantes: seq<Fila>)

  /** The read view of a course's attendance on a date. A missing course is not
      an error: placeholders stand in for its name, level and section. */
  function ObtenerAsistencia(us: seq<Doc<Usuario>>, cs: seq<Doc<Curso>>, table: seq<Asistencia>,
                             cursoId: IdArg, fecha: string): (r: Response<Vista>)
    ensures cursoId.NoId? || fecha == "" ==> r == Err(BadRequest)
    ensures cursoId.BadId? && fecha != "" ==> r == Err(InternalError)
    ensures cursoId.AnId? && fecha != "" ==> r.Ok?
    ensures r.Ok? ==>
      var c := cursoId.id;
      var f := Trim(fecha);
      var rows := RowsOn(table, c, f);
      var v := r.body;
      var members := MembersOf(us, c);
      && v.cursoId == c && v.fecha == f
      && v.totalEstudiantes == |members| == |v.estudiantes|
      && v.totalPresentes == CountEstado(AsEntradas(rows), Presente)
      && v.totalAusentes == CountEstado(AsEntradas(rows), Ausente)
      && (forall i :: 0 <= i < |v.estudiantes| ==>
            && v.estudiantes[i].id == members[i].id
            && v.estudiantes[i].nombres == members[i].val.nombres
            && v.estudiantes[i].apellidos == members[i].val.apellidos
            && v.estudiantes[i].estado == StateOf(rows, members[i].id)
            && (v.estudiantes[i].estado.None? <==> !HasRow(table, c, v.estudiantes[i].id, f)))
      && (Find(cs, c).Some? ==>
            v.curso == Find(cs, c).value.nombre && v.nivel == Find(cs, c).value.nivel && v.paralelo == Find(cs, c).value.paralelo)
      && (Find(cs, c).None? ==> v.curso == "Curso desconocido" && v.nivel == "" && v.paralelo == "")
  {
    if cursoId.NoId? || fecha == "" then Err(BadRequest)
    else if cursoId.BadId? then Err(InternalError)
    else
      var c := cursoId.id;
      var f := Trim(fecha);
      var rows := RowsOn(table, c, f);
      var members := MembersOf(us, c);
      var filas := Merge(members, rows);
      forall i | 0 <= i < |filas| ensures filas[i].estado.None? <==> !HasRow(table, c, filas[i].id, f) {
        MarkedIffHasRow(table, c, f, filas[i].id);
      }
      var curso := Find(cs, c);
      Ok(Vista(c,
        if curso.Some? then curso.value.nombre else "Curso desconocido",
        if curso.Some? then curso.value.nivel else "",
        if curso.Some? then curso.value.paralelo else "",
        f, |members|, CountEstado(AsEntradas(rows), Presente), CountEstado(AsEntradas(rows), Ausente), filas))
  }

  /** On a keyed table the read view shows, for a course member, the state
      stored in that member's row for the course and date. */
  lemma ReadShowsStored(us: seq<Doc<Usuario>>, cs: seq<Doc<Curso>>, table: seq<Asistencia>,
                        c: Id, fecha: string, i: nat, k: nat)
    requires Keyed(table) && fecha != ""
    requires i < |MembersOf(us, c)| && k < |table|
    requires table[k].cursoId == c && table[k].fecha == Trim(fecha) && table[k].estudianteId == MembersOf(us, c)[i].id
    ensures ObtenerAsistencia(us, cs, table, AnId(c), fecha).Ok?
    ensures ObtenerAsistencia(us, cs, table, AnId(c), fecha).body.estudiantes[i].estado == Some(table[k].estado)
  {
    StateOfKeyed(table, c, Trim(fecha), k);
  }

  /** Reading after a correction of distinct students shows, for every member
      who already had a row, the state the correction asked for. */
  lemma {:induction false} ReadAfterCorrection(us: seq<Doc<Usuario>>, cs: seq<Doc<Curso>>, table: seq<Asistencia>,
                                               c: Id, fecha: string, es: seq<Entrada>, i: nat, j: nat)
    requires Keyed(table) && DistinctIds(es) && fecha != ""
    requires i < |MembersOf(us, c)| && j < |es| && es[j].id == MembersOf(us, c)[i].id
    requires HasRow(table, c, es[j].id, Trim(fecha))
    ensures var t := UpdateOnly(table, c, Trim(fecha), es).rows;
      && ObtenerAsistencia(us, cs, t, AnId(c), fecha).Ok?
      && ObtenerAsistencia(us, cs, t, AnId(c), fecha).body.estudiantes[i].estado == Some(es[j].estado)
  {
    var f := Trim(fecha);
    var k :| 0 <= k < |table| && table[k].cursoId == c && table[k].estudianteId == es[j].id && table[k].fecha == f;
    UpdateOnlyLaws(table, c, f, es);
    UpdateOnlyApplies(table, c, f, es);
    var t := UpdateOnly(table, c, f, es).rows;
    KeyedSameKeys(table, t);
    ReadShowsStored(us, cs, t, c, fecha, i, k);
  }

  /** Reading after a registration of distinct students shows, for every
      member who had no row, the state the registration asked for. */
  lemma {:induction false} ReadAfterRegistration(us: seq<Doc<Usuario>>, cs: seq<Doc<Curso>>, table: seq<Asistencia>,
                                                 c: Id, fecha: string, es: seq<Entrada>, i: nat, j: nat)
    requires Keyed(table) && DistinctIds(es) && fecha != ""
    requires i < |MembersOf(us, c)| && j < |es| && es[j].id == MembersOf(us, c)[i].id
    requires !HasRow(table, c, es[j].id, Trim(fecha))
    ensures var t := InsertOnly(table, c, Trim(fecha), NewEntries(es, Marked(RowsOn(table, c, Trim(fecha)))));
      && ObtenerAsistencia(us, cs, t, AnId(c), fecha).Ok?
      && ObtenerAsistencia(us, cs, t, AnId(c), fecha).body.estudiantes[i].estado == Some(es[j].estado)
  {
    var f := Trim(fecha);
    var marked := Marked(RowsOn(table, c, f));
    var nuevos := NewEntries(es, marked);
    NewEntriesDistinct(es, marked);
    forall p | 0 <= p < |nuevos| ensures !HasRow(table, c, nuevos[p].id, f) {
      assert nuevos[p] in nuevos;
      MarkedIffHasRow(table, c, f, nuevos[p].id);
    }
    InsertOnlyFresh(table, c, f, nuevos);
    InsertOnlyLaws(table, c, f, nuevos);
    MarkedIffHasRow(table, c, f, es[j].id);
    assert es[j] in nuevos;
    var p :| 0 <= p < |nuevos| && nuevos[p] == es[j];
    var t := InsertOnly(table, c, f, nuevos);
    assert t[|table| + p] == RowFor(c, f, es[j]);
    ReadShowsStored(us, cs, t, c, fecha, i, |table| + p);
  }

  /** The answer of a successful `registrarAsistenciaCurso`. */
  datatype Registro = Registro(
    fecha: string,
    totalInsertados: nat,
    totalPresentes: nat,
    totalAusentes: nat,
    totalJustificados: nat,
    insertados: nat,
    modificados: nat,
    registrosOmitidos: nat,
    notificados: seq<string>)

  /** The answer of a successful `actualizarAsistenciaCurso`. */
  datatype Correccion = Correccion(fecha: string, totalActualizados: nat, totalEstudiantesAfectados: nat)
}
