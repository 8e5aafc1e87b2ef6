/** Activities (src/controllers/actividades.controller.js): one activity is
    fanned out to every open quarter of a subject with a given number, and
    grading sets the mark and the grading time of one activity. */
module Activities {
  import opened Common
  import opened Entities

  /** The `nota` of a request body: absent, null, text or a value that
      Number() turns into NaN, or a number. */
  datatype NotaArg = NoNota | NullNota | NaNota | Nota(v: real)

  /** The quarter is of subject `m`, numbered `n` and still open. */
  predicate OpenFor(t: Trimestre, m: Id, n: int)
  {
    t.materiaId == m && t.numero == n && t.estado == Abierto
  }

  /** The quarters the creation addresses, in collection order. */
  function OpenQuarters(ts: seq<Doc<Trimestre>>, m: Id, n: int): (r: seq<Doc<Trimestre>>)
    ensures |r| <= |ts|
    ensures forall d :: d in r <==> d in ts && OpenFor(d.val, m, n)
  {
    if ts == [] then []
    else
      var rest := OpenQuarters(ts[..|ts| - 1], m, n);
      var d := ts[|ts| - 1];
      assert ts == ts[..|ts| - 1] + [d];
      if OpenFor(d.val, m, n) then rest + [d] else rest
  }

  /** The addressed quarters keep the collection's order: the filter
      distributes over concatenation. */
  lemma {:induction false} OpenQuartersAppend(a: seq<Doc<Trimestre>>, b: seq<Doc<Trimestre>>, m: Id, n: int)
    ensures OpenQuarters(a + b, m, n) == OpenQuarters(a, m, n) + OpenQuarters(b, m, n)
    decreases |b|
  {
    if b == [] {
      assert a + b == a;
    } else {
      var pre := b[..|b| - 1];
      var x := b[|b| - 1];
      assert (a + b)[..|a + b| - 1] == a + pre && (a + b)[|a + b| - 1] == x;
      OpenQuartersAppend(a, pre, m, n);
      var fa, fp := OpenQuarters(a, m, n), OpenQuarters(pre, m, n);
      if OpenFor(x.val, m, n) {
        assert fa + fp + [x] == fa + (fp + [x]);
      }
    }
  }

  /** A single quarter is kept exactly when it is addressed. */
  lemma OpenQuartersOne(d: Doc<Trimestre>, m: Id, n: int)
    ensures OpenQuarters([d], m, n) == if OpenFor(d.val, m, n) then [d] else []
  {
    assert [d][..0] == [];
  }

  /** One new activity per addressed quarter, carrying the quarter's id and
      the request's fields, registered at `now` and not yet graded. */
  function FanOut(qs: seq<Doc<Trimestre>>, parametro: string, nombre: string, descripcion: string,
                  nota: Option<real>, now: Instant): (r: seq<Actividad>)
    ensures |r| == |qs|
    ensures forall i :: 0 <= i < |qs| ==>
      r[i].trimestreId == qs[i].id && r[i].parametro == parametro && r[i].nombre == nombre
      && r[i].descripcion == descripcion && r[i].nota == nota
      && r[i].fechaRegistro == now && r[i].fechaCalificado.None?
  {
    if qs == [] then []
    else FanOut(qs[..|qs| - 1], parametro, nombre, descripcion, nota, now)
         + [Actividad(parametro, qs[|qs| - 1].id, nombre, descripcion, nota, now, None)]
  }

  /** How many activities hang on quarter `tid`. */
  function CountFor(acts: seq<Actividad>, tid: Id): (k: nat)
    ensures k <= |acts|
    ensures k == 0 <==> forall i :: 0 <= i < |acts| ==> acts[i].trimestreId != tid
  {
    if acts == [] then 0
    else CountFor(acts[..|acts| - 1], tid) + (if acts[|acts| - 1].trimestreId == tid then 1 else 0)
  }

  lemma CountForSnoc(acts: seq<Actividad>, y: Actividad, tid: Id)
    ensures CountFor(acts + [y], tid) == CountFor(acts, tid) + (if y.trimestreId == tid then 1 else 0)
  {
    assert (acts + [y])[..|acts|] == acts;
  }

  /** One more stored quarter adds one activity at the end exactly when it is addressed. */
  lemma FanOutSnoc(ts: seq<Doc<Trimestre>>, m: Id, n: int,
      parametro: string, nombre: string, descripcion: string, nota: Option<real>, now: Instant)
    requires ts != []
    ensures var x := ts[|ts| - 1];
      var a := FanOut(OpenQuarters(ts[..|ts| - 1], m, n), parametro, nombre, descripcion, nota, now);
      var b := FanOut(OpenQuarters(ts, m, n), parametro, nombre, descripcion, nota, now);
      && (OpenFor(x.val, m, n) ==> b == a + [Actividad(parametro, x.id, nombre, descripcion, nota, now, None)])
      && (!OpenFor(x.val, m, n) ==> b == a)
  {
    var x := ts[|ts| - 1];
    var q := OpenQuarters(ts[..|ts| - 1], m, n);
    if OpenFor(x.val, m, n) {
      assert (q + [x])[..|q|] == q;
    }
  }

  /** A quarter id none of the stored quarters has gets no activity. */
  lemma {:induction false} NotAddressed(ts: seq<Doc<Trimestre>>, tid: Id, m: Id, n: int,
      parametro: string, nombre: string, descripcion: string, nota: Option<real>, now: Instant)
    requires forall k :: 0 <= k < |ts| ==> ts[k].id != tid
    ensures CountFor(FanOut(OpenQuarters(ts, m, n), parametro, nombre, descripcion, nota, now), tid) == 0
  {
    var q := OpenQuarters(ts, m, n);
    var a := FanOut(q, parametro, nombre, descripcion, nota, now);
    forall i | 0 <= i < |a| ensures a[i].trimestreId != tid {
      assert q[i] in q;
    }
  }

  /** With distinct quarter ids, the fan-out gives every open quarter of the
      subject with that number exactly one activity and every other quarter
      none. */
  lemma {:induction false} ExactlyOnePerOpenQuarter(ts: seq<Doc<Trimestre>>, m: Id, n: int,
      parametro: string, nombre: string, descripcion: string, nota: Option<real>, now: Instant)
    requires IdsDistinct(ts)
    ensures forall i :: 0 <= i < |ts| ==>
      CountFor(FanOut(OpenQuarters(ts, m, n), parametro, nombre, descripcion, nota, now), ts[i].id)
        == if OpenFor(ts[i].val, m, n) then 1 else 0
  {
    if ts != [] {
      var pre := ts[..|ts| - 1];
      var x := ts[|ts| - 1];
      assert IdsDistinct(pre);
      ExactlyOnePerOpenQuarter(pre, m, n, parametro, nombre, descripcion, nota, now);
      FanOutSnoc(ts, m, n, parametro, nombre, descripcion, nota, now);
      var a := FanOut(OpenQuarters(pre, m, n), parametro, nombre, descripcion, nota, now);
      var y := Actividad(parametro, x.id, nombre, descripcion, nota, now, None);
      var b := FanOut(OpenQuarters(ts, m, n), parametro, nombre, descripcion, nota, now);
      NotAddressed(pre, x.id, m, n, parametro, nombre, descripcion, nota, now);
      forall i | 0 <= i < |ts|
        ensures CountFor(b, ts[i].id) == if OpenFor(ts[i].val, m, n) then 1 else 0
      {
        if OpenFor(x.val, m, n) {
          CountForSnoc(a, y, ts[i].id);
        }
        if i < |pre| {
          assert ts[i] == pre[i] && ts[i].id != x.id;
          assert CountFor(b, ts[i].id) == CountFor(a, pre[i].id);
        } else {
          assert ts[i] == x;
        }
      }
    }
  }

  /** Grading: the mark and the grading time change, nothing else. */
  function Calificada(a: Actividad, nota: real, now: Instant): (r: Actividad)
    ensures r.nota == Some(nota) && r.fechaCalificado == Some(now)
    ensures r.(nota := a.nota, fechaCalificado := a.fechaCalificado) == a
  {
    a.(nota := Some(nota), fechaCalificado := Some(now))
  }

  /** The answer of a successful `crearActividadPorMateria`. */
  datatype Creadas = Creadas(totalTrimestres: nat, actividades: seq<Doc<Actividad>>)
}
