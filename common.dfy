/** Shared vocabulary of the school back end: optional values, HTTP-style
    responses, request identifiers and stored documents with their `_id`. */
module Common {

  type Id = nat

  /** A point in time (milliseconds since the epoch); the clock is an input. */
  type Instant = int

  datatype Option<T> = None | Some(value: T)

  /** The outcome of a handler: a success body or an error status. */
  datatype Response<T> = Ok(body: T) | Err(status: nat)

  const BadRequest: nat := 400
  const Unauthorized: nat := 401
  const NotFound: nat := 404
  const InternalError: nat := 500

  /** An identifier taken from a request: absent or falsy, present but
      rejected by ObjectId.isValid, or a well-formed ObjectId. */
  datatype IdArg = NoId | BadId | AnId(id: Id)

  /** A number field taken from a JSON request body: absent or null, a JSON
      number (integral here), or a JSON string. */
  datatype NumArg = NoNum | Num(n: int) | Txt(s: string)

  /** The values JavaScript treats as false: undefined or null, 0 and "". */
  predicate Falsy(a: NumArg)
  {
    a.NoNum? || a == Num(0) || a == Txt("")
  }

  /** A stored document: the database `_id` and the document's fields. */
  datatype Doc<T> = Doc(id: Id, val: T)

  /** The documents' field values, in collection order. */
  function Vals<T>(docs: seq<Doc<T>>): (r: seq<T>)
    ensures |r| == |docs|
    ensures forall i :: 0 <= i < |docs| ==> r[i] == docs[i].val
  {
    seq(|docs|, i requires 0 <= i < |docs| => docs[i].val)
  }

  lemma ValsAppend<T>(a: seq<Doc<T>>, b: seq<Doc<T>>)
    ensures Vals(a + b) == Vals(a) + Vals(b)
  {
  }

  /** The documents' `_id`s, in collection order. */
  function IdsOf<T>(docs: seq<Doc<T>>): (r: seq<Id>)
    ensures |r| == |docs|
    ensures forall i :: 0 <= i < |docs| ==> r[i] == docs[i].id
  {
    seq(|docs|, i requires 0 <= i < |docs| => docs[i].id)
  }

  /** Every `_id` was handed out before `next`. */
  ghost predicate IdsBelow<T>(docs: seq<Doc<T>>, next: Id)
  {
    forall i :: 0 <= i < |docs| ==> docs[i].id < next
  }

  ghost predicate IdsDistinct<T>(docs: seq<Doc<T>>)
  {
    forall i, j :: 0 <= i < j < |docs| ==> docs[i].id != docs[j].id
  }

  /** The collection's `_id`s are unique and all below the allocator. */
  ghost predicate IdsOk<T>(docs: seq<Doc<T>>, next: Id)
  {
    IdsBelow(docs, next) && IdsDistinct(docs)
  }

  /** Documents inserted in bulk receive consecutive fresh ids from `start`. */
  function Stamp<T>(vals: seq<T>, start: Id): (r: seq<Doc<T>>)
    ensures |r| == |vals|
    ensures forall i :: 0 <= i < |vals| ==> r[i] == Doc(start + i, vals[i])
  {
    seq(|vals|, i requires 0 <= i < |vals| => Doc(start + i, vals[i]))
  }

  /** Inserting stamped documents keeps ids unique and below the advanced allocator. */
  lemma StampKeepsIdsOk<T>(docs: seq<Doc<T>>, vals: seq<T>, next: Id)
    requires IdsOk(docs, next)
    ensures IdsOk(docs + Stamp(vals, next), next + |vals|)
    ensures Vals(docs + Stamp(vals, next)) == Vals(docs) + vals
  {
    var all := docs + Stamp(vals, next);
    forall i, j | 0 <= i < j < |all| ensures all[i].id != all[j].id {
      if j >= |docs| && i < |docs| {
        assert all[i].id < next <= all[j].id;
      }
    }
  }

  /** Raising the allocator keeps every id below it. */
  lemma IdsOkRaise<T>(docs: seq<Doc<T>>, next: Id, next': Id)
    requires IdsOk(docs, next) && next <= next'
    ensures IdsOk(docs, next')
  {
  }

  /** The index of the first document with `_id` `id` (findById). */
  function IndexOf<T>(docs: seq<Doc<T>>, id: Id): (r: Option<nat>)
    ensures r.None? <==> forall i :: 0 <= i < |docs| ==> docs[i].id != id
    ensures r.Some? ==> r.value < |docs| && docs[r.value].id == id
    ensures r.Some? ==> forall i :: 0 <= i < r.value ==> docs[i].id != id
  {
    if docs == [] then None
    else if docs[0].id == id then Some(0)
    else match IndexOf(docs[1..], id)
      case None => None
      case Some(k) => Some(k + 1)
  }

  /** findById: the fields of the document with that `_id`, if any. */
  function Find<T>(docs: seq<Doc<T>>, id: Id): (r: Option<T>)
    ensures r.None? <==> forall i :: 0 <= i < |docs| ==> docs[i].id != id
    ensures r.Some? ==> exists i :: 0 <= i < |docs| && docs[i] == Doc(id, r.value)
  {
    match IndexOf(docs, id)
    case None => None
    case Some(k) => Some(docs[k].val)
  }

  /** With unique ids, the document found is the only one with that id. */
  lemma FindUnique<T>(docs: seq<Doc<T>>, k: nat)
    requires IdsDistinct(docs) && k < |docs|
    ensures Find(docs, docs[k].id) == Some(docs[k].val)
  {
  }
}
