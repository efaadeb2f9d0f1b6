/** A MongoDB collection as an ordered table of rows. The order is the collection's
    natural (insertion) order, which is what `find` and `findOne` walk: `findOne`
    returns the FIRST matching document. Every document carries a server-assigned
    `_id`; a new document gets an id larger than every id already present. */
module Tables {
  import opened Base

  type Id = nat

  datatype Row<T> = Row(id: Id, val: T)

  type Table<T> = seq<Row<T>>

  /** No two documents share an `_id`. */
  predicate UniqueIds<T>(t: Table<T>) {
    forall i, j :: 0 <= i < j < |t| ==> t[i].id != t[j].id
  }

  predicate HasId<T>(t: Table<T>, id: Id) {
    exists i :: 0 <= i < |t| && t[i].id == id
  }

  function MaxId<T>(t: Table<T>): (m: nat)
    ensures forall i :: 0 <= i < |t| ==> t[i].id <= m
  {
    if t == [] then 0
    else
      var m := MaxId(t[1..]);
      if t[0].id > m then t[0].id else m
  }

  /** The id the store assigns to the next inserted document. */
  function FreshId<T>(t: Table<T>): (r: Id)
    ensures !HasId(t, r)
  {
    MaxId(t) + 1
  }

  /** `findOne(filter)`: the position of the first row whose document satisfies `p`. */
  function Find<T>(t: Table<T>, p: T -> bool): (r: Option<nat>)
    ensures r.None? <==> forall i :: 0 <= i < |t| ==> !p(t[i].val)
    ensures r.Some? ==> r.value < |t| && p(t[r.value].val)
    ensures r.Some? ==> forall j :: 0 <= j < r.value ==> !p(t[j].val)
  {
    if t == [] then None
    else if p(t[0].val) then Some(0)
    else match Find(t[1..], p)
      case None => None
      case Some(k) => Some(k + 1)
  }

  /** `findById(id)`: the position of the row with that `_id`. */
  function FindId<T>(t: Table<T>, id: Id): (r: Option<nat>)
    ensures r.None? <==> !HasId(t, id)
    ensures r.Some? ==> r.value < |t| && t[r.value].id == id
    ensures r.Some? && UniqueIds(t) ==> forall j :: 0 <= j < |t| && j != r.value ==> t[j].id != id
  {
    if t == [] then None
    else if t[0].id == id then Some(0)
    else match FindId(t[1..], id)
      case None => None
      case Some(k) => Some(k + 1)
  }

  /** `Model.create(v)`: appends one document under a fresh id; existing rows are kept. */
  function Insert<T>(t: Table<T>, v: T): (r: Table<T>)
    ensures |r| == |t| + 1 && r[..|t|] == t
    ensures r[|t|].val == v && !HasId(t, r[|t|].id)
    ensures UniqueIds(t) ==> UniqueIds(r)
  {
    t + [Row(FreshId(t), v)]
  }

  /** `doc.save()` after changing fields: row `i` gets a new document, same id. */
  function Replace<T>(t: Table<T>, i: nat, v: T): (r: Table<T>)
    requires i < |t|
    ensures |r| == |t| && r[i] == Row(t[i].id, v)
    ensures forall j :: 0 <= j < |t| && j != i ==> r[j] == t[j]
    ensures UniqueIds(t) ==> UniqueIds(r)
  {
    t[i := Row(t[i].id, v)]
  }

  /** `deleteOne({_id})`: drops row `i`, keeping the others in order. */
  function RemoveAt<T>(t: Table<T>, i: nat): (r: Table<T>)
    requires i < |t|
    ensures |r| == |t| - 1
    ensures forall j :: 0 <= j < i ==> r[j] == t[j]
    ensures forall j :: i <= j < |r| ==> r[j] == t[j + 1]
    ensures UniqueIds(t) ==> UniqueIds(r)
  {
    t[..i] + t[i + 1..]
  }

  /** `find(filter)`: the matching rows, in natural order. */
  function Where<T>(t: Table<T>, p: T -> bool): (r: Table<T>)
    ensures |r| <= |t|
    ensures forall i :: 0 <= i < |r| ==> r[i] in t && p(r[i].val)
    ensures forall i :: 0 <= i < |t| && p(t[i].val) ==> t[i] in r
  {
    if t == [] then []
    else if p(t[0].val) then [t[0]] + Where(t[1..], p)
    else Where(t[1..], p)
  }

  /** `find(filter)` keeps the natural order: concatenation distributes over it. */
  lemma {:induction false} WhereAppend<T>(a: Table<T>, b: Table<T>, p: T -> bool)
    ensures Where(a + b, p) == Where(a, p) + Where(b, p)
  {
    if a == [] {
      assert a + b == b;
    } else {
      assert (a + b)[1..] == a[1..] + b;
      WhereAppend(a[1..], b, p);
    }
  }

  /** `find(filter).length`, i.e. `countDocuments(filter)`. */
  function Count<T>(t: Table<T>, p: T -> bool): nat {
    |Where(t, p)|
  }
}
