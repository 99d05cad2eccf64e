/** JSON values, their object fields in order; `N` is how property names are told apart. */
module JsonTree {
  datatype Json<N> = Null | Bool(b: bool) | Num(n: real) | Str(text: string) | Arr(items: seq<Json<N>>) | Obj(fields: Fields<N>)

  /** The fields of an object in order, as `Object.entries` lists them. */
  datatype Fields<N> = End | More(name: N, value: Json<N>, rest: Fields<N>)

  function CopyJsonValue<N>(v: Json<N>): Json<N> {
    match v
    case Arr(items) => Arr(CopyItems(items))
    case Obj(fields) => Obj(CopyFields(fields))
    case _ => v
  }

  function CopyItems<N>(items: seq<Json<N>>): seq<Json<N>> {
    if items == [] then [] else [CopyJsonValue(items[0])] + CopyItems(items[1..])
  }

  function CopyFields<N>(fields: Fields<N>): Fields<N> {
    match fields
    case End => End
    case More(name, v, rest) => More(name, CopyJsonValue(v), CopyFields(rest))
  }

  function Append<N>(a: Fields<N>, b: Fields<N>): Fields<N> { if a.End? then b else More(a.name, a.value, Append(a.rest, b)) }

  lemma {:induction false} AppendMoves<N>(a: Fields<N>, name: N, v: Json<N>, b: Fields<N>)
    ensures Append(Append(a, More(name, v, End)), b) == Append(a, More(name, v, b))
  {
    if a.More? { AppendMoves(a.rest, name, v, b); }
  }

  lemma {:induction false} AppendEnd<N>(a: Fields<N>)
    ensures Append(a, End) == a
  {
    if a.More? { AppendEnd(a.rest); }
  }

  /** A structural copy of a JSON value is that value. */
  lemma {:induction false} CopyIsSame<N>(v: Json<N>)
    ensures CopyJsonValue(v) == v
  {
    match v
    case Arr(items) => CopyItemsSame(items);
    case Obj(fields) => CopyFieldsSame(fields);
    case _ =>
  }

  lemma {:induction false} CopyItemsSame<N>(items: seq<Json<N>>)
    ensures CopyItems(items) == items
  {
    if items != [] {
      CopyIsSame(items[0]);
      CopyItemsSame(items[1..]);
    }
  }

  lemma {:induction false} CopyFieldsSame<N>(fields: Fields<N>)
    ensures CopyFields(fields) == fields
  {
    match fields
    case End =>
    case More(_, v, rest) =>
      CopyIsSame(v);
      CopyFieldsSame(rest);
  }
}
