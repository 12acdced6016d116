/** Parsed JSON or YAML documents and navigation in them. */
module Json {
  import opened Wrappers

  datatype Json =
    | Null
    | Bool(b: bool)
    | Number(n: real)
    | Text(s: string)
    | List(items: seq<Json>)
    | Dict(fields: map<string, Json>)

  /** One step into a document. */
  datatype Key = Field(name: string) | Index(i: nat)

  function Child(d: Json, key: Key): Option<Json> {
    match (d, key)
    case (Dict(fields), Field(name)) => if name in fields then Some(fields[name]) else None
    case (List(items), Index(i)) => if i < |items| then Some(items[i]) else None
    case _ => None
  }

  function Nav(d: Json, path: seq<Key>): Option<Json> {
    if path == [] then Some(d)
    else match Child(d, path[0])
         case None => None
         case Some(c) => Nav(c, path[1..])
  }

  lemma ChildIsSmaller(d: Json, key: Key)
    ensures Child(d, key).Some? ==> Child(d, key).value < d
  {
  }
}
