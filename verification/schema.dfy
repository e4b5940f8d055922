/** The records kept in the "community" database and the database itself. */
module Schema {

  /** A field value of a profile document: Python's None, an int, a str, or a
      `datetime`, which is an opaque instant here. */
  datatype Value = Null | Int(i: int) | Str(s: string) | Instant(t: nat)

  /** A profile document. Its fields change type over its life (the level starts as an
      int and is later written as a string), so it is kept as a field map. */
  type Doc = map<string, Value>

  /** `d.get(k)` */
  function Get(d: Doc, k: string): Value {
    if k in d then d[k] else Null
  }

  /** Python truthiness of a field value. */
  predicate Truthy(v: Value) {
    match v
    case Null => false
    case Int(i) => i != 0
    case Str(s) => s != ""
    case Instant(_) => true
  }

  /** A catalog colour: display name, colour specification and the creator's id. */
  datatype ColorDoc = ColorDoc(name: string, value: string, author: int)

  /** A server rule: lookup key, title, author, description, tags and the time it was saved. */
  datatype RuleDoc = RuleDoc(name: string, title: string, author: string, description: string, tags: seq<string>, timestamp: nat)

  /** The "community" database: its three collections. Whether the server answers a call
      is not part of the state; each call is given its own answer. */
  datatype Db = Db(profiles: seq<Doc>, colors: seq<ColorDoc>, rules: seq<RuleDoc>)

  /** `[color["name"] for color in colors]` */
  function ColorNames(colors: seq<ColorDoc>): (r: seq<string>)
    ensures |r| == |colors| && forall i :: 0 <= i < |colors| ==> r[i] == colors[i].name
  {
    seq(|colors|, i requires 0 <= i < |colors| => colors[i].name)
  }

  /** `[rule["name"] for rule in rules]` */
  function RuleNames(rules: seq<RuleDoc>): (r: seq<string>)
    ensures |r| == |rules| && forall i :: 0 <= i < |rules| ==> r[i] == rules[i].name
  {
    seq(|rules|, i requires 0 <= i < |rules| => rules[i].name)
  }
}
