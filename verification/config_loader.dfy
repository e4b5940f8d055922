/** The configuration loader: reads a JSON file into a list of entries with the keys
    token, guild_id and database, remembers whether loading failed, and validates that
    the loaded entries carry given keys. The file system is a map from paths to what
    reading them yields; printed messages are collected in a log. */
module ConfigLoader {
  import opened Wrappers

  /** A JSON value as `json.load` returns it (numbers restricted to integers). */
  datatype Json = JNull | JBool(b: bool) | JNum(n: int) | JStr(s: string) | JArr(items: seq<Json>) | JObj(fields: map<string, Json>)

  /** The outcome of opening and decoding one file. */
  datatype FileContent = Missing | Malformed | Parsed(json: Json)

  type Files = map<string, FileContent>

  function Read(fs: Files, path: string): FileContent {
    if path in fs then fs[path] else Missing
  }

  /** One parsed entry. Every entry carries all three keys. */
  datatype Config = Config(token: Json, guildId: Json, database: Json)

  /** The exceptions `_parse` lets escape from `load`: `.get` on an entry that is not an
      object, and iteration over a value that is not iterable. */
  datatype LoadError = AttributeError | TypeError

  datatype Loader = Loader(path: string, data: Option<seq<Config>>, hasError: bool, log: seq<string>)

  const DefaultPath := "./config.json"

  /** A fresh loader: no data, no error yet. */
  function NewLoader(path: string): Loader {
    Loader(path, None, false, [])
  }

  /** `entry.get(k, "")` */
  function FieldOr(fields: map<string, Json>, k: string): Json {
    if k in fields then fields[k] else JStr("")
  }

  function EntryOf(fields: map<string, Json>): Config {
    Config(FieldOr(fields, "token"), FieldOr(fields, "guild_id"), FieldOr(fields, "database"))
  }

  /** The list comprehension of `_parse` over a JSON array. */
  function ParseEntries(items: seq<Json>): (r: Result<seq<Config>, LoadError>)
    ensures r.Success? <==> forall i :: 0 <= i < |items| ==> items[i].JObj?
    ensures r.Success? ==> |r.value| == |items| && forall i :: 0 <= i < |items| ==> r.value[i] == EntryOf(items[i].fields)
    ensures r.Failure? ==> r.error == AttributeError
    decreases |items|
  {
    if |items| == 0 then Success([])
    else if !items[0].JObj? then Failure(AttributeError)
    else
      var rest :- ParseEntries(items[1..]);
      assert forall i :: 1 <= i < |items| ==> items[i] == items[1..][i - 1];
      Success([EntryOf(items[0].fields)] + rest)
  }

  /** `_parse`: a single object is wrapped into a one-element list; iterating a string
      yields characters, which have no `.get`; null, booleans and numbers do not iterate. */
  function Parse(raw: Json): (r: Result<seq<Config>, LoadError>)
    ensures raw.JObj? ==> r == Success([EntryOf(raw.fields)])
    ensures raw.JArr? ==> r == ParseEntries(raw.items)
    ensures raw.JStr? ==> r == if raw.s == "" then Success([]) else Failure(AttributeError)
    ensures raw.JNull? || raw.JBool? || raw.JNum? ==> r == Failure(TypeError)
  {
    match raw
    case JObj(fields) => Success([EntryOf(fields)])
    case JArr(items) => ParseEntries(items)
    case JStr(s) => if s == "" then Success([]) else Failure(AttributeError)
    case _ => Failure(TypeError)
  }

  /** Records a failed load; the message is printed only on the first failure. */
  function Failed(l: Loader, message: string): (r: Loader)
    ensures r.hasError && r.path == l.path && r.data == l.data
    ensures l.hasError ==> r.log == l.log
    ensures !l.hasError ==> |r.log| == |l.log| + 1 && r.log[..|l.log|] == l.log
  {
    l.(hasError := true, log := if l.hasError then l.log else l.log + ["error - " + l.path + message])
  }

  /** `load`: a missing or malformed file marks the error and keeps the data; a parsed file
      replaces the data; an exception from `_parse` propagates. */
  function Load(fs: Files, l: Loader): (r: Result<Loader, LoadError>)
    ensures Read(fs, l.path).Missing? || Read(fs, l.path).Malformed? ==>
      r.Success? && r.value.data == l.data && r.value.path == l.path && r.value.hasError
      && |r.value.log| == |l.log| + (if l.hasError then 0 else 1) && r.value.log[..|l.log|] == l.log
    ensures Read(fs, l.path).Parsed? ==>
      match Parse(Read(fs, l.path).json)
      case Success(d) => r == Success(l.(data := Some(d)))
      case Failure(e) => r == Failure(e)
  {
    match Read(fs, l.path)
    case Missing => Success(Failed(l, " not found!"))
    case Malformed => Success(Failed(l, " is malformed!"))
    case Parsed(raw) =>
      var d :- Parse(raw);
      Success(l.(data := Some(d)))
  }

  /** `get` */
  function Get(l: Loader): (r: Option<seq<Config>>)
    ensures r == l.data
  {
    l.data
  }

  predicate IsConfigKey(k: string) {
    k == "token" || k == "guild_id" || k == "database"
  }

  /** `value in entry` for a parsed entry: a key test, whatever the value is. */
  predicate EntryHas(c: Config, k: string) {
    k in {"token", "guild_id", "database"}
  }

  /** `_has_value`: some loaded entry has key `k`. Since every entry has the same three
      keys, this is true exactly for those keys and a non-empty data list. */
  function HasValue(l: Loader, k: string): (r: bool)
    ensures r <==> l.data.Some? && |l.data.value| > 0 && IsConfigKey(k)
  {
    if l.data.None? || |l.data.value| == 0 then false
    else
      assert EntryHas(l.data.value[0], k) <==> IsConfigKey(k);
      exists i :: 0 <= i < |l.data.value| && EntryHas(l.data.value[i], k)
  }

  /** Python truthiness of the optional path argument. */
  predicate Given(path: Option<string>) {
    path.Some? && path.value != ""
  }

  /** The loop of `validate` over the items: before each check, a given path is set and the
      file reloaded. Returns the loader and the list of results. */
  function CheckEach(fs: Files, l: Loader, path: Option<string>, items: seq<string>): (r: Result<(Loader, seq<bool>), LoadError>)
    ensures r.Success? ==> |r.value.1| == |items|
    decreases |items|
  {
    if |items| == 0 then Success((l, []))
    else
      var l1 :- if Given(path) then Load(fs, l.(path := path.value)) else Success(l);
      var rest :- CheckEach(fs, l1, path, items[1..]);
      Success((rest.0, [HasValue(l1, items[0])] + rest.1))
  }

  /** `validate`. With items, true iff every item is present, reloading before each check
      when a path is given. Without items, true at once when a token is present, otherwise
      after reloading from a given path. */
  function Validate(fs: Files, l: Loader, path: Option<string>, items: seq<string>): (r: Result<(Loader, bool), LoadError>)
    ensures |items| == 0 && HasValue(l, "token") ==> r == Success((l, true))
    ensures |items| == 0 && !HasValue(l, "token") && !Given(path) ==> r == Success((l, false))
    ensures |items| == 0 && !HasValue(l, "token") && Given(path) ==>
      match Load(fs, l.(path := path.value))
      case Success(l1) => r == Success((l1, HasValue(l1, "token")))
      case Failure(e) => r == Failure(e)
  {
    if |items| > 0 then
      var res :- CheckEach(fs, l, path, items);
      Success((res.0, false !in res.1))
    else if HasValue(l, "token") then Success((l, true))
    else if Given(path) then
      var l1 :- Load(fs, l.(path := path.value));
      Success((l1, HasValue(l1, "token")))
    else Success((l, false))
  }

  // ---------------------------------------------------------------------------
  // Lemmas

  /** Loading the same file again changes nothing: the data is the same and the failure
      message is not printed twice. */
  lemma LoadIdempotent(fs: Files, l: Loader)
    requires Load(fs, l).Success?
    ensures Load(fs, Load(fs, l).value) == Load(fs, l)
  {
  }

  /** A file that keeps failing is reported once, however often it is loaded. */
  lemma MissingReportedOnce(fs: Files, path: string)
    requires Read(fs, path).Missing?
    ensures var once := Load(fs, NewLoader(path)).value;
            |once.log| == 1 && Load(fs, once) == Success(once)
  {
  }

  /** The results of the item loop without reloading: the loader is unchanged. */
  lemma {:induction false} CheckEachWithoutPath(fs: Files, l: Loader, path: Option<string>, items: seq<string>)
    requires !Given(path)
    ensures CheckEach(fs, l, path, items).Success?
    ensures CheckEach(fs, l, path, items).value.0 == l
    ensures forall i :: 0 <= i < |items| ==> CheckEach(fs, l, path, items).value.1[i] == HasValue(l, items[i])
    decreases |items|
  {
    if |items| > 0 {
      CheckEachWithoutPath(fs, l, path, items[1..]);
    }
  }

  /** The results of the item loop once the loader already holds what reloading gives. */
  lemma {:induction false} CheckEachStable(fs: Files, l: Loader, path: Option<string>, items: seq<string>)
    requires Given(path) && l.path == path.value && Load(fs, l) == Success(l)
    ensures CheckEach(fs, l, path, items).Success?
    ensures CheckEach(fs, l, path, items).value.0 == l
    ensures forall i :: 0 <= i < |items| ==> CheckEach(fs, l, path, items).value.1[i] == HasValue(l, items[i])
    decreases |items|
  {
    if |items| > 0 {
      assert l.(path := path.value) == l;
      CheckEachStable(fs, l, path, items[1..]);
    }
  }

  /** `validate` with items and a given path: the file is reloaded (once in effect), and the
      result says whether every item is present in what was reloaded. */
  lemma ValidateItemsWithPath(fs: Files, l: Loader, path: Option<string>, items: seq<string>)
    requires |items| > 0 && Given(path)
    ensures Validate(fs, l, path, items).Success? <==> Load(fs, l.(path := path.value)).Success?
    ensures Validate(fs, l, path, items).Success? ==>
      var l1 := Load(fs, l.(path := path.value)).value;
      Validate(fs, l, path, items) == Success((l1, forall i :: 0 <= i < |items| ==> HasValue(l1, items[i])))
  {
    var first := Load(fs, l.(path := path.value));
    if first.Success? {
      var l1 := first.value;
      LoadIdempotent(fs, l.(path := path.value));
      assert l1.(path := path.value) == l1;
      CheckEachStable(fs, l1, path, items[1..]);
      var res := CheckEach(fs, l, path, items).value;
      assert res.1 == [HasValue(l1, items[0])] + CheckEach(fs, l1, path, items[1..]).value.1;
      assert (false !in res.1) <==> forall i :: 0 <= i < |items| ==> HasValue(l1, items[i]) by {
        forall i | 0 <= i < |items|
          ensures res.1[i] == HasValue(l1, items[i])
        {
          if i > 0 {
            assert res.1[i] == CheckEach(fs, l1, path, items[1..]).value.1[i - 1];
          }
        }
      }
    }
  }

  /** `validate` with items and no path: nothing is reloaded, and the result says whether every
      item is present in the loaded data. */
  lemma ValidateItemsWithoutPath(fs: Files, l: Loader, path: Option<string>, items: seq<string>)
    requires |items| > 0 && !Given(path)
    ensures Validate(fs, l, path, items) == Success((l, forall i :: 0 <= i < |items| ==> HasValue(l, items[i])))
  {
    CheckEachWithoutPath(fs, l, path, items);
    var res := CheckEach(fs, l, path, items).value;
    assert (false !in res.1) <==> forall i :: 0 <= i < |items| ==> HasValue(l, items[i]) by {
      assert forall i :: 0 <= i < |items| ==> res.1[i] == HasValue(l, items[i]);
    }
  }

  /** Validation tests keys, not values: an object with none of the keys still validates,
      each field defaulting to the empty string. */
  lemma EmptyObjectValidates(fs: Files)
    requires Read(fs, DefaultPath) == Parsed(JObj(map[]))
    ensures var l := Load(fs, NewLoader(DefaultPath)).value;
            l.data == Some([Config(JStr(""), JStr(""), JStr(""))])
            && Validate(fs, l, Some(DefaultPath), ["token", "guild_id", "database"]).value.1
  {
    var l := Load(fs, NewLoader(DefaultPath)).value;
    ValidateItemsWithPath(fs, l, Some(DefaultPath), ["token", "guild_id", "database"]);
    assert l.(path := DefaultPath) == l;
  }
}
