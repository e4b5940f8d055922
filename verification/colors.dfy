/** The colour catalog collection: save, find and remove by normalised name, list.
    Each store call is given whether the server answers it. */
module Colors {
  import opened Wrappers
  import opened Text
  import Store
  import opened Schema

  /** The store query `{"name": key}`. */
  function NameQuery(key: string): ColorDoc -> bool {
    (c: ColorDoc) => c.name == key
  }

  /** Index `i` holds the first record stored under `key`. */
  predicate IsFirstNamed(docs: seq<ColorDoc>, key: string, i: int) {
    Store.IsFirst(docs, NameQuery(key), i)
  }

  predicate NoneNamed(docs: seq<ColorDoc>, key: string) {
    Store.NoMatch(docs, NameQuery(key))
  }

  /** `save`: appends one record carrying the name, value and author it is given;
      the other collections are unchanged. */
  function Save(up: bool, db: Db, data: ColorDoc): (r: Result<Db, Store.StoreError>)
    ensures r.Success? <==> up
    ensures r.Failure? ==> r.error == Store.RuntimeError(Store.Insert)
    ensures r.Success? ==> r.value.profiles == db.profiles && r.value.rules == db.rules
    ensures r.Success? ==> |r.value.colors| == |db.colors| + 1 && r.value.colors[..|db.colors|] == db.colors
    ensures r.Success? ==> r.value.colors[|db.colors|] == ColorDoc(data.name, data.value, data.author)
  {
    var docs :- Store.InsertOne(up, db.colors, ColorDoc(data.name, data.value, data.author));
    Success(db.(colors := docs))
  }

  /** `find_color_by_name`: the first record whose stored name equals `name.strip().lower()`. */
  function FindColorByName(up: bool, db: Db, name: string): (r: Result<Option<ColorDoc>, Store.StoreError>)
    ensures r.Success? <==> up
    ensures r.Failure? ==> r.error == Store.RuntimeError(Store.Find)
    ensures r.Success? ==> (r.value.None? <==> NoneNamed(db.colors, NormalizeKey(name)))
    ensures r.Success? && r.value.Some? ==>
      exists i :: IsFirstNamed(db.colors, NormalizeKey(name), i) && db.colors[i] == r.value.value
  {
    Store.FindOne(up, db.colors, NameQuery(NormalizeKey(name)))
  }

  /** `remove_color_by_name`: finds, then deletes, the first record stored under the
      normalised name and returns the record found, or None. At most that one record
      goes; every other record stays, in order. The lookup and the deletion are two calls,
      answered or not as `upFind` and `upDelete` say. */
  function RemoveColorByName(upFind: bool, upDelete: bool, db: Db, name: string): (r: Result<(Db, Option<ColorDoc>), Store.StoreError>)
    ensures r.Success? <==> upFind && upDelete
    ensures !upFind ==> r == Failure(Store.RuntimeError(Store.Find))
    ensures upFind && !upDelete ==> r == Failure(Store.RuntimeError(Store.Delete))
    ensures r.Success? && NoneNamed(db.colors, NormalizeKey(name)) ==> r.value == (db, None)
    ensures r.Success? && !NoneNamed(db.colors, NormalizeKey(name)) ==>
      exists i :: IsFirstNamed(db.colors, NormalizeKey(name), i)
        && r.value.1 == Some(db.colors[i])
        && r.value.0 == db.(colors := db.colors[..i] + db.colors[i + 1..])
  {
    var key := NormalizeKey(name);
    NormalizeKeyIdempotent(name);
    var found :- FindColorByName(upFind, db, key);
    match Store.DeleteOne(upDelete, db.colors, NameQuery(key))
    case Failure(e) => Failure(e)
    case Success(deleted) =>
      Store.FoundIsDeleted(db.colors, NameQuery(key), found, deleted);
      Success((db.(colors := deleted.0), found))
  }

  /** `get_colors`: the whole catalog, in order. */
  function GetColors(up: bool, db: Db): (r: Result<seq<ColorDoc>, Store.StoreError>)
    ensures r.Success? <==> up
    ensures r.Failure? ==> r.error == Store.RuntimeError(Store.FetchAll)
    ensures r.Success? ==> r.value == db.colors
  {
    Store.GetAll(up, db.colors)
  }

  // ---------------------------------------------------------------------------
  // Lemmas

  /** Only lower-case, stripped names can ever be found: the lookup key is normalised. */
  lemma FoundNamesAreNormalized(db: Db, name: string)
    ensures var r := FindColorByName(true, db, name).value;
            r.Some? ==> Lower(r.value.name) == r.value.name && Strip(r.value.name) == r.value.name
  {
    NormalizeKeyShape(name);
  }
}
