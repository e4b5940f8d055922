/** The rule collection: save, find and remove by normalised name, list.
    Each store call is given whether the server answers it. */
module Rules {
  import opened Wrappers
  import opened Text
  import Store
  import opened Schema

  /** The store query `{"name": key}`. */
  function NameQuery(key: string): RuleDoc -> bool {
    (r: RuleDoc) => r.name == key
  }

  /** Index `i` holds the first rule stored under `key`. */
  predicate IsFirstNamed(docs: seq<RuleDoc>, key: string, i: int) {
    Store.IsFirst(docs, NameQuery(key), i)
  }

  predicate NoneNamed(docs: seq<RuleDoc>, key: string) {
    Store.NoMatch(docs, NameQuery(key))
  }

  /** `save`: appends one rule carrying the given name, title, author, description and
      tags; its timestamp is the save instant `now`, not the caller's. */
  function Save(up: bool, db: Db, data: RuleDoc, now: nat): (r: Result<Db, Store.StoreError>)
    ensures r.Success? <==> up
    ensures r.Failure? ==> r.error == Store.RuntimeError(Store.Insert)
    ensures r.Success? ==> r.value.profiles == db.profiles && r.value.colors == db.colors
    ensures r.Success? ==> |r.value.rules| == |db.rules| + 1 && r.value.rules[..|db.rules|] == db.rules
    ensures r.Success? ==> var saved := r.value.rules[|db.rules|];
      saved.name == data.name && saved.title == data.title && saved.author == data.author
      && saved.description == data.description && saved.tags == data.tags && saved.timestamp == now
  {
    var docs :- Store.InsertOne(up, db.rules, RuleDoc(data.name, data.title, data.author, data.description, data.tags, now));
    Success(db.(rules := docs))
  }

  /** `find_rule_by_name`: the first rule whose stored name equals `name.strip().lower()`. */
  function FindRuleByName(up: bool, db: Db, name: string): (r: Result<Option<RuleDoc>, Store.StoreError>)
    ensures r.Success? <==> up
    ensures r.Failure? ==> r.error == Store.RuntimeError(Store.Find)
    ensures r.Success? ==> (r.value.None? <==> NoneNamed(db.rules, NormalizeKey(name)))
    ensures r.Success? && r.value.Some? ==>
      exists i :: IsFirstNamed(db.rules, NormalizeKey(name), i) && db.rules[i] == r.value.value
  {
    Store.FindOne(up, db.rules, NameQuery(NormalizeKey(name)))
  }

  /** `remove_rule_by_name`: finds, then deletes, the first rule stored under the
      normalised name and returns the rule found, or None. At most that one rule goes;
      every other rule stays, in order. The lookup and the deletion are two calls, answered
      or not as `upFind` and `upDelete` say. */
  function RemoveRuleByName(upFind: bool, upDelete: bool, db: Db, name: string): (r: Result<(Db, Option<RuleDoc>), Store.StoreError>)
    ensures r.Success? <==> upFind && upDelete
    ensures !upFind ==> r == Failure(Store.RuntimeError(Store.Find))
    ensures upFind && !upDelete ==> r == Failure(Store.RuntimeError(Store.Delete))
    ensures r.Success? && NoneNamed(db.rules, NormalizeKey(name)) ==> r.value == (db, None)
    ensures r.Success? && !NoneNamed(db.rules, NormalizeKey(name)) ==>
      exists i :: IsFirstNamed(db.rules, NormalizeKey(name), i)
        && r.value.1 == Some(db.rules[i])
        && r.value.0 == db.(rules := db.rules[..i] + db.rules[i + 1..])
  {
    var key := NormalizeKey(name);
    NormalizeKeyIdempotent(name);
    var found :- FindRuleByName(upFind, db, key);
    match Store.DeleteOne(upDelete, db.rules, NameQuery(key))
    case Failure(e) => Failure(e)
    case Success(deleted) =>
      Store.FoundIsDeleted(db.rules, NameQuery(key), found, deleted);
      Success((db.(rules := deleted.0), found))
  }

  /** `get_rules`: every stored rule, in order. */
  function GetRules(up: bool, db: Db): (r: Result<seq<RuleDoc>, Store.StoreError>)
    ensures r.Success? <==> up
    ensures r.Failure? ==> r.error == Store.RuntimeError(Store.FetchAll)
    ensures r.Success? ==> r.value == db.rules
  {
    Store.GetAll(up, db.rules)
  }
}
