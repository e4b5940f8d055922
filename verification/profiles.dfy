/** The profile collection: save, find by member id, and single-field update. */
module Profiles {
  import opened Wrappers
  import opened Text
  import Store
  import opened Schema

  /** A member id as the callers pass it: an int or its string form. */
  datatype ProfileId = IntId(n: int) | StrId(s: string)

  /** `f"{profile_id}"` */
  function Format(id: ProfileId): string {
    match id
    case IntId(n) => IntToString(n)
    case StrId(s) => s
  }

  /** The query `{"user_id": id}`: the stored user_id is exactly the string `id`. */
  predicate HasUserId(d: Doc, id: string) {
    Get(d, "user_id") == Str(id)
  }

  /** The store query for member `id`. */
  function IdQuery(id: string): Doc -> bool {
    d => HasUserId(d, id)
  }

  /** Index `i` holds the first profile of member `id`. */
  predicate IsFirstWithId(docs: seq<Doc>, id: string, i: int) {
    Store.IsFirst(docs, IdQuery(id), i)
  }

  /** The `$set` of one field. */
  function SetField(k: string, v: Value): Doc -> Doc {
    d => d[k := v]
  }

  /** Field `k` of `d` already holds `v`. */
  predicate Holds(d: Doc, k: string, v: Value) {
    k in d && d[k] == v
  }

  /** No profile of member `id` is stored. */
  predicate NoProfile(docs: seq<Doc>, id: string) {
    Store.NoMatch(docs, IdQuery(id))
  }

  function FirstWithId(docs: seq<Doc>, id: string): (r: Option<nat>)
    ensures r.Some? ==> IsFirstWithId(docs, id, r.value)
    ensures r.None? ==> NoProfile(docs, id)
    decreases |docs|
  {
    if |docs| == 0 then None
    else if HasUserId(docs[0], id) then Some(0)
    else match FirstWithId(docs[1..], id)
      case None => None
      case Some(k) => Some(k + 1)
  }

  /** The number of profiles stored for `id`. */
  function CountId(docs: seq<Doc>, id: string): nat
    decreases |docs|
  {
    if |docs| == 0 then 0
    else CountId(docs[..|docs| - 1], id) + (if HasUserId(docs[|docs| - 1], id) then 1 else 0)
  }

  /** A message reference as `save` stores it: the given value, or "none" when absent or falsy. */
  function OrNone(v: Value): Value {
    if Truthy(v) then v else Str("none")
  }

  /** `p` is what `save(data)` writes at instant `now`: exactly eight fields, five copied
      from `data`, the save instant as timestamp, and the two message references. */
  predicate IsSavedProfile(p: Doc, data: Doc, now: nat) {
    && p.Keys == {"name", "user_id", "level", "nickname", "color", "timestamp", "last_edited_message", "last_deleted_message"}
    && p["name"] == Get(data, "name")
    && p["user_id"] == Get(data, "user_id")
    && p["level"] == Get(data, "level")
    && p["nickname"] == Get(data, "nickname")
    && p["color"] == Get(data, "color")
    && p["timestamp"] == Instant(now)
    && p["last_edited_message"] == OrNone(Get(data, "last_edited_message"))
    && p["last_deleted_message"] == OrNone(Get(data, "last_deleted_message"))
  }

  function SavedProfile(data: Doc, now: nat): (p: Doc)
    ensures IsSavedProfile(p, data, now)
  {
    map[
      "name" := Get(data, "name"),
      "user_id" := Get(data, "user_id"),
      "level" := Get(data, "level"),
      "nickname" := Get(data, "nickname"),
      "color" := Get(data, "color"),
      "timestamp" := Instant(now),
      "last_edited_message" := OrNone(Get(data, "last_edited_message")),
      "last_deleted_message" := OrNone(Get(data, "last_deleted_message"))
    ]
  }

  /** `save`: inserts exactly one profile record built from `data`, stamped with the
      clock reading `now`; nothing else in the database changes. `up` is whether the
      server answers the insertion. */
  function Save(up: bool, db: Db, data: Doc, now: nat): (r: Result<Db, Store.StoreError>)
    ensures r.Success? <==> up
    ensures r.Failure? ==> r.error == Store.RuntimeError(Store.Insert)
    ensures r.Success? ==> r.value == db.(profiles := r.value.profiles)
    ensures r.Success? ==> |r.value.profiles| == |db.profiles| + 1 && r.value.profiles[..|db.profiles|] == db.profiles
    ensures r.Success? ==> IsSavedProfile(r.value.profiles[|db.profiles|], data, now)
  {
    var docs :- Store.InsertOne(up, db.profiles, SavedProfile(data, now));
    Success(db.(profiles := docs))
  }

  /** `find_profile_by_id`: the first profile whose user_id is exactly `id`, or None. */
  function FindById(up: bool, db: Db, id: string): (r: Result<Option<Doc>, Store.StoreError>)
    ensures r.Success? <==> up
    ensures r.Failure? ==> r.error == Store.RuntimeError(Store.Find)
    ensures r.Success? ==> (r.value.None? <==> NoProfile(db.profiles, id))
    ensures r.Success? && r.value.Some? ==> exists i :: IsFirstWithId(db.profiles, id, i) && db.profiles[i] == r.value.value
  {
    Store.FindOne(up, db.profiles, IdQuery(id))
  }

  /** `update_profile_by_id`: sets field `k` to `v` on the first profile whose user_id is
      `f"{profile_id}"`; every other field and record is unchanged. The flag is true only
      when a value actually changed. */
  function UpdateById(up: bool, db: Db, profileId: ProfileId, k: string, v: Value): (r: Result<(Db, bool), Store.StoreError>)
    ensures r.Success? <==> up
    ensures r.Failure? ==> r.error == Store.RuntimeError(Store.Update)
    ensures r.Success? ==> r.value.0 == db.(profiles := r.value.0.profiles)
    ensures r.Success? ==> |r.value.0.profiles| == |db.profiles|
    ensures r.Success? ==> forall j :: 0 <= j < |db.profiles| ==>
      r.value.0.profiles[j] == if IsFirstWithId(db.profiles, Format(profileId), j) then db.profiles[j][k := v] else db.profiles[j]
    ensures r.Success? ==> (r.value.1 <==>
      exists i :: IsFirstWithId(db.profiles, Format(profileId), i) && !Holds(db.profiles[i], k, v))
  {
    var id := Format(profileId);
    var res :- Store.UpdateOne(up, db.profiles, IdQuery(id), SetField(k, v));
    SetFieldFlag(db.profiles, id, k, v);
    Success((db.(profiles := res.0), res.1))
  }

  // ---------------------------------------------------------------------------
  // Lemmas

  /** Setting a field changes a document exactly when the field did not already hold the value. */
  lemma SetFieldChanges(d: Doc, k: string, v: Value)
    ensures SetField(k, v)(d) != d <==> !Holds(d, k, v)
  {
    if !Holds(d, k, v) {
      assert k !in d || d[k := v][k] != d[k];
    }
  }

  lemma SetFieldFlag(docs: seq<Doc>, id: string, k: string, v: Value)
    ensures (exists i :: Store.IsFirst(docs, IdQuery(id), i) && SetField(k, v)(docs[i]) != docs[i])
        <==> (exists i :: IsFirstWithId(docs, id, i) && !Holds(docs[i], k, v))
  {
    forall i | 0 <= i < |docs|
      ensures Store.IsFirst(docs, IdQuery(id), i) <==> IsFirstWithId(docs, id, i)
    {
    }
    forall i | 0 <= i < |docs|
      ensures SetField(k, v)(docs[i]) != docs[i] <==> !Holds(docs[i], k, v)
    {
      SetFieldChanges(docs[i], k, v);
    }
  }

  /** The saved record is determined by its input and the save instant. */
  lemma SavedProfileUnique(p: Doc, data: Doc, now: nat)
    requires IsSavedProfile(p, data, now)
    ensures p == SavedProfile(data, now)
  {
  }

  lemma FirstIsUnique(docs: seq<Doc>, id: string, i: int, j: int)
    requires IsFirstWithId(docs, id, i) && IsFirstWithId(docs, id, j)
    ensures i == j
  {
  }

  lemma {:induction false} CountAppend(docs: seq<Doc>, x: Doc, id: string)
    ensures CountId(docs + [x], id) == CountId(docs, id) + (if HasUserId(x, id) then 1 else 0)
  {
    assert (docs + [x])[..|docs|] == docs;
  }

  lemma {:induction false} CountZeroIffNone(docs: seq<Doc>, id: string)
    ensures CountId(docs, id) == 0 <==> NoProfile(docs, id)
    decreases |docs|
  {
    if |docs| > 0 {
      CountZeroIffNone(docs[..|docs| - 1], id);
    }
  }

  /** Changing a field other than user_id never changes how many profiles an id has. */
  lemma {:induction false} CountKeepsOnOtherField(docs: seq<Doc>, i: int, k: string, v: Value, id: string)
    requires 0 <= i < |docs| && k != "user_id"
    ensures CountId(docs[i := docs[i][k := v]], id) == CountId(docs, id)
    decreases |docs|
  {
    var d := docs[i := docs[i][k := v]];
    assert Get(d[i], "user_id") == Get(docs[i], "user_id");
    if i < |docs| - 1 {
      assert d[..|d| - 1] == docs[..|docs| - 1][i := docs[i][k := v]];
      CountKeepsOnOtherField(docs[..|docs| - 1], i, k, v, id);
    } else {
      assert d[..|d| - 1] == docs[..|docs| - 1];
    }
  }

  /** The caller's timestamp never reaches the store: it is replaced by the save instant. */
  lemma SaveIgnoresCallerTimestamp(data: Doc, t: Value, now: nat)
    ensures SavedProfile(data["timestamp" := t], now) == SavedProfile(data, now)
  {
  }

  /** An integer id and its decimal string address the same record, and distinct integer ids different ones. */
  lemma IntAndStringIdsAgree(up: bool, db: Db, n: int, m: int, k: string, v: Value)
    ensures UpdateById(up, db, IntId(n), k, v) == UpdateById(up, db, StrId(IntToString(n)), k, v)
    ensures n != m ==> Format(IntId(n)) != Format(IntId(m))
  {
    if n != m && Format(IntId(n)) == Format(IntId(m)) {
      IntToStringInjective(n, m);
    }
  }

  /** Saving a profile for an id with no profile yet and finding it by that id returns the
      saved fields; only the timestamp comes from the store's clock. */
  lemma SaveThenFind(db: Db, data: Doc, id: string, now: nat)
    requires NoProfile(db.profiles, id) && Get(data, "user_id") == Str(id)
    ensures Save(true, db, data, now).Success?
    ensures var db' := Save(true, db, data, now).value;
            FindById(true, db', id) == Success(Some(SavedProfile(data, now)))
  {
    var db' := Save(true, db, data, now).value;
    var n := |db.profiles|;
    assert IsFirstWithId(db'.profiles, id, n);
    assert !NoProfile(db'.profiles, id);
    var p := FindById(true, db', id).value.value;
    var i :| IsFirstWithId(db'.profiles, id, i) && db'.profiles[i] == p;
    assert i == n;
  }
}
