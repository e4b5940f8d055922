/** The document-store adapter: a singleton client and first-match
    insert / get-all / find / delete / update over one collection.
    A collection is an in-memory sequence in insertion order, and a query is a predicate
    on documents: `find_one` and `delete_one` both pick the earliest-inserted match. */
module Store {
  import opened Wrappers

  /** The adapter call that failed. Every driver failure surfaces as Python's `RuntimeError`. */
  datatype Operation = Insert | FetchAll | Find | Delete | Update

  datatype StoreError = RuntimeError(op: Operation)

  /** Raised when the connectivity check at first construction fails. */
  datatype ConnectError = ConnectionError

  /** A client bound to one database. `reachable` is whether the server answered the
      connectivity check at construction; later calls are answered or not each on its own. */
  datatype Client = Client(uri: string, database: string, reachable: bool)

  /** The class-level instance slot, empty until the first construction. */
  type Slot = Option<Client>

  /** Constructing the adapter. The instance is stored in the slot before the
      connectivity check runs, so a failed check still leaves it there. */
  function Construct(slot: Slot, uri: string, database: string, reachable: bool): (r: (Slot, Result<Client, ConnectError>))
    ensures slot.Some? ==> r.0 == slot && r.1 == Success(slot.value)
    ensures slot.None? ==> r.0 == Some(Client(uri, database, reachable))
    ensures slot.None? ==> (r.1.Failure? <==> !reachable)
    ensures r.1.Success? ==> r.0 == Some(r.1.value)
  {
    if slot.Some? then (slot, Success(slot.value))
    else
      var client := Client(uri, database, reachable);
      (Some(client), if reachable then Success(client) else Failure(ConnectionError))
  }

  /** Index `i` holds the first document the query matches. */
  predicate IsFirst<D>(docs: seq<D>, q: D -> bool, i: int) {
    0 <= i < |docs| && q(docs[i]) && forall j :: 0 <= j < i ==> !q(docs[j])
  }

  predicate NoMatch<D>(docs: seq<D>, q: D -> bool) {
    forall j :: 0 <= j < |docs| ==> !q(docs[j])
  }

  function FirstMatch<D>(docs: seq<D>, q: D -> bool): (r: Option<nat>)
    ensures r.Some? ==> IsFirst(docs, q, r.value)
    ensures r.None? ==> NoMatch(docs, q)
    decreases |docs|
  {
    if |docs| == 0 then None
    else if q(docs[0]) then Some(0)
    else match FirstMatch(docs[1..], q)
      case None => None
      case Some(k) => Some(k + 1)
  }

  /** `insert_one`: the document is appended. */
  function InsertOne<D>(up: bool, docs: seq<D>, d: D): (r: Result<seq<D>, StoreError>)
    ensures r.Success? <==> up
    ensures r.Failure? ==> r.error == RuntimeError(Insert)
    ensures r.Success? ==> |r.value| == |docs| + 1 && r.value[..|docs|] == docs && r.value[|docs|] == d
  {
    if up then Success(docs + [d]) else Failure(RuntimeError(Insert))
  }

  /** `get_all`: every document of the collection, in order. */
  function GetAll<D>(up: bool, docs: seq<D>): (r: Result<seq<D>, StoreError>)
    ensures r.Success? <==> up
    ensures r.Failure? ==> r.error == RuntimeError(FetchAll)
    ensures r.Success? ==> r.value == docs
  {
    if up then Success(docs) else Failure(RuntimeError(FetchAll))
  }

  /** `find_one`: the first matching document, or None when nothing matches. */
  function FindOne<D>(up: bool, docs: seq<D>, q: D -> bool): (r: Result<Option<D>, StoreError>)
    ensures r.Success? <==> up
    ensures r.Failure? ==> r.error == RuntimeError(Find)
    ensures r.Success? ==> (r.value.None? <==> NoMatch(docs, q))
    ensures r.Success? && r.value.Some? ==> exists i :: IsFirst(docs, q, i) && docs[i] == r.value.value
  {
    if !up then Failure(RuntimeError(Find))
    else match FirstMatch(docs, q)
      case None => Success(None)
      case Some(i) => Success(Some(docs[i]))
  }

  /** `delete_one`: the first matching document is removed; the flag says whether one was. */
  function DeleteOne<D>(up: bool, docs: seq<D>, q: D -> bool): (r: Result<(seq<D>, bool), StoreError>)
    ensures r.Success? <==> up
    ensures r.Failure? ==> r.error == RuntimeError(Delete)
    ensures r.Success? ==> (r.value.1 <==> !NoMatch(docs, q))
    ensures r.Success? && !r.value.1 ==> r.value.0 == docs
    ensures r.Success? && r.value.1 ==>
      exists i :: IsFirst(docs, q, i) && r.value.0 == docs[..i] + docs[i + 1..]
  {
    if !up then Failure(RuntimeError(Delete))
    else match FirstMatch(docs, q)
      case None => Success((docs, false))
      case Some(i) => Success((docs[..i] + docs[i + 1..], true))
  }

  /** `update_one` with `$set`: the first matching document becomes `change(doc)`.
      The flag is true only when that changed the document; it is false both when
      nothing matches and when the match already held the new values. */
  function UpdateOne<D(==)>(up: bool, docs: seq<D>, q: D -> bool, change: D -> D): (r: Result<(seq<D>, bool), StoreError>)
    ensures r.Success? <==> up
    ensures r.Failure? ==> r.error == RuntimeError(Update)
    ensures r.Success? ==> |r.value.0| == |docs|
    ensures r.Success? ==> forall j :: 0 <= j < |docs| ==>
      r.value.0[j] == if IsFirst(docs, q, j) then change(docs[j]) else docs[j]
    ensures r.Success? ==> (r.value.1 <==> exists i :: IsFirst(docs, q, i) && change(docs[i]) != docs[i])
  {
    if !up then Failure(RuntimeError(Update))
    else match FirstMatch(docs, q)
      case None => Success((docs, false))
      case Some(i) => Success((docs[i := change(docs[i])], change(docs[i]) != docs[i]))
  }

  // ---------------------------------------------------------------------------
  // Lemmas

  /** A lookup and a deletion with the same query, both answered, agree on the document:
      the one found is the one removed. */
  lemma FoundIsDeleted<D>(docs: seq<D>, q: D -> bool, found: Option<D>, deleted: (seq<D>, bool))
    requires FindOne(true, docs, q) == Success(found) && DeleteOne(true, docs, q) == Success(deleted)
    ensures NoMatch(docs, q) ==> found == None && deleted.0 == docs
    ensures !NoMatch(docs, q) ==>
      exists i :: IsFirst(docs, q, i) && found == Some(docs[i]) && deleted.0 == docs[..i] + docs[i + 1..]
  {
    match FirstMatch(docs, q)
    case None =>
    case Some(i) =>
      assert IsFirst(docs, q, i);
  }

  /** The first match is unique. */
  lemma FirstIsUnique<D>(docs: seq<D>, q: D -> bool, i: int, j: int)
    requires IsFirst(docs, q, i) && IsFirst(docs, q, j)
    ensures i == j
  {
  }

  /** Every construction after the first returns the first instance, whatever it is given. */
  lemma LaterConstructionsShareInstance(uri1: string, db1: string, ok1: bool, uri2: string, db2: string, ok2: bool)
    ensures var first := Construct(None, uri1, db1, ok1);
            var second := Construct(first.0, uri2, db2, ok2);
            second.0 == first.0 && second.1 == Success(Client(uri1, db1, ok1))
  {
  }

  /** A failed connectivity check raises once; the next construction then returns the
      instance that failed it, without checking again. */
  lemma FailedConnectionIsKept(uri: string, database: string, uri2: string, database2: string)
    ensures Construct(None, uri, database, false).1 == Failure(ConnectionError)
    ensures var again := Construct(Construct(None, uri, database, false).0, uri2, database2, true);
            again.1 == Success(Client(uri, database, false))
  {
  }

  /** What was inserted is read back as the last document of the collection. */
  lemma InsertThenGetAll<D>(docs: seq<D>, d: D)
    ensures InsertOne(true, docs, d).Success?
    ensures GetAll(true, InsertOne(true, docs, d).value) == Success(docs + [d])
  {
    var r := InsertOne(true, docs, d).value;
    assert r == r[..|docs|] + [r[|docs|]];
  }

  /** A deletion removes exactly one document when something matches, and none otherwise. */
  lemma DeleteShrinksByOne<D>(docs: seq<D>, q: D -> bool)
    ensures var r := DeleteOne(true, docs, q);
            r.Success? && |r.value.0| == |docs| - (if r.value.1 then 1 else 0)
  {
  }
}
