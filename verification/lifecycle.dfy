/** The message handler: resolve-or-create of the author's profile through the
    profile cache and the store, then the level step. The handler body has no
    suspension point, so one message is one sequential transition. */
module Lifecycle {
  import opened Wrappers
  import opened Text
  import Store
  import Calls
  import opened Schema
  import opened Profiles
  import opened Progression

  /** The author of a message. `globalName` is absent for accounts without one. */
  datatype Author = Author(id: int, isBot: bool, name: string, globalName: Option<string>)

  /** The state the handler touches: the database and the list of cached profiles. */
  datatype Bot = Bot(db: Db, cache: seq<Doc>)

  /** An exception escaping the handler: a store failure, or the level step's TypeError. */
  datatype Raised = StoreFailed(error: Store.StoreError) | LevelNotInt

  datatype Handled = Handled(bot: Bot, raised: Option<Raised>)

  /** `str(message.author.id)` */
  function AuthorKey(a: Author): string {
    IntToString(a.id)
  }

  /** `str(x)` of an optional name: Python renders None as "None". */
  function PyStr(o: Option<string>): string {
    match o
    case None => "None"
    case Some(s) => s
  }

  /** The profile built for an author without one: colour "default", level 0, and the
      author's name and nickname. */
  function NewProfile(a: Author, now: nat): Doc {
    map[
      "user_id" := Str(AuthorKey(a)),
      "color" := Str("default"),
      "level" := Int(0),
      "name" := Str(a.name),
      "nickname" := Str(PyStr(a.globalName)),
      "timestamp" := Instant(now)
    ]
  }

  /** The record `save` stores for a new author at instant `now`. */
  function StoredNewProfile(a: Author, now: nat): Doc {
    SavedProfile(NewProfile(a, now), now)
  }

  /** Python truthiness of a lookup result: a non-empty document. */
  predicate Found(o: Option<Doc>) {
    o.Some? && |o.value| > 0
  }

  /** Cached profiles that belong to someone other than `key`. */
  function NonMatching(s: seq<Doc>, key: string): nat
    decreases |s|
  {
    if |s| == 0 then 0 else (if HasUserId(s[0], key) then 0 else 1) + NonMatching(s[1..], key)
  }

  lemma {:induction false} NonMatchingAppend(s: seq<Doc>, x: Doc, key: string)
    requires HasUserId(x, key)
    ensures NonMatching(s + [x], key) == NonMatching(s, key)
    decreases |s|
  {
    if |s| > 0 {
      assert (s + [x])[1..] == s[1..] + [x];
      NonMatchingAppend(s[1..], x, key);
    }
  }

  lemma FoundBelongs(db: Db, key: string)
    ensures var r := FindById(true, db, key).value;
            r.Some? ==> HasUserId(r.value, key) && |r.value| > 0
  {
    var r := FindById(true, db, key).value;
    if r.Some? {
      var i :| IsFirstWithId(db.profiles, key, i) && db.profiles[i] == r.value;
      assert "user_id" in r.value;
    }
  }

  lemma StoredNewProfileBelongs(a: Author, now: nat)
    ensures HasUserId(StoredNewProfile(a, now), AuthorKey(a))
    ensures HasUserId(NewProfile(a, now), AuthorKey(a))
  {
  }

  /** Saving the new profile appends exactly `StoredNewProfile`. */
  lemma SaveNewProfile(db: Db, a: Author, now: nat)
    ensures Profiles.Save(true, db, NewProfile(a, now), now) == Success(db.(profiles := db.profiles + [StoredNewProfile(a, now)]))
  {
    var db' := Profiles.Save(true, db, NewProfile(a, now), now).value;
    SavedProfileUnique(db'.profiles[|db.profiles|], NewProfile(a, now), now);
    assert db'.profiles == db.profiles + [StoredNewProfile(a, now)];
  }

  lemma AfterSaveHasProfile(db: Db, a: Author, now: nat)
    ensures !NoProfile((db.profiles + [StoredNewProfile(a, now)]), AuthorKey(a))
  {
    StoredNewProfileBelongs(a, now);
    assert (db.profiles + [StoredNewProfile(a, now)])[|db.profiles|] == StoredNewProfile(a, now);
  }

  /** `ext` is `cache`, or `cache` with one profile of `key` appended. */
  predicate ExtendsByOwn(ext: seq<Doc>, cache: seq<Doc>, key: string) {
    ext == cache || (|ext| == |cache| + 1 && ext[..|cache|] == cache && HasUserId(ext[|cache|], key))
  }

  /** `db'` is `db`, or `db` with the new author's profile saved while it had none. */
  predicate SavedAtMostNew(db': Db, db: Db, a: Author, now: nat) {
    db' == db || (NoProfile(db.profiles, AuthorKey(a)) && db' == db.(profiles := db.profiles + [StoredNewProfile(a, now)]))
  }

  /** The store after settling the author's profile: the new profile saved when there was none. */
  function Settled(db: Db, a: Author, now: nat): Db {
    if NoProfile(db.profiles, AuthorKey(a)) then db.(profiles := db.profiles + [StoredNewProfile(a, now)]) else db
  }

  /** Where resolve-or-create stands: the state so far, the exception that ended it if
      any, and the index of the handler's next store call. */
  datatype Progress = Progress(bot: Bot, raised: Option<Raised>, next: nat)

  /** One visit of a cached profile of someone else, whose first store call is call `k`:
      look the author up; cache the stored profile if it is not cached yet; otherwise
      look up again and save and cache a new profile if the store has none. A failed call
      raises, and what the visit did before it stays done (nothing, here: every change
      follows the last call). */
  function ScanStep(bot: Bot, a: Author, now: nat, net: seq<bool>, k: nat): (r: Progress)
    ensures ExtendsByOwn(r.bot.cache, bot.cache, AuthorKey(a))
    ensures SavedAtMostNew(r.bot.db, bot.db, a, now)
    ensures !Calls.Answered(net, k) ==> r == Progress(bot, Some(StoreFailed(Store.RuntimeError(Store.Find))), k)
    ensures r.raised.Some? ==> r.bot == bot && r.raised.value.StoreFailed?
    ensures Calls.Reliable(net) ==> r.raised.None?
    ensures r.raised.None? ==> k < r.next
  {
    var key := AuthorKey(a);
    match FindById(Calls.Answered(net, k), bot.db, key)
    case Failure(e) => Progress(bot, Some(StoreFailed(e)), k)
    case Success(found) =>
      FoundBelongs(bot.db, key);
      if found.Some? && found.value !in bot.cache then Progress(bot.(cache := bot.cache + [found.value]), None, k + 1)
      else match FindById(Calls.Answered(net, k + 1), bot.db, key)
        case Failure(e) => Progress(bot, Some(StoreFailed(e)), k + 1)
        case Success(again) =>
          if !Found(again) then
            SaveNewProfile(bot.db, a, now);
            StoredNewProfileBelongs(a, now);
            match Profiles.Save(Calls.Answered(net, k + 2), bot.db, NewProfile(a, now), now)
            case Failure(e) => Progress(bot, Some(StoreFailed(e)), k + 2)
            case Success(db') => Progress(Bot(db', bot.cache + [NewProfile(a, now)]), None, k + 3)
          else Progress(bot, None, k + 2)
  }

  lemma ScanMeasure(cache: seq<Doc>, ext: seq<Doc>, i: nat, key: string)
    requires i < |cache| && !HasUserId(cache[i], key) && ExtendsByOwn(ext, cache, key)
    ensures NonMatching(ext[i + 1..], key) < NonMatching(cache[i..], key)
  {
    assert cache[i..][1..] == cache[i + 1..];
    if ext != cache {
      assert ext[i + 1..] == cache[i + 1..] + [ext[|cache|]];
      NonMatchingAppend(cache[i + 1..], ext[|cache|], key);
    }
  }

  /** The scan over the cache from position `i`, whose next store call is call `k`.
      Python's `for` also visits the elements appended while it runs; they all belong to
      the author, so each is passed over. A failed call ends the scan with the profiles
      cached and saved so far kept. */
  function ScanCache(bot: Bot, i: nat, a: Author, now: nat, net: seq<bool>, k: nat): (r: Progress)
    requires i <= |bot.cache|
    ensures |r.bot.cache| >= |bot.cache| && r.bot.cache[..|bot.cache|] == bot.cache
    ensures forall j :: |bot.cache| <= j < |r.bot.cache| ==> HasUserId(r.bot.cache[j], AuthorKey(a))
    ensures SavedAtMostNew(r.bot.db, bot.db, a, now)
    ensures r.raised.Some? ==> r.raised.value.StoreFailed?
    ensures Calls.Reliable(net) ==> r.raised.None?
    ensures k <= r.next
    ensures !Calls.Answered(net, k) ==>
      r.bot == bot && r.next == k && (r.raised.None? || r.raised == Some(StoreFailed(Store.RuntimeError(Store.Find))))
    decreases NonMatching(bot.cache[i..], AuthorKey(a)), |bot.cache| - i
  {
    var key := AuthorKey(a);
    if i == |bot.cache| then Progress(bot, None, k)
    else if HasUserId(bot.cache[i], key) then
      assert bot.cache[i..][1..] == bot.cache[i + 1..];
      ScanCache(bot, i + 1, a, now, net, k)
    else
      var step := ScanStep(bot, a, now, net, k);
      if step.raised.Some? then step
      else
        ScanMeasure(bot.cache, step.bot.cache, i, key);
        var r := ScanCache(step.bot, i + 1, a, now, net, step.next);
        ScanCompose(bot.db, bot.cache, step.bot.db, step.bot.cache, r.bot.db, r.bot.cache, a, now);
        r
  }

  /** One scan step followed by the rest of the scan still only appends the author's
      profiles and saves at most the new author's profile. */
  lemma ScanCompose(db: Db, cache: seq<Doc>, db1: Db, cache1: seq<Doc>, db2: Db, cache2: seq<Doc>, a: Author, now: nat)
    requires ExtendsByOwn(cache1, cache, AuthorKey(a)) && SavedAtMostNew(db1, db, a, now)
    requires |cache2| >= |cache1| && cache2[..|cache1|] == cache1
    requires forall j :: |cache1| <= j < |cache2| ==> HasUserId(cache2[j], AuthorKey(a))
    requires SavedAtMostNew(db2, db1, a, now)
    ensures |cache2| >= |cache| && cache2[..|cache|] == cache
    ensures forall j :: |cache| <= j < |cache2| ==> HasUserId(cache2[j], AuthorKey(a))
    ensures SavedAtMostNew(db2, db, a, now)
  {
    AfterSaveHasProfile(db, a, now);
    assert cache2[..|cache|] == cache1[..|cache|];
  }

  /** The lookup after the scan (call `k`): cache the stored profile, or save (call
      `k + 1`) and cache a new one when the store has none. */
  function Settle(bot: Bot, a: Author, now: nat, net: seq<bool>, k: nat): (r: Progress)
    ensures !Calls.Answered(net, k) ==> r == Progress(bot, Some(StoreFailed(Store.RuntimeError(Store.Find))), k)
    ensures r.raised.None? <==>
      Calls.Answered(net, k) && (NoProfile(bot.db.profiles, AuthorKey(a)) ==> Calls.Answered(net, k + 1))
    ensures r.raised.Some? ==> r.bot == bot && r.raised.value.StoreFailed?
    ensures r.raised.None? ==> r.bot.db == Settled(bot.db, a, now)
    ensures r.raised.None? ==>
      |r.bot.cache| == |bot.cache| + 1 && r.bot.cache[..|bot.cache|] == bot.cache
      && HasUserId(r.bot.cache[|bot.cache|], AuthorKey(a))
    ensures r.raised.None? ==> r.next == if NoProfile(bot.db.profiles, AuthorKey(a)) then k + 2 else k + 1
  {
    var key := AuthorKey(a);
    match FindById(Calls.Answered(net, k), bot.db, key)
    case Failure(e) => Progress(bot, Some(StoreFailed(e)), k)
    case Success(found) =>
      FoundBelongs(bot.db, key);
      if found.Some? then Progress(bot.(cache := bot.cache + [found.value]), None, k + 1)
      else
        SaveNewProfile(bot.db, a, now);
        StoredNewProfileBelongs(a, now);
        match Profiles.Save(Calls.Answered(net, k + 1), bot.db, NewProfile(a, now), now)
        case Failure(e) => Progress(bot, Some(StoreFailed(e)), k + 1)
        case Success(db2) => Progress(Bot(db2, bot.cache + [NewProfile(a, now)]), None, k + 2)
  }

  /** After a scan that saved at most the new author's profile, settling gives the same
      store as settling right away would. */
  lemma SettleAfterScan(db: Db, db1: Db, a: Author, now: nat)
    requires SavedAtMostNew(db1, db, a, now)
    ensures Settled(db1, a, now) == Settled(db, a, now)
  {
    AfterSaveHasProfile(db, a, now);
  }

  /** Resolve-or-create, starting at the handler's first store call: the cache scan, then
      an unconditional lookup that caches the stored profile, or saves and caches a new
      one when the store has none. */
  function Resolve(bot: Bot, a: Author, now: nat, net: seq<bool>): (r: Progress)
    ensures !Calls.Answered(net, 0) ==> r == Progress(bot, Some(StoreFailed(Store.RuntimeError(Store.Find))), 0)
    ensures Calls.Reliable(net) ==> r.raised.None?
    ensures r.raised.None? ==> r.bot.db == Settled(bot.db, a, now)
    ensures r.raised.Some? ==> r.raised.value.StoreFailed? && SavedAtMostNew(r.bot.db, bot.db, a, now)
    ensures |r.bot.cache| >= |bot.cache| && r.bot.cache[..|bot.cache|] == bot.cache
    ensures r.raised.None? ==> |r.bot.cache| > |bot.cache|
    ensures forall j :: |bot.cache| <= j < |r.bot.cache| ==> HasUserId(r.bot.cache[j], AuthorKey(a))
  {
    var scanned := ScanCache(bot, 0, a, now, net, 0);
    if scanned.raised.Some? then scanned
    else
      SettleAfterScan(bot.db, scanned.bot.db, a, now);
      var r := Settle(scanned.bot, a, now, net, scanned.next);
      assert r.bot.cache[..|bot.cache|] == scanned.bot.cache[..|bot.cache|];
      r
  }

  /** The level step on the author's first stored profile: the lookup is call `k` and the
      update call `k + 1`. An int level L is replaced by the text `LevelText(Advance(L))`;
      any other stored value raises before the update. */
  function StepLevel(bot: Bot, key: string, net: seq<bool>, k: nat): (r: Handled)
    ensures r.bot.cache == bot.cache
    ensures r.raised.Some? ==> r.bot == bot
    ensures Calls.Answered(net, k) && Calls.Answered(net, k + 1) ==> r.raised.None? || r.raised == Some(LevelNotInt)
    ensures !Calls.Answered(net, k) ==> r == Handled(bot, Some(StoreFailed(Store.RuntimeError(Store.Find))))
    ensures Calls.Answered(net, k) ==> match FirstWithId(bot.db.profiles, key)
      case None => r == Handled(bot, None)
      case Some(i) =>
        var level := Get(bot.db.profiles[i], "level");
        if !level.Int? then r == Handled(bot, Some(LevelNotInt))
        else if Calls.Answered(net, k + 1) then
          r == Handled(bot.(db := bot.db.(profiles := bot.db.profiles[i := bot.db.profiles[i]["level" := Str(LevelText(Advance(level.i)))]])), None)
        else r == Handled(bot, Some(StoreFailed(Store.RuntimeError(Store.Update))))
  {
    match FindById(Calls.Answered(net, k), bot.db, key)
    case Failure(e) => Handled(bot, Some(StoreFailed(e)))
    case Success(usr) =>
      FoundBelongs(bot.db, key);
      if !Found(usr) then Handled(bot, None)
      else
        match StepStoredLevel(Get(usr.value, "level"))
        case Failure(_) => Handled(bot, Some(LevelNotInt))
        case Success(text) =>
          match UpdateById(Calls.Answered(net, k + 1), bot.db, StrId(key), "level", text)
          case Failure(e) => Handled(bot, Some(StoreFailed(e)))
          case Success(res) =>
            var i := FirstWithId(bot.db.profiles, key).value;
            assert res.0.profiles == bot.db.profiles[i := bot.db.profiles[i]["level" := text]];
            Handled(Bot(res.0, bot.cache), None)
  }

  /** `on_message`, given the server's answers to its store calls in order. Messages from
      bots are ignored. Otherwise the author's profile is resolved or created, the cache
      grows, and the level step runs. An exception leaves the profiles cached and saved
      before it in place, and no level changed. */
  function OnMessage(bot: Bot, a: Author, now: nat, net: seq<bool>): (r: Handled)
    ensures a.isBot ==> r == Handled(bot, None)
    ensures !a.isBot && !Calls.Answered(net, 0) ==> r == Handled(bot, Some(StoreFailed(Store.RuntimeError(Store.Find))))
    ensures !a.isBot && Calls.Reliable(net) ==> r.raised.None? || r.raised == Some(LevelNotInt)
    ensures |r.bot.cache| >= |bot.cache| && r.bot.cache[..|bot.cache|] == bot.cache
    ensures forall j :: |bot.cache| <= j < |r.bot.cache| ==> HasUserId(r.bot.cache[j], AuthorKey(a))
    ensures !a.isBot && Calls.Reliable(net) ==> |r.bot.cache| > |bot.cache|
    ensures r.raised.Some? ==> SavedAtMostNew(r.bot.db, bot.db, a, now)
    ensures r.bot.db.colors == bot.db.colors && r.bot.db.rules == bot.db.rules
  {
    if a.isBot then Handled(bot, None)
    else
      var resolved := Resolve(bot, a, now, net);
      if resolved.raised.Some? then Handled(resolved.bot, resolved.raised)
      else StepLevel(resolved.bot, AuthorKey(a), net, resolved.next)
  }

  // ---------------------------------------------------------------------------
  // Lemmas

  /** The level step on a profile known to be the author's first, when both of its calls
      are answered. */
  lemma StepLevelAt(bot: Bot, key: string, i: nat, net: seq<bool>, k: nat)
    requires Calls.Answered(net, k) && Calls.Answered(net, k + 1) && IsFirstWithId(bot.db.profiles, key, i)
    ensures var level := Get(bot.db.profiles[i], "level");
            (level.Int? ==>
               StepLevel(bot, key, net, k) ==
               Handled(bot.(db := bot.db.(profiles := bot.db.profiles[i := bot.db.profiles[i]["level" := Str(LevelText(Advance(level.i)))]])), None))
            && (!level.Int? ==> StepLevel(bot, key, net, k) == Handled(bot, Some(LevelNotInt)))
  {
    var j := FirstWithId(bot.db.profiles, key).value;
    FirstIsUnique(bot.db.profiles, key, i, j);
  }

  /** A message from a new author stores exactly one profile for it: colour "default",
      the author's names, and the level after one step, "5/1000". */
  lemma FirstMessageCreatesProfile(bot: Bot, a: Author, now: nat, net: seq<bool>)
    requires !a.isBot && Calls.Reliable(net) && NoProfile(bot.db.profiles, AuthorKey(a))
    ensures var r := OnMessage(bot, a, now, net);
            r.raised.None?
            && r.bot.db.profiles == bot.db.profiles + [StoredNewProfile(a, now)["level" := Str("5/1000")]]
  {
    var key := AuthorKey(a);
    var ps := bot.db.profiles;
    var resolved := Resolve(bot, a, now, net);
    OnMessageAfterResolve(bot, a, now, net);
    var ps1 := resolved.bot.db.profiles;
    assert ps1 == ps + [StoredNewProfile(a, now)];
    StoredNewProfileBelongs(a, now);
    StoredNewProfileLevel(a, now);
    assert IsFirstWithId(ps1, key, |ps|);
    StepLevelAt(resolved.bot, key, |ps|, net, resolved.next);
    FirstStepText();
    assert LevelText(Advance(0)) == "5/1000";
    ReplaceLast(ps, StoredNewProfile(a, now), StoredNewProfile(a, now)["level" := Str("5/1000")]);
  }

  /** Once the profile is resolved without an exception, the message's outcome is the
      level step's, whose calls follow resolve-or-create's. */
  lemma OnMessageAfterResolve(bot: Bot, a: Author, now: nat, net: seq<bool>)
    requires !a.isBot && Resolve(bot, a, now, net).raised.None?
    ensures var resolved := Resolve(bot, a, now, net);
            OnMessage(bot, a, now, net) == StepLevel(resolved.bot, AuthorKey(a), net, resolved.next)
  {
  }

  lemma StoredNewProfileLevel(a: Author, now: nat)
    ensures Get(StoredNewProfile(a, now), "level") == Int(0)
  {
  }

  lemma ReplaceLast(ps: seq<Doc>, x: Doc, y: Doc)
    ensures (ps + [x])[|ps| := y] == ps + [y]
  {
  }

  /** A message from an author who has a profile adds no profile; the first profile of
      the author gets the next level text when its level is an int, and otherwise the
      handler raises and the store is left as it was. */
  lemma KnownAuthorSteps(bot: Bot, a: Author, now: nat, net: seq<bool>, i: nat)
    requires !a.isBot && Calls.Reliable(net) && IsFirstWithId(bot.db.profiles, AuthorKey(a), i)
    ensures var r := OnMessage(bot, a, now, net);
            var level := Get(bot.db.profiles[i], "level");
            (level.Int? ==> (r.raised.None? && r.bot.db.profiles ==
               bot.db.profiles[i := bot.db.profiles[i]["level" := Str(LevelText(Advance(level.i)))]]))
            && (!level.Int? ==> r.raised == Some(LevelNotInt) && r.bot.db == bot.db)
  {
    var resolved := Resolve(bot, a, now, net);
    assert resolved.bot.db == bot.db;
    StepLevelAt(resolved.bot, AuthorKey(a), i, net, resolved.next);
  }

  /** The level step never changes how many profiles an id has. */
  lemma StepLevelKeepsCounts(bot: Bot, key: string, net: seq<bool>, k: nat, id: string)
    ensures CountId(StepLevel(bot, key, net, k).bot.db.profiles, id) == CountId(bot.db.profiles, id)
  {
    var ps := bot.db.profiles;
    if Calls.Answered(net, k) && Calls.Answered(net, k + 1) {
      match FirstWithId(ps, key)
      case None =>
      case Some(i) =>
        if Get(ps[i], "level").Int? {
          CountKeepsOnOtherField(ps, i, "level", Str(LevelText(Advance(Get(ps[i], "level").i))), id);
        }
    }
  }

  /** The store never gains a second profile for an id it holds, whichever store calls
      fail: a message adds at most one profile, for its author, and only when the author
      had none. */
  lemma NeverASecondProfile(bot: Bot, a: Author, now: nat, net: seq<bool>, id: string)
    ensures var after := OnMessage(bot, a, now, net).bot.db.profiles;
            || CountId(after, id) == CountId(bot.db.profiles, id)
            || (id == AuthorKey(a) && CountId(bot.db.profiles, id) == 0 && CountId(after, id) == 1)
  {
    var key := AuthorKey(a);
    var ps := bot.db.profiles;
    CountZeroIffNone(ps, key);
    StoredNewProfileBelongs(a, now);
    CountAppend(ps, StoredNewProfile(a, now), id);
    if !a.isBot {
      var resolved := Resolve(bot, a, now, net);
      if resolved.raised.None? {
        StepLevelKeepsCounts(resolved.bot, key, net, resolved.next, id);
      }
    }
  }

  /** With every store call answered, the count is exact: a message adds one profile for
      its author when there was none, and leaves every count alone otherwise. */
  lemma OneProfilePerAuthor(bot: Bot, a: Author, now: nat, net: seq<bool>, id: string)
    requires !a.isBot && Calls.Reliable(net)
    ensures var after := OnMessage(bot, a, now, net).bot.db.profiles;
            CountId(after, id) ==
              CountId(bot.db.profiles, id) + (if id == AuthorKey(a) && CountId(bot.db.profiles, id) == 0 then 1 else 0)
  {
    var key := AuthorKey(a);
    var ps := bot.db.profiles;
    var resolved := Resolve(bot, a, now, net);
    CountZeroIffNone(ps, key);
    StoredNewProfileBelongs(a, now);
    CountAppend(ps, StoredNewProfile(a, now), id);
    StepLevelKeepsCounts(resolved.bot, key, net, resolved.next, id);
  }

  /** A partial outcome: with one foreign profile cached and the author's profile stored,
      the scan's lookup caches the author's profile, and then the lookup after the scan is
      not answered. The handler raises with the cache grown and the store as it was. */
  lemma CachedThenLookupFails(bot: Bot, a: Author, now: nat, q: Doc, i: nat)
    requires !a.isBot && bot.cache == [q] && !HasUserId(q, AuthorKey(a))
    requires IsFirstWithId(bot.db.profiles, AuthorKey(a), i)
    ensures OnMessage(bot, a, now, [true, false])
            == Handled(Bot(bot.db, [q, bot.db.profiles[i]]), Some(StoreFailed(Store.RuntimeError(Store.Find))))
  {
    var key := AuthorKey(a);
    var p := bot.db.profiles[i];
    var found := FindById(true, bot.db, key).value;
    assert found == Some(p) by {
      var i' :| IsFirstWithId(bot.db.profiles, key, i') && bot.db.profiles[i'] == found.value;
      FirstIsUnique(bot.db.profiles, key, i, i');
    }
    assert HasUserId(p, key);
    var step := ScanStep(bot, a, now, [true, false], 0);
    assert step == Progress(Bot(bot.db, [q, p]), None, 1);
    var b1 := Bot(bot.db, [q, p]);
    assert ScanCache(b1, 2, a, now, [true, false], 1) == Progress(b1, None, 1);
    assert b1.cache[1..][1..] == b1.cache[2..];
    assert ScanCache(b1, 1, a, now, [true, false], 1) == Progress(b1, None, 1);
    var scanned := ScanCache(bot, 0, a, now, [true, false], 0);
    assert scanned == Progress(Bot(bot.db, [q, p]), None, 1);
  }

  /** A partial outcome: a new author's profile is saved and cached, and then the level
      step's lookup is not answered. The handler raises with the new profile stored at
      level 0. */
  lemma SavedThenLevelLookupFails(bot: Bot, a: Author, now: nat)
    requires !a.isBot && bot.cache == [] && NoProfile(bot.db.profiles, AuthorKey(a))
    ensures OnMessage(bot, a, now, [true, true, false])
            == Handled(Bot(bot.db.(profiles := bot.db.profiles + [StoredNewProfile(a, now)]), [NewProfile(a, now)]),
                       Some(StoreFailed(Store.RuntimeError(Store.Find))))
  {
    SaveNewProfile(bot.db, a, now);
  }

  /** As written, the level advances once only: after a new author's first message the
      level is the string "5/1000", and every later message from the author raises
      before updating it. */
  lemma LevelStallsAfterFirstMessage(bot: Bot, a: Author, now1: nat, now2: nat, net1: seq<bool>, net2: seq<bool>)
    requires !a.isBot && Calls.Reliable(net1) && Calls.Reliable(net2) && NoProfile(bot.db.profiles, AuthorKey(a))
    ensures var first := OnMessage(bot, a, now1, net1);
            var second := OnMessage(first.bot, a, now2, net2);
            second.raised == Some(LevelNotInt) && second.bot.db == first.bot.db
  {
    var first := OnMessage(bot, a, now1, net1);
    AfterFirstMessage(bot, a, now1, net1);
    KnownAuthorSteps(first.bot, a, now2, net2, |bot.db.profiles|);
  }

  /** After a new author's first message, the author's first profile is the one just
      appended, and its level holds the text "5/1000". */
  lemma AfterFirstMessage(bot: Bot, a: Author, now: nat, net: seq<bool>)
    requires !a.isBot && Calls.Reliable(net) && NoProfile(bot.db.profiles, AuthorKey(a))
    ensures var first := OnMessage(bot, a, now, net);
            && IsFirstWithId(first.bot.db.profiles, AuthorKey(a), |bot.db.profiles|)
            && Get(first.bot.db.profiles[|bot.db.profiles|], "level") == Str("5/1000")
  {
    var key := AuthorKey(a);
    FirstMessageCreatesProfile(bot, a, now, net);
    var stepped := StoredNewProfile(a, now)["level" := Str("5/1000")];
    StoredNewProfileBelongs(a, now);
    LevelUpdateKeepsId(StoredNewProfile(a, now), key, Str("5/1000"));
    AppendedIsFirst(bot.db.profiles, stepped, key);
  }

  /** A profile appended for an id that had none is that id's first. */
  lemma AppendedIsFirst(ps: seq<Doc>, d: Doc, key: string)
    requires NoProfile(ps, key) && HasUserId(d, key)
    ensures IsFirstWithId(ps + [d], key, |ps|) && (ps + [d])[|ps|] == d
  {
  }

  /** Setting the level keeps the profile's owner. */
  lemma LevelUpdateKeepsId(d: Doc, key: string, v: Value)
    requires HasUserId(d, key)
    ensures HasUserId(d["level" := v], key)
  {
  }
}
