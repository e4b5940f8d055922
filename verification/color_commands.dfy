/** The colour slash commands: `add_color`, `remove_color`, `change_color` and the
    autocompletion of colour names. The platform's guild is reduced to its roles in
    the platform's order and the invoking member's roles; replies are values. A handler
    making one store call is given whether the server answers it; one making several is
    given the server's answers to its calls in order (`Calls.Answered`). */
module ColorCommands {
  import opened Wrappers
  import opened Text
  import Store
  import Calls
  import opened Schema
  import opened Seqs
  import opened Choices
  import Profiles
  import Colors

  /** A guild role: its snowflake id and display name. */
  datatype Role = Role(id: nat, name: string)

  /** What the colour commands read and change: the database, the guild's roles and
      the roles of the member who invoked the command. */
  datatype World = World(db: Db, guildRoles: seq<Role>, memberRoles: set<Role>)

  /** The message a command answers with. */
  datatype Reply =
    | CouldNotCreateRole(name: string)
    | CreatedColor(name: string)
    | NotAColor
    | RemovedColor
    | NoProfile
    | UpdatedColor(oldColor: string, newColor: string)
    | UpdateFailed(oldColor: string, newColor: string)

  /** What a command raises instead of answering. */
  datatype Raised =
    | StoreFailed(error: Store.StoreError)
    /** `None` handed to the platform where a role was expected. */
    | NoRoleSelected
    /** `.lower()` on a stored colour that is not a string. */
    | OldColorNotAString
    /** `discord.HTTPException`: the platform did not answer a role call. */
    | PlatformFailed

  datatype Outcome = Outcome(world: World, reply: Result<Reply, Raised>)

  const NoColorsChoice := Choice("Could not find any colors!", "Could not find any colors!")

  // ---------------------------------------------------------------------------
  // Catalog tests

  /** `name.lower()` is among the lower-cased catalog names. */
  predicate IsCatalogName(colors: seq<ColorDoc>, name: string) {
    exists i :: 0 <= i < |colors| && Lower(colors[i].name) == Lower(name)
  }

  /** Some lower-cased catalog name contains `needle`. */
  predicate IsListed(colors: seq<ColorDoc>, needle: string) {
    exists i :: 0 <= i < |colors| && Contains(Lower(colors[i].name), needle)
  }

  /** The validation loop: `found` becomes true at the first catalog name that contains
      the lower-cased request and is never reset, because later names are skipped. */
  function AnyNameContains(colors: seq<ColorDoc>, needle: string): (r: bool)
    ensures r <==> IsListed(colors, needle)
    decreases |colors|
  {
    if |colors| == 0 then false
    else if Contains(Lower(colors[0].name), needle) then true
    else
      var rest := AnyNameContains(colors[1..], needle);
      assert forall i :: 1 <= i < |colors| ==> colors[i] == colors[1..][i - 1];
      rest
  }

  /** A role whose lower-cased name has the same lower-cased spelling as a catalog entry. */
  predicate IsColorRole(r: Role, colors: seq<ColorDoc>) {
    exists i :: 0 <= i < |colors| && Lower(r.name) == Lower(colors[i].name)
  }

  /** Every role the member holds is a role of the guild. */
  predicate HoldsGuildRoles(w: World) {
    forall x :: x in w.memberRoles ==> x in w.guildRoles
  }

  function HeldBy(held: set<Role>): Role -> bool {
    (x: Role) => x in held
  }

  /** `interaction.user.roles`: the roles the member holds as the platform lists them, in
      the guild's role order. */
  function Listed(w: World): (r: seq<Role>)
    ensures forall x :: x in r <==> x in w.guildRoles && x in w.memberRoles
  {
    Filter(w.guildRoles, HeldBy(w.memberRoles))
  }

  /** The roles the revocation loop removes: listed colour roles spelled other than the request. */
  function Stale(listed: seq<Role>, colors: seq<ColorDoc>, request: string): set<Role> {
    set r | r in listed && IsColorRole(r, colors) && Lower(r.name) != Lower(request)
  }

  /** `role.name.lower() == profile_color.get("name").lower() and role.name.lower() != color.lower()` */
  predicate Revokes(x: Role, c: ColorDoc, request: string) {
    Lower(x.name) == Lower(c.name) && Lower(x.name) != Lower(request)
  }

  /** The `remove_roles` calls the inner loop makes for one listed role: one per catalog
      entry spelled like it. */
  function RevokeCalls(x: Role, colors: seq<ColorDoc>, request: string): (r: seq<Role>)
    ensures |r| <= |colors|
    ensures forall j :: 0 <= j < |r| ==> r[j] == x
    ensures |r| > 0 <==> IsColorRole(x, colors) && Lower(x.name) != Lower(request)
    decreases |colors|
  {
    if |colors| == 0 then []
    else
      var rest := RevokeCalls(x, colors[1..], request);
      assert forall i :: 1 <= i < |colors| ==> colors[i] == colors[1..][i - 1];
      assert IsColorRole(x, colors[1..]) ==> IsColorRole(x, colors);
      (if Revokes(x, colors[0], request) then [x] else []) + rest
  }

  /** The `remove_roles` calls of the revocation loop, in the order it makes them: the
      listed roles in turn, each once per catalog entry spelled like it. Exactly the stale
      roles are revoked. */
  function Revocations(listed: seq<Role>, colors: seq<ColorDoc>, request: string): (r: seq<Role>)
    ensures forall x :: x in r <==> x in Stale(listed, colors, request)
    decreases |listed|
  {
    if |listed| == 0 then []
    else
      var here := RevokeCalls(listed[0], colors, request);
      var rest := Revocations(listed[1..], colors, request);
      assert listed == [listed[0]] + listed[1..];
      assert |here| > 0 ==> here[0] in here;
      here + rest
  }

  /** The roles the first `m` revocation calls removed. */
  function Revoked(calls: seq<Role>, m: nat): set<Role>
    requires m <= |calls|
  {
    set j | 0 <= j < m :: calls[j]
  }

  /** `role.name.lower() in color.lower()` */
  function RoleWithin(request: string): Role -> bool {
    (r: Role) => Contains(Lower(request), Lower(r.name))
  }

  /** `role.name.lower().title() == color_name.lower().title()` */
  function SameTitle(colorName: string): Role -> bool {
    (r: Role) => Title(Lower(r.name)) == Title(Lower(colorName))
  }

  /** Every name stored by `add_color` is a fixed point of title-casing. */
  predicate TitledCatalog(colors: seq<ColorDoc>) {
    forall i :: 0 <= i < |colors| ==> Title(colors[i].name) == colors[i].name
  }

  // ---------------------------------------------------------------------------
  // add_color

  /** `add_color`. `created` says whether the platform created the role (it fails, among
      other reasons, when the colour value does not parse); `newId` is the id it assigns;
      `up` is whether the server answers the insertion. The role is named exactly as given,
      the catalog entry is stored title-cased, and there is no duplicate check. A store
      failure raises after the role exists. */
  function AddColor(w: World, invokerId: int, name: string, value: string, created: bool, newId: nat, up: bool): (r: Outcome)
    ensures !created ==> r == Outcome(w, Success(CouldNotCreateRole(name)))
    ensures created ==> r.world.guildRoles == w.guildRoles + [Role(newId, name)]
    ensures r.world.memberRoles == w.memberRoles
    ensures created && up ==>
      r.reply == Success(CreatedColor(name))
      && r.world.db == w.db.(colors := w.db.colors + [ColorDoc(Title(Lower(name)), value, invokerId)])
    ensures created && !up ==>
      r.reply == Failure(StoreFailed(Store.RuntimeError(Store.Insert))) && r.world.db == w.db
  {
    if !created then Outcome(w, Success(CouldNotCreateRole(name)))
    else
      var withRole := w.(guildRoles := w.guildRoles + [Role(newId, name)]);
      match Colors.Save(up, w.db, ColorDoc(Title(Lower(name)), value, invokerId))
      case Failure(e) => Outcome(withRole, Failure(StoreFailed(e)))
      case Success(db) =>
        assert db.colors == db.colors[..|w.db.colors|] + [db.colors[|w.db.colors|]];
        Outcome(withRole.(db := db), Success(CreatedColor(name)))
  }

  // ---------------------------------------------------------------------------
  // remove_color

  /** The guild and member after the selected role is deleted from the guild. */
  function WithoutRole(w: World, k: nat): World
    requires k < |w.guildRoles|
  {
    w.(guildRoles := w.guildRoles[..k] + w.guildRoles[k + 1..], memberRoles := w.memberRoles - {w.guildRoles[k]})
  }

  /** The reply once role `k` is deleted: the lookup (call 2) and the deletion (call 3) of
      `remove_color_by_name` each raise when the server does not answer. */
  function RemovalReply(net: seq<bool>): Result<Reply, Raised> {
    if !Calls.Answered(net, 2) then Failure(StoreFailed(Store.RuntimeError(Store.Find)))
    else if !Calls.Answered(net, 3) then Failure(StoreFailed(Store.RuntimeError(Store.Delete)))
    else Success(RemovedColor)
  }

  /** `remove_color` as written. The catalog is read twice (calls 0 and 1), once per
      membership check; the last guild role with the same title-cased name is deleted; then
      the catalog entry is removed under `color_name.lower()` (calls 2 and 3), which the
      collection matches exactly after normalising. A store failure at any call raises and
      keeps whatever happened before it: a failure of the removal keeps the role deleted. */
  function RemoveColor(w: World, colorName: string, net: seq<bool>): (r: Outcome)
    ensures !Calls.Answered(net, 0) ==> r == Outcome(w, Failure(StoreFailed(Store.RuntimeError(Store.FetchAll))))
    ensures Calls.Answered(net, 0) && !IsCatalogName(w.db.colors, colorName) ==> r == Outcome(w, Success(NotAColor))
    ensures Calls.Answered(net, 0) && IsCatalogName(w.db.colors, colorName) && !Calls.Answered(net, 1) ==>
      r == Outcome(w, Failure(StoreFailed(Store.RuntimeError(Store.FetchAll))))
    ensures Calls.Answered(net, 0) && Calls.Answered(net, 1) && IsCatalogName(w.db.colors, colorName)
            && (forall j :: 0 <= j < |w.guildRoles| ==> !SameTitle(colorName)(w.guildRoles[j])) ==>
      r == Outcome(w, Failure(NoRoleSelected))
    ensures r.reply == Success(RemovedColor) ==> r.world.db == Colors.RemoveColorByName(true, true, w.db, Lower(colorName)).value.0
    ensures r.reply != Success(RemovedColor) ==> r.world.db == w.db
  {
    match Colors.GetColors(Calls.Answered(net, 0), w.db)
    case Failure(e) => Outcome(w, Failure(StoreFailed(e)))
    case Success(colors) =>
      if !IsCatalogName(colors, colorName) then Outcome(w, Success(NotAColor))
      else match Colors.GetColors(Calls.Answered(net, 1), w.db)
        case Failure(e) => Outcome(w, Failure(StoreFailed(e)))
        case Success(again) =>
          SecondCheckRedundant(again, colorName);
          if !AnyNameContains(again, Lower(colorName)) then Outcome(w, Success(NotAColor))
          else match LastWhere(w.guildRoles, SameTitle(colorName))
          case None => Outcome(w, Failure(NoRoleSelected))
          case Some(k) => RemoveSelected(w, colorName, net, k)
  }

  /** The end of `remove_color` once role `k` is selected: the role is deleted from the
      guild (and so from the member) before the store is touched, then the catalog entry
      is looked up (call 2) and deleted (call 3). */
  function RemoveSelected(w: World, colorName: string, net: seq<bool>, k: nat): (r: Outcome)
    requires k < |w.guildRoles|
    ensures r.world.guildRoles == w.guildRoles[..k] + w.guildRoles[k + 1..]
    ensures r.world.memberRoles == w.memberRoles - {w.guildRoles[k]}
    ensures r.reply == RemovalReply(net)
    ensures r.reply == Success(RemovedColor) ==> r.world.db == Colors.RemoveColorByName(true, true, w.db, Lower(colorName)).value.0
    ensures r.reply != Success(RemovedColor) ==> r.world.db == w.db
  {
    var w1 := WithoutRole(w, k);
    match Colors.RemoveColorByName(Calls.Answered(net, 2), Calls.Answered(net, 3), w.db, Lower(colorName))
    case Failure(e) => Outcome(w1, Failure(StoreFailed(e)))
    case Success(res) => Outcome(w1.(db := res.0), Success(RemovedColor))
  }

  /** `Lower(c.name) == Lower(colorName)`: the case-insensitive match the membership check uses. */
  function SameName(colorName: string): ColorDoc -> bool {
    (c: ColorDoc) => Lower(c.name) == Lower(colorName)
  }

  /** `remove_color` as evidently intended: the catalog entry removed is the first one the
      membership check recognised, compared case-insensitively. The calls are those of
      `RemoveColor`. */
  function RemoveColorIntended(w: World, colorName: string, net: seq<bool>): (r: Outcome)
    ensures !Calls.Answered(net, 0) ==> r == Outcome(w, Failure(StoreFailed(Store.RuntimeError(Store.FetchAll))))
    ensures Calls.Answered(net, 0) && !IsCatalogName(w.db.colors, colorName) ==> r == Outcome(w, Success(NotAColor))
    ensures Calls.Answered(net, 0) && IsCatalogName(w.db.colors, colorName) && !Calls.Answered(net, 1) ==>
      r == Outcome(w, Failure(StoreFailed(Store.RuntimeError(Store.FetchAll))))
    ensures Calls.Answered(net, 0) && Calls.Answered(net, 1) && IsCatalogName(w.db.colors, colorName)
            && (forall j :: 0 <= j < |w.guildRoles| ==> !SameTitle(colorName)(w.guildRoles[j])) ==>
      r == Outcome(w, Failure(NoRoleSelected))
    ensures r.reply == Success(RemovedColor) ==>
      exists i :: Store.IsFirst(w.db.colors, SameName(colorName), i)
        && r.world.db == w.db.(colors := w.db.colors[..i] + w.db.colors[i + 1..])
    ensures r.reply != Success(RemovedColor) ==> r.world.db == w.db
  {
    match Colors.GetColors(Calls.Answered(net, 0), w.db)
    case Failure(e) => Outcome(w, Failure(StoreFailed(e)))
    case Success(colors) =>
      if !IsCatalogName(colors, colorName) then Outcome(w, Success(NotAColor))
      else match Colors.GetColors(Calls.Answered(net, 1), w.db)
        case Failure(e) => Outcome(w, Failure(StoreFailed(e)))
        case Success(again) =>
          match LastWhere(w.guildRoles, SameTitle(colorName))
          case None => Outcome(w, Failure(NoRoleSelected))
          case Some(k) =>
            var w1 := WithoutRole(w, k);
            CatalogNameMatches(colors, colorName);
            match Store.FindOne(Calls.Answered(net, 2), colors, SameName(colorName))
            case Failure(e) => Outcome(w1, Failure(StoreFailed(e)))
            case Success(_) =>
              match Store.DeleteOne(Calls.Answered(net, 3), colors, SameName(colorName))
              case Failure(e) => Outcome(w1, Failure(StoreFailed(e)))
              case Success(res) => Outcome(w1.(db := w.db.(colors := res.0)), Success(RemovedColor))
  }

  /** A catalog name matches some entry case-insensitively. */
  lemma CatalogNameMatches(colors: seq<ColorDoc>, colorName: string)
    requires IsCatalogName(colors, colorName)
    ensures !Store.NoMatch(colors, SameName(colorName))
  {
    var i :| 0 <= i < |colors| && Lower(colors[i].name) == Lower(colorName);
    assert SameName(colorName)(colors[i]);
  }

  // ---------------------------------------------------------------------------
  // change_color

  /** The reply once the profile update has run; it reads the stored colour with `.lower()`. */
  function ChangeReply(user: Doc, request: string, modified: bool): (r: Result<Reply, Raised>)
    ensures r.Failure? <==> !Get(user, "color").Str?
    ensures r.Success? ==> r.value == if modified then UpdatedColor(Lower(Get(user, "color").s), request)
                                      else UpdateFailed(Lower(Get(user, "color").s), request)
  {
    match Get(user, "color")
    case Str(stored) => Success(if modified then UpdatedColor(Lower(stored), request) else UpdateFailed(Lower(stored), request))
    case _ => Failure(OldColorNotAString)
  }

  /** The part of `change_color` once role `k` is selected. The role is granted (call 2),
      the lower-cased request stored as the profile's colour (call 3), and, when that
      changed the profile, the revocation loop removes the stale roles one call at a time
      (calls 4 on). The roles it iterates over are those listed before the grant: the
      platform does not refresh the member's local role list. The first call that is not
      answered raises and keeps what the earlier ones did. */
  function Grant(w: World, user: Doc, colors: seq<ColorDoc>, userId: int, request: string, net: seq<bool>, k: nat): (r: Outcome)
    requires k < |w.guildRoles|
    ensures r.world.guildRoles == w.guildRoles
    ensures r.world.db == w.db.(profiles := r.world.db.profiles)
    ensures w.memberRoles - r.world.memberRoles <= Stale(Listed(w), colors, request)
    ensures r.world.memberRoles - w.memberRoles <= {w.guildRoles[k]}
    ensures !Calls.Answered(net, 2) ==> r == Outcome(w, Failure(PlatformFailed))
    ensures Calls.Answered(net, 2) && !Calls.Answered(net, 3) ==>
      r == Outcome(w.(memberRoles := w.memberRoles + {w.guildRoles[k]}), Failure(StoreFailed(Store.RuntimeError(Store.Update))))
    ensures Calls.Answered(net, 2) && Calls.Answered(net, 3) ==>
      var res := Profiles.UpdateById(true, w.db, Profiles.IntId(userId), "color", Str(Lower(request))).value;
      var calls := Revocations(Listed(w), colors, request);
      var m := Calls.AnsweredRun(net, 4, |calls|);
      && r.world.db == res.0
      && r.world.memberRoles == (w.memberRoles + {w.guildRoles[k]}) - (if res.1 then Revoked(calls, m) else {})
      && r.reply == if res.1 && m < |calls| then Failure(PlatformFailed) else ChangeReply(user, request, res.1)
  {
    var granted := w.(memberRoles := w.memberRoles + {w.guildRoles[k]});
    if !Calls.Answered(net, 2) then Outcome(w, Failure(PlatformFailed))
    else match Profiles.UpdateById(Calls.Answered(net, 3), w.db, Profiles.IntId(userId), "color", Str(Lower(request)))
      case Failure(e) => Outcome(granted, Failure(StoreFailed(e)))
      case Success(res) =>
        if res.1 then
          var calls := Revocations(Listed(w), colors, request);
          var m := Calls.AnsweredRun(net, 4, |calls|);
          var after := granted.(db := res.0, memberRoles := granted.memberRoles - Revoked(calls, m));
          if m < |calls| then Outcome(after, Failure(PlatformFailed))
          else Outcome(after, ChangeReply(user, request, true))
        else Outcome(granted.(db := res.0), ChangeReply(user, request, false))
  }

  /** `change_color`. The profile is looked up by `str(user.id)` (call 0), the catalog read
      and the request validated against it (call 1), then the last guild role whose name
      lies within the request is selected and `Grant` makes the rest of the calls. The
      guild's roles and the catalog never change, the request is stored lower-cased, a
      store failure leaves the store as it was, and whatever fails the member gains at
      most the selected role and loses only stale colour roles. */
  function ChangeColor(w: World, userId: int, request: string, net: seq<bool>): (r: Outcome)
    ensures !Calls.Answered(net, 0) ==> r == Outcome(w, Failure(StoreFailed(Store.RuntimeError(Store.Find))))
    ensures Calls.Answered(net, 0) && Profiles.NoProfile(w.db.profiles, IntToString(userId)) ==> r == Outcome(w, Success(NoProfile))
    ensures Calls.Answered(net, 0) && !Profiles.NoProfile(w.db.profiles, IntToString(userId)) && !Calls.Answered(net, 1) ==>
      r == Outcome(w, Failure(StoreFailed(Store.RuntimeError(Store.FetchAll))))
    ensures Calls.Answered(net, 0) && Calls.Answered(net, 1) && !Profiles.NoProfile(w.db.profiles, IntToString(userId))
            && !IsListed(w.db.colors, Lower(request)) ==>
      r == Outcome(w, Success(NotAColor))
    ensures (Calls.Answered(net, 0) && Calls.Answered(net, 1) && !Profiles.NoProfile(w.db.profiles, IntToString(userId))
             && IsListed(w.db.colors, Lower(request))
             && (forall j :: 0 <= j < |w.guildRoles| ==> !RoleWithin(request)(w.guildRoles[j]))) ==>
      r == Outcome(w, Failure(NoRoleSelected))
    ensures (Calls.Answered(net, 0) && Calls.Answered(net, 1) && !Profiles.NoProfile(w.db.profiles, IntToString(userId))
             && IsListed(w.db.colors, Lower(request)) && !Calls.Answered(net, 2)) ==>
      r.world == w && r.reply.Failure?
    ensures r.world.guildRoles == w.guildRoles
    ensures r.world.db == w.db.(profiles := r.world.db.profiles)
    ensures r.reply.Failure? && r.reply.error.StoreFailed? ==> r.world.db == w.db
    ensures w.memberRoles - r.world.memberRoles <= Stale(Listed(w), w.db.colors, request)
    ensures forall x :: x in r.world.memberRoles && x !in w.memberRoles ==> x in w.guildRoles && RoleWithin(request)(x)
  {
    match Profiles.FindById(Calls.Answered(net, 0), w.db, IntToString(userId))
    case Failure(e) => Outcome(w, Failure(StoreFailed(e)))
    case Success(user) =>
      if user.None? then Outcome(w, Success(NoProfile))
      else match Colors.GetColors(Calls.Answered(net, 1), w.db)
        case Failure(e) => Outcome(w, Failure(StoreFailed(e)))
        case Success(colors) =>
          if !AnyNameContains(colors, Lower(request)) then Outcome(w, Success(NotAColor))
          else match LastWhere(w.guildRoles, RoleWithin(request))
            case None => Outcome(w, Failure(NoRoleSelected))
            case Some(k) => Grant(w, user.value, colors, userId, request, net, k)
  }

  // ---------------------------------------------------------------------------
  // color_autocomplete

  /** `current.lower() in name`: the stored name itself is not lower-cased. */
  function Offers(current: string): string -> bool {
    (n: string) => Contains(n, Lower(current))
  }

  /** `color_autocomplete`: the catalog names that contain the lower-cased input, in
      catalog order and as often as stored, or a single placeholder when the catalog is
      empty. `up` is whether the server answers the catalog read. */
  function ColorAutocomplete(db: Db, current: string, up: bool): (r: Result<seq<Choice>, Store.StoreError>)
    ensures r.Success? <==> up
    ensures r.Failure? ==> r.error == Store.RuntimeError(Store.FetchAll)
    ensures r.Success? && |db.colors| == 0 ==> r.value == [NoColorsChoice]
    ensures r.Success? && |db.colors| > 0 ==>
      forall j :: 0 <= j < |r.value| ==>
        r.value[j].name == r.value[j].value && Contains(r.value[j].name, Lower(current))
        && exists i :: 0 <= i < |db.colors| && db.colors[i].name == r.value[j].name
    ensures r.Success? && |db.colors| > 0 ==>
      forall i :: 0 <= i < |db.colors| && Contains(db.colors[i].name, Lower(current)) ==>
        Choice(db.colors[i].name, db.colors[i].name) in r.value
    ensures r.Success? && |db.colors| > 0 ==> IsSubsequence(r.value, AsChoices(ColorNames(db.colors)))
    ensures r.Success? && |db.colors| > 0 ==>
      forall c :: multiset(r.value)[c] == if Contains(c.name, Lower(current)) then multiset(AsChoices(ColorNames(db.colors)))[c] else 0
  {
    var colors :- Colors.GetColors(up, db);
    if |colors| > 0 then
      OfferedAreCatalogued(colors, current);
      CataloguedAreOffered(colors, current);
      OfferedCount(colors, current);
      Success(AsChoices(Filter(ColorNames(colors), Offers(current))))
    else Success([NoColorsChoice])
  }

  /** The offers keep catalog order, and each matching choice as often as it is stored. */
  lemma OfferedCount(colors: seq<ColorDoc>, current: string)
    ensures var cs := AsChoices(Filter(ColorNames(colors), Offers(current)));
            && IsSubsequence(cs, AsChoices(ColorNames(colors)))
            && forall c :: multiset(cs)[c] == if Contains(c.name, Lower(current)) then multiset(AsChoices(ColorNames(colors)))[c] else 0
  {
    FilteredChoices(ColorNames(colors), Offers(current));
    forall c: Choice
      ensures Offers(current)(c.name) == Contains(c.name, Lower(current))
    {
    }
  }

  /** Every offered choice is a catalog name that contains the lower-cased input. */
  lemma OfferedAreCatalogued(colors: seq<ColorDoc>, current: string)
    ensures var cs := AsChoices(Filter(ColorNames(colors), Offers(current)));
            forall j :: 0 <= j < |cs| ==>
              cs[j].name == cs[j].value && Contains(cs[j].name, Lower(current))
              && exists i :: 0 <= i < |colors| && colors[i].name == cs[j].name
  {
    var names := Filter(ColorNames(colors), Offers(current));
    forall j | 0 <= j < |names|
      ensures exists i :: 0 <= i < |colors| && colors[i].name == names[j]
    {
      var i :| 0 <= i < |ColorNames(colors)| && ColorNames(colors)[i] == names[j];
      assert colors[i].name == names[j];
    }
  }

  /** Every catalog name that contains the lower-cased input is offered. */
  lemma CataloguedAreOffered(colors: seq<ColorDoc>, current: string)
    ensures forall i :: 0 <= i < |colors| && Contains(colors[i].name, Lower(current)) ==>
      Choice(colors[i].name, colors[i].name) in AsChoices(Filter(ColorNames(colors), Offers(current)))
  {
    var names := Filter(ColorNames(colors), Offers(current));
    forall i | 0 <= i < |colors| && Contains(colors[i].name, Lower(current))
      ensures Choice(colors[i].name, colors[i].name) in AsChoices(names)
    {
      assert ColorNames(colors)[i] == colors[i].name;
      assert colors[i].name in names;
      var j :| 0 <= j < |names| && names[j] == colors[i].name;
      assert AsChoices(names)[j] == Choice(colors[i].name, colors[i].name);
    }
  }

  // ---------------------------------------------------------------------------
  // Lemmas

  /** The second membership check of `remove_color` never rejects: a name equal to a
      catalog name (lower-cased) is contained in it. */
  lemma SecondCheckRedundant(colors: seq<ColorDoc>, colorName: string)
    requires IsCatalogName(colors, colorName)
    ensures AnyNameContains(colors, Lower(colorName))
  {
    var i :| 0 <= i < |colors| && Lower(colors[i].name) == Lower(colorName);
    ContainsSelf(Lower(colorName));
  }

  /** `add_color` keeps the catalog title-cased. */
  lemma AddColorKeepsCatalogTitled(w: World, invokerId: int, name: string, value: string, created: bool, newId: nat, up: bool)
    requires TitledCatalog(w.db.colors)
    ensures TitledCatalog(AddColor(w, invokerId, name, value, created, newId, up).world.db.colors)
  {
    TitleIdempotent(Lower(name));
  }

  /** The lookup key `remove_color` ends up using holds a letter whenever the name does. */
  lemma RemovalKeyHasLetter(colorName: string, j: nat)
    requires j < |colorName| && IsCased(colorName[j])
    ensures exists m :: 0 <= m < |NormalizeKey(Lower(colorName))| && IsCased(NormalizeKey(Lower(colorName))[m])
  {
    var low := Lower(colorName);
    LowerChange(colorName[j]);
    StripKeepsNonSpace(low, j);
    var s := Strip(low);
    var m :| 0 <= m < |s| && s[m] == low[j];
    LowerChange(s[m]);
    assert IsCased(NormalizeKey(low)[m]);
  }

  /** No title-cased name holding a letter equals a normalised key (which is lower-case). */
  lemma TitledNameIsNoKey(n: string, key: string)
    requires Title(n) == n && Lower(key) == key
    requires exists m :: 0 <= m < |key| && IsCased(key[m])
    ensures n != key
  {
    if n == key {
      var m :| 0 <= m < |key| && IsCased(key[m]);
      TitleWithLetterIsNotLower(n, m);
    }
  }

  /** As written, `remove_color` never removes a title-cased catalog entry when the name
      given holds a letter: the collection is searched with the lower-cased name, and every
      name `add_color` stores starts with a capital. The guild role is still deleted. */
  lemma RemoveColorKeepsCatalog(w: World, colorName: string, net: seq<bool>, j: nat)
    requires TitledCatalog(w.db.colors)
    requires j < |colorName| && IsCased(colorName[j])
    ensures RemoveColor(w, colorName, net).world.db.colors == w.db.colors
  {
    var key := NormalizeKey(Lower(colorName));
    RemovalKeyHasLetter(colorName, j);
    NormalizeKeyShape(Lower(colorName));
    forall i | 0 <= i < |w.db.colors|
      ensures w.db.colors[i].name != key
    {
      TitledNameIsNoKey(w.db.colors[i].name, key);
    }
    assert Colors.NoneNamed(w.db.colors, key);
    assert Colors.RemoveColorByName(true, true, w.db, Lower(colorName)).value.0 == w.db;
  }

  /** The smallest witness: with the catalog entry "Red" and a guild role "Red",
      `remove_color Red` deletes the role and answers that it removed the colour, yet the
      catalog still holds "Red". */
  lemma RemoveRedKeepsRed(ps: seq<Doc>, rs: seq<RuleDoc>, id: nat, held: set<Role>, author: int)
    ensures var w := World(Db(ps, [ColorDoc("Red", "#ff0000", author)], rs), [Role(id, "Red")], held);
            RemoveColor(w, "Red", []) == Outcome(w.(guildRoles := [], memberRoles := held - {Role(id, "Red")}), Success(RemovedColor))
  {
    var w := World(Db(ps, [ColorDoc("Red", "#ff0000", author)], rs), [Role(id, "Red")], held);
    assert Lower("Red") == "red";
    assert Lower(w.db.colors[0].name) == Lower("Red");
    assert IsLast(w.guildRoles, SameTitle("Red"), 0);
    assert Title("Red") == "Red";
    RemoveColorKeepsCatalog(w, "Red", [], 0);
    RemoveColorEffect(w, "Red", [], 0);
  }

  /** The intended removal deletes the entry the membership check recognised: afterwards,
      in a catalog without case-insensitive duplicates, the name is no longer recognised. */
  lemma RemoveColorIntendedForgetsName(w: World, colorName: string, net: seq<bool>, k: nat)
    requires Calls.Reliable(net) && IsCatalogName(w.db.colors, colorName) && IsLast(w.guildRoles, SameTitle(colorName), k)
    requires forall a, b :: 0 <= a < b < |w.db.colors| ==> Lower(w.db.colors[a].name) != Lower(w.db.colors[b].name)
    ensures !IsCatalogName(RemoveColorIntended(w, colorName, net).world.db.colors, colorName)
  {
    var r := RemoveColorIntended(w, colorName, net);
    var cs := w.db.colors;
    var i :| Store.IsFirst(cs, SameName(colorName), i) && r.world.db == w.db.(colors := cs[..i] + cs[i + 1..]);
    DeletedNameIsGone(cs, colorName, i);
  }

  /** Deleting the entry a name matches from a catalog without case-insensitive duplicates
      leaves no entry that matches it. */
  lemma DeletedNameIsGone(cs: seq<ColorDoc>, colorName: string, i: nat)
    requires Store.IsFirst(cs, SameName(colorName), i)
    requires forall a, b :: 0 <= a < b < |cs| ==> Lower(cs[a].name) != Lower(cs[b].name)
    ensures !IsCatalogName(cs[..i] + cs[i + 1..], colorName)
  {
    var rest := cs[..i] + cs[i + 1..];
    forall m | 0 <= m < |rest|
      ensures Lower(rest[m].name) != Lower(colorName)
    {
      if m < i {
        assert rest[m] == cs[m];
      } else {
        assert rest[m] == cs[m + 1];
      }
    }
  }

  /** The effect of `remove_color` once both catalog reads are answered, the name is a
      catalog name and role `k` is selected: the role is deleted from the guild (and so
      from the member) whatever the store does next; the reply and the catalog then
      depend on the lookup (call 2) and the deletion (call 3). */
  lemma RemoveColorEffect(w: World, colorName: string, net: seq<bool>, k: nat)
    requires Calls.Answered(net, 0) && Calls.Answered(net, 1) && IsCatalogName(w.db.colors, colorName)
    requires IsLast(w.guildRoles, SameTitle(colorName), k)
    ensures var r := RemoveColor(w, colorName, net);
            && r.world.guildRoles == w.guildRoles[..k] + w.guildRoles[k + 1..]
            && r.world.memberRoles == w.memberRoles - {w.guildRoles[k]}
            && r.reply == RemovalReply(net)
  {
    SecondCheckRedundant(w.db.colors, colorName);
    assert LastWhere(w.guildRoles, SameTitle(colorName)) == Some(k);
  }

  /** A granted role outlives a failed profile update: when the server does not answer
      the update, `change_color` raises with the new role held and the profile as it was. */
  lemma GrantedThenUpdateFails(w: World, userId: int, request: string, net: seq<bool>, k: nat, i: nat)
    requires Calls.Answered(net, 0) && Calls.Answered(net, 1) && Calls.Answered(net, 2) && !Calls.Answered(net, 3)
    requires IsListed(w.db.colors, Lower(request))
    requires Profiles.IsFirstWithId(w.db.profiles, IntToString(userId), i)
    requires IsLast(w.guildRoles, RoleWithin(request), k)
    ensures ChangeColor(w, userId, request, net)
            == Outcome(w.(memberRoles := w.memberRoles + {w.guildRoles[k]}), Failure(StoreFailed(Store.RuntimeError(Store.Update))))
  {
    var user := FirstProfileIs(w, userId, i);
    assert LastWhere(w.guildRoles, RoleWithin(request)) == Some(k);
  }

  /** The effect of `change_color` once a profile exists, the request is listed, role
      `k` is selected and every call is answered: the role is granted, the first profile's
      colour becomes the lower-cased request, and only if that changed the profile are the
      listed colour roles with another name revoked. */
  lemma ChangeColorEffect(w: World, userId: int, request: string, net: seq<bool>, k: nat, i: nat)
    requires Calls.Answered(net, 0) && Calls.Answered(net, 1) && Calls.Answered(net, 2) && Calls.Answered(net, 3)
    requires forall j :: 4 <= j < 4 + |Revocations(Listed(w), w.db.colors, request)| ==> Calls.Answered(net, j)
    requires IsListed(w.db.colors, Lower(request))
    requires Profiles.IsFirstWithId(w.db.profiles, IntToString(userId), i)
    requires IsLast(w.guildRoles, RoleWithin(request), k)
    ensures var r := ChangeColor(w, userId, request, net);
            var modified := !Profiles.Holds(w.db.profiles[i], "color", Str(Lower(request)));
            && r.world.db.profiles == w.db.profiles[i := w.db.profiles[i]["color" := Str(Lower(request))]]
            && r.world.memberRoles == (w.memberRoles + {w.guildRoles[k]}) - (if modified then Stale(Listed(w), w.db.colors, request) else {})
            && r.reply == ChangeReply(w.db.profiles[i], request, modified)
  {
    var id := IntToString(userId);
    var user := FirstProfileIs(w, userId, i);
    assert LastWhere(w.guildRoles, RoleWithin(request)) == Some(k);
    var res := UpdateFlagIs(w, userId, request, i);
    var calls := Revocations(Listed(w), w.db.colors, request);
    AllRevoked(calls, Listed(w), w.db.colors, request, net);
  }

  /** The profile `change_color` finds is the first one with the member's id. */
  lemma FirstProfileIs(w: World, userId: int, i: nat) returns (user: Doc)
    requires Profiles.IsFirstWithId(w.db.profiles, IntToString(userId), i)
    ensures Profiles.FindById(true, w.db, IntToString(userId)) == Success(Some(user)) && user == w.db.profiles[i]
  {
    var id := IntToString(userId);
    var found := Profiles.FindById(true, w.db, id);
    assert !Profiles.NoProfile(w.db.profiles, id);
    user := found.value.value;
    var i' :| Profiles.IsFirstWithId(w.db.profiles, id, i') && w.db.profiles[i'] == user;
    Profiles.FirstIsUnique(w.db.profiles, id, i, i');
  }

  /** The update `change_color` makes changes the first profile with the member's id, and
      reports a change exactly when that profile did not already hold the colour. */
  lemma UpdateFlagIs(w: World, userId: int, request: string, i: nat) returns (res: (Db, bool))
    requires Profiles.IsFirstWithId(w.db.profiles, IntToString(userId), i)
    ensures Profiles.UpdateById(true, w.db, Profiles.IntId(userId), "color", Str(Lower(request))) == Success(res)
    ensures res.1 <==> !Profiles.Holds(w.db.profiles[i], "color", Str(Lower(request)))
    ensures res.0.profiles == w.db.profiles[i := w.db.profiles[i]["color" := Str(Lower(request))]]
  {
    var id := IntToString(userId);
    res := Profiles.UpdateById(true, w.db, Profiles.IntId(userId), "color", Str(Lower(request))).value;
    assert Profiles.Format(Profiles.IntId(userId)) == id;
    if res.1 {
      var i' :| Profiles.IsFirstWithId(w.db.profiles, id, i') && !Profiles.Holds(w.db.profiles[i'], "color", Str(Lower(request)));
      Profiles.FirstIsUnique(w.db.profiles, id, i, i');
    }
    forall j | 0 <= j < |w.db.profiles|
      ensures Profiles.IsFirstWithId(w.db.profiles, id, j) <==> j == i
    {
      if Profiles.IsFirstWithId(w.db.profiles, id, j) {
        Profiles.FirstIsUnique(w.db.profiles, id, i, j);
      }
    }
  }

  /** When every revocation call is answered, the loop revokes exactly the stale roles. */
  lemma AllRevoked(calls: seq<Role>, listed: seq<Role>, colors: seq<ColorDoc>, request: string, net: seq<bool>)
    requires calls == Revocations(listed, colors, request)
    requires forall j :: 4 <= j < 4 + |calls| ==> Calls.Answered(net, j)
    ensures Calls.AnsweredRun(net, 4, |calls|) == |calls|
    ensures Revoked(calls, |calls|) == Stale(listed, colors, request)
  {
    forall x | x in Stale(listed, colors, request)
      ensures x in Revoked(calls, |calls|)
    {
      var j :| 0 <= j < |calls| && calls[j] == x;
    }
  }

  /** A revocation the platform does not answer stops the loop: `change_color` raises with
      the profile updated, the role granted, only the roles of the answered calls revoked,
      and the role of the failed call still held unless an earlier call revoked it. */
  lemma RevocationFails(w: World, userId: int, request: string, net: seq<bool>, k: nat, i: nat)
    requires Calls.Answered(net, 0) && Calls.Answered(net, 1) && Calls.Answered(net, 2) && Calls.Answered(net, 3)
    requires IsListed(w.db.colors, Lower(request))
    requires Profiles.IsFirstWithId(w.db.profiles, IntToString(userId), i)
    requires IsLast(w.guildRoles, RoleWithin(request), k)
    requires !Profiles.Holds(w.db.profiles[i], "color", Str(Lower(request)))
    requires Calls.AnsweredRun(net, 4, |Revocations(Listed(w), w.db.colors, request)|) < |Revocations(Listed(w), w.db.colors, request)|
    ensures var calls := Revocations(Listed(w), w.db.colors, request);
            var m := Calls.AnsweredRun(net, 4, |calls|);
            var r := ChangeColor(w, userId, request, net);
            && r.reply == Failure(PlatformFailed)
            && r.world.db.profiles == w.db.profiles[i := w.db.profiles[i]["color" := Str(Lower(request))]]
            && r.world.memberRoles == (w.memberRoles + {w.guildRoles[k]}) - Revoked(calls, m)
            && (calls[m] !in calls[..m] ==> calls[m] in r.world.memberRoles && calls[m] in Stale(Listed(w), w.db.colors, request))
  {
    var user := FirstProfileIs(w, userId, i);
    assert LastWhere(w.guildRoles, RoleWithin(request)) == Some(k);
    var res := UpdateFlagIs(w, userId, request, i);
    var calls := Revocations(Listed(w), w.db.colors, request);
    var m := Calls.AnsweredRun(net, 4, |calls|);
    if calls[m] !in calls[..m] {
      assert calls[m] in calls;
      assert calls[m] in w.memberRoles by {
        assert calls[m] in Listed(w);
      }
      forall j | 0 <= j < m
        ensures calls[j] != calls[m]
      {
        assert calls[j] == calls[..m][j];
      }
    }
  }

  /** After a colour change that updated the profile, every colour role the member holds is
      either the role just granted or one spelled like the request: colour roles do not pile
      up, provided every call is answered and the member holds only roles of the guild. */
  lemma ChangeColorLeavesOneColor(w: World, userId: int, request: string, net: seq<bool>, k: nat, i: nat, x: Role)
    requires Calls.Reliable(net) && HoldsGuildRoles(w) && IsListed(w.db.colors, Lower(request))
    requires Profiles.IsFirstWithId(w.db.profiles, IntToString(userId), i)
    requires IsLast(w.guildRoles, RoleWithin(request), k)
    requires !Profiles.Holds(w.db.profiles[i], "color", Str(Lower(request)))
    requires x in ChangeColor(w, userId, request, net).world.memberRoles && IsColorRole(x, w.db.colors)
    ensures x == w.guildRoles[k] || Lower(x.name) == Lower(request)
  {
    ChangeColorEffect(w, userId, request, net, k, i);
    if x != w.guildRoles[k] {
      assert x in Listed(w);
    }
  }

  /** A request that leaves the profile's colour as it was keeps the granted role and revokes nothing. */
  lemma ChangeColorUnchangedKeepsRoles(w: World, userId: int, request: string, net: seq<bool>, k: nat, i: nat)
    requires Calls.Reliable(net) && IsListed(w.db.colors, Lower(request))
    requires Profiles.IsFirstWithId(w.db.profiles, IntToString(userId), i)
    requires IsLast(w.guildRoles, RoleWithin(request), k)
    requires Profiles.Holds(w.db.profiles[i], "color", Str(Lower(request)))
    ensures ChangeColor(w, userId, request, net).world.memberRoles == w.memberRoles + {w.guildRoles[k]}
    ensures ChangeColor(w, userId, request, net).world.db == w.db
  {
    assert forall j :: Calls.Answered(net, j);
    ChangeColorEffect(w, userId, request, net, k, i);
    assert w.db.profiles[i]["color" := Str(Lower(request))] == w.db.profiles[i];
    assert w.db.profiles[i := w.db.profiles[i]] == w.db.profiles;
  }

  /** A member wearing "Red" asks for "blue": the "Blue" role is granted, "Red" is revoked,
      and the profile's colour becomes "blue". */
  lemma RedToBlue(ps: seq<Doc>, rs: seq<RuleDoc>, userId: int, i: nat, author: int)
    requires Profiles.IsFirstWithId(ps, IntToString(userId), i)
    requires Get(ps[i], "color") == Str("red")
    ensures var w := World(Db(ps, RedAndBlue(author), rs), [Role(1, "Red"), Role(2, "Blue")], {Role(1, "Red")});
            var r := ChangeColor(w, userId, "blue", []);
            && r.world.memberRoles == {Role(2, "Blue")}
            && r.world.db.profiles == ps[i := ps[i]["color" := Str("blue")]]
            && r.reply == Success(UpdatedColor("red", "blue"))
  {
    var w := World(Db(ps, RedAndBlue(author), rs), [Role(1, "Red"), Role(2, "Blue")], {Role(1, "Red")});
    RedAndBlueFacts(author, Listed(w));
    assert IsLast(w.guildRoles, RoleWithin("blue"), 1);
    ChangeColorEffect(w, userId, "blue", [], 1, i);
    RedToBlueReply(ps[i]);
  }

  /** The reply and the revocation set of the "Red" to "blue" change, apart from the command. */
  lemma RedToBlueReply(user: Doc)
    requires Get(user, "color") == Str("red")
    ensures !Profiles.Holds(user, "color", Str(Lower("blue")))
    ensures ChangeReply(user, "blue", true) == Success(UpdatedColor("red", "blue"))
    ensures ({Role(1, "Red")} + {Role(2, "Blue")}) - {Role(1, "Red")} == {Role(2, "Blue")}
  {
    assert Lower("red") == "red";
    assert Lower("blue") == "blue";
  }

  function RedAndBlue(author: int): seq<ColorDoc> {
    [ColorDoc("Red", "#ff0000", author), ColorDoc("Blue", "#0000ff", author)]
  }

  lemma RedAndBlueFacts(author: int, listed: seq<Role>)
    requires forall x :: x in listed <==> x == Role(1, "Red")
    ensures IsListed(RedAndBlue(author), Lower("blue"))
    ensures RoleWithin("blue")(Role(2, "Blue"))
    ensures Stale(listed, RedAndBlue(author), "blue") == {Role(1, "Red")}
    ensures Lower("blue") == "blue"
  {
    var cs := RedAndBlue(author);
    assert Lower("Blue") == "blue" == Lower("blue");
    assert Lower("Red") == "red";
    ContainsSelf("blue");
    assert Contains(Lower(cs[1].name), Lower("blue"));
    assert IsColorRole(Role(1, "Red"), cs) by {
      assert Lower(Role(1, "Red").name) == Lower(cs[0].name);
    }
    assert Role(1, "Red") in listed;
  }

  /** "sky" passes validation against the catalog name "Sky Blue", but no role is selected:
      the role's name must lie within the request, not the other way round. */
  lemma SkyDoesNotSelectSkyBlue(ps: seq<Doc>, rs: seq<RuleDoc>, userId: int, i: nat, author: int, held: set<Role>)
    requires Profiles.IsFirstWithId(ps, IntToString(userId), i)
    ensures var w := World(Db(ps, [ColorDoc("Sky Blue", "#87ceeb", author)], rs), [Role(3, "Sky Blue")], held);
            && IsListed(w.db.colors, Lower("sky"))
            && ChangeColor(w, userId, "sky", []) == Outcome(w, Failure(NoRoleSelected))
  {
    var w := World(Db(ps, [ColorDoc("Sky Blue", "#87ceeb", author)], rs), [Role(3, "Sky Blue")], held);
    assert Lower("Sky Blue") == "sky blue";
    assert Lower("sky") == "sky";
    assert OccursAt(Lower(w.db.colors[0].name), Lower("sky"), 0);
    assert !Profiles.NoProfile(ps, IntToString(userId));
    assert !RoleWithin("sky")(w.guildRoles[0]) by {
      assert |Lower("Sky Blue")| > |Lower("sky")|;
    }
    assert forall j :: 0 <= j < |w.guildRoles| ==> !RoleWithin("sky")(w.guildRoles[j]);
    assert Calls.Answered([], 0) && Calls.Answered([], 1);
  }

  /** The placeholder is not title-cased: after "Could" comes a lower-case "not". */
  lemma PlaceholderIsNotTitled()
    ensures Title(NoColorsChoice.name) != NoColorsChoice.name
  {
    assert Title(NoColorsChoice.name)[6] == 'N';
  }

  /** On a catalog built by `add_color`, the placeholder is offered exactly when the catalog is empty. */
  lemma PlaceholderOnlyWhenEmpty(db: Db, current: string)
    requires TitledCatalog(db.colors)
    ensures NoColorsChoice in ColorAutocomplete(db, current, true).value <==> |db.colors| == 0
  {
    var r := ColorAutocomplete(db, current, true).value;
    if |db.colors| > 0 {
      forall j | 0 <= j < |r|
        ensures r[j] != NoColorsChoice
      {
        var i :| 0 <= i < |db.colors| && db.colors[i].name == r[j].name;
        PlaceholderIsNotTitled();
      }
    }
  }
}
