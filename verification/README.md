# HyperLands community bot — a Dafny model of its core

The HyperLands bot is a Discord bot for one community server. This project models its core:

- **Storage adapter.** A single MongoDB client (`MongoDB`) with five collection operations. Every driver failure surfaces as `RuntimeError`.
- **Collection helpers.** These cover the member profiles, the colour catalog and the server rules. Lookup keys are normalised with `strip().lower()`.
- **Message handler.** It resolves or creates the author's profile, keeps a cache of profiles, and advances a level of 5 per message.
- **Colour commands.** These are `add_color`, `remove_color`, `change_color` and colour autocompletion.
- **Rule commands.** These are `rule`, `add_rule`, `delete_rule` and rule autocompletion.
- **Privileged roles.** The `Role` enumeration.
- **Configuration loader.** It covers `get_config_or_throw`.
- **Command discovery bookkeeping.** It covers `load_commands` and `setup_cogs`.

The model works on values only:

- The database is a record of three sequences of documents (`Schema.Db`).
- Whether a remote call is answered is decided per call:
  - a handler that makes one store call takes a flag `up`;
  - a handler that makes several remote calls takes the answers to them in the order it makes them, `net: seq<bool>` (`Calls.Answered`). These are the driver's calls and, in `change_color`, the platform's `add_roles` and `remove_roles` calls. Calls past the end of the list are answered.
- A store call that is not answered raises `RuntimeError` and changes nothing in the store. A role call that is not answered raises the platform's `HTTPException` (`PlatformFailed`) and changes no role. Every handler stops at its first such call and keeps what its earlier calls did: a role granted or revoked, a profile updated, cached or saved.
- Profiles are field maps, because the handler changes the type of the `level` field. Colours and rules are typed records.
- What the platform does is passed in as a parameter or held in the state:
  - whether `create_role` succeeded and the id it assigns;
  - the guild's role list and the invoking member's roles;
  - which command files exist and what importing each one does;
  - the contents of the configuration file;
  - the current instant.
- Strings are `seq<char>`, with Python's case mapping restricted to ASCII (`Text`).

Modules follow the source:

| module | models |
|---|---|
| `Store` | `database.py` |
| `Schema` | document shapes |
| `Profiles` | `dtypes/collections/profile.py` |
| `Colors` | `dtypes/collections/colors.py` |
| `Rules` | `dtypes/collections/rules.py` |
| `Progression` | the level step of `on_message` |
| `Lifecycle` | `on_message` |
| `ColorCommands` | `commands/community/color.py` |
| `Guidelines` | `commands/community/guidelines.py` |
| `Roles` | `dtypes/roles.py` |
| `ConfigLoader` | `loaders/config.py` |
| `AppConfig` | `config.py` |
| `CommandLoader` | `loaders/command.py` and `setup_cogs` in `main.py` |

`Text`, `Seqs` and `Wrappers` hold the string, sequence and result helpers. `Choices` holds the autocompletion choices both command modules build, and `Calls` holds the answers to a handler's remote calls.

Where the behaviour described for the system and the code differ, the model follows the code:

- **Colour role selection.** `change_color` selects a guild role whose lower-cased name lies *within* the request (`color.py` line 173). It does not select a role whose name contains the request. So the request "sky" passes validation against a catalog entry "Sky Blue" but selects no "Sky Blue" role (`ColorCommands.SkyDoesNotSelectSkyBlue`).
- **Role grant and revocation.** The `add_roles(None)` call that follows then raises (`NoRoleSelected`). Revocation iterates over the member's roles as they were read after the grant. The platform does not refresh that local list, so the roles iterated are those held before the grant. The platform lists a member's roles in the guild's role order (`ColorCommands.Listed`). For each listed role, the loop calls `remove_roles` once per catalog entry spelled like it (`ColorCommands.Revocations`), so a catalog with two such entries revokes the role twice.
- **Configuration validation.** Validation checks keys, never values. Every parsed entry carries all three keys (missing ones default to `""`), so an object with none of them validates (`ConfigLoader.EmptyObjectValidates`).
- **Exceptions from parsing.** Exceptions raised while parsing a well-formed JSON file escape `load` and `get_config_or_throw`. Examples are a list of strings, or a bare number.

## Model

| member | source | states |
|---|---|---|
| Store.Construct | database.py:13-24 | The first construction stores a client in the class slot and raises `ConnectionError` exactly when the ping fails. Every later construction returns the stored instance, whatever its arguments. |
| Store.LaterConstructionsShareInstance | database.py:13-24 | Two constructions with different arguments return the same instance. |
| Store.FailedConnectionIsKept | database.py:13-24 | The instance is stored before the ping, so a failed first construction raises once. The next construction returns the unreachable client instead of retrying. |
| Store.FirstMatch | database.py:47-58 | The index returned is the first document the query matches; None means no document matches. |
| Calls.AnsweredRun | commands/community/color.py:182-185 | A loop that awaits one call per step stops at the first unanswered one. The count it returns covers only answered calls, and the next call is unanswered unless the loop finished. With every call answered, the loop finishes. |
| Store.InsertOne | database.py:26-34 | It succeeds exactly when the server answers. The collection gains the document at its end and keeps every earlier document. A failure is `RuntimeError` for insertion. |
| Store.GetAll | database.py:36-45 | It succeeds exactly when the server answers and returns the whole collection in order; a failure is `RuntimeError` for retrieval. |
| Store.FindOne | database.py:47-58 | None exactly when nothing matches; otherwise the first matching document. A failure is `RuntimeError` for lookup. |
| Store.DeleteOne | database.py:60-71 | The flag is true exactly when something matches. Then the first match is removed and the others stay in order; otherwise the collection is unchanged. |
| Store.UpdateOne | database.py:73-87 | Only the first match changes, to `change(doc)`, and the length is kept. The flag is true exactly when the `$set` modified the document (`modified_count > 0`), not merely matched it. |
| Store.FirstIsUnique | database.py:47-58 | The first match of a query is unique. |
| Store.FoundIsDeleted | database.py:47-71 | A lookup and a deletion with the same query find and remove the same document, the first match. With no match, the lookup gives None and the deletion changes nothing. |
| Store.InsertThenGetAll | database.py:26-45 | A document inserted is read back last by `get_all`. |
| Store.DeleteShrinksByOne | database.py:60-71 | A deletion shortens the collection by one exactly when something matches, and by none otherwise. |
| Profiles.FirstWithId | dtypes/collections/profile.py:41-42 | Finds the first profile whose `user_id` is exactly the id, or reports that there is none. |
| Profiles.SavedProfile | dtypes/collections/profile.py:25-38 | The stored record has exactly the eight fields `save` writes. Five are copied. The two message references become "none" when absent or falsy. The timestamp is the save instant. |
| Profiles.Save | dtypes/collections/profile.py:25-38 | Inserting a profile appends exactly the saved record and touches nothing else in the database. |
| Profiles.FindById | dtypes/collections/profile.py:41-42 | None exactly when no profile has the id; otherwise the first profile that has it. |
| Profiles.UpdateById | dtypes/collections/profile.py:44-48 | Only the first profile with the formatted id gets the field. The result is true exactly when that profile did not already hold the value. |
| Profiles.SetFieldChanges | database.py:73-87 | A `$set` of one field changes a document exactly when the field did not hold that value. |
| Profiles.SetFieldFlag | dtypes/collections/profile.py:44-48 | The store's "modified" flag for the id query is the profile-level "did not already hold" condition. |
| Profiles.SavedProfileUnique | dtypes/collections/profile.py:25-38 | The saved record is determined by the input and the instant. |
| Profiles.FirstIsUnique | dtypes/collections/profile.py:41-42 | The first profile of an id is unique. |
| Profiles.CountAppend | dtypes/collections/profile.py:25-38 | Appending a profile raises the count of its own id by one and leaves every other id's count alone. |
| Profiles.CountZeroIffNone | dtypes/collections/profile.py:41-42 | An id has no profile exactly when its count is zero. |
| Profiles.CountKeepsOnOtherField | dtypes/collections/profile.py:44-48 | Setting a field other than `user_id` never changes any id's profile count. |
| Profiles.SaveIgnoresCallerTimestamp | dtypes/collections/profile.py:25-38 | A timestamp supplied by the caller is replaced by the save instant. |
| Profiles.IntAndStringIdsAgree | dtypes/collections/profile.py:44-48 | An integer id and its decimal string update the same record. Distinct integer ids format differently. |
| Profiles.SaveThenFind | dtypes/collections/profile.py:25-42 | After saving the first profile of an id, finding by that id returns the saved record. |
| Colors.Save | dtypes/collections/colors.py:18-26 | Appends one catalog record carrying the given name, value and author; profiles and rules are untouched. |
| Colors.FindColorByName | dtypes/collections/colors.py:29-30 | The lookup is by `name.strip().lower()`. None exactly when no record is stored under that key; otherwise the first one stored under it. |
| Colors.RemoveColorByName | dtypes/collections/colors.py:33-37 | Two calls, a lookup then a deletion. A failed lookup raises for lookup, and a failed deletion raises for deletion. With both answered, it deletes the first record stored under the normalised key and returns it; nothing changes when there is none. |
| Colors.GetColors | dtypes/collections/colors.py:40-41 | Returns the whole catalog in order. |
| Colors.FoundNamesAreNormalized | dtypes/collections/colors.py:29-30 | Any record found has a lower-case, stripped name. |
| Rules.Save | dtypes/collections/rules.py:21-32 | Appends one rule carrying the given fields and the save instant; profiles and colours are untouched. |
| Rules.FindRuleByName | dtypes/collections/rules.py:35-36 | The first rule stored under `name.strip().lower()`, or None exactly when there is none. |
| Rules.RemoveRuleByName | dtypes/collections/rules.py:39-43 | Two calls, a lookup then a deletion, each raising for its own operation when unanswered. With both answered, it deletes and returns the first rule stored under the normalised key; the others stay in order. |
| Rules.GetRules | dtypes/collections/rules.py:46-47 | Returns every stored rule in order. |
| Text.NormalizeKeyIdempotent | dtypes/collections/colors.py:29-30 | Normalising a lookup key twice equals normalising it once. |
| Text.NormalizeKeyShape | dtypes/collections/rules.py:35-36 | Every lookup key is already lower-case and stripped. |
| Text.StripLowerCommute | commands/community/guidelines.py:107-109 | `strip` and `lower` commute, so the order of the normalisation steps does not matter. |
| Text.TitleIdempotent | commands/community/color.py:43 | A name title-cased once is a fixed point of title-casing. |
| Text.TitleOfLower | commands/community/color.py:43 | `name.lower().title()` equals `name.title()`. |
| Text.TitleWithLetterIsNotLower | commands/community/color.py:43 | A title-cased name that holds a letter is never all lower-case. |
| Text.IntToStringInjective | main.py:79-83 | Distinct integer ids have distinct decimal keys. |
| Text.DigitsRoundTrip | main.py:142-147 | Reading back the decimal text of a natural number gives the number. |
| Seqs.Filter | commands/community/color.py:214-218 | The filtered list is a subsequence of the input: it keeps its order. Every element satisfying the predicate occurs in it exactly as often as in the input, and no other element occurs. |
| Seqs.FilterCountStep | commands/community/color.py:214-218 | One more input element adds to the filtered counts exactly when it satisfies the predicate. |
| Choices.AsChoices | commands/community/color.py:214-216 | One choice per name, in order, with label and value both the name. |
| Choices.ChoiceCount | commands/community/color.py:214-216 | A choice whose label and value agree occurs as often as its name does; any other choice never occurs. |
| Choices.ChoicesOfSubsequence | commands/community/guidelines.py:79-83 | The choices of a subsequence of names form a subsequence of the choices. |
| Choices.FilteredChoices | commands/community/guidelines.py:79-83 | Offering the names that pass a test keeps the order of all choices. Each passing choice is offered exactly as often as it occurs among them, and no other choice is offered. |
| Seqs.LastWhere | commands/community/color.py:108-110 | Finds the last index whose element satisfies the predicate (the loop overwrites the selection), or reports that none does. |
| Progression.Advance | main.py:143-145 | Definition of one level step: add 5 unless that reaches 1000, else keep the level. `AdvanceShape` states its shape. |
| Progression.LevelText | main.py:142-147 | Definition of the text written back: the stepped level, then "/1000". `FirstStepText` and `SecondStepRaises` state its effect. |
| Progression.StepStoredLevel | main.py:136-148 | The step succeeds exactly when the stored level is an int. What it writes back is a *string*: the stepped level followed by "/1000". |
| Progression.StepLevelIntended | main.py:136-148 | The corrected step keeps the level an int, with the same +5/freeze rule. |
| Progression.AdvanceShape | main.py:143-145 | Below 995 a step adds 5. From 995 on, the level is frozen, because adding 5 would reach 1000. A level in [0, 1000) stays there. |
| Progression.FirstStepText | main.py:142-147 | A fresh profile's first step writes "5/1000". |
| Progression.SecondStepRaises | main.py:143 | As written, the step applied to its own output always raises `TypeError`. |
| Progression.IntendedLevelAfter | main.py:136-148 | With the corrected step, k messages from level 0 give min(5k, 995). |
| Progression.StepsFrom | main.py:136-148 | The same closed form from any multiple of 5 below the cap. |
| Lifecycle.FoundBelongs | dtypes/collections/profile.py:41-42 | A profile found for an id carries that id and is non-empty (truthy). |
| Lifecycle.NewProfile | main.py:94-101 | Definition of the profile built for a new author, both in the scan and after it: colour "default", level 0, the author's name and nickname. `StoredNewProfileBelongs` and `FirstMessageCreatesProfile` state its use. |
| Lifecycle.StoredNewProfileBelongs | main.py:94-101 | The profile built for a new author carries the author's id, both as built and as stored. |
| Lifecycle.SaveNewProfile | main.py:120-129 | Saving a new author's profile appends exactly its stored form. |
| Lifecycle.AfterSaveHasProfile | main.py:129 | After the save the author has a profile. |
| Lifecycle.NonMatchingAppend | main.py:77-111 | Appending the author's own profile does not add to the number of cached profiles that belong to others. |
| Lifecycle.ScanMeasure | main.py:77-111 | The cache loop terminates although it appends to the list it iterates. Each step visits a profile of someone else, and only the author's profiles are appended. |
| Lifecycle.ScanStep | main.py:79-106 | One visit of a foreign cached profile, making up to three calls. It appends at most the author's own profile to the cache, and saves a new profile only when the store has none. An unanswered first lookup raises and changes nothing; any raise leaves the visit without effect. |
| Lifecycle.ScanCache | main.py:77-111 | The whole cache scan keeps the cache as a prefix, appends only the author's profiles, and saves at most the new author's profile. This holds also when it stops at a failed call, keeping what earlier visits cached and saved. An unanswered first call leaves everything as it was. |
| Lifecycle.Settle | main.py:113-131 | The lookup after the scan, then a save when the store has no profile. It succeeds exactly when the lookup and any needed save are answered. It then caches one profile of the author, and the store gains the new profile exactly when it had none. A raise changes nothing. |
| Lifecycle.Resolve | main.py:77-131 | Resolve-or-create. Without a raise, the store gains the author's stored profile exactly when it had none, and the cache grows. A raise keeps the scan's effects: the cache extended by the author's profiles, and at most the new profile saved. An unanswered first call changes nothing. |
| Lifecycle.StepLevel | main.py:136-148 | A lookup, then an update. The author's first profile gets the level text of its stepped int level. A non-int level raises `TypeError` before the update. An author without a profile is left alone. An unanswered call raises for its operation and changes nothing. |
| Lifecycle.OnMessage | main.py:68-150 | A bot's message changes nothing. An unanswered first call raises `RuntimeError` for lookup, without change. With every call answered, the only possible exception is the level `TypeError`, and the cache grows. Whatever fails, the cache keeps its old entries and gains only the author's profiles. A raise leaves at most the new author's profile saved, and no level changed. Colours and rules never change. |
| Lifecycle.FirstMessageCreatesProfile | main.py:113-148 | With every call answered, a new author's first message stores exactly one profile: colour "default", the author's names, and level "5/1000". |
| Lifecycle.KnownAuthorSteps | main.py:136-148 | With every call answered, a known author's message adds no profile and steps the first profile's int level. When the level is not an int, it raises and leaves the store unchanged. |
| Lifecycle.StepLevelKeepsCounts | main.py:136-148 | The level step never changes any id's profile count. |
| Lifecycle.NeverASecondProfile | main.py:68-148 | Whichever calls fail, a message either leaves an id's profile count alone or raises the author's count from 0 to 1. |
| Lifecycle.OneProfilePerAuthor | main.py:68-148 | With every call answered, a message raises the author's profile count from 0 to 1 exactly when it was 0, and leaves every other count alone. |
| Lifecycle.CachedThenLookupFails | main.py:83-113 | Partial outcome: the scan caches the author's stored profile, then the lookup after the scan fails. The handler raises with the cache grown and the store unchanged. |
| Lifecycle.SavedThenLevelLookupFails | main.py:113-136 | Partial outcome: a new author's profile is saved and cached, then the level lookup fails. The handler raises with the new profile stored at level 0. |
| Lifecycle.LevelStallsAfterFirstMessage | main.py:136-148 | As written, with every call answered, a new author's second message raises before updating, so the level stays "5/1000". |
| ColorCommands.AnyNameContains | commands/community/color.py:149-155 | The validation loop with its sticky `found` flag is true exactly when some lower-cased catalog name contains the needle. |
| ColorCommands.AddColor | commands/community/color.py:25-57 | A failed role creation answers "could not create" and changes nothing. Otherwise the role is appended under the name as given. The catalog gains `name.lower().title()` with the given value and the invoker as author. A store failure raises with the role still created and the catalog unchanged. |
| ColorCommands.RemoveColor | commands/community/color.py:68-123 | A failed first catalog read raises without change. An unknown name answers "not a colour". A failed second read raises without change. With no role of the same title, it raises. Only an answered "removed" changes the catalog, to what deleting the lower-cased name gives; every other outcome leaves the store as it was. |
| ColorCommands.RemoveSelected | commands/community/color.py:110-123 | Once a role is selected, it is deleted from the guild and the member whatever the store does next. The reply is "removed" exactly when the lookup and deletion are answered; otherwise it raises for the first failed one, with the catalog unchanged. |
| ColorCommands.RemoveColorEffect | commands/community/color.py:68-123 | With both catalog reads answered, a catalog name and a selected role, the role is deleted and the reply depends only on the last two calls. So a failed removal keeps the role deleted and the catalog entry in place. |
| ColorCommands.RemoveColorIntended | commands/community/color.py:68-123 | As `RemoveColor`, with the same calls, but the catalog entry deleted is the first whose name matches the request case-insensitively. |
| ColorCommands.ChangeReply | commands/community/color.py:187-206 | The reply raises exactly when the stored colour is not a string. Otherwise it reports the lower-cased old colour and the request, as an update or an update failure according to the flag. |
| ColorCommands.ChangeColor | commands/community/color.py:132-206 | A failed profile lookup raises. No profile answers "no profile". A failed catalog read raises. An unlisted request answers "not a colour". With no role within the request it raises. A failed `add_roles` raises with nothing changed. The guild's roles and every collection except profiles never change, and a store failure leaves the store as it was. Whatever fails, the member gains at most a guild role within the request and loses only stale colour roles. |
| ColorCommands.Grant | commands/community/color.py:168-185 | Once a role is selected: a failed `add_roles` raises with nothing changed. A failed update raises with the role granted and the store unchanged. Otherwise the profile's colour is stored; when that changed it, the stale roles are revoked one call at a time up to the first unanswered call, which raises. |
| ColorCommands.GrantedThenUpdateFails | commands/community/color.py:168-181 | Partial outcome: when `add_roles` is answered and only the profile update fails, the handler raises with the selected role granted and the store unchanged. |
| ColorCommands.RevocationFails | commands/community/color.py:181-185 | Partial outcome: when a `remove_roles` call is not answered, the handler raises with the profile updated and the role granted. Only the roles of the earlier calls are revoked, and the role of the failed call is still held unless an earlier call revoked it. |
| ColorCommands.Listed | commands/community/color.py:179 | The member's role list holds exactly the guild roles the member holds, listed in guild order. |
| ColorCommands.RevokeCalls | commands/community/color.py:183-185 | The inner loop calls `remove_roles` for one role only, and at most once per catalog entry. It calls it at least once exactly when the role is spelled like a catalog entry and not like the request. |
| ColorCommands.Revocations | commands/community/color.py:182-185 | The roles the revocation loop's calls remove are exactly the stale ones: listed colour roles spelled other than the request. |
| ColorCommands.Stale | commands/community/color.py:182-185 | Definition: the listed roles spelled like a catalog entry but not like the request. `Revocations` and `ChangeColorEffect` state what the loop does with them. |
| ColorCommands.AllRevoked | commands/community/color.py:182-185 | With every revocation call answered, the loop runs to the end and revokes exactly the stale roles. |
| ColorCommands.FirstProfileIs | commands/community/color.py:133 | The profile `change_color` finds is the first one with the member's id. |
| ColorCommands.UpdateFlagIs | commands/community/color.py:181 | The update changes the first profile with the member's id. It reports a change exactly when that profile did not already hold the colour. |
| ColorCommands.ColorAutocomplete | commands/community/color.py:209-222 | A failed read raises. An empty catalog gives the single placeholder. Otherwise the offers are a subsequence of the catalog's choices: each catalog name containing the lower-cased input is offered as often as it is stored, and nothing else. |
| ColorCommands.OfferedAreCatalogued | commands/community/color.py:214-218 | Every offered choice has equal label and value, contains the lower-cased input, and is a catalog name. |
| ColorCommands.CataloguedAreOffered | commands/community/color.py:214-218 | Every catalog name that contains the lower-cased input is offered. |
| ColorCommands.OfferedCount | commands/community/color.py:214-218 | The colour offers keep catalog order and count each matching choice as often as the catalog holds it. |
| ColorCommands.SecondCheckRedundant | commands/community/color.py:84-102 | The second membership check of `remove_color` never rejects a name that passed the first. |
| ColorCommands.AddColorKeepsCatalogTitled | commands/community/color.py:42-48 | `add_color` keeps every catalog name a fixed point of title-casing. |
| ColorCommands.RemovalReply | commands/community/color.py:114-116 | Once the role is deleted, the reply is "removed" exactly when the catalog lookup and deletion are answered. Otherwise it raises for the first one that is not. |
| ColorCommands.RemovalKeyHasLetter | commands/community/color.py:114 | The key `remove_color` deletes by holds a letter whenever the given name does. |
| ColorCommands.TitledNameIsNoKey | commands/community/color.py:114 | No title-cased name with a letter equals a normalised key. |
| ColorCommands.RemoveColorKeepsCatalog | commands/community/color.py:109-114 | As written, on a catalog built by `add_color`, removing a name that holds a letter leaves the catalog unchanged. |
| ColorCommands.RemoveRedKeepsRed | commands/community/color.py:68-123 | Concrete case: with catalog entry "Red" and guild role "Red", `remove_color("Red")` deletes the role, answers "removed", and the catalog still holds "Red". |
| ColorCommands.DeletedNameIsGone | commands/community/color.py:69-71 | Deleting the entry a name matches, from a catalog without case-insensitive duplicates, leaves no entry the name matches. |
| ColorCommands.RemoveColorIntendedForgetsName | commands/community/color.py:69-71 | With every call answered and the corrected removal, in a catalog without case-insensitive duplicates, the removed name is no longer recognised. |
| ColorCommands.ChangeColorEffect | commands/community/color.py:168-206 | With every call answered (lookup, read, `add_roles`, update and each `remove_roles`), once the profile exists, the request is listed and a role is selected: the first profile's colour becomes the lower-cased request, and the selected role is granted. Only when that update modified the profile are the held colour roles of another name revoked. |
| ColorCommands.ChangeColorLeavesOneColor | commands/community/color.py:178-185 | With every call answered, store and platform alike, and a member holding only guild roles: after an update that modified the profile, every colour role the member holds is the granted one or one spelled like the request. |
| ColorCommands.ChangeColorUnchangedKeepsRoles | commands/community/color.py:181-206 | With every call answered, a request equal to the stored colour keeps every role, adds the granted one, and leaves the store unchanged. |
| ColorCommands.RedToBlue | commands/community/color.py:132-206 | Concrete case: a member wearing "Red" asks for "blue". "Blue" is granted, "Red" is revoked, and the profile's colour becomes "blue". |
| ColorCommands.RedToBlueReply | commands/community/color.py:187-195 | A stored colour "red" and the request "blue": the update modifies the profile, and the reply reports "red" as the old colour and "blue" as the new. |
| ColorCommands.RedAndBlueFacts | commands/community/color.py:147-185 | In the catalog Red and Blue, "blue" is listed, the role "Blue" lies within it, and only "Red" is stale. |
| ColorCommands.SkyDoesNotSelectSkyBlue | commands/community/color.py:168-176 | "sky" passes validation against "Sky Blue", yet no role is selected and the command raises. |
| ColorCommands.PlaceholderIsNotTitled | commands/community/color.py:220-222 | The placeholder text is not a title-cased name, so it cannot come from the catalog. |
| ColorCommands.PlaceholderOnlyWhenEmpty | commands/community/color.py:209-222 | On a catalog built by `add_color`, the placeholder is offered exactly when the catalog is empty. |
| Guidelines.DisplayOrName | commands/community/guidelines.py:111-115 | A non-empty display name is used; an empty one gives the name. The result is empty only when the name is empty. |
| Guidelines.RuleKey | commands/community/guidelines.py:107 | Definition of the stored identifier: spaces become dashes, then lower-case, then stripped. `RuleKeyShape` states its shape. |
| Guidelines.TagOf | commands/community/guidelines.py:109 | Definition of one tag: lower-case, spaces to dashes, stripped. `TagShape` states its shape. |
| Guidelines.Tags | commands/community/guidelines.py:109 | One tag per space-separated piece, empty pieces included, each normalised. |
| Guidelines.ViewRule | commands/community/guidelines.py:58-71 | A failed lookup raises. "Not found" exactly when no rule is stored under the normalised name; otherwise it shows the first rule stored under it. |
| Guidelines.RuleAutocomplete | commands/community/guidelines.py:74-87 | A failed read raises. No stored rule gives the single placeholder. Otherwise the offers are a subsequence of the stored identifiers' choices: each identifier containing the input (both sides lower-cased) is offered as often as it is stored, and nothing else. |
| Guidelines.OfferedAreStored | commands/community/guidelines.py:79-83 | Every offered choice has equal label and value and is a stored identifier containing the input, both sides lower-cased. |
| Guidelines.StoredAreOffered | commands/community/guidelines.py:79-83 | Every stored identifier containing the input, both sides lower-cased, is offered. |
| Guidelines.OfferedCount | commands/community/guidelines.py:79-83 | The rule offers keep storage order and count each matching choice as often as it is stored. |
| Guidelines.AddRule | commands/community/guidelines.py:99-136 | A failed insertion raises. Otherwise it appends exactly one rule: the normalised identifier, the capitalised title, the author (message author if any, else the user), the description, the normalised tags and the instant. The reply reports title and identifier. |
| Guidelines.RemoveRule | commands/community/guidelines.py:147-167 | A failed lookup or deletion raises for that operation and removes nothing. Otherwise it deletes the first rule stored under the normalised name and reports its title, or answers that there is none and changes nothing. |
| Guidelines.StripWithin | commands/community/guidelines.py:107 | Stripping keeps only characters of its input. |
| Guidelines.RuleKeyShape | commands/community/guidelines.py:107 | An identifier holds no space and is its own lookup key. |
| Guidelines.TagShape | commands/community/guidelines.py:109 | A tag is lower-case and holds no space. |
| Guidelines.TagsShape | commands/community/guidelines.py:109 | Every stored tag is lower-case and holds no space. |
| Guidelines.RemoveAppended | commands/community/guidelines.py:147-167 | Deleting by a normalised identifier right after appending the only rule under it restores the collection. |
| Guidelines.AddThenRemoveRule | commands/community/guidelines.py:99-167 | Adding a rule and deleting it by the identifier the reply reports restores the collection and names the title. |
| Guidelines.AddThenView | commands/community/guidelines.py:58-136 | A rule added is found by the identifier the reply reports. |
| Guidelines.OffersHaveNoSpace | commands/community/guidelines.py:78-83 | On identifiers without spaces, no offered choice contains a space. |
| Guidelines.PlaceholderOnlyWhenEmpty | commands/community/guidelines.py:74-87 | On rules stored by `add_rule`, the placeholder is offered exactly when no rule is stored. |
| Roles.Name | dtypes/roles.py:3-5 | Definition of the enumeration member names. `NameRoundTrip` states that parsing a name gives the member back. |
| Roles.ToInt | dtypes/roles.py:14-15 | Definition of `to_int`: the member's snowflake id. `ToIntInjective` states that the ids are distinct. |
| Roles.FromString | dtypes/roles.py:8-12 | It succeeds exactly when the upper-cased input is a member name, and that member's name is the upper-cased input. Otherwise it raises `ValueError` carrying the input. |
| Roles.NameRoundTrip | dtypes/roles.py:3-12 | Parsing a role's name gives the role back. |
| Roles.FromStringIgnoresCase | dtypes/roles.py:8-12 | Parsing ignores case. |
| Roles.ToIntInjective | dtypes/roles.py:4-15 | Distinct roles have distinct ids. |
| ConfigLoader.ParseEntries | loaders/config.py:77 | It succeeds exactly when every entry is an object, giving one entry per object with each missing key defaulting to "". Otherwise it raises `AttributeError`. |
| ConfigLoader.Parse | loaders/config.py:71-77 | An object becomes a one-entry list. A list is parsed entry by entry. The empty string gives an empty list, and any other string raises `AttributeError`. null, booleans and numbers raise `TypeError`. |
| ConfigLoader.Failed | loaders/config.py:17-26 | A failed load sets the error flag and keeps the path and the data. It adds one message to the log on the first failure and none afterwards. |
| ConfigLoader.Load | loaders/config.py:11-26 | A missing or malformed file keeps the data and sets the error flag, printing one message only on the first failure. A parsed file replaces the data. A parse exception propagates. |
| ConfigLoader.Get | loaders/config.py:28-30 | Returns the loaded data unchanged. |
| ConfigLoader.HasValue | loaders/config.py:64-69 | True exactly when data is loaded and non-empty and the key is one of the three config keys. |
| ConfigLoader.CheckEach | loaders/config.py:39-46 | The item loop yields one result per item. |
| ConfigLoader.Validate | loaders/config.py:32-62 | Without items: true at once when a token is present, false without a path, otherwise the token check after reloading from the path. |
| ConfigLoader.LoadIdempotent | loaders/config.py:11-26 | Loading the same file again changes nothing, including the log. |
| ConfigLoader.MissingReportedOnce | loaders/config.py:17-21 | A missing file is reported once however often it is loaded. |
| ConfigLoader.CheckEachWithoutPath | loaders/config.py:39-46 | Without a path the loop never reloads, and each result is the key test on the loaded data. |
| ConfigLoader.CheckEachStable | loaders/config.py:39-46 | Once the loader holds what reloading gives, each result is the key test on it. |
| ConfigLoader.ValidateItemsWithPath | loaders/config.py:39-51 | With items and a path, validation succeeds exactly when the reload does. It answers whether every item is present in the reloaded data. |
| ConfigLoader.ValidateItemsWithoutPath | loaders/config.py:39-51 | With items and no path, validation answers whether every item is present, and reloads nothing. |
| ConfigLoader.EmptyObjectValidates | loaders/config.py:64-77 | A file holding `{}` loads one entry of empty strings and validates. |
| AppConfig.GetConfigOrThrow | config.py:3-20 | It succeeds exactly when the file parses into at least one entry, returning that entry's field (None for other names). A parse exception escapes. The "no data" error is never raised. |
| AppConfig.UnreadableFileIsNotValidated | config.py:10-13 | A missing or malformed file is reported as a failed validation. |
| AppConfig.EmptyListIsNotValidated | config.py:10-13 | An empty list in the file is reported as a failed validation. |
| AppConfig.TokenFromSingleObject | config.py:3-20 | A single object holding a token yields that token for the default name. |
| AppConfig.OtherNameIsNone | config.py:20 | A name other than the three keys yields None once the file is usable. |
| CommandLoader.DottedConcat | loaders/command.py:8-10 | Separator replacement works piecewise on concatenations. |
| CommandLoader.DottedKeepsSuffix | loaders/command.py:8-11 | Separator replacement keeps a ".py" suffix. |
| CommandLoader.ModuleName | loaders/command.py:8-11 | The module name holds no separator. For a ".py" file it is the dotted path without that suffix; a dotted path without the suffix is kept whole. |
| CommandLoader.LoadCommands | loaders/command.py:4-38 | The loop appends, after the existing entries, exactly the entries `EntriesOf` gives for the discovered files. |
| CommandLoader.LastPiece | main.py:52 | The last dotted piece holds no dot. |
| CommandLoader.SetupCogs | main.py:37-56 | Existing names are kept, at most one name is recorded per file, and each recorded name holds no dot. |
| CommandLoader.EntriesOf | loaders/command.py:4-38 | One entry per discovered file, in discovery order, named by its module name. An entry is marked loaded exactly when the module defines `setup` and neither executing the module nor `setup` raised. |
| CommandLoader.EntriesOfPrefix | loaders/command.py:17-38 | The entries of one more file are those of the earlier files plus its own. |
| CommandLoader.SetupCogsAgreesWithLoadCommands | main.py:37-56 | `setup_cogs` records exactly the modules `load_commands` marks loaded, in the same order, each by the last piece of its name. |
| CommandLoader.LastPieceStep | main.py:52 | The last piece of a dotted name lies after its first dot. |
| CommandLoader.LastPieceOfPlain | main.py:52 | A name without a dot is its own last piece. |
| CommandLoader.FirstDot | main.py:52 | The first dot of `prefix.last` is at or before the one after `prefix`. |
| CommandLoader.LastPieceAfterDot | main.py:52 | The last piece of `prefix.last` is `last` when `last` has no dot. |
| CommandLoader.RecordedUnderBaseName | main.py:41-52 | A command file `dir/base.py` is recorded under `base`. |

## Left out

- Logging, `print` output and Discord embeds are left out. Their content is reduced to the reply variants of each command. The one exception is the configuration loader's log, whose "printed once" behaviour is modelled.
- MongoDB's `_id` field and the `inserted_id` that `insert_one` returns are not modelled; no caller uses them.
- The network and the platform are parameters or state, not computation. This covers:
  - `create_role` success and the id it assigns;
  - the guild's roles and the invoking member's roles;
  - the `add_roles`/`remove_roles` effects;
  - the file system, through glob and `importlib`.
- Only the invoking member's roles are modelled. Other members' roles are not.
- The `has_any_role` checks on the privileged commands are left out. They are decorators enforced by the platform before the handler runs; `Roles` models the role ids they use.
- Role positions are left out: a created role is appended to the guild's role list.
- `discord.Color.from_str` is folded into the `created` parameter of `ColorCommands.AddColor`, because an unparsable value makes role creation fail.
- `remove_color` as written raises at line 112 of `commands/community/color.py`. It awaits `interaction.guild._remove_role(selected_role)`, and in the platform library that is a synchronous private cache method keyed by role id. It is handed a `Role` where it expects an id, and it never returns an awaitable, so line 112 raises either in the lookup or at the `await`. The handler therefore never reaches the catalog removal at line 114 or the "removed" reply. The platform library is not part of this model. `ColorCommands.RemoveColor` models line 112 as deleting the selected role from the guild and the member, as the comment above it intends. Its statements from line 112 on hold for a line 112 that really deletes the role.
- Time is a parameter: each handler uses one instant `now` for every `datetime.now()` it makes.
- Case mapping is ASCII only. Python's Unicode case mapping and Unicode whitespace are not modelled.
- JSON numbers are integers only; floats are not modelled.
- Concurrency is left out: every handler runs to completion before the next one starts, and the awaits are sequential.
- `remove_color` reads the catalog twice, and each read is its own call. Both reads return the same value when answered, since nothing runs in between.
- Which remote calls fail is an input. The model does not say why a call fails (timeouts, lost connections, missing permissions) or whether a failed write reached the server.
- ColorCommands.RemoveSelected: the role deletion at line 112 of `commands/community/color.py` never fails in the model. As written, that line raises (see above). A working deletion would be a platform call that could fail, and its failure is not modelled.
- Store.FindOne, Store.DeleteOne: a collection is modelled in insertion order, and both calls pick the earliest-inserted match. MongoDB promises no order for a query without a sort, so `find_one` and `delete_one` could pick different matching documents. `Store.FoundIsDeleted` relies on them picking the same one.
- The `rules` viewer command is left out. It only renders every stored rule, which is `Rules.GetRules`. The profile command in `commands/community/profile.py` is left out for the same reason.
- `dtypes/collections/cosmetics.py`, `dtypes/command.py` and `dtypes/config.py` are not part of this model: they declare types only (the configuration entry shape is `ConfigLoader.Config`).
- The prints in `get_config_or_throw` are left out. Its second `LookupError` is modelled, and `AppConfig.GetConfigOrThrow` proves it unreachable, because both reads of the configuration file see one snapshot of the file system. The two reads are validation, which reloads at lines 42-44 of `loaders/config.py`, and the read at line 7 of `config.py`. If the file appeared between them, the source would reach `data is None` at line 15 of `config.py` with validation passed.
- `CommandLoader.LoadCommands` takes the discovered files as a list. The recursive glob and the order it returns are inputs.
- `CommandLoader.ModuleName` states its result only for paths ending in ".py", or whose dotted form does not end in ".py". Discovery only yields ".py" files, so the case left open (for example "a/py" dotting to "a.py") never reaches it.
- `CommandLoader.SetupCogs` states bounds and shape only. Its full content is stated by `CommandLoader.SetupCogsAgreesWithLoadCommands`.

## Findings

| source | as written | input that shows it | evidently intended | confidence | as-written member | corrected member |
|---|---|---|---|---|---|---|
| main.py:142-147 | The level is written back as the string `str(level + 5) + "/1000"`, and the next message computes `usr.get("level") + 5` on that string, which raises `TypeError`. | A new author sends two messages. After the first the level is "5/1000"; the second raises before updating. | The level stays an int that grows by 5 per message up to the cap; "/1000" is only how it is shown. | high; not executed | Lifecycle.LevelStallsAfterFirstMessage, Progression.SecondStepRaises | Progression.StepLevelIntended, Progression.IntendedLevelAfter |
| commands/community/color.py:114 | Line 112 raises first as written (see "Left out"). Once it deletes the role, the catalog entry is deleted by `color_name.lower()`, and the lookup key is compared exactly with stored names. But `add_color` stores `name.lower().title()`, so a name with a letter never matches and the entry stays. | The catalog holds "Red" and the guild has a role "Red". `remove_color("Red")` deletes the role, answers "removed", and "Red" is still offered. | The entry the membership check recognised (a case-insensitive match) is deleted. | medium: holds once line 112 really deletes the role, since as written the handler raises there first; not executed | ColorCommands.RemoveColorKeepsCatalog, ColorCommands.RemoveRedKeepsRed | ColorCommands.RemoveColorIntended, ColorCommands.RemoveColorIntendedForgetsName |
