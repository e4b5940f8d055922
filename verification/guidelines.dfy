/** The rule slash commands: `rule`, its autocompletion, `add_rule` and `delete_rule`.
    Replies are values; `now` is the instant the handler runs. A handler making one store
    call is given whether the server answers it (`up`); `delete_rule`, which makes two, is
    given the server's answers in order (`Calls.Answered`). */
module Guidelines {
  import opened Wrappers
  import opened Text
  import Store
  import Calls
  import opened Schema
  import opened Seqs
  import opened Choices
  import Rules

  /** A platform user or message author as far as naming goes. */
  datatype Person = Person(displayName: string, name: string)

  /** The message a rule command answers with. */
  datatype Reply =
    | ShownRule(rule: RuleDoc)
    | RuleNotFound(name: string)
    | AddedRule(title: string, key: string)
    | RemovedRule(title: string, name: string)
    | NothingToRemove(name: string)

  const NoRulesChoice := Choice("Could not find any rules!", "Could not find any rules!")

  /** `display_name or name` */
  function DisplayOrName(p: Person): (r: string)
    ensures r == "" ==> p.name == ""
    ensures p.displayName != "" ==> r == p.displayName
    ensures p.displayName == "" ==> r == p.name
  {
    if p.displayName != "" then p.displayName else p.name
  }

  /** The rule identifier `add_rule` stores: spaces become dashes, then lower-case, then stripped. */
  function RuleKey(name: string): string {
    Strip(Lower(ReplaceChar(name, ' ', '-')))
  }

  /** One tag: lower-cased, spaces to dashes, stripped. */
  function TagOf(t: string): string {
    Strip(ReplaceChar(Lower(t), ' ', '-'))
  }

  /** The tags of `add_rule`: one per piece of the space-separated input, empty pieces included. */
  function Tags(tags: string): (r: seq<string>)
    ensures |r| == |Split(tags, ' ')|
    ensures forall k :: 0 <= k < |r| ==> r[k] == TagOf(Split(tags, ' ')[k])
  {
    var pieces := Split(tags, ' ');
    seq(|pieces|, k requires 0 <= k < |pieces| => TagOf(pieces[k]))
  }

  /** `rule`: the stored rule under the normalised name, or a not-found answer. */
  function ViewRule(db: Db, ruleName: string, up: bool): (r: Result<Reply, Store.StoreError>)
    ensures r.Success? <==> up
    ensures r.Failure? ==> r.error == Store.RuntimeError(Store.Find)
    ensures r.Success? ==> (r.value == RuleNotFound(ruleName) <==> Rules.NoneNamed(db.rules, NormalizeKey(ruleName)))
    ensures r.Success? && !Rules.NoneNamed(db.rules, NormalizeKey(ruleName)) ==> r.value.ShownRule?
    ensures r.Success? && r.value.ShownRule? ==>
      exists i :: Rules.IsFirstNamed(db.rules, NormalizeKey(ruleName), i) && r.value.rule == db.rules[i]
  {
    var found :- Rules.FindRuleByName(up, db, ruleName);
    match found
    case Some(rule) => Success(ShownRule(rule))
    case None => Success(RuleNotFound(ruleName))
  }

  /** `current.lower() in title.lower()` */
  function Offers(current: string): string -> bool {
    (n: string) => Contains(Lower(n), Lower(current))
  }

  /** `rule_autocomplete`: the stored rule identifiers that contain the input, both sides
      compared lower-cased, in storage order and as often as stored; a placeholder when no
      rule is stored. `up` is whether the server answers the read. */
  function RuleAutocomplete(db: Db, current: string, up: bool): (r: Result<seq<Choice>, Store.StoreError>)
    ensures r.Success? <==> up
    ensures r.Failure? ==> r.error == Store.RuntimeError(Store.FetchAll)
    ensures r.Success? && |db.rules| == 0 ==> r.value == [NoRulesChoice]
    ensures r.Success? && |db.rules| > 0 ==>
      forall j :: 0 <= j < |r.value| ==>
        r.value[j].name == r.value[j].value && Contains(Lower(r.value[j].name), Lower(current))
        && exists i :: 0 <= i < |db.rules| && db.rules[i].name == r.value[j].name
    ensures r.Success? && |db.rules| > 0 ==>
      forall i :: 0 <= i < |db.rules| && Contains(Lower(db.rules[i].name), Lower(current)) ==>
        Choice(db.rules[i].name, db.rules[i].name) in r.value
    ensures r.Success? && |db.rules| > 0 ==> IsSubsequence(r.value, AsChoices(RuleNames(db.rules)))
    ensures r.Success? && |db.rules| > 0 ==>
      forall c :: multiset(r.value)[c] == if Contains(Lower(c.name), Lower(current)) then multiset(AsChoices(RuleNames(db.rules)))[c] else 0
  {
    var rules :- Rules.GetRules(up, db);
    if |rules| > 0 then
      OfferedAreStored(rules, current);
      StoredAreOffered(rules, current);
      OfferedCount(rules, current);
      Success(AsChoices(Filter(RuleNames(rules), Offers(current))))
    else Success([NoRulesChoice])
  }

  /** The offers keep storage order, and each matching choice as often as it is stored. */
  lemma OfferedCount(rules: seq<RuleDoc>, current: string)
    ensures var cs := AsChoices(Filter(RuleNames(rules), Offers(current)));
            && IsSubsequence(cs, AsChoices(RuleNames(rules)))
            && forall c :: multiset(cs)[c] == if Contains(Lower(c.name), Lower(current)) then multiset(AsChoices(RuleNames(rules)))[c] else 0
  {
    FilteredChoices(RuleNames(rules), Offers(current));
    forall c: Choice
      ensures Offers(current)(c.name) == Contains(Lower(c.name), Lower(current))
    {
    }
  }

  /** Every offered choice names a stored rule that contains the input. */
  lemma OfferedAreStored(rules: seq<RuleDoc>, current: string)
    ensures var cs := AsChoices(Filter(RuleNames(rules), Offers(current)));
            forall j :: 0 <= j < |cs| ==>
              cs[j].name == cs[j].value && Contains(Lower(cs[j].name), Lower(current))
              && exists i :: 0 <= i < |rules| && rules[i].name == cs[j].name
  {
    var names := Filter(RuleNames(rules), Offers(current));
    var cs := AsChoices(names);
    forall j | 0 <= j < |cs|
      ensures cs[j].name == cs[j].value && Contains(Lower(cs[j].name), Lower(current))
              && exists i :: 0 <= i < |rules| && rules[i].name == cs[j].name
    {
      assert cs[j] == Choice(names[j], names[j]);
      assert Offers(current)(names[j]) && names[j] in RuleNames(rules);
      var i :| 0 <= i < |RuleNames(rules)| && RuleNames(rules)[i] == names[j];
      assert rules[i].name == cs[j].name;
    }
  }

  /** Every stored rule that contains the input is offered. */
  lemma StoredAreOffered(rules: seq<RuleDoc>, current: string)
    ensures forall i :: 0 <= i < |rules| && Contains(Lower(rules[i].name), Lower(current)) ==>
      Choice(rules[i].name, rules[i].name) in AsChoices(Filter(RuleNames(rules), Offers(current)))
  {
    var names := Filter(RuleNames(rules), Offers(current));
    forall i | 0 <= i < |rules| && Contains(Lower(rules[i].name), Lower(current))
      ensures Choice(rules[i].name, rules[i].name) in AsChoices(names)
    {
      assert RuleNames(rules)[i] == rules[i].name;
      assert rules[i].name in names;
      var j :| 0 <= j < |names| && names[j] == rules[i].name;
      assert AsChoices(names)[j] == Choice(rules[i].name, rules[i].name);
    }
  }

  /** `add_rule`: stores the rule under `RuleKey(name)` with the capitalised title and the
      normalised tags; the author is the message author's name when there is a message,
      else the invoking user's. A store failure (`up` false) raises. */
  function AddRule(db: Db, name: string, title: string, description: string, tags: string,
                   message: Option<Person>, user: Person, now: nat, up: bool): (r: Result<(Db, Reply), Store.StoreError>)
    ensures r.Success? <==> up
    ensures r.Failure? ==> r.error == Store.RuntimeError(Store.Insert)
    ensures r.Success? ==> r.value.1 == AddedRule(Capitalize(title), RuleKey(name))
    ensures r.Success? ==>
      r.value.0 == db.(rules := db.rules + [RuleDoc(RuleKey(name), Capitalize(title),
        DisplayOrName(if message.Some? then message.value else user), description, Tags(tags), now)])
  {
    var author := DisplayOrName(if message.Some? then message.value else user);
    var rule := RuleDoc(RuleKey(name), Capitalize(title), author, description, Tags(tags), now);
    var saved :- Rules.Save(up, db, rule, now);
    assert saved.rules == saved.rules[..|db.rules|] + [saved.rules[|db.rules|]];
    Success((saved, AddedRule(Capitalize(title), RuleKey(name))))
  }

  /** `delete_rule`: removes the first rule stored under the normalised name and names its
      title, or answers that there is none. The lookup is call 0 and the deletion call 1;
      either raises when the server does not answer it, and nothing is removed. */
  function RemoveRule(db: Db, name: string, net: seq<bool>): (r: Result<(Db, Reply), Store.StoreError>)
    ensures r.Success? <==> Calls.Answered(net, 0) && Calls.Answered(net, 1)
    ensures !Calls.Answered(net, 0) ==> r == Failure(Store.RuntimeError(Store.Find))
    ensures Calls.Answered(net, 0) && !Calls.Answered(net, 1) ==> r == Failure(Store.RuntimeError(Store.Delete))
    ensures r.Success? && Rules.NoneNamed(db.rules, NormalizeKey(name)) ==> r.value == (db, NothingToRemove(name))
    ensures r.Success? && !Rules.NoneNamed(db.rules, NormalizeKey(name)) ==>
      exists i :: Rules.IsFirstNamed(db.rules, NormalizeKey(name), i)
        && r.value == (db.(rules := db.rules[..i] + db.rules[i + 1..]), RemovedRule(db.rules[i].title, name))
  {
    var res :- Rules.RemoveRuleByName(Calls.Answered(net, 0), Calls.Answered(net, 1), db, name);
    match res.1
    case Some(rule) => Success((res.0, RemovedRule(rule.title, name)))
    case None => Success((res.0, NothingToRemove(name)))
  }

  // ---------------------------------------------------------------------------
  // Lemmas

  /** Stripping keeps only characters of the input. */
  lemma StripWithin(s: string, c: char)
    requires c in Strip(s)
    ensures c in s
  {
    var t := TrimStart(s);
    var u := TrimEnd(t);
    var m :| 0 <= m < |u| && u[m] == c;
    assert t[m] == c;
    assert s[|s| - |t| + m] == c;
  }

  /** A rule identifier holds no space, and it is its own lookup key, so the rule can be
      found and removed by the identifier `add_rule` reports. */
  lemma RuleKeyShape(name: string)
    ensures ' ' !in RuleKey(name)
    ensures NormalizeKey(RuleKey(name)) == RuleKey(name)
  {
    var low := Lower(ReplaceChar(name, ' ', '-'));
    assert ' ' !in low;
    if ' ' in RuleKey(name) {
      StripWithin(low, ' ');
    }
    StripIdempotent(low);
    StripLowerCommute(Strip(low));
    StripLowerCommute(low);
    LowerIdempotent(ReplaceChar(name, ' ', '-'));
  }

  /** A tag is lower-case and holds no space. */
  lemma TagShape(piece: string)
    ensures ' ' !in TagOf(piece) && Lower(TagOf(piece)) == TagOf(piece)
  {
    var rep := ReplaceChar(Lower(piece), ' ', '-');
    assert ' ' !in rep;
    if ' ' in TagOf(piece) {
      StripWithin(rep, ' ');
    }
    assert Lower(rep) == rep;
    StripLowerCommute(rep);
  }

  /** Every tag `add_rule` stores is lower-case and holds no space. */
  lemma TagsShape(tags: string)
    ensures forall k :: 0 <= k < |Tags(tags)| ==> ' ' !in Tags(tags)[k] && Lower(Tags(tags)[k]) == Tags(tags)[k]
  {
    var ts := Tags(tags);
    forall k | 0 <= k < |ts|
      ensures ' ' !in ts[k] && Lower(ts[k]) == ts[k]
    {
      TagShape(Split(tags, ' ')[k]);
    }
  }

  /** Deleting by a normalised identifier right after appending the only rule stored under
      it takes that rule out again. */
  lemma RemoveAppended(db: Db, x: RuleDoc, key: string)
    requires NormalizeKey(key) == key && x.name == key && Rules.NoneNamed(db.rules, key)
    ensures RemoveRule(db.(rules := db.rules + [x]), key, []) == Success((db, RemovedRule(x.title, key)))
  {
    var rules := db.rules + [x];
    assert Calls.Answered([], 0) && Calls.Answered([], 1);
    assert Rules.IsFirstNamed(rules, key, |db.rules|);
    var r := RemoveRule(db.(rules := rules), key, []).value;
    var i :| Rules.IsFirstNamed(rules, key, i)
      && r == (db.(rules := rules[..i] + rules[i + 1..]), RemovedRule(rules[i].title, key));
    assert i == |db.rules|;
    assert rules[..i] + rules[i + 1..] == db.rules;
  }

  /** Adding a rule and then deleting it by the identifier the reply reports restores the
      collection, when no rule was stored under that identifier before. */
  lemma AddThenRemoveRule(db: Db, name: string, title: string, description: string, tags: string,
                          message: Option<Person>, user: Person, now: nat)
    requires Rules.NoneNamed(db.rules, RuleKey(name))
    ensures var added := AddRule(db, name, title, description, tags, message, user, now, true).value;
            RemoveRule(added.0, RuleKey(name), []) == Success((db, RemovedRule(Capitalize(title), RuleKey(name))))
  {
    RuleKeyShape(name);
    var x := RuleDoc(RuleKey(name), Capitalize(title), DisplayOrName(if message.Some? then message.value else user), description, Tags(tags), now);
    RemoveAppended(db, x, RuleKey(name));
  }

  /** A rule added under an identifier is found by that identifier. */
  lemma AddThenView(db: Db, name: string, title: string, description: string, tags: string,
                    message: Option<Person>, user: Person, now: nat)
    ensures var added := AddRule(db, name, title, description, tags, message, user, now, true).value;
            ViewRule(added.0, RuleKey(name), true).value.ShownRule?
  {
    RuleKeyShape(name);
    var added := AddRule(db, name, title, description, tags, message, user, now, true).value;
    assert added.0.rules[|db.rules|].name == NormalizeKey(RuleKey(name));
  }

  /** No offered choice is named with a space. */
  lemma OffersHaveNoSpace(db: Db, current: string)
    requires |db.rules| > 0 && forall i :: 0 <= i < |db.rules| ==> ' ' !in db.rules[i].name
    ensures forall j :: 0 <= j < |RuleAutocomplete(db, current, true).value| ==> ' ' !in RuleAutocomplete(db, current, true).value[j].name
  {
  }

  /** On rules stored by `add_rule` (identifiers without spaces) the placeholder is offered
      exactly when no rule is stored. */
  lemma PlaceholderOnlyWhenEmpty(db: Db, current: string)
    requires forall i :: 0 <= i < |db.rules| ==> ' ' !in db.rules[i].name
    ensures NoRulesChoice in RuleAutocomplete(db, current, true).value <==> |db.rules| == 0
  {
    assert ' ' in NoRulesChoice.name by {
      assert NoRulesChoice.name[5] == ' ';
    }
    if |db.rules| > 0 {
      OffersHaveNoSpace(db, current);
    }
  }
}
