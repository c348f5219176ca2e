/** Concrete calls of the filter: single-rule calls (an unlisted level, a
    listed level, 'self' lists, a level listed before 'self', absent ids),
    and the inputs that show the rule order and a repeated call can change
    the outcome. */
module FilterExamples {
  import opened JsValues
  import opened RestrictedAttrService

  /** A user record with an id and an access level. */
  function Person(id: int, access: string): (user: map<string, Value>)
  {
    map[UserIdAttribute := Num(id), AccessAttribute := Str(access)]
  }

  /** A call with one rule is one loop step from a clear flag. */
  lemma FilterOne(obj: map<string, Value>, rule: Rule, user: map<string, Value>, action: string)
    ensures FilterRecord(obj, [rule], user, action) == ApplyRule(State(obj, false), rule, user, action).attrs
  {
    var start := State(obj, false);
    assert [rule][..0] == [];
    assert Run(start, [], user, action) == start;
    assert Run(start, [rule], user, action) == ApplyRule(Run(start, [], user, action), rule, user, action);
  }

  /** A call with two rules is two loop steps from a clear flag. */
  lemma FilterTwo(obj: map<string, Value>, first: Rule, second: Rule, user: map<string, Value>, action: string)
    ensures FilterRecord(obj, [first, second], user, action)
            == ApplyRule(ApplyRule(State(obj, false), first, user, action), second, user, action).attrs
  {
    var start := State(obj, false);
    assert [first, second][..1] == [first];
    assert [first][..0] == [];
    assert Run(start, [], user, action) == start;
    assert Run(start, [first], user, action) == ApplyRule(Run(start, [], user, action), first, user, action);
    assert Run(start, [first, second], user, action)
           == ApplyRule(Run(start, [first], user, action), second, user, action);
  }

  /** A user whose level is not listed loses the attribute, even on a record
      whose id is theirs. */
  lemma UnlistedLevelLosesSalary()
    ensures var rule := Rule("salary", map["view" := [Str("admin")]]);
            FilterRecord(map["salary" := Num(100), "id" := Num(1)], [rule], Person(1, "user"), "view")
            == map["id" := Num(1)]
  {
    var rule := Rule("salary", map["view" := [Str("admin")]]);
    FilterOne(map["salary" := Num(100), "id" := Num(1)], rule, Person(1, "user"), "view");
    assert map["salary" := Num(100), "id" := Num(1)] - {"salary"} == map["id" := Num(1)];
  }

  /** A listed level keeps the attribute with its value. */
  lemma ListedLevelKeepsSalary()
    ensures var rule := Rule("salary", map["view" := [Str("admin")]]);
            var obj := map["salary" := Num(100), "id" := Num(1)];
            FilterRecord(obj, [rule], Person(1, "admin"), "view") == obj
  {
    var rule := Rule("salary", map["view" := [Str("admin")]]);
    FilterOne(map["salary" := Num(100), "id" := Num(1)], rule, Person(1, "admin"), "view");
  }

  /** A list of only 'self' removes the attribute even for its owner, since
      the owner's own level ("user") is not in the list. */
  lemma OwnerNotListedLosesEmail()
    ensures var rule := Rule("email", map["update" := [SelfToken]]);
            FilterRecord(map["id" := Num(5), "email" := Str("a@x.com")], [rule], Person(5, "user"), "update")
            == map["id" := Num(5)]
  {
    var rule := Rule("email", map["update" := [SelfToken]]);
    var obj := map["id" := Num(5), "email" := Str("a@x.com")];
    FilterOne(obj, rule, Person(5, "user"), "update");
    assert obj - {"email"} == map["id" := Num(5)];
  }

  /** With 'self' listed before the owner's level, the owner keeps the
      attribute and anyone else with that level loses it. */
  lemma SelfBeforeLevelSeparatesOwner()
    ensures var rule := Rule("email", map["update" := [SelfToken, Str("user")]]);
            var obj := map["id" := Num(5), "email" := Str("a@x.com")];
            && FilterRecord(obj, [rule], Person(5, "user"), "update") == obj
            && FilterRecord(obj, [rule], Person(6, "user"), "update") == map["id" := Num(5)]
  {
    var allowed := [SelfToken, Str("user")];
    var rule := Rule("email", map["update" := allowed]);
    var obj := map["id" := Num(5), "email" := Str("a@x.com")];
    FilterOne(obj, rule, Person(5, "user"), "update");
    FilterOne(obj, rule, Person(6, "user"), "update");
    assert allowed[1..] == [Str("user")];
    assert IndexOf(allowed, Some(Str("user"))) == 1;
    assert IndexOf(allowed, Some(SelfToken)) == 0;
    assert obj - {"email"} == map["id" := Num(5)];
  }

  /** A level listed before 'self' acts on anyone's record. */
  lemma LevelBeforeSelfOverridesOwnership()
    ensures var rule := Rule("email", map["update" := [Str("admin"), SelfToken]]);
            var obj := map["id" := Num(5), "email" := Str("a@x.com")];
            FilterRecord(obj, [rule], Person(6, "admin"), "update") == obj
  {
    var allowed := [Str("admin"), SelfToken];
    var rule := Rule("email", map["update" := allowed]);
    FilterOne(map["id" := Num(5), "email" := Str("a@x.com")], rule, Person(6, "admin"), "update");
    assert allowed[1..] == [SelfToken];
    assert IndexOf(allowed, Some(Str("admin"))) == 0;
    assert IndexOf(allowed, Some(SelfToken)) == 1;
  }

  /** A user without an id counts as the owner of a record without an id:
      both lookups give `undefined`. */
  lemma AbsentIdsMatch()
    ensures var rule := Rule("email", map["view" := [SelfToken, Str("user")]]);
            var obj := map["email" := Str("a@x.com")];
            FilterRecord(obj, [rule], map[AccessAttribute := Str("user")], "view") == obj
  {
    var allowed := [SelfToken, Str("user")];
    var rule := Rule("email", map["view" := allowed]);
    FilterOne(map["email" := Str("a@x.com")], rule, map[AccessAttribute := Str("user")], "view");
    assert allowed[1..] == [Str("user")];
    assert IndexOf(allowed, Some(Str("user"))) == 1;
    assert Get(map[AccessAttribute := Str("user")], UserIdAttribute) == None;
  }

  /** The shared flag makes the outcome depend on rule order: an attribute the
      user may see survives when its rule comes first and is removed when a
      denying rule for another attribute comes first. */
  lemma RuleOrderMatters()
    ensures var mayView := Rule("email", map["view" := [Str("user")]]);
            var denied := Rule("salary", map["view" := [Str("admin")]]);
            var obj := map["email" := Str("a@x.com"), "salary" := Num(100)];
            && FilterRecord(obj, [mayView, denied], Person(1, "user"), "view") == map["email" := Str("a@x.com")]
            && FilterRecord(obj, [denied, mayView], Person(1, "user"), "view") == map[]
  {
    var mayView := Rule("email", map["view" := [Str("user")]]);
    var denied := Rule("salary", map["view" := [Str("admin")]]);
    var obj := map["email" := Str("a@x.com"), "salary" := Num(100)];
    var user := Person(1, "user");
    FilterTwo(obj, mayView, denied, user, "view");
    FilterTwo(obj, denied, mayView, user, "view");
    var kept := ApplyRule(State(obj, false), mayView, user, "view");
    assert kept == State(obj, false);
    assert ApplyRule(kept, denied, user, "view") == State(map["email" := Str("a@x.com")], true) by {
      assert obj - {"salary"} == map["email" := Str("a@x.com")];
    }
    var denial := ApplyRule(State(obj, false), denied, user, "view");
    assert denial == State(map["email" := Str("a@x.com")], true) by {
      assert obj - {"salary"} == map["email" := Str("a@x.com")];
    }
    assert ApplyRule(denial, mayView, user, "view").attrs == map[] by {
      assert map["email" := Str("a@x.com")] - {"email"} == map[];
    }
  }

  /** A rule on `id` makes a second call remove more: the first call deletes
      `id` after the owner kept `email`; in the second call the owner check
      compares the user's id with the now absent record id and fails. */
  lemma IdRuleBreaksIdempotence()
    ensures var email := Rule("email", map["view" := [SelfToken, Str("user")]]);
            var id := Rule("id", map["view" := [Str("admin")]]);
            var obj := map["id" := Num(5), "email" := Str("a@x.com")];
            var once := FilterRecord(obj, [email, id], Person(5, "user"), "view");
            && once == map["email" := Str("a@x.com")]
            && FilterRecord(once, [email, id], Person(5, "user"), "view") == map[]
  {
    var email := Rule("email", map["view" := [SelfToken, Str("user")]]);
    var id := Rule("id", map["view" := [Str("admin")]]);
    var allowed := [SelfToken, Str("user")];
    var obj := map["id" := Num(5), "email" := Str("a@x.com")];
    var user := Person(5, "user");
    var once := map["email" := Str("a@x.com")];
    FilterTwo(obj, email, id, user, "view");
    FilterTwo(once, email, id, user, "view");
    assert allowed[1..] == [Str("user")];
    assert IndexOf(allowed, Some(Str("user"))) == 1;
    assert IndexOf(allowed, Some(SelfToken)) == 0;
    // first call: the owner keeps email, then id is removed
    var first := ApplyRule(State(obj, false), email, user, "view");
    assert first == State(obj, false);
    assert ApplyRule(first, id, user, "view") == State(once, true) by {
      assert obj - {"id"} == once;
    }
    // second call: without id the user no longer owns the record
    var again := ApplyRule(State(once, false), email, user, "view");
    assert again == State(map[], true) by {
      assert Get(once, ObjectIdAttribute) == None;
      assert once - {"email"} == map[];
    }
    assert ApplyRule(again, id, user, "view") == again;
  }
}
