/** What the rule loop of RestrictedAttrService.filter guarantees, and what it
    does not: one rule at a time, then across the whole list. */
module FilterProperties {
  import opened JsValues
  import opened RestrictedAttrService

  // ---------------------------------------------------------------------------
  // One rule
  // ---------------------------------------------------------------------------

  /** An applicable rule whose list does not hold the user's access level
      removes its attribute and sets the flag, whoever owns the record:
      ownership alone never keeps an attribute. */
  lemma UnlistedAccessRemoves(st: State, rule: Rule, user: map<string, Value>, action: string)
    requires Applies(st.attrs, rule, action)
    requires Get(user, AccessAttribute).None?
             || Get(user, AccessAttribute).value !in rule.restrictions[action]
    ensures rule.name !in ApplyRule(st, rule, user, action).attrs
    ensures ApplyRule(st, rule, user, action).restricted
  {
    var access := Get(user, AccessAttribute);
    assert AfterMembershipCheck(st.restricted, rule.restrictions[action], access);
  }

  /** Once the flag is set, every applicable rule removes its attribute,
      whatever its own list says. */
  lemma SetFlagRemoves(st: State, rule: Rule, user: map<string, Value>, action: string)
    requires Applies(st.attrs, rule, action)
    requires st.restricted
    ensures rule.name !in ApplyRule(st, rule, user, action).attrs
    ensures ApplyRule(st, rule, user, action).restricted
  {
  }

  /** An applicable rule reached with the flag clear, for a user whose access
      level is listed, keeps its attribute exactly when the list has no 'self',
      or the user's id equals the record's current id, or the user's level
      first occurs strictly before 'self'; and it sets the flag exactly when
      it removes the attribute. */
  lemma ListedAccessKeptIff(st: State, rule: Rule, user: map<string, Value>, action: string)
    requires Applies(st.attrs, rule, action)
    requires !st.restricted
    requires Get(user, AccessAttribute).Some?
    requires Get(user, AccessAttribute).value in rule.restrictions[action]
    ensures var allowed := rule.restrictions[action];
            rule.name in ApplyRule(st, rule, user, action).attrs
            <==> SelfToken !in allowed
                 || Get(user, UserIdAttribute) == Get(st.attrs, ObjectIdAttribute)
                 || IndexOf(allowed, Get(user, AccessAttribute)) < IndexOf(allowed, Some(SelfToken))
    ensures ApplyRule(st, rule, user, action).restricted
            <==> rule.name !in ApplyRule(st, rule, user, action).attrs
  {
    var allowed := rule.restrictions[action];
    var access := Get(user, AccessAttribute);
    assert !AfterMembershipCheck(false, allowed, access);
  }

  /** Whenever the position comparison of the owner check is reached, the
      user's access level was found in the list: a "not found" index of -1
      never exempts anyone there. */
  lemma PositionComparisonSeesListedAccess(restricted: bool, allowed: seq<Value>,
                                           user: map<string, Value>, objectId: Option<Value>)
    requires IndexOf(allowed, Some(SelfToken)) > -1
    requires Get(user, UserIdAttribute) != objectId
    requires !AfterMembershipCheck(restricted, allowed, Get(user, AccessAttribute))
    ensures 0 <= IndexOf(allowed, Get(user, AccessAttribute)) < |allowed|
  {
  }

  // ---------------------------------------------------------------------------
  // The whole rule list
  // ---------------------------------------------------------------------------

  /** Processing one more rule is one more loop step. */
  lemma RunStep(st: State, rules: seq<Rule>, i: nat, user: map<string, Value>, action: string)
    requires i < |rules|
    ensures Run(st, rules[..i + 1], user, action)
            == ApplyRule(Run(st, rules[..i], user, action), rules[i], user, action)
  {
    assert rules[..i + 1][..i] == rules[..i];
  }

  /** Later in the loop the record only has fewer attributes, each with its
      original value, and a set flag stays set. */
  lemma {:induction false} RunShrinks(st: State, rules: seq<Rule>, i: nat, j: nat,
                                      user: map<string, Value>, action: string)
    requires i <= j <= |rules|
    ensures Run(st, rules[..j], user, action).attrs.Keys <= Run(st, rules[..i], user, action).attrs.Keys
    ensures Run(st, rules[..i], user, action).restricted ==> Run(st, rules[..j], user, action).restricted
  {
    if i < j {
      RunShrinks(st, rules, i, j - 1, user, action);
      RunStep(st, rules, j - 1, user, action);
    }
  }

  /** The flag is shared by all rules of a call and never cleared: after the
      first rule that restricts, every later rule that applies when it is
      reached removes its attribute. */
  lemma SharedFlagRemovesLaterRules(st: State, rules: seq<Rule>, i: nat, j: nat,
                                    user: map<string, Value>, action: string)
    requires i <= j < |rules|
    requires Run(st, rules[..i], user, action).restricted
    requires Applies(Run(st, rules[..j], user, action).attrs, rules[j], action)
    ensures rules[j].name !in Run(st, rules[..j + 1], user, action).attrs
  {
    RunShrinks(st, rules, i, j, user, action);
    RunStep(st, rules, j, user, action);
    SetFlagRemoves(Run(st, rules[..j], user, action), rules[j], user, action);
  }

  /** While no rule is named `id`, every owner check compares against the
      record's original id. */
  lemma OwnerIdKeptWithoutIdRule(st: State, rules: seq<Rule>, user: map<string, Value>, action: string)
    requires ObjectIdAttribute !in RuleNames(rules)
    ensures Get(Run(st, rules, user, action).attrs, ObjectIdAttribute) == Get(st.attrs, ObjectIdAttribute)
  {
  }

  /** Filtering an already filtered record again with the same rules changes
      nothing, provided the first call kept the record's `id` (or left it
      absent): every owner check of the second call then sees the id the
      first call saw. */
  lemma IdempotentWhenIdKept(obj: map<string, Value>, rules: seq<Rule>,
                             user: map<string, Value>, action: string)
    requires Get(FilterRecord(obj, rules, user, action), ObjectIdAttribute) == Get(obj, ObjectIdAttribute)
    ensures FilterRecord(FilterRecord(obj, rules, user, action), rules, user, action)
            == FilterRecord(obj, rules, user, action)
  {
    SecondPassKeepsAll(obj, rules, |rules|, user, action);
    assert rules[..|rules|] == rules;
  }

  /** In particular filtering is idempotent when no rule is named `id`. */
  lemma IdempotentWithoutIdRule(obj: map<string, Value>, rules: seq<Rule>,
                                user: map<string, Value>, action: string)
    requires ObjectIdAttribute !in RuleNames(rules)
    ensures FilterRecord(FilterRecord(obj, rules, user, action), rules, user, action)
            == FilterRecord(obj, rules, user, action)
  {
    OwnerIdKeptWithoutIdRule(State(obj, false), rules, user, action);
    IdempotentWhenIdKept(obj, rules, user, action);
  }

  /** The second pass over the first `i` rules deletes nothing and never sets
      the flag, when the first call kept the record's `id`. */
  lemma {:induction false} SecondPassKeepsAll(obj: map<string, Value>, rules: seq<Rule>, i: nat,
                                              user: map<string, Value>, action: string)
    requires i <= |rules|
    requires Get(FilterRecord(obj, rules, user, action), ObjectIdAttribute) == Get(obj, ObjectIdAttribute)
    ensures var once := FilterRecord(obj, rules, user, action);
            Run(State(once, false), rules[..i], user, action) == State(once, false)
  {
    var once := FilterRecord(obj, rules, user, action);
    if i == 0 {
      assert rules[..0] == [];
    } else {
      SecondPassKeepsAll(obj, rules, i - 1, user, action);
      RunStep(State(once, false), rules, i - 1, user, action);
      var rule := rules[i - 1];
      if Applies(once, rule, action) {
        var start := State(obj, false);
        var before := Run(start, rules[..i - 1], user, action);
        // the first pass kept the attribute, so it kept it at rule i - 1 too
        assert rules[..|rules|] == rules;
        RunShrinks(start, rules, i, |rules|, user, action);
        RunStep(start, rules, i - 1, user, action);
        assert rule.name in ApplyRule(before, rule, user, action).attrs;
        assert !before.restricted;
        // and both passes compare the user against the same record id
        RunShrinks(start, rules, i - 1, |rules|, user, action);
        assert Get(once, ObjectIdAttribute) == Get(before.attrs, ObjectIdAttribute);
      }
    }
  }

  /** While the flag stays clear the record is untouched: every deletion sets
      the flag first. So a rule that deletes `id` makes every later
      applicable rule delete anyway, and the owner check can only see the
      reduced record in a later call. */
  lemma {:induction false} ClearFlagKeepsRecord(st: State, rules: seq<Rule>,
                                                user: map<string, Value>, action: string)
    requires !Run(st, rules, user, action).restricted
    ensures Run(st, rules, user, action).attrs == st.attrs
    decreases |rules|
  {
    if |rules| > 0 {
      ClearFlagKeepsRecord(st, rules[..|rules| - 1], user, action);
    }
  }
}
