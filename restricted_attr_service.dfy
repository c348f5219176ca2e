/** RestrictedAttrService.filter: strips from a record every attribute that a
    user may not see or update for an action, walking an ordered list of
    per-attribute rules.

    The specification functions below thread a `State` (the record as it
    stands, and the one `restricted` flag of the call) through the rules;
    the class `Record` and the method `Filter` are the in-place version that
    the source runs, proved equal to them. */
module RestrictedAttrService {
  import opened JsValues

  /** Field names the filter compares (fixed literals in the source). */
  const UserIdAttribute: string := "id"
  const ObjectIdAttribute: string := "id"
  const AccessAttribute: string := "access"

  /** The reserved token meaning "the owner of the record". */
  const SelfToken: Value := Str("self")

  /** One restricted attribute: its name and, per action, the ordered list of
      access levels allowed to perform that action on it. */
  datatype Rule = Rule(name: string, restrictions: map<string, seq<Value>>)

  /** What the rule loop carries from one rule to the next: the record as
      reduced so far and the `restricted` flag, which is set once per call. */
  datatype State = State(attrs: map<string, Value>, restricted: bool)

  /** The names of all rules in `rules`. */
  function RuleNames(rules: seq<Rule>): (names: set<string>)
  {
    set j | 0 <= j < |rules| :: rules[j].name
  }

  /** A rule takes part only if the record owns its attribute and the rule
      lists restrictions for the action. */
  predicate Applies(attrs: map<string, Value>, rule: Rule, action: string)
  {
    rule.name in attrs && action in rule.restrictions
  }

  /** The membership check: the flag becomes set when the user's access level
      is not among the allowed ones; otherwise it keeps its value. */
  function AfterMembershipCheck(restricted: bool, allowed: seq<Value>, access: Option<Value>): (r: bool)
    ensures r <==> restricted || access.None? || access.value !in allowed
  {
    if !(IndexOf(allowed, access) > -1) then true else restricted
  }

  /** The owner check: when the list names 'self', the user is not the owner
      and nothing has restricted yet, the flag becomes set unless the user's
      access level stands strictly before 'self' in the list. */
  function AfterSelfCheck(restricted: bool, allowed: seq<Value>, userId: Option<Value>,
                          objectId: Option<Value>, access: Option<Value>): (r: bool)
    ensures restricted ==> r
    ensures r && !restricted ==>
      SelfToken in allowed && userId != objectId &&
      IndexOf(allowed, access) >= IndexOf(allowed, Some(SelfToken))
    ensures !r && !restricted && SelfToken in allowed && userId != objectId ==>
      IndexOf(allowed, access) < IndexOf(allowed, Some(SelfToken))
  {
    if IndexOf(allowed, Some(SelfToken)) > -1 && userId != objectId && !restricted then
      if IndexOf(allowed, Some(SelfToken)) > IndexOf(allowed, access) then restricted else true
    else restricted
  }

  /** The flag after both checks of one applicable rule, reading the user's
      access level and id from `user`: set when it was set already, when the
      level is missing from the list, or when the list names 'self', the user
      is not the owner and the level does not come strictly before 'self'. */
  function Decision(restricted: bool, allowed: seq<Value>, user: map<string, Value>,
                    objectId: Option<Value>): (r: bool)
    ensures var access := Get(user, AccessAttribute);
            r <==> || restricted
                   || access.None?
                   || access.value !in allowed
                   || (&& SelfToken in allowed
                       && Get(user, UserIdAttribute) != objectId
                       && IndexOf(allowed, access) >= IndexOf(allowed, Some(SelfToken)))
  {
    var access := Get(user, AccessAttribute);
    AfterSelfCheck(AfterMembershipCheck(restricted, allowed, access),
                   allowed, Get(user, UserIdAttribute), objectId, access)
  }

  /** One pass of the loop body for `rule`. */
  function ApplyRule(st: State, rule: Rule, user: map<string, Value>, action: string): (r: State)
    ensures r.attrs.Keys <= st.attrs.Keys
    ensures st.attrs.Keys - r.attrs.Keys <= {rule.name}
    ensures forall k | k in r.attrs :: r.attrs[k] == st.attrs[k]
    ensures st.restricted ==> r.restricted
    ensures !Applies(st.attrs, rule, action) ==> r == st
    ensures Applies(st.attrs, rule, action) ==> (rule.name !in r.attrs <==> r.restricted)
  {
    if Applies(st.attrs, rule, action) then
      var restricted := Decision(st.restricted, rule.restrictions[action], user,
                                 Get(st.attrs, ObjectIdAttribute));
      State(if restricted then st.attrs - {rule.name} else st.attrs, restricted)
    else st
  }

  /** The state after the loop has processed all of `rules`, in order. */
  function Run(st: State, rules: seq<Rule>, user: map<string, Value>, action: string): (r: State)
    ensures r.attrs.Keys <= st.attrs.Keys
    ensures st.attrs.Keys - r.attrs.Keys <= RuleNames(rules)
    ensures forall k | k in r.attrs :: r.attrs[k] == st.attrs[k]
    ensures st.restricted ==> r.restricted
    decreases |rules|
  {
    if |rules| == 0 then st
    else
      var prefix := rules[..|rules| - 1];
      assert RuleNames(prefix) + {rules[|rules| - 1].name} <= RuleNames(rules) by {
        forall n | n in RuleNames(prefix) ensures n in RuleNames(rules) {
          var j :| 0 <= j < |prefix| && prefix[j].name == n;
          assert rules[j].name == n;
        }
      }
      ApplyRule(Run(st, prefix, user, action), rules[|rules| - 1], user, action)
  }

  /** The record `filter(obj, restrictedAttributes, user, action)` leaves behind. */
  function FilterRecord(obj: map<string, Value>, restrictedAttributes: seq<Rule>,
                        user: map<string, Value>, action: string): (r: map<string, Value>)
    ensures r.Keys <= obj.Keys
    ensures forall k | k in r :: r[k] == obj[k]
    ensures forall k | k in obj && k !in RuleNames(restrictedAttributes) :: k in r
  {
    Run(State(obj, false), restrictedAttributes, user, action).attrs
  }

  /** The caller's record object, which the filter reduces in place. */
  class Record {
    var attrs: map<string, Value>

    constructor (attrs: map<string, Value>)
      ensures this.attrs == attrs
    {
      this.attrs := attrs;
    }
  }

  /** The rule loop of the source: deletes attributes from `obj` in place
      and returns the same object. */
  method Filter(obj: Record, restrictedAttributes: seq<Rule>, user: map<string, Value>,
                action: string) returns (result: Record)
    modifies obj
    ensures result == obj
    ensures obj.attrs == FilterRecord(old(obj.attrs), restrictedAttributes, user, action)
  {
    var restricted := false;
    var i := 0;
    while i < |restrictedAttributes|
      invariant 0 <= i <= |restrictedAttributes|
      invariant State(obj.attrs, restricted)
                == Run(State(old(obj.attrs), false), restrictedAttributes[..i], user, action)
    {
      var rule := restrictedAttributes[i];
      if rule.name in obj.attrs && action in rule.restrictions {
        var allowed := rule.restrictions[action];
        if !(IndexOf(allowed, Get(user, AccessAttribute)) > -1) {
          restricted := true;
        }
        if IndexOf(allowed, Some(SelfToken)) > -1
           && Get(user, UserIdAttribute) != Get(obj.attrs, ObjectIdAttribute)
           && !restricted
        {
          if IndexOf(allowed, Some(SelfToken)) > IndexOf(allowed, Get(user, AccessAttribute)) {
            // an access level listed before 'self' may act on any record
          } else {
            restricted := true;
          }
        }
        if restricted {
          obj.attrs := obj.attrs - {rule.name};
        }
      }
      assert restrictedAttributes[..i + 1][..i] == restrictedAttributes[..i];
      i := i + 1;
    }
    assert restrictedAttributes[..i] == restrictedAttributes;
    result := obj;
  }
}
