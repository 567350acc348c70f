/**
 * The rule registry of an audit: rules kept in a list, unique by id when
 * added through `AddRule`, and tools kept in a map keyed by id. The
 * constructors `Rule` and `Tool`, the lookup `utils.findBy` and each rule's
 * `after` step are outside this model: a rule or tool is its specification,
 * the lookup is the first rule with the id, and `after` is a parameter.
 */
module AuditRegistry {
  import opened Wrappers

  /** A rule or tool specification: its id and everything else, left abstract. */
  datatype Spec<B> = Spec(id: string, body: B)

  /** A rule built from its specification; its id is the specification's. */
  datatype Rule<B> = NewRule(spec: Spec<B>) {
    function Id(): string { spec.id }
  }

  /** A tool built from its specification. */
  datatype Tool<B> = NewTool(spec: Spec<B>)

  /** The result one rule produced, identified by the rule's id. */
  datatype RuleResult<P> = RuleResult(id: string, payload: P)

  /** The ids of the rules in `rules`. */
  function Ids<B>(rules: seq<Rule<B>>): set<string> {
    set i | 0 <= i < |rules| :: rules[i].Id()
  }

  /** No two rules share an id. */
  predicate UniqueIds<B>(rules: seq<Rule<B>>) {
    forall i, j :: 0 <= i < j < |rules| ==> rules[i].Id() != rules[j].Id()
  }

  /** The list after registering `spec`: the first rule with its id is replaced by a new rule; with none, one is appended. */
  function Registered<B>(rules: seq<Rule<B>>, spec: Spec<B>): seq<Rule<B>> {
    if rules == [] then [NewRule(spec)]
    else if rules[0].Id() == spec.id then [NewRule(spec)] + rules[1..]
    else [rules[0]] + Registered(rules[1..], spec)
  }

  /**
   * With a rule of the id present, registering replaces the first such rule
   * in place: the length and every other entry stay as they were.
   */
  lemma {:induction false} RegisteredReplaces<B>(rules: seq<Rule<B>>, spec: Spec<B>, i: nat)
    requires i < |rules| && rules[i].Id() == spec.id
    requires forall j :: 0 <= j < i ==> rules[j].Id() != spec.id
    ensures Registered(rules, spec) == rules[i := NewRule(spec)]
  {
    if i > 0 {
      RegisteredReplaces(rules[1..], spec, i - 1);
      assert rules[i := NewRule(spec)] == [rules[0]] + rules[1..][i - 1 := NewRule(spec)];
    }
  }

  /** With no rule of the id, registering appends one new rule and leaves the others untouched. */
  lemma {:induction false} RegisteredAppends<B>(rules: seq<Rule<B>>, spec: Spec<B>)
    requires forall j :: 0 <= j < |rules| ==> rules[j].Id() != spec.id
    ensures Registered(rules, spec) == rules + [NewRule(spec)]
  {
    if rules != [] {
      RegisteredAppends(rules[1..], spec);
      assert rules + [NewRule(spec)] == [rules[0]] + (rules[1..] + [NewRule(spec)]);
    }
  }

  /** The ids of a non-empty list: the first rule's and those of the rest. */
  lemma IdsCons<B>(rules: seq<Rule<B>>)
    requires rules != []
    ensures Ids(rules) == {rules[0].Id()} + Ids(rules[1..])
  {
    forall x | x in Ids(rules) ensures x == rules[0].Id() || x in Ids(rules[1..]) {
      var i :| 0 <= i < |rules| && rules[i].Id() == x;
      if i > 0 { assert rules[1..][i - 1] == rules[i]; }
    }
    forall x | x in Ids(rules[1..]) ensures x in Ids(rules) {
      var i :| 0 <= i < |rules[1..]| && rules[1..][i].Id() == x;
      assert rules[i + 1] == rules[1..][i];
    }
    assert rules[0].Id() in Ids(rules);
  }

  /** Registering adds exactly `spec.id` to the ids. */
  lemma {:induction false} RegisteredIds<B>(rules: seq<Rule<B>>, spec: Spec<B>)
    ensures Ids(Registered(rules, spec)) == Ids(rules) + {spec.id}
  {
    var r := Registered(rules, spec);
    IdsCons(r);
    if rules != [] {
      RegisteredIds(rules[1..], spec);
      IdsCons(rules);
      if rules[0].Id() == spec.id {
        assert r[1..] == rules[1..];
      } else {
        assert r[1..] == Registered(rules[1..], spec);
      }
    }
  }

  /** Unique ids stay unique, and the registered id is present. */
  lemma {:induction false} RegisteredUnique<B>(rules: seq<Rule<B>>, spec: Spec<B>)
    requires UniqueIds(rules)
    ensures UniqueIds(Registered(rules, spec))
    ensures spec.id in Ids(Registered(rules, spec))
  {
    RegisteredIds(rules, spec);
    if rules != [] {
      var rest := rules[1..];
      assert UniqueIds(rest) by {
        forall i, j | 0 <= i < j < |rest| ensures rest[i].Id() != rest[j].Id() {
          assert rest[i] == rules[i + 1] && rest[j] == rules[j + 1];
        }
      }
      var r := Registered(rules, spec);
      if rules[0].Id() == spec.id {
        forall i, j | 0 <= i < j < |r| ensures r[i].Id() != r[j].Id() {
          assert r[j] == rules[j];
          if i > 0 { assert r[i] == rules[i]; }
        }
      } else {
        RegisteredUnique(rest, spec);
        RegisteredIds(rest, spec);
        var r' := Registered(rest, spec);
        forall x | x in Ids(r') ensures x != rules[0].Id() {
          if x == spec.id {
          } else {
            assert x in Ids(rest);
            var k :| 0 <= k < |rest| && rest[k].Id() == x;
            assert rules[k + 1] == rest[k];
          }
        }
        forall i, j | 0 <= i < j < |r| ensures r[i].Id() != r[j].Id() {
          assert r[j] == r'[j - 1];
          if i == 0 {
            assert r'[j - 1].Id() in Ids(r');
          } else {
            assert r[i] == r'[i - 1];
          }
        }
      }
    }
  }

  /** The position of the first rule with the id, or `|rules|` when there is none. */
  function FirstWithId<B>(rules: seq<Rule<B>>, id: string): (i: nat)
    ensures i <= |rules| && id !in Ids(rules[..i])
    ensures i < |rules| <==> id in Ids(rules)
    ensures i < |rules| ==> rules[i].Id() == id
  {
    if rules == [] then 0
    else if rules[0].Id() == id then
      assert rules[..0] == [];
      0
    else
      IdsCons(rules);
      var j := FirstWithId(rules[1..], id);
      assert rules[..j + 1][1..] == rules[1..][..j];
      IdsCons(rules[..j + 1]);
      j + 1
  }

  /** `utils.findBy(rules, 'id', id)`: the first rule with the id, or `None`. */
  function FindBy<B>(rules: seq<Rule<B>>, id: string): (r: Option<Rule<B>>)
    ensures r.Some? <==> id in Ids(rules)
    ensures r.Some? ==> r.value.Id() == id
  {
    var i := FirstWithId(rules, id);
    if i < |rules| then Some(rules[i]) else None
  }

  /**
   * Each result passed through the `after` step of the rule with its id, in
   * order; `None` when some result names no rule (the lookup yields
   * `undefined` and calling `after` on it throws).
   */
  function MapAfter<B, P, O, X>(rules: seq<Rule<B>>, results: seq<RuleResult<P>>, options: O,
                                ruleAfter: (Rule<B>, RuleResult<P>, O) -> X): (out: Option<seq<X>>)
    ensures out.Some? <==> forall i :: 0 <= i < |results| ==> results[i].id in Ids(rules)
    ensures out.Some? ==> |out.value| == |results|
    ensures out.Some? ==>
      forall i :: 0 <= i < |results| ==> out.value[i] == ruleAfter(FindBy(rules, results[i].id).value, results[i], options)
  {
    if results == [] then Some([])
    else
      var rule := FindBy(rules, results[0].id);
      var rest := MapAfter(rules, results[1..], options, ruleAfter);
      if rule.None? then None
      else if rest.None? then
        assert exists i :: 0 <= i < |results[1..]| && results[1..][i].id !in Ids(rules);
        None
      else
        Some([ruleAfter(rule.value, results[0], options)] + rest.value)
  }

  /** The holder of the configured rules and tools. */
  class Audit<R, B> {
    var reporter: R
    var rules: seq<Rule<B>>
    var tools: map<string, Tool<B>>

    /** A new audit has no rules and no tools, and keeps the reporter. */
    constructor (reporter: R)
      ensures this.reporter == reporter && rules == [] && tools == map[]
    {
      this.reporter := reporter;
      rules := [];
      tools := map[];
    }

    /** Adds a rule, replacing the first one with the same id if there is one. */
    method AddRule(spec: Spec<B>)
      modifies this
      ensures rules == Registered(old(rules), spec)
      ensures tools == old(tools) && reporter == old(reporter)
    {
      var i, l := 0, |rules|;
      while i < l
        invariant 0 <= i <= l == |rules| && rules == old(rules)
        invariant Registered(rules, spec) == rules[..i] + Registered(rules[i..], spec)
      {
        var candidate := rules[i];
        if candidate.Id() == spec.id {
          assert rules[i..] == [candidate] + rules[i + 1..];
          assert rules[..i] + ([NewRule(spec)] + rules[i + 1..]) == rules[i := NewRule(spec)];
          rules := rules[i := NewRule(spec)];
          return;
        }
        assert rules[i..] == [candidate] + rules[i + 1..];
        assert rules[..i] + ([candidate] + Registered(rules[i + 1..], spec)) == rules[..i + 1] + Registered(rules[i + 1..], spec);
        i := i + 1;
      }
      assert rules[..i] == rules;
      rules := rules + [NewRule(spec)];
    }

    /** Adds a tool under its id; a tool already under that id is overwritten and every other key is kept. */
    method AddTool(spec: Spec<B>)
      modifies this
      ensures tools.Keys == old(tools).Keys + {spec.id} && tools[spec.id] == NewTool(spec)
      ensures forall k :: k in old(tools) && k != spec.id ==> tools[k] == old(tools)[k]
      ensures rules == old(rules) && reporter == old(reporter)
    {
      tools := tools[spec.id := NewTool(spec)];
    }

    /** Runs the `after` step of each result's rule, one output per result in the same order. */
    function After<P, O, X>(results: seq<RuleResult<P>>, options: O, ruleAfter: (Rule<B>, RuleResult<P>, O) -> X): (out: Option<seq<X>>)
      reads this
      ensures out.Some? <==> forall i :: 0 <= i < |results| ==> results[i].id in Ids(rules)
      ensures out.Some? ==> |out.value| == |results|
      ensures out.Some? ==>
        forall i :: 0 <= i < |results| ==> out.value[i] == ruleAfter(FindBy(rules, results[i].id).value, results[i], options)
    {
      MapAfter(rules, results, options, ruleAfter)
    }
  }
}
