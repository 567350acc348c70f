/**
 * The test engine's loader: it keeps the bundle's shared helpers and indexes
 * every check of every rule by check id, a later check replacing an earlier
 * one with the same id.
 */
module TestEngine {
  import opened Wrappers

  /** A check: its id and everything else, left abstract. */
  datatype Check<B> = Check(id: string, body: B)

  /** The check lists of one rule. */
  datatype RuleChecks<B> = RuleChecks(any: seq<Check<B>>, all: seq<Check<B>>, none: seq<Check<B>>)

  /** What the loader is given: the shared helpers and the rules. */
  datatype Bundle<C, B> = Bundle(commons: C, rules: seq<RuleChecks<B>>)

  /** A rule's checks in the order they are indexed: `any`, then `all`, then `none`. */
  function ChecksOf<B>(rule: RuleChecks<B>): seq<Check<B>> {
    rule.any + rule.all + rule.none
  }

  /** The checks of all rules, rule by rule. */
  function AllChecks<B>(rules: seq<RuleChecks<B>>): seq<Check<B>> {
    if rules == [] then [] else AllChecks(rules[..|rules| - 1]) + ChecksOf(rules[|rules| - 1])
  }

  /** The map built by storing each check under its id, from first to last. */
  function Index<B>(checks: seq<Check<B>>): map<string, Check<B>> {
    if checks == [] then map[]
    else Index(checks[..|checks| - 1])[checks[|checks| - 1].id := checks[|checks| - 1]]
  }

  /** The ids of `checks`. */
  function CheckIds<B>(checks: seq<Check<B>>): set<string> {
    set i | 0 <= i < |checks| :: checks[i].id
  }

  /** A check is in the list of all checks exactly when one of the rules lists it. */
  lemma {:induction false} AllChecksMember<B>(rules: seq<RuleChecks<B>>, c: Check<B>)
    ensures c in AllChecks(rules) <==> exists r :: r in rules && c in ChecksOf(r)
  {
    if rules != [] {
      var front, last := rules[..|rules| - 1], rules[|rules| - 1];
      AllChecksMember(front, c);
      assert rules == front + [last];
      if c in AllChecks(front) {
        var r :| r in front && c in ChecksOf(r);
        assert r in rules;
      } else if c in ChecksOf(last) {
        assert last in rules;
      }
      if exists r :: r in rules && c in ChecksOf(r) {
        var r :| r in rules && c in ChecksOf(r);
        if r != last {
          assert r in front;
        }
      }
    }
  }

  /** The index has exactly the ids of the checks as keys. */
  lemma {:induction false} IndexKeys<B>(checks: seq<Check<B>>)
    ensures Index(checks).Keys == CheckIds(checks)
  {
    if checks != [] {
      var front := checks[..|checks| - 1];
      IndexKeys(front);
      forall x | x in CheckIds(checks) ensures x in CheckIds(front) || x == checks[|checks| - 1].id {
        var i :| 0 <= i < |checks| && checks[i].id == x;
        if i < |checks| - 1 { assert front[i] == checks[i]; }
      }
      forall x | x in CheckIds(front) ensures x in CheckIds(checks) {
        var i :| 0 <= i < |front| && front[i].id == x;
        assert checks[i] == front[i];
      }
      assert checks[|checks| - 1].id in CheckIds(checks);
    }
  }

  /** The check stored under an id is the last check with that id. */
  lemma {:induction false} IndexLastWins<B>(checks: seq<Check<B>>, k: nat)
    requires k < |checks|
    requires forall j :: k < j < |checks| ==> checks[j].id != checks[k].id
    ensures checks[k].id in Index(checks) && Index(checks)[checks[k].id] == checks[k]
  {
    var front := checks[..|checks| - 1];
    if k < |checks| - 1 {
      forall j | k < j < |front| ensures front[j].id != front[k].id {
        assert front[j] == checks[j];
      }
      IndexLastWins(front, k);
    }
  }

  /** Every check stored is stored under its own id, and is one of the checks. */
  lemma {:induction false} IndexStoresOwnId<B>(checks: seq<Check<B>>)
    ensures forall id :: id in Index(checks) ==> Index(checks)[id].id == id && Index(checks)[id] in checks
  {
    if checks != [] {
      var front := checks[..|checks| - 1];
      IndexStoresOwnId(front);
      forall id | id in Index(checks) ensures Index(checks)[id] in checks {
        if id != checks[|checks| - 1].id {
          assert Index(checks)[id] in front;
        }
      }
    }
  }

  /** Every check any rule lists has an entry under its id, and that entry carries the id. */
  lemma IndexHasEveryCheck<B>(rules: seq<RuleChecks<B>>, rule: RuleChecks<B>, c: Check<B>)
    requires rule in rules && c in ChecksOf(rule)
    ensures var index := Index(AllChecks(rules));
      c.id in index && index[c.id].id == c.id
  {
    var all := AllChecks(rules);
    AllChecksMember(rules, c);
    IndexKeys(all);
    IndexStoresOwnId(all);
    var i :| 0 <= i < |all| && all[i] == c;
    assert c.id in CheckIds(all);
  }

  /** The module state of the test engine: nothing before the first load. */
  class Engine<C, B> {
    var checks: Option<map<string, Check<B>>>
    var commons: Option<C>

    /** Before `_load`, neither the checks nor the shared helpers are defined. */
    constructor ()
      ensures checks == None && commons == None
    {
      checks := None;
      commons := None;
    }

    /** `axe._load(r)`: keeps `r.commons` and indexes every check of every rule by id. */
    method Load(r: Bundle<C, B>)
      modifies this
      ensures commons == Some(r.commons)
      ensures checks == Some(Index(AllChecks(r.rules)))
    {
      commons := Some(r.commons);
      var acc: map<string, Check<B>> := map[];
      var i := 0;
      while i < |r.rules|
        invariant 0 <= i <= |r.rules|
        invariant acc == Index(AllChecks(r.rules[..i]))
      {
        var rule := r.rules[i];
        var list := rule.any + rule.all + rule.none;
        ghost var done := AllChecks(r.rules[..i]);
        var j := 0;
        assert done + list[..0] == done;
        while j < |list|
          invariant 0 <= j <= |list|
          invariant acc == Index(done + list[..j])
        {
          assert (done + list[..j + 1])[..|done| + j] == done + list[..j];
          acc := acc[list[j].id := list[j]];
          j := j + 1;
        }
        assert r.rules[..i + 1][..i] == r.rules[..i];
        assert list[..j] == list;
        i := i + 1;
      }
      assert r.rules[..i] == r.rules;
      checks := Some(acc);
    }
  }
}
