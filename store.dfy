/** The rule store the front end talks to (rule_get_all, rule_get_single,
    rule_add, rule_edit, rule_delete, rule_enable_disable). Its implementation
    is not part of this model: it stands here as a map from (table, id) to
    rule. Its operations fail when the storage is unreachable (`available`
    is false) or, for the operations addressing one rule, when the id is
    absent from that table; a write may also be refused for reasons of the
    store's own, even right after a read succeeded, and then changes
    nothing. Success and failure are reported the way the callers read
    them: a status, an Option, or an id where 0 means failure. */
module Store {
  import opened Rules

  /** The store's effect of rule_add: 0 and nothing changed on failure, which
      is certain when the storage is unreachable; else a fresh non-zero id
      under which the rule is stored with that id. */
  ghost predicate AddSpec(before: map<Key, Rule>, available: bool, rule: Rule, id: nat, after: map<Key, Rule>) {
    && (!available ==> id == 0)
    && (id == 0 ==> after == before)
    && (id != 0 ==> Key(rule.table, id) !in before && after == before[Key(rule.table, id) := rule.(id := id)])
  }

  /** The store's effect of rule_edit: on success the record with the same
      table and id is replaced wholesale and the id is returned; 0 and
      nothing changed on failure, which is certain when the storage is
      unreachable or the record does not exist. */
  ghost predicate EditSpec(before: map<Key, Rule>, available: bool, rule: Rule, id: nat, after: map<Key, Rule>) {
    && (!(available && Key(rule.table, rule.id) in before) ==> id == 0)
    && (id == 0 ==> after == before)
    && (id != 0 ==> id == rule.id && after == before[Key(rule.table, rule.id) := rule])
  }

  /** The ids of a list of rules, in order. */
  function RuleIds(rules: seq<Rule>): (ids: seq<nat>)
    ensures |ids| == |rules|
    ensures forall i :: 0 <= i < |rules| ==> ids[i] == rules[i].id
  {
    seq(|rules|, i requires 0 <= i < |rules| => rules[i].id)
  }

  /** `rules` lists, once each, exactly the records the store holds in `table`. */
  ghost predicate Lists(store: map<Key, Rule>, table: Table, rules: seq<Rule>) {
    && (forall i :: 0 <= i < |rules| ==>
          Key(table, rules[i].id) in store && store[Key(table, rules[i].id)] == rules[i])
    && (forall i, j :: 0 <= i < j < |rules| ==> rules[i].id != rules[j].id)
    && (forall k :: k in store && k.table == table ==> k.id in RuleIds(rules))
  }

  class RuleStore {
    /** RULE_NAME_LENGTH: the size of a rule's name buffer, NUL included. */
    const nameLength: nat
    var rules: map<Key, Rule>
    var available: bool

    /** Every record sits under its own table and non-zero id. */
    ghost predicate Valid()
      reads this
    {
      && 1 <= nameLength
      && forall k :: k in rules ==> k.id != 0 && rules[k].id == k.id && rules[k].table == k.table
    }

    constructor (nameLength: nat)
      requires 1 <= nameLength
      ensures Valid() && this.nameLength == nameLength
      ensures rules == map[] && available
    {
      this.nameLength := nameLength;
      rules := map[];
      available := true;
    }

    /** The environment makes the storage reachable or unreachable. */
    method SetAvailable(b: bool)
      requires Valid()
      modifies this
      ensures Valid() && available == b && rules == old(rules)
    {
      available := b;
    }

    /** rule_get_single. */
    function GetSingle(id: nat, table: Table): (r: Option<Rule>)
      requires Valid()
      reads this
      ensures r.Some? <==> available && Key(table, id) in rules
      ensures r.Some? ==> r.value == rules[Key(table, id)] && r.value.id == id && r.value.table == table
    {
      if available && Key(table, id) in rules then Some(rules[Key(table, id)]) else None
    }

    /** rule_get_all: every record of the table once, in an order the store
        chooses. */
    method GetAll(table: Table) returns (r: Option<seq<Rule>>)
      requires Valid()
      ensures r.Some? <==> available
      ensures r.Some? ==> Lists(rules, table, r.value)
    {
      if !available {
        return None;
      }
      var pending := set k | k in rules && k.table == table;
      var listed: seq<Rule> := [];
      while pending != {}
        invariant pending <= rules.Keys
        invariant forall k :: k in pending ==> k.table == table
        invariant forall i :: 0 <= i < |listed| ==>
          Key(table, listed[i].id) in rules && rules[Key(table, listed[i].id)] == listed[i]
          && Key(table, listed[i].id) !in pending
        invariant forall i, j :: 0 <= i < j < |listed| ==> listed[i].id != listed[j].id
        invariant forall k :: k in rules && k.table == table && k !in pending ==> k.id in RuleIds(listed)
        decreases pending
      {
        var k :| k in pending;
        assert RuleIds(listed + [rules[k]]) == RuleIds(listed) + [k.id];
        listed := listed + [rules[k]];
        pending := pending - {k};
      }
      return Some(listed);
    }

    /** rule_add: returns the new id, or 0 on failure. */
    method Add(rule: Rule) returns (id: nat)
      requires Valid()
      modifies this
      ensures Valid() && available == old(available)
      ensures AddSpec(old(rules), old(available), rule, id, rules)
    {
      var refused: bool :| true;
      if !available || refused {
        return 0;
      }
      var used := set k | k in rules && k.table == rule.table :: k.id;
      ghost var bound := UpperBound(used);
      ghost var unused := Key(rule.table, bound + 1);
      assert unused in rules ==> unused.id in used;
      id :| id != 0 && Key(rule.table, id) !in rules;
      rules := rules[Key(rule.table, id) := rule.(id := id)];
    }

    /** rule_edit: returns the rule's id, or 0 on failure. */
    method Edit(rule: Rule) returns (id: nat)
      requires Valid()
      modifies this
      ensures Valid() && available == old(available)
      ensures EditSpec(old(rules), old(available), rule, id, rules)
    {
      var key := Key(rule.table, rule.id);
      var refused: bool :| true;
      if !available || key !in rules || refused {
        return 0;
      }
      rules := rules[key := rule];
      id := rule.id;
    }

    /** rule_delete: deleting an absent id is a failure. */
    method Delete(id: nat, table: Table) returns (ok: bool)
      requires Valid()
      modifies this
      ensures Valid() && available == old(available)
      ensures ok ==> old(available) && Key(table, id) in old(rules)
      ensures rules == if ok then old(rules) - {Key(table, id)} else old(rules)
    {
      var refused: bool :| true;
      ok := available && Key(table, id) in rules && !refused;
      if ok {
        rules := rules - {Key(table, id)};
      }
    }

    /** rule_enable_disable: changes only the active flag of one record. */
    method EnableDisable(id: nat, table: Table, active: bool) returns (ok: bool)
      requires Valid()
      modifies this
      ensures Valid() && available == old(available)
      ensures ok ==> old(available) && Key(table, id) in old(rules)
      ensures rules == if ok then old(rules)[Key(table, id) := old(rules)[Key(table, id)].(active := active)]
                       else old(rules)
    {
      var key := Key(table, id);
      var refused: bool :| true;
      ok := available && key in rules && !refused;
      if ok {
        rules := rules[key := rules[key].(active := active)];
      }
    }
  }

  /** A number above every id in a finite set, so that the store can always
      find an unused one. */
  lemma {:induction false} UpperBound(used: set<nat>) returns (bound: nat)
    ensures forall x :: x in used ==> x <= bound
  {
    if used == {} {
      bound := 0;
    } else {
      var x :| x in used;
      var rest := UpperBound(used - {x});
      bound := if x > rest then x else rest;
      assert forall y :: y in used ==> y == x || y in used - {x};
    }
  }
}
