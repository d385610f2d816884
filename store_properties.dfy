/** What the rule store's operations promise when they are combined: chains
    and rules are ensured idempotently, equivalent spellings of a rule are
    kept once, and DeleteRule undoes the EnsureRule that added a rule. */
module StoreProperties {
  import opened Text
  import opened IPTablesTypes
  import opened Normalizer
  import opened TableStore

  predicate NoDuplicates(rules: seq<string>) {
    forall i, j :: 0 <= i < j < |rules| ==> rules[i] != rules[j]
  }

  /** Ensuring a chain twice: the second call finds it and changes nothing. */
  lemma EnsureChainIdempotent(tables: Tables, table: string, chain: string)
    ensures var once := EnsureChain(tables, table, chain).tables;
      EnsureChain(once, table, chain) == Outcome(Ok(true), once)
  {
  }

  /** A deleted chain, ensured again, comes back empty and is reported as new. */
  lemma DeleteThenEnsureChain(tables: Tables, table: string, chain: string)
    requires HasChain(tables, table, chain)
    ensures var deleted := DeleteChain(tables, table, chain).tables;
      var o := EnsureChain(deleted, table, chain);
      o.result == Ok(false) && o.tables[table][chain] == []
  {
  }

  /** After EnsureChain, ChainExists answers true. */
  lemma EnsuredChainExists(tables: Tables, table: string, chain: string)
    ensures ChainExists(EnsureChain(tables, table, chain).tables, table, chain) == Ok(true)
  {
  }

  /** Two spellings of a rule with the same canonical form are stored once:
      once one is ensured, ensuring the other, at any position, answers true
      and changes nothing. Ensuring the same rule twice is the special case
      `rule1 == rule2`. */
  lemma EnsureRuleEquivalent(tables: Tables, pos1: string, pos2: string, table: string, chain: string,
                             rule1: string, rule2: string, ipFamily: string -> IPFamily)
    requires EnsureRule(tables, pos1, table, chain, rule1, ipFamily).result.Ok?
    requires Normalize(rule2, ipFamily) == Normalize(rule1, ipFamily)
    ensures var once := EnsureRule(tables, pos1, table, chain, rule1, ipFamily).tables;
      EnsureRule(once, pos2, table, chain, rule2, ipFamily) == Outcome(Ok(true), once)
  {
    var once := EnsureRule(tables, pos1, table, chain, rule1, ipFamily).tables;
    var n := Normalize(rule1, ipFamily).value;
    assert WithChain(once, table, chain) == once;
    assert Index(once[table][chain], n) >= 0;
  }

  /** A rule the chain lacks is added exactly once, at the front for Prepend
      and at the back for Append; a rule the chain has already leaves it as
      it was. Any other position is an error. */
  lemma EnsureRulePlacement(tables: Tables, position: string, table: string, chain: string, rule: string,
                            ipFamily: string -> IPFamily)
    requires Normalize(rule, ipFamily).Ok?
    ensures var n := Normalize(rule, ipFamily).value;
      var rules := WithChain(tables, table, chain)[table][chain];
      var o := EnsureRule(tables, position, table, chain, rule, ipFamily);
      && (n in rules ==> o.result == Ok(true) && o.tables[table][chain] == rules)
      && (n !in rules && position == Prepend ==> o.result == Ok(false) && o.tables[table][chain] == [n] + rules)
      && (n !in rules && position == Append ==> o.result == Ok(false) && o.tables[table][chain] == rules + [n])
      && (n !in rules && position != Prepend && position != Append ==>
            o.result == Err(UnknownPosition(position)) && o.tables[table][chain] == rules)
  {
  }

  /** A chain whose rules are all distinct keeps them distinct under EnsureRule. */
  lemma EnsureRuleKeepsDistinct(tables: Tables, position: string, table: string, chain: string, rule: string,
                                ipFamily: string -> IPFamily)
    requires HasChain(tables, table, chain) ==> NoDuplicates(tables[table][chain])
    ensures NoDuplicates(EnsureRule(tables, position, table, chain, rule, ipFamily).tables[table][chain])
  {
    var rules := WithChain(tables, table, chain)[table][chain];
    assert NoDuplicates(rules);
    if Normalize(rule, ipFamily).Ok? {
      var n := Normalize(rule, ipFamily).value;
      EnsureRulePlacement(tables, position, table, chain, rule, ipFamily);
      if n !in rules {
        assert forall k :: 0 <= k < |rules| ==> rules[k] != n;
      }
    }
  }

  /** DeleteRule with the arguments of a rule that EnsureRule has just added
      takes the chain back to what it was, provided the arguments are
      already in canonical form (DeleteRule compares them as written). */
  lemma DeleteRuleUndoesEnsureRule(tables: Tables, position: string, table: string, chain: string,
                                   args: seq<string>, ipFamily: string -> IPFamily)
    requires HasChain(tables, table, chain)
    requires Normalize(Join(args, " "), ipFamily) == Ok(Join(args, " "))
    requires EnsureRule(tables, position, table, chain, Join(args, " "), ipFamily).result == Ok(false)
    ensures DeleteRule(EnsureRule(tables, position, table, chain, Join(args, " "), ipFamily).tables,
                       table, chain, args) == tables
  {
    var rule := Join(args, " ");
    EnsureRuleAdded(tables, position, table, chain, rule, ipFamily);
    DeleteUndoesInsert(tables, position, table, chain, args,
                       EnsureRule(tables, position, table, chain, rule, ipFamily).tables);
  }

  /** What an EnsureRule that answers false has done: put the normalised
      rule, which the chain lacked, at the front or the back. */
  lemma EnsureRuleAdded(tables: Tables, position: string, table: string, chain: string, rule: string,
                        ipFamily: string -> IPFamily)
    requires HasChain(tables, table, chain)
    requires EnsureRule(tables, position, table, chain, rule, ipFamily).result == Ok(false)
    ensures Normalize(rule, ipFamily).Ok?
    ensures var n := Normalize(rule, ipFamily).value;
      var rules := tables[table][chain];
      var after := EnsureRule(tables, position, table, chain, rule, ipFamily).tables;
      && n !in rules
      && (position == Prepend || position == Append)
      && (position == Prepend ==> after == WithRules(tables, table, chain, [n] + rules))
      && (position == Append ==> after == WithRules(tables, table, chain, rules + [n]))
  {
    assert WithChain(tables, table, chain) == tables;
  }

  lemma DeleteUndoesInsert(tables: Tables, position: string, table: string, chain: string, args: seq<string>,
                           after: Tables)
    requires HasChain(tables, table, chain)
    requires Join(args, " ") !in tables[table][chain]
    requires position == Prepend || position == Append
    requires position == Prepend ==> after == WithRules(tables, table, chain, [Join(args, " ")] + tables[table][chain])
    requires position == Append ==> after == WithRules(tables, table, chain, tables[table][chain] + [Join(args, " ")])
    ensures DeleteRule(after, table, chain, args) == tables
  {
    var rules := tables[table][chain];
    var added := after[table][chain];
    RemoveInserted(rules, Join(args, " "), position);
    RestoreRules(tables, table, chain, added);
  }

  /** The rule put at the front or back of rules that lack it is found
      there, and taking it out gives the rules back. */
  lemma RemoveInserted(rules: seq<string>, rule: string, position: string)
    requires rule !in rules
    requires position == Prepend || position == Append
    ensures var added := if position == Prepend then [rule] + rules else rules + [rule];
      && 0 <= Index(added, rule) < |added|
      && RemoveAt(added, Index(added, rule)) == rules
  {
    if position == Prepend {
      assert Index([rule] + rules, rule) == 0;
      assert RemoveAt([rule] + rules, 0) == rules;
    } else {
      assert forall k :: 0 <= k < |rules| ==> rules[k] != rule;
      IndexAfter(rules, rule, []);
      assert rules + [rule] + [] == rules + [rule];
      assert RemoveAt(rules + [rule], |rules|) == rules;
    }
  }

  /** Replacing a chain's rules and then putting the old ones back. */
  lemma RestoreRules(tables: Tables, table: string, chain: string, added: seq<string>)
    requires HasChain(tables, table, chain)
    ensures var after := WithRules(tables, table, chain, added);
      WithRules(after, table, chain, tables[table][chain]) == tables
  {
    var after := tables[table := tables[table][chain := added]];
    assert after[table][chain := tables[table][chain]] == tables[table];
    assert after[table := tables[table]] == tables;
  }

  /** DeleteRule takes out one copy of the rule and nothing else: the chain
      keeps every other rule, as many times as before. */
  lemma DeleteRuleRemovesOneCopy(tables: Tables, table: string, chain: string, args: seq<string>)
    requires HasChain(tables, table, chain) && Join(args, " ") in tables[table][chain]
    ensures var after := DeleteRule(tables, table, chain, args)[table][chain];
      && |after| == |tables[table][chain]| - 1
      && multiset(after) == multiset(tables[table][chain]) - multiset{Join(args, " ")}
  {
    var rules := tables[table][chain];
    var i := Index(rules, Join(args, " "));
    var after := DeleteRule(tables, table, chain, args)[table][chain];
    assert after == rules[..i] + rules[i + 1..];
    RemoveAtCounts(rules, i);
  }

  lemma RemoveAtCounts(rules: seq<string>, i: nat)
    requires i < |rules|
    ensures multiset(rules[..i] + rules[i + 1..]) == multiset(rules) - multiset{rules[i]}
  {
    assert rules == rules[..i] + [rules[i]] + rules[i + 1..];
  }

  /** DeleteRule does not normalise: a rule stored in canonical form is not
      removed by arguments that only normalise to it. */
  lemma DeleteRuleIsLiteral(tables: Tables, table: string, chain: string, args: seq<string>,
                            ipFamily: string -> IPFamily)
    requires HasChain(tables, table, chain)
    requires Normalize(Join(args, " "), ipFamily).Ok?
    requires Normalize(Join(args, " "), ipFamily).value in tables[table][chain]
    requires Join(args, " ") !in tables[table][chain]
    ensures DeleteRule(tables, table, chain, args) == tables
    ensures EnsureRule(tables, Append, table, chain, Join(args, " "), ipFamily).result == Ok(true)
  {
    EnsureRulePlacement(tables, Append, table, chain, Join(args, " "), ipFamily);
  }
}
