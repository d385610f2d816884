/** Saving a table and replaying the text gives the table back: the
    iptables-save text SaveInto writes, restored without flushing into a
    store where that table is missing or empty, reproduces every chain with
    its rules in order. */
module RoundTrip {
  import opened Text
  import opened IPTablesTypes
  import opened Normalizer
  import opened TableStore
  import opened StoreProperties
  import opened SaveRestore
  import opened RestoreProperties

  /** A chain name a saved line can carry: no space and no newline. */
  predicate ChainName(c: string) {
    forall k :: 0 <= k < |c| ==> c[k] != ' ' && c[k] != '\n'
  }

  /** A rule that comes back unchanged: one line, already in the canonical
      form the restored "-A" line is normalised to. */
  predicate StableRule(rule: string, ipFamily: string -> IPFamily) {
    NoNewline(rule) && Normalize(rule, ipFamily) == Ok(rule)
  }

  /** The rules of a chain as a store built by EnsureRule holds them:
      distinct, and each stable. */
  predicate StableRules(rules: seq<string>, ipFamily: string -> IPFamily) {
    NoDuplicates(rules) && forall k :: 0 <= k < |rules| ==> StableRule(rules[k], ipFamily)
  }

  /** A replay without flushing, of every table or of `table` alone. */
  predicate Replays(ctx: RestoreContext, table: string) {
    ctx.flush == NoFlushTables && (ctx.restoreTable == "" || ctx.restoreTable == table)
  }

  /** The chains of `table`, none when it is missing. */
  function Base(tables: Tables, table: string): Chains {
    if table in tables then tables[table] else map[]
  }

  /** An empty chain for each name in `order`. */
  function Empties(order: seq<string>): (m: Chains)
    ensures forall c :: c in m ==> m[c] == []
    decreases |order|
  {
    if order == [] then map[] else Empties(order[1..])[order[0] := []]
  }

  /** The chains named in `order`, each with its rules from `chains`. */
  function Restrict(chains: Chains, order: seq<string>): (m: Chains)
    requires forall k :: 0 <= k < |order| ==> order[k] in chains
    ensures forall c :: c in m ==> c in chains && m[c] == chains[c]
    decreases |order|
  {
    if order == [] then map[] else Restrict(chains, order[1..])[order[0] := chains[order[0]]]
  }

  lemma {:induction false} EmptiesKeys(order: seq<string>)
    ensures forall c :: c in Empties(order) <==> c in order
    decreases |order|
  {
    if order != [] {
      EmptiesKeys(order[1..]);
      assert forall c :: c in order <==> c == order[0] || c in order[1..];
    }
  }

  lemma {:induction false} RestrictKeys(chains: Chains, order: seq<string>)
    requires forall k :: 0 <= k < |order| ==> order[k] in chains
    ensures forall c :: c in Restrict(chains, order) <==> c in order
    decreases |order|
  {
    if order != [] {
      RestrictKeys(chains, order[1..]);
      assert forall c :: c in order <==> c == order[0] || c in order[1..];
    }
  }

  /** Setting a key before a union that gives it the same value anyway. */
  lemma UnionUpdate(base: Chains, m: Chains, chain: string, rules: seq<string>)
    requires chain in m ==> m[chain] == rules
    ensures base[chain := rules] + m == base + m[chain := rules]
  {
    var l := base[chain := rules] + m;
    var r := base + m[chain := rules];
    assert l.Keys == r.Keys;
    forall c | c in l
      ensures l[c] == r[c]
    {
    }
  }

  /** One line of text with its newline. */
  predicate OneLine(raw: string) {
    |raw| > 0 && raw[|raw| - 1] == '\n' && NoNewline(raw[..|raw| - 1])
  }

  lemma SavedLines(table: string, chain: string, rule: string)
    requires NoNewline(table) && ChainName(chain) && NoNewline(rule)
    ensures OneLine("*" + table + "\n")
    ensures OneLine(HeaderLine(chain))
    ensures OneLine("-A " + chain + " " + rule + "\n")
  {
    var raw := "*" + table + "\n";
    assert raw[..|raw| - 1] == "*" + table;
    raw := HeaderLine(chain);
    assert raw[..|raw| - 1] == ":" + chain + " - [0:0]";
    raw := "-A " + chain + " " + rule + "\n";
    assert raw[..|raw| - 1] == "-A " + chain + " " + rule;
  }

  /** A line that does not stop the replay: what follows it is read from
      the tables and table name it leaves. */
  lemma ContinueLine(tables: Tables, tableName: string, raw: string, rest: string, ctx: RestoreContext,
                     after: Tables, next: string)
    requires OneLine(raw)
    requires LineStep(tables, tableName, raw, ctx) == Step(after, Continue(next))
    ensures RestoreFrom(tables, tableName, raw + rest, ctx) == RestoreFrom(after, next, rest, ctx)
  {
    var line := raw[..|raw| - 1];
    assert raw == line + "\n";
    NextLineOf(line, rest);
  }

  /** "*<table>" opens the table. */
  lemma TableLineOpens(tables: Tables, table: string, ctx: RestoreContext)
    requires table != "" && Replays(ctx, table)
    ensures LineStep(tables, "", "*" + table + "\n", ctx) == Step(tables, Continue(table))
  {
    var line := "*" + table;
    TrimNewline(line);
    assert line[..1] == "*" && line[1..] == table;
    NotACommand(line);
  }

  /** A line opening with '*' is none of the other kinds. */
  lemma NotACommand(line: string)
    requires |line| > 0 && line[0] == '*'
    ensures !HasPrefix(line, ":") && !HasPrefix(line, "-A") && !HasPrefix(line, "-I") && !HasPrefix(line, "-X")
    ensures line != "COMMIT"
  {
    assert line[..1][0] == '*';
    if |line| >= 2 {
      assert line[..2][0] == '*';
    }
  }

  lemma DeclaredChainOf(chain: string)
    requires ChainName(chain)
    ensures HasPrefix(":" + chain + " - [0:0]", ":")
    ensures DeclaredChain(":" + chain + " - [0:0]") == chain
  {
    var line := ":" + chain + " - [0:0]";
    assert line[..1] == ":";
    assert line[1..] == chain + [' '] + "- [0:0]";
    SplitFirst(chain, ' ', "- [0:0]");
  }

  /** A saved declaration adds its chain, empty. */
  lemma HeaderLineDeclares(tables: Tables, table: string, chain: string, ctx: RestoreContext)
    requires table != "" && Replays(ctx, table) && ChainName(chain)
    requires !HasChain(tables, table, chain)
    ensures LineStep(tables, table, HeaderLine(chain), ctx) == Step(WithChain(tables, table, chain), Continue(table))
  {
    var line := ":" + chain + " - [0:0]";
    assert HeaderLine(chain) == line + "\n";
    DeclaredChainOf(chain);
    ChainLineStep(tables, table, line, ctx);
    NewChainLine(tables, table, line, ctx);
  }

  /** Without flushing, a ":" line for a chain the table lacks adds it empty,
      whether or not it is then flushed. */
  lemma NewChainLine(tables: Tables, table: string, line: string, ctx: RestoreContext)
    requires HasPrefix(line, ":") && ctx.flush == NoFlushTables
    requires !HasChain(tables, table, DeclaredChain(line))
    ensures ChainLine(tables, table, line, ctx) == Step(WithChain(tables, table, DeclaredChain(line)), Continue(table))
  {
    var created := WithChain(tables, table, DeclaredChain(line));
    EmptyChainFlushed(created, table, DeclaredChain(line));
  }

  lemma EmptyChainFlushed(tables: Tables, table: string, chain: string)
    requires HasChain(tables, table, chain) && tables[table][chain] == []
    ensures FlushChain(tables, table, chain).tables == tables
  {
    assert tables[table][chain := []] == tables[table];
    assert tables[table := tables[table]] == tables;
  }

  /** The declarations of the chains in `order`, read in turn. */
  lemma {:induction false} HeaderLinesDeclare(tables: Tables, table: string, order: seq<string>, rest: string,
                                             ctx: RestoreContext)
    requires table != "" && Replays(ctx, table)
    requires forall k :: 0 <= k < |order| ==> ChainName(order[k]) && order[k] !in Base(tables, table)
    requires forall i, j :: 0 <= i < j < |order| ==> order[i] != order[j]
    ensures RestoreFrom(tables, table, HeaderLines(order) + rest, ctx)
         == RestoreFrom(if order == [] then tables else tables[table := Base(tables, table) + Empties(order)],
                        table, rest, ctx)
    decreases |order|
  {
    if order == [] {
      assert HeaderLines(order) + rest == rest;
    } else {
      var chain := order[0];
      var declared := WithChain(tables, table, chain);
      FirstHeaderLine(order, rest);
      HeaderLineReplays(tables, table, chain, HeaderLines(order[1..]) + rest, ctx);
      LaterUndeclared(tables, table, order);
      HeaderLinesDeclare(declared, table, order[1..], rest, ctx);
      DeclaredTogether(tables, table, order);
    }
  }

  /** A saved declaration adds its chain, and the replay reads on. */
  lemma HeaderLineReplays(tables: Tables, table: string, chain: string, later: string, ctx: RestoreContext)
    requires table != "" && Replays(ctx, table) && ChainName(chain)
    requires !HasChain(tables, table, chain)
    ensures RestoreFrom(tables, table, HeaderLine(chain) + later, ctx)
         == RestoreFrom(WithChain(tables, table, chain), table, later, ctx)
  {
    HeaderLineDeclares(tables, table, chain, ctx);
    SavedLines("", chain, "");
    ContinueLine(tables, table, HeaderLine(chain), later, ctx, WithChain(tables, table, chain), table);
  }

  /** Once the first chain is declared, the others are still new. */
  lemma LaterUndeclared(tables: Tables, table: string, order: seq<string>)
    requires order != []
    requires forall k :: 0 <= k < |order| ==> ChainName(order[k]) && order[k] !in Base(tables, table)
    requires forall i, j :: 0 <= i < j < |order| ==> order[i] != order[j]
    ensures var declared := WithChain(tables, table, order[0]);
      && (forall k :: 0 <= k < |order[1..]| ==> ChainName(order[1..][k]) && order[1..][k] !in Base(declared, table))
      && (forall i, j :: 0 <= i < j < |order[1..]| ==> order[1..][i] != order[1..][j])
  {
    var declared := WithChain(tables, table, order[0]);
    forall k | 0 <= k < |order[1..]|
      ensures order[1..][k] !in Base(declared, table)
    {
      assert order[1..][k] == order[k + 1] != order[0];
    }
  }

  lemma FirstHeaderLine(order: seq<string>, rest: string)
    requires order != []
    ensures HeaderLines(order) + rest == HeaderLine(order[0]) + (HeaderLines(order[1..]) + rest)
  {
  }

  lemma DeclaredTogether(tables: Tables, table: string, order: seq<string>)
    requires order != [] && order[0] !in Base(tables, table)
    ensures var declared := WithChain(tables, table, order[0]);
      (if order[1..] == [] then declared else declared[table := Base(declared, table) + Empties(order[1..])])
        == tables[table := Base(tables, table) + Empties(order)]
  {
    var chain := order[0];
    var base := Base(tables, table);
    var declared := WithChain(tables, table, chain);
    assert declared == tables[table := base[chain := []]];
    UnionUpdate(base, Empties(order[1..]), chain, []);
    if order[1..] == [] {
      assert base[chain := []] + Empties(order[1..]) == base[chain := []];
    } else {
      assert Base(declared, table) == base[chain := []];
    }
  }

  /** The fields of a saved rule line: "-A", the chain, then the rule's. */
  lemma RuleLineFields(chain: string, rule: string)
    requires ChainName(chain)
    ensures var line := "-A " + chain + " " + rule;
      && |Split(line, ' ')| >= 3 && Split(line, ' ')[1] == chain
      && TrimPrefix(line, Append + " " + chain + " ") == rule
  {
    RuleLineSplit(chain, rule);
    var line := "-A " + chain + " " + rule;
    var head := Append + " " + chain + " ";
    assert line == head + rule;
    assert line[..|head|] == head && line[|head|..] == rule;
  }

  lemma RuleLineSplit(chain: string, rule: string)
    requires ChainName(chain)
    ensures Split("-A " + chain + " " + rule, ' ') == ["-A", chain] + Split(rule, ' ')
  {
    var line := "-A " + chain + " " + rule;
    assert line == "-A" + [' '] + (chain + [' '] + rule);
    SplitFirst("-A", ' ', chain + [' '] + rule);
    SplitFirst(chain, ' ', rule);
  }

  /** EnsureRule appends a stable rule the chain lacks. */
  lemma EnsureAppends(tables: Tables, table: string, chain: string, rule: string, ipFamily: string -> IPFamily)
    requires Normalize(rule, ipFamily) == Ok(rule)
    requires HasChain(tables, table, chain)
    requires forall k :: 0 <= k < |tables[table][chain]| ==> tables[table][chain][k] != rule
    ensures EnsureRule(tables, Append, table, chain, rule, ipFamily)
         == Outcome(Ok(false), WithRules(tables, table, chain, tables[table][chain] + [rule]))
  {
    assert WithChain(tables, table, chain) == tables;
    assert Index(tables[table][chain], rule) == -1;
  }

  /** A saved "-A" line appends its rule. */
  lemma RuleLineAppends(tables: Tables, table: string, chain: string, rule: string, ctx: RestoreContext)
    requires table != "" && Replays(ctx, table) && ChainName(chain) && Normalize(rule, ctx.ipFamily) == Ok(rule)
    requires HasChain(tables, table, chain)
    requires forall k :: 0 <= k < |tables[table][chain]| ==> tables[table][chain][k] != rule
    ensures LineStep(tables, table, "-A " + chain + " " + rule + "\n", ctx)
         == Step(WithRules(tables, table, chain, tables[table][chain] + [rule]), Continue(table))
  {
    var line := "-A " + chain + " " + rule;
    assert line[..2] == "-A";
    AppendLineStep(tables, table, line, ctx);
    SavedRuleLine(tables, table, chain, rule, ctx);
  }

  /** The rule of a saved "-A" line is appended to its chain. */
  lemma SavedRuleLine(tables: Tables, table: string, chain: string, rule: string, ctx: RestoreContext)
    requires ChainName(chain) && Normalize(rule, ctx.ipFamily) == Ok(rule)
    requires HasChain(tables, table, chain)
    requires forall k :: 0 <= k < |tables[table][chain]| ==> tables[table][chain][k] != rule
    ensures RuleLine(tables, table, "-A " + chain + " " + rule, Append, ctx)
         == Step(WithRules(tables, table, chain, tables[table][chain] + [rule]), Continue(table))
  {
    RuleLineFields(chain, rule);
    EnsureAppends(tables, table, chain, rule, ctx.ipFamily);
    RuleLineOf(tables, table, "-A " + chain + " " + rule, Append, chain, rule, ctx,
               WithRules(tables, table, chain, tables[table][chain] + [rule]));
  }

  /** A rule line whose rule is ensured without error. */
  lemma RuleLineOf(tables: Tables, table: string, line: string, position: string, chain: string, rule: string,
                   ctx: RestoreContext, after: Tables)
    requires |Split(line, ' ')| >= 3 && Split(line, ' ')[1] == chain
    requires TrimPrefix(line, position + " " + chain + " ") == rule
    requires EnsureRule(tables, position, table, chain, rule, ctx.ipFamily) == Outcome(Ok(false), after)
    ensures RuleLine(tables, table, line, position, ctx) == Step(after, Continue(table))
  {
  }

  /** The saved rule lines of one chain, read in turn. */
  lemma {:induction false} ChainRuleLinesAppend(tables: Tables, table: string, chain: string, rules: seq<string>,
                                               rest: string, ctx: RestoreContext)
    requires table != "" && Replays(ctx, table) && ChainName(chain)
    requires HasChain(tables, table, chain)
    requires forall k :: 0 <= k < |rules| ==> StableRule(rules[k], ctx.ipFamily)
    requires NoDuplicates(tables[table][chain] + rules)
    ensures RestoreFrom(tables, table, ChainRuleLines(chain, rules) + rest, ctx)
         == RestoreFrom(WithRules(tables, table, chain, tables[table][chain] + rules), table, rest, ctx)
    decreases |rules|
  {
    var existing := tables[table][chain];
    if rules == [] {
      assert ChainRuleLines(chain, rules) + rest == rest;
      assert WithRules(tables, table, chain, existing + rules) == tables by {
        assert existing + rules == existing;
        assert tables[table][chain := existing] == tables[table];
      }
    } else {
      var appended := WithRules(tables, table, chain, existing + [rules[0]]);
      assert StableRule(rules[0], ctx.ipFamily);
      AppendedRules(tables, table, chain, rules);
      FirstRuleLine(tables, table, chain, rules, rest, ctx);
      ChainRuleLinesAppend(appended, table, chain, rules[1..], rest, ctx);
    }
  }

  /** The first saved rule line of a chain, then the others. */
  lemma FirstRuleLine(tables: Tables, table: string, chain: string, rules: seq<string>, rest: string,
                      ctx: RestoreContext)
    requires table != "" && Replays(ctx, table) && ChainName(chain)
    requires HasChain(tables, table, chain) && rules != []
    requires StableRule(rules[0], ctx.ipFamily)
    requires forall k :: 0 <= k < |tables[table][chain]| ==> tables[table][chain][k] != rules[0]
    ensures RestoreFrom(tables, table, ChainRuleLines(chain, rules) + rest, ctx)
         == RestoreFrom(WithRules(tables, table, chain, tables[table][chain] + [rules[0]]), table,
                        ChainRuleLines(chain, rules[1..]) + rest, ctx)
  {
    FirstChainRuleLine(chain, rules, rest);
    RuleLineReplays(tables, table, chain, rules[0], ChainRuleLines(chain, rules[1..]) + rest, ctx);
  }

  lemma FirstChainRuleLine(chain: string, rules: seq<string>, rest: string)
    requires rules != []
    ensures ChainRuleLines(chain, rules) + rest == "-A " + chain + " " + rules[0] + "\n" + (ChainRuleLines(chain, rules[1..]) + rest)
  {
  }

  /** A saved "-A" line appends its rule, and the replay reads on. */
  lemma RuleLineReplays(tables: Tables, table: string, chain: string, rule: string, later: string,
                        ctx: RestoreContext)
    requires table != "" && Replays(ctx, table) && ChainName(chain) && StableRule(rule, ctx.ipFamily)
    requires HasChain(tables, table, chain)
    requires forall k :: 0 <= k < |tables[table][chain]| ==> tables[table][chain][k] != rule
    ensures RestoreFrom(tables, table, "-A " + chain + " " + rule + "\n" + later, ctx)
         == RestoreFrom(WithRules(tables, table, chain, tables[table][chain] + [rule]), table, later, ctx)
  {
    RuleLineAppends(tables, table, chain, rule, ctx);
    SavedLines("", chain, rule);
    ContinueLine(tables, table, "-A " + chain + " " + rule + "\n", later, ctx,
                 WithRules(tables, table, chain, tables[table][chain] + [rule]), table);
  }

  /** Appending the rules one at a time, as the chain grows. */
  lemma AppendedRules(tables: Tables, table: string, chain: string, rules: seq<string>)
    requires HasChain(tables, table, chain) && rules != []
    requires NoDuplicates(tables[table][chain] + rules)
    ensures var existing := tables[table][chain];
      var appended := WithRules(tables, table, chain, existing + [rules[0]]);
      && (forall k :: 0 <= k < |existing| ==> existing[k] != rules[0])
      && NoDuplicates(appended[table][chain] + rules[1..])
      && WithRules(appended, table, chain, appended[table][chain] + rules[1..])
         == WithRules(tables, table, chain, existing + rules)
  {
    var existing := tables[table][chain];
    var rule := rules[0];
    forall k | 0 <= k < |existing|
      ensures existing[k] != rule
    {
      assert (existing + rules)[k] == existing[k] && (existing + rules)[|existing|] == rule;
    }
    var appended := WithRules(tables, table, chain, existing + [rule]);
    assert appended[table][chain] + rules[1..] == existing + rules;
    assert appended[table][chain := existing + rules] == tables[table][chain := existing + rules];
  }

  /** The saved rule lines of the chains in `order`, each chain starting
      empty, read in turn. */
  lemma {:induction false} RuleLinesFill(tables: Tables, table: string, chains: Chains, order: seq<string>,
                                        rest: string, ctx: RestoreContext)
    requires table != "" && Replays(ctx, table) && table in tables
    requires forall k :: 0 <= k < |order| ==>
      && order[k] in chains && order[k] in tables[table] && tables[table][order[k]] == []
      && ChainName(order[k]) && StableRules(chains[order[k]], ctx.ipFamily)
    requires forall i, j :: 0 <= i < j < |order| ==> order[i] != order[j]
    ensures RestoreFrom(tables, table, RuleLines(chains, order) + rest, ctx)
         == RestoreFrom(tables[table := tables[table] + Restrict(chains, order)], table, rest, ctx)
    decreases |order|
  {
    if order == [] {
      assert RuleLines(chains, order) + rest == rest;
      assert tables[table] + Restrict(chains, order) == tables[table];
      assert tables[table := tables[table]] == tables;
    } else {
      var chain := order[0];
      var rules := chains[chain];
      var later := RuleLines(chains, order[1..]) + rest;
      FirstRuleLines(chains, order, rest);
      ChainFill(tables, table, chain, rules, later, ctx);
      NextFill(tables, table, chains, order, ctx.ipFamily);
      RuleLinesFill(tables[table := tables[table][chain := rules]], table, chains, order[1..], rest, ctx);
    }
  }

  lemma FirstRuleLines(chains: Chains, order: seq<string>, rest: string)
    requires forall k :: 0 <= k < |order| ==> order[k] in chains
    requires order != []
    ensures RuleLines(chains, order) + rest == ChainRuleLines(order[0], chains[order[0]]) + (RuleLines(chains, order[1..]) + rest)
  {
  }

  /** The saved rule lines of an empty chain fill it. */
  lemma ChainFill(tables: Tables, table: string, chain: string, rules: seq<string>, rest: string,
                  ctx: RestoreContext)
    requires table != "" && Replays(ctx, table) && ChainName(chain)
    requires HasChain(tables, table, chain) && tables[table][chain] == []
    requires StableRules(rules, ctx.ipFamily)
    ensures RestoreFrom(tables, table, ChainRuleLines(chain, rules) + rest, ctx)
         == RestoreFrom(tables[table := tables[table][chain := rules]], table, rest, ctx)
  {
    assert tables[table][chain] + rules == rules;
    ChainRuleLinesAppend(tables, table, chain, rules, rest, ctx);
  }

  /** After the first chain is filled, the others are ready, and filling
      them finishes the job. */
  lemma NextFill(tables: Tables, table: string, chains: Chains, order: seq<string>, ipFamily: string -> IPFamily)
    requires table in tables && order != []
    requires forall k :: 0 <= k < |order| ==>
      && order[k] in chains && order[k] in tables[table] && tables[table][order[k]] == []
      && ChainName(order[k]) && StableRules(chains[order[k]], ipFamily)
    requires forall i, j :: 0 <= i < j < |order| ==> order[i] != order[j]
    ensures var filled := tables[table := tables[table][order[0] := chains[order[0]]]];
      && table in filled
      && (forall k :: 0 <= k < |order[1..]| ==>
            && order[1..][k] in chains && order[1..][k] in filled[table] && filled[table][order[1..][k]] == []
            && ChainName(order[1..][k]) && StableRules(chains[order[1..][k]], ipFamily))
      && (forall i, j :: 0 <= i < j < |order[1..]| ==> order[1..][i] != order[1..][j])
      && filled[table := filled[table] + Restrict(chains, order[1..])]
         == tables[table := tables[table] + Restrict(chains, order)]
  {
    FilledFirst(tables, table, chains, order);
    FilledTogether(tables, table, chains, order);
  }

  /** Filling the first chain leaves the others empty. */
  lemma FilledFirst(tables: Tables, table: string, chains: Chains, order: seq<string>)
    requires table in tables && order != [] && order[0] in chains
    requires forall k :: 0 <= k < |order| ==> order[k] in tables[table] && tables[table][order[k]] == []
    requires forall i, j :: 0 <= i < j < |order| ==> order[i] != order[j]
    ensures var filled := tables[table := tables[table][order[0] := chains[order[0]]]];
      forall k :: 0 <= k < |order[1..]| ==> order[1..][k] in filled[table] && filled[table][order[1..][k]] == []
  {
    var filled := tables[table := tables[table][order[0] := chains[order[0]]]];
    forall k | 0 <= k < |order[1..]|
      ensures order[1..][k] in filled[table] && filled[table][order[1..][k]] == []
    {
      assert order[1..][k] == order[k + 1] != order[0];
    }
  }

  /** Filling the first chain, then the others, is filling them all. */
  lemma FilledTogether(tables: Tables, table: string, chains: Chains, order: seq<string>)
    requires table in tables && order != []
    requires forall k :: 0 <= k < |order| ==> order[k] in chains && order[k] in tables[table]
    ensures var filled := tables[table := tables[table][order[0] := chains[order[0]]]];
      filled[table := filled[table] + Restrict(chains, order[1..])]
        == tables[table := tables[table] + Restrict(chains, order)]
  {
    var chain := order[0];
    var later := Restrict(chains, order[1..]);
    assert Restrict(chains, order) == later[chain := chains[chain]];
    UpdateThenUnion(tables, table, later, chain, chains[chain]);
  }

  /** Setting one chain of a table, then adding others that agree with it. */
  lemma UpdateThenUnion(tables: Tables, table: string, later: Chains, chain: string, rules: seq<string>)
    requires table in tables
    requires chain in later ==> later[chain] == rules
    ensures var filled := tables[table := tables[table][chain := rules]];
      filled[table := filled[table] + later] == tables[table := tables[table] + later[chain := rules]]
  {
    var updated := tables[table][chain := rules];
    UnionUpdate(tables[table], later, chain, rules);
    assert tables[table := updated][table := updated + later] == tables[table := updated + later];
  }

  /** The closing COMMIT ends the replay, whichever way it was asked for. */
  lemma CommitLast(tables: Tables, table: string, ctx: RestoreContext)
    requires table != "" && Replays(ctx, table)
    ensures RestoreFrom(tables, table, "COMMIT\n", ctx) == Restored(None, tables)
  {
    assert "COMMIT\n" + "" == "COMMIT\n";
    if ctx.restoreTable == table {
      CommitEndsRestore(tables, "", ctx);
    } else {
      CommitClosesTable(tables, table, "", ctx);
    }
  }

  /** Save then restore: the text SaveInto writes for `table`, replayed
      without flushing (for every table, or for that one), puts back every
      chain with its rules in order and reports no error. The store must not
      hold chains of that table already; a table with no chains at all is
      not created by the replay. Chains the store holds in other tables are
      left alone. */
  lemma SaveThenRestore(tables: Tables, table: string, chains: Chains, order: seq<string>, restoreTable: string,
                        builtins: map<string, set<string>>, ipFamily: string -> IPFamily)
    requires table != "" && NoNewline(table)
    requires restoreTable == "" || restoreTable == table
    requires table in tables ==> tables[table] == map[]
    requires Enumerates(order, chains.Keys)
    requires forall c :: c in chains ==> ChainName(c) && StableRules(chains[c], ipFamily)
    ensures Restore(tables, restoreTable, SaveText(table, chains, order), NoFlushTables, builtins, ipFamily)
         == Restored(None, if table !in tables && chains == map[] then tables else tables[table := chains])
  {
    var ctx := RestoreContext(restoreTable, SaveText(table, chains, order), NoFlushTables, builtins, ipFamily);
    var ruleLines := RuleLines(chains, order);
    SaveTextParts(table, chains, order);
    TableOpens(tables, table, HeaderLines(order) + (ruleLines + "COMMIT\n"), ctx);
    Declared(tables, table, chains, order);
    HeaderLinesDeclare(tables, table, order, ruleLines + "COMMIT\n", ctx);
    if order == [] {
      NothingSaved(tables, table, chains, order, ctx);
    } else {
      RestoreChains(tables, table, chains, order, ctx);
    }
  }

  /** The declarations of a table that had no chains: empty chains alone. */
  lemma Declared(tables: Tables, table: string, chains: Chains, order: seq<string>)
    requires table in tables ==> tables[table] == map[]
    requires Enumerates(order, chains.Keys)
    ensures Base(tables, table) == map[]
    ensures tables[table := Base(tables, table) + Empties(order)] == tables[table := Empties(order)]
    ensures order != [] ==> chains != map[]
  {
    assert Base(tables, table) + Empties(order) == Empties(order);
    if order != [] {
      assert order[0] in chains;
    }
  }

  /** The "*<table>" line opens the table for what follows. */
  lemma TableOpens(tables: Tables, table: string, rest: string, ctx: RestoreContext)
    requires table != "" && NoNewline(table) && Replays(ctx, table)
    ensures RestoreFrom(tables, "", "*" + table + "\n" + rest, ctx) == RestoreFrom(tables, table, rest, ctx)
  {
    TableLineOpens(tables, table, ctx);
    SavedLines(table, "", "");
    ContinueLine(tables, "", "*" + table + "\n", rest, ctx, tables, table);
  }

  /** A table with no chains saves as its name and COMMIT alone. */
  lemma NothingSaved(tables: Tables, table: string, chains: Chains, order: seq<string>, ctx: RestoreContext)
    requires table != "" && Replays(ctx, table)
    requires table in tables ==> tables[table] == map[]
    requires Enumerates(order, chains.Keys) && order == []
    ensures RestoreFrom(tables, table, RuleLines(chains, order) + "COMMIT\n", ctx)
         == Restored(None, if table !in tables && chains == map[] then tables else tables[table := chains])
  {
    NoChains(tables, table, chains, order);
    CommitLast(tables, table, ctx);
  }

  lemma NoChains(tables: Tables, table: string, chains: Chains, order: seq<string>)
    requires table in tables ==> tables[table] == map[]
    requires Enumerates(order, chains.Keys) && order == []
    ensures RuleLines(chains, order) + "COMMIT\n" == "COMMIT\n"
    ensures (if table !in tables && chains == map[] then tables else tables[table := chains]) == tables
  {
    assert chains == map[];
    if table in tables {
      assert tables[table := chains] == tables;
    }
  }

  lemma SaveTextParts(table: string, chains: Chains, order: seq<string>)
    requires Enumerates(order, chains.Keys)
    ensures SaveText(table, chains, order)
         == "*" + table + "\n" + (HeaderLines(order) + (RuleLines(chains, order) + "COMMIT\n"))
  {
  }

  /** After the declarations: the rule lines and COMMIT. */
  lemma RestoreChains(tables: Tables, table: string, chains: Chains, order: seq<string>, ctx: RestoreContext)
    requires table != "" && Replays(ctx, table) && order != []
    requires Enumerates(order, chains.Keys)
    requires forall c :: c in chains ==> ChainName(c) && StableRules(chains[c], ctx.ipFamily)
    ensures RestoreFrom(tables[table := Empties(order)], table, RuleLines(chains, order) + "COMMIT\n", ctx)
         == Restored(None, tables[table := chains])
  {
    var declared := tables[table := Empties(order)];
    FillReady(tables, table, chains, order, ctx.ipFamily);
    RuleLinesFill(declared, table, chains, order, "COMMIT\n", ctx);
    CommitLast(tables[table := chains], table, ctx);
  }

  /** The declared chains are ready to be filled, and filling them all
      gives the saved chains. */
  lemma FillReady(tables: Tables, table: string, chains: Chains, order: seq<string>, ipFamily: string -> IPFamily)
    requires Enumerates(order, chains.Keys)
    requires forall c :: c in chains ==> ChainName(c) && StableRules(chains[c], ipFamily)
    ensures var declared := tables[table := Empties(order)];
      && table in declared
      && (forall k :: 0 <= k < |order| ==>
            && order[k] in chains && order[k] in declared[table] && declared[table][order[k]] == []
            && ChainName(order[k]) && StableRules(chains[order[k]], ipFamily))
      && declared[table := declared[table] + Restrict(chains, order)] == tables[table := chains]
  {
    EmptiesKeys(order);
    RestrictKeys(chains, order);
    var m := Empties(order) + Restrict(chains, order);
    assert m.Keys == chains.Keys;
    assert m == chains;
    var declared := tables[table := Empties(order)];
    assert declared[table := m] == tables[table := m];
  }

  /** SaveInto on one store, replayed into another with no chains in that
      table, copies the table across. */
  lemma SaveIntoThenRestore(source: Tables, target: Tables, table: string, order: seq<string>,
                            restoreTable: string, builtins: map<string, set<string>>, ipFamily: string -> IPFamily)
    requires table in source && table != "" && NoNewline(table)
    requires restoreTable == "" || restoreTable == table
    requires table in target ==> target[table] == map[]
    requires Enumerates(order, source[table].Keys)
    requires forall c :: c in source[table] ==> ChainName(c) && StableRules(source[table][c], ipFamily)
    ensures SaveInto(source, table, "", order).Ok?
    ensures var saved := SaveInto(source, table, "", order).value;
      var r := Restore(target, restoreTable, saved, NoFlushTables, builtins, ipFamily);
      r.err == None && (source[table] != map[] || table in target ==> r.tables == target[table := source[table]])
  {
    var chains := source[table];
    assert "" + SaveText(table, chains, order) == SaveText(table, chains, order);
    SaveThenRestore(target, table, chains, order, restoreTable, builtins, ipFamily);
  }
}
