/** The in-memory stand-in for iptables: an object holding the tables, whose
    methods change them in place. Each method is proved to do what the pure
    functions of TableStore and SaveRestore say. */
module IPTablesFake {
  import opened Text
  import opened IPTablesTypes
  import opened Normalizer
  import opened TableStore
  import opened SaveRestore

  /** findRule: the index of the first copy of `rule`, or -1. */
  method FindRule(rules: seq<string>, rule: string) returns (index: int)
    ensures index == Index(rules, rule)
  {
    index := 0;
    while index < |rules|
      invariant 0 <= index <= |rules|
      invariant forall k :: 0 <= k < index ==> rules[k] != rule
    {
      if rules[index] == rule {
        return;
      }
      index := index + 1;
    }
    index := -1;
  }

  /** saveChain: appends one line per rule of the chain to `data`. */
  method SaveChain(chain: string, rules: seq<string>, data: string) returns (out: string)
    ensures out == data + ChainRuleLines(chain, rules)
  {
    out := data;
    for i := 0 to |rules|
      invariant out + ChainRuleLines(chain, rules[i..]) == data + ChainRuleLines(chain, rules)
    {
      assert rules[i..][1..] == rules[i + 1..];
      out := out + "-A " + chain + " " + rules[i] + "\n";
    }
    assert rules[|rules|..] == [];
  }

  /** EnsureRule's first loop: each argument with a space goes through %q. */
  method QuoteRuleArgs(args: seq<string>) returns (ruleArgs: seq<string>)
    requires Quotable(args)
    ensures ruleArgs == QuoteArgs(args)
  {
    ruleArgs := [];
    for i := 0 to |args|
      invariant ruleArgs == QuoteArgs(args)[..i]
    {
      var arg := args[i];
      if ' ' in arg {
        arg := GoQuote(arg);
      }
      ruleArgs := ruleArgs + [arg];
    }
  }

  /** SaveInto's loop over the chains: each chain's declaration goes
      straight to `buffer`, its rules to a second buffer that follows them. */
  method SaveChains(chains: Chains, order: seq<string>, buffer: string) returns (out: string, rules: string)
    requires forall k :: 0 <= k < |order| ==> order[k] in chains
    ensures out == buffer + HeaderLines(order)
    ensures rules == RuleLines(chains, order)
  {
    out := buffer;
    rules := "";
    for i := 0 to |order|
      invariant out + HeaderLines(order[i..]) == buffer + HeaderLines(order)
      invariant rules + RuleLines(chains, order[i..]) == RuleLines(chains, order)
    {
      var chain := order[i];
      SavedChainLines(chains, order, i);
      Regroup(out, HeaderLine(chain), HeaderLines(order[i + 1..]));
      Regroup(rules, ChainRuleLines(chain, chains[chain]), RuleLines(chains, order[i + 1..]));
      out := out + HeaderLine(chain);
      rules := SaveChain(chain, chains[chain], rules);
    }
    assert order[|order|..] == [];
  }

  lemma Regroup(a: string, b: string, c: string)
    ensures a + b + c == a + (b + c)
  {
  }

  /** The lines of the chains from the i-th on: those of the i-th, then the
      others. */
  lemma SavedChainLines(chains: Chains, order: seq<string>, i: nat)
    requires forall k :: 0 <= k < |order| ==> order[k] in chains
    requires i < |order|
    ensures HeaderLines(order[i..]) == HeaderLine(order[i]) + HeaderLines(order[i + 1..])
    ensures RuleLines(chains, order[i..]) == ChainRuleLines(order[i], chains[order[i]]) + RuleLines(chains, order[i + 1..])
  {
    assert order[i..][1..] == order[i + 1..];
  }

  /** SaveInto's pieces, put together, are the buffer and the saved text. */
  lemma SavedText(buffer: string, table: string, chains: Chains, order: seq<string>)
    requires Enumerates(order, chains.Keys)
    ensures buffer + "*" + table + "\n" + HeaderLines(order) + RuleLines(chains, order) + "COMMIT\n"
         == buffer + SaveText(table, chains, order)
  {
  }

  class FakeIPTables {
    var tables: Tables
    const builtinChains: map<string, set<string>>

    /** newFakeIPTables: empty filter and nat tables. */
    constructor ()
      ensures tables == InitialTables && builtinChains == BuiltinChains
    {
      tables := InitialTables;
      builtinChains := BuiltinChains;
    }

    /** ensureChain and EnsureChain: whether the chain existed; it does now. */
    method EnsureChain(table: string, chain: string) returns (existed: bool)
      modifies this
      ensures Outcome(Ok(existed), tables) == TableStore.EnsureChain(old(tables), table, chain)
    {
      var got := GetChain(tables, table, chain);
      if got.Err? {
        var chains := if table in tables then tables[table] else map[];
        tables := tables[table := chains[chain := []]];
        return false;
      }
      return true;
    }

    method FlushChain(table: string, chain: string) returns (r: Result<()>)
      modifies this
      ensures Outcome(r, tables) == TableStore.FlushChain(old(tables), table, chain)
    {
      var got := GetChain(tables, table, chain);
      if got.Err? {
        return Err(got.error);
      }
      tables := tables[table := tables[table][chain := []]];
      return Ok(());
    }

    method DeleteChain(table: string, chain: string) returns (r: Result<()>)
      modifies this
      ensures Outcome(r, tables) == TableStore.DeleteChain(old(tables), table, chain)
    {
      var got := GetChain(tables, table, chain);
      if got.Err? {
        return Err(got.error);
      }
      tables := tables[table := tables[table] - {chain}];
      return Ok(());
    }

    method ChainExists(table: string, chain: string) returns (r: Result<bool>)
      ensures r == TableStore.ChainExists(tables, table, chain)
    {
      var got := GetChain(tables, table, chain);
      if got.Err? {
        return Err(got.error);
      }
      return Ok(true);
    }

    /** ensureRule: the rule as one line of text. */
    method EnsureRuleLine(position: string, table: string, chain: string, rule: string,
                          ipFamily: string -> IPFamily) returns (r: Result<bool>)
      modifies this
      ensures Outcome(r, tables) == TableStore.EnsureRule(old(tables), position, table, chain, rule, ipFamily)
    {
      var got := GetChain(tables, table, chain);
      if got.Err? {
        var existed := EnsureChain(table, chain);
      }
      var normalized := NormalizeRule(rule, ipFamily);
      if normalized.Err? {
        return Err(normalized.error);
      }
      var rules := tables[table][chain];
      var ruleIdx := FindRule(rules, normalized.value);
      if ruleIdx >= 0 {
        return Ok(true);
      }
      if position == Prepend {
        tables := tables[table := tables[table][chain := [normalized.value] + rules]];
      } else if position == Append {
        tables := tables[table := tables[table][chain := rules + [normalized.value]]];
      } else {
        return Err(UnknownPosition(position));
      }
      return Ok(false);
    }

    /** EnsureRule: the rule as arguments, those with a space quoted. */
    method EnsureRule(position: string, table: string, chain: string, args: seq<string>,
                      ipFamily: string -> IPFamily) returns (r: Result<bool>)
      requires Quotable(args)
      modifies this
      ensures Outcome(r, tables)
           == TableStore.EnsureRule(old(tables), position, table, chain, Join(QuoteArgs(args), " "), ipFamily)
    {
      var ruleArgs := QuoteRuleArgs(args);
      r := EnsureRuleLine(position, table, chain, Join(ruleArgs, " "), ipFamily);
    }

    method DeleteRule(table: string, chain: string, args: seq<string>)
      modifies this
      ensures tables == TableStore.DeleteRule(old(tables), table, chain, args)
    {
      var got := GetChain(tables, table, chain);
      if got.Ok? {
        var rule := Join(args, " ");
        var ruleIdx := FindRule(got.value, rule);
        if ruleIdx < 0 {
          return;
        }
        tables := tables[table := tables[table][chain := got.value[..ruleIdx] + got.value[ruleIdx + 1..]]];
      }
    }

    /** SaveInto: the table's text after `buffer`; the chains are ranged over
        in `order`, the order Go's map iteration happens to produce. */
    method SaveInto(table: string, buffer: string, order: seq<string>) returns (r: Result<string>)
      requires table in tables ==> Enumerates(order, tables[table].Keys)
      ensures r == SaveRestore.SaveInto(tables, table, buffer, order)
    {
      var got := GetTable(tables, table);
      if got.Err? {
        return Err(got.error);
      }
      var chains := got.value;
      var out := buffer + "*" + table + "\n";
      var rules;
      out, rules := SaveChains(chains, order, out);
      out := out + rules + "COMMIT\n";
      SavedText(buffer, table, chains, order);
      return Ok(out);
    }

    /** The body of restore's loop, for one line read with its newline. */
    method RestoreLine(tableName: string, raw: string, ctx: RestoreContext) returns (flow: Flow)
      requires |raw| > 0 && ctx.builtins == builtinChains
      modifies this
      ensures Step(tables, flow) == LineStep(old(tables), tableName, raw, ctx)
    {
      if raw[0] == '#' {
        return Continue(tableName);
      }
      var line := TrimSuffix(raw, "\n");
      var name := tableName;
      if HasPrefix(line, "*") {
        name := line[1..];
      }
      if name == "" {
        return Continue(name);
      }
      if ctx.restoreTable != "" && ctx.restoreTable != name {
        return Continue(name);
      }
      if HasPrefix(line, ":") {
        flow := RestoreChainLine(name, line, ctx);
      } else if HasPrefix(line, "-A") {
        flow := RestoreRuleLine(name, line, Append, ctx);
      } else if HasPrefix(line, "-I") {
        flow := RestoreRuleLine(name, line, Prepend, ctx);
      } else if HasPrefix(line, "-X") {
        var parts := Split(line, ' ');
        if |parts| < 2 {
          return Stop(Some(InvalidRule(line)));
        }
        var r := DeleteChain(name, parts[1]);
        if r.Err? {
          return Stop(Some(r.error));
        }
        flow := Continue(name);
      } else if line == "COMMIT" {
        if ctx.restoreTable == name {
          return Stop(None);
        }
        flow := Continue("");
      } else {
        flow := Continue(name);
      }
    }

    method RestoreChainLine(tableName: string, line: string, ctx: RestoreContext) returns (flow: Flow)
      requires HasPrefix(line, ":") && ctx.builtins == builtinChains
      modifies this
      ensures Step(tables, flow) == ChainLine(old(tables), tableName, line, ctx)
    {
      var chain := Split(line[1..], ' ')[0];
      if ctx.flush == FlushTables {
        var got := GetChain(tables, tableName, chain);
        if got.Err? {
          return Stop(Some(got.error));
        }
        tables := tables[tableName := tables[tableName] - {chain}];
      }
      var existed := EnsureChain(tableName, chain);
      // The chain has just been ensured, so FlushChain cannot fail.
      if !IsBuiltinChain(builtinChains, tableName, chain) && !Contains(ctx.allLines, "-X " + chain) {
        var r := FlushChain(tableName, chain);
      }
      flow := Continue(tableName);
    }

    method RestoreRuleLine(tableName: string, line: string, position: string, ctx: RestoreContext)
      returns (flow: Flow)
      modifies this
      ensures Step(tables, flow) == RuleLine(old(tables), tableName, line, position, ctx)
    {
      var parts := Split(line, ' ');
      if |parts| < 3 {
        return Stop(Some(InvalidRule(line)));
      }
      var chain := parts[1];
      var rule := TrimPrefix(line, position + " " + chain + " ");
      var r := EnsureRuleLine(position, tableName, chain, rule, ctx.ipFamily);
      if r.Err? {
        return Stop(Some(r.error));
      }
      flow := Continue(tableName);
    }

    /** restore: replays `data` line by line; "" restores every table. */
    method RestoreData(restoreTable: string, data: string, flush: FlushFlag, ipFamily: string -> IPFamily)
      returns (err: Option<Error>)
      modifies this
      ensures Restored(err, tables)
           == SaveRestore.Restore(old(tables), restoreTable, data, flush, builtinChains, ipFamily)
    {
      var ctx := RestoreContext(restoreTable, data, flush, builtinChains, ipFamily);
      var buf := data;
      var tableName := "";
      while true
        invariant RestoreFrom(tables, tableName, buf, ctx)
               == SaveRestore.Restore(old(tables), restoreTable, data, flush, builtinChains, ipFamily)
        decreases |buf|
      {
        var nl := Index(buf, '\n');
        if nl < 0 {
          return None;
        }
        var line := buf[..nl + 1];
        buf := buf[nl + 1..];
        var flow := RestoreLine(tableName, line, ctx);
        match flow {
          case Stop(e) =>
            return e;
          case Continue(name) =>
            tableName := name;
        }
      }
    }

    /** Restore: one table; the counters flag is not modelled. */
    method Restore(table: string, data: string, flush: FlushFlag, ipFamily: string -> IPFamily)
      returns (err: Option<Error>)
      modifies this
      ensures Restored(err, tables) == SaveRestore.Restore(old(tables), table, data, flush, builtinChains, ipFamily)
    {
      err := RestoreData(table, data, flush, ipFamily);
    }

    /** RestoreAll: every table in the input. */
    method RestoreAll(data: string, flush: FlushFlag, ipFamily: string -> IPFamily) returns (err: Option<Error>)
      modifies this
      ensures Restored(err, tables) == SaveRestore.Restore(old(tables), "", data, flush, builtinChains, ipFamily)
    {
      err := RestoreData("", data, flush, ipFamily);
    }
  }
}
