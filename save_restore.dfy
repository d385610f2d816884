/** The iptables-save text the fake store writes, and how it replays such a
    text line by line: both as pure functions over the tables. */
module SaveRestore {
  import opened Text
  import opened IPTablesTypes
  import opened Normalizer
  import opened TableStore

  // ----- Saving -----

  /** The order a Go map ranges over its keys in: every key exactly once. */
  predicate Enumerates(order: seq<string>, keys: set<string>) {
    && (forall c :: c in order ==> c in keys)
    && (forall c :: c in keys ==> c in order)
    && (forall i, j :: 0 <= i < j < |order| ==> order[i] != order[j])
  }

  /** saveChain: one "-A <chain> <rule>" line per rule, in chain order. */
  function ChainRuleLines(chain: string, rules: seq<string>): string
    decreases |rules|
  {
    if rules == [] then "" else "-A " + chain + " " + rules[0] + "\n" + ChainRuleLines(chain, rules[1..])
  }

  /** The declaration line of one chain. */
  function HeaderLine(chain: string): string {
    ":" + chain + " - [0:0]\n"
  }

  function HeaderLines(order: seq<string>): string
    decreases |order|
  {
    if order == [] then "" else HeaderLine(order[0]) + HeaderLines(order[1..])
  }

  function RuleLines(chains: Chains, order: seq<string>): string
    requires forall k :: 0 <= k < |order| ==> order[k] in chains
    decreases |order|
  {
    if order == [] then "" else ChainRuleLines(order[0], chains[order[0]]) + RuleLines(chains, order[1..])
  }

  /** The text SaveInto writes for one table: its name, every chain's
      declaration, every chain's rules, and COMMIT. */
  function SaveText(table: string, chains: Chains, order: seq<string>): string
    requires Enumerates(order, chains.Keys)
  {
    "*" + table + "\n" + HeaderLines(order) + RuleLines(chains, order) + "COMMIT\n"
  }

  /** SaveInto: the buffer with the table's text appended, or the missing
      table (the buffer is then left alone). `order` is the order the map of
      chains happens to be ranged over in. */
  function SaveInto(tables: Tables, table: string, buffer: string, order: seq<string>): (r: Result<string>)
    requires table in tables ==> Enumerates(order, tables[table].Keys)
    ensures r.Ok? <==> table in tables
    ensures r.Err? ==> r.error == TableNotFound(table)
    ensures r.Ok? ==> HasPrefix(r.value, buffer) && HasSuffix(r.value, "COMMIT\n")
  {
    match GetTable(tables, table)
    case Err(e) => Err(e)
    case Ok(chains) => Ok(buffer + SaveText(table, chains, order))
  }

  // ----- Reading lines -----

  /** A line as bytes.Buffer.ReadString('\n') returns it: the text up to
      and including the next newline, and what is left. */
  datatype Line = Line(text: string, rest: string)

  /** ReadString('\n'): a final line without a newline ends the input. */
  function NextLine(data: string): (r: Option<Line>)
    ensures r.None? <==> forall k :: 0 <= k < |data| ==> data[k] != '\n'
    ensures r.Some? ==> && data == r.value.text + r.value.rest
                        && |r.value.text| > 0 && r.value.text[|r.value.text| - 1] == '\n'
                        && forall k :: 0 <= k < |r.value.text| - 1 ==> r.value.text[k] != '\n'
  {
    var i := Index(data, '\n');
    if i < 0 then None else Some(Line(data[..i + 1], data[i + 1..]))
  }

  // ----- Replaying -----

  /** What stays fixed while a text is replayed: the one table to restore
      ("" for all), the whole input, the flush flag, the builtin chains and
      the address classifier. */
  datatype RestoreContext = RestoreContext(
    restoreTable: string,
    allLines: string,
    flush: FlushFlag,
    builtins: map<string, set<string>>,
    ipFamily: string -> IPFamily)

  /** After one line the replay goes on, with the current table name, or
      stops, with or without an error. */
  datatype Flow = Continue(tableName: string) | Stop(err: Option<Error>)

  datatype Step = Step(tables: Tables, flow: Flow)

  /** The chain a ":<chain> ..." line declares. */
  function DeclaredChain(line: string): string
    requires HasPrefix(line, ":")
  {
    Split(line[1..], ' ')[0]
  }

  /** A ":<chain> ..." line. With FlushTables the chain must exist and is
      deleted first; the chain is then ensured, and a chain that is not
      builtin is flushed unless the text "-X <chain>" occurs anywhere in the
      whole input. That is a substring test: "-X" of a longer chain name, a
      comment, or a line before this one counts too. */
  function ChainLine(tables: Tables, tableName: string, line: string, ctx: RestoreContext): (s: Step)
    requires HasPrefix(line, ":")
    ensures s.flow.Continue? ==> s.flow.tableName == tableName && HasChain(s.tables, tableName, DeclaredChain(line))
    ensures s.flow.Stop? ==> ctx.flush == FlushTables && !HasChain(tables, tableName, DeclaredChain(line))
                             && s == Step(tables, Stop(Some(GetChain(tables, tableName, DeclaredChain(line)).error)))
  {
    var chain := DeclaredChain(line);
    var cleared :=
      if ctx.flush == FlushTables then
        match GetChain(tables, tableName, chain)
        case Err(e) => Err(e)
        case Ok(_) => Ok(tables[tableName := tables[tableName] - {chain}])
      else Ok(tables);
    match cleared
    case Err(e) => Step(tables, Stop(Some(e)))
    case Ok(t1) =>
      var t2 := WithChain(t1, tableName, chain);
      // FlushChain cannot fail here: the chain has just been ensured.
      if !IsBuiltinChain(ctx.builtins, tableName, chain) && !Contains(ctx.allLines, "-X " + chain) then
        Step(FlushChain(t2, tableName, chain).tables, Continue(tableName))
      else
        Step(t2, Continue(tableName))
  }

  /** A "-A <chain> <rule>" or "-I <chain> <rule>" line: at least three
      space-separated fields, the second naming the chain; the rule is the
      line without its "-A <chain> " head and is ensured at `position`. */
  function RuleLine(tables: Tables, tableName: string, line: string, position: string, ctx: RestoreContext): (s: Step)
    ensures |Split(line, ' ')| < 3 ==> s == Step(tables, Stop(Some(InvalidRule(line))))
    ensures s.flow.Continue? ==> s.flow.tableName == tableName
    ensures |Split(line, ' ')| >= 3 ==>
              var chain := Split(line, ' ')[1];
              var o := EnsureRule(tables, position, tableName, chain, TrimPrefix(line, position + " " + chain + " "),
                                  ctx.ipFamily);
              && s.tables == o.tables
              && (o.result.Ok? <==> s.flow.Continue?)
              && (o.result.Err? ==> s.flow == Stop(Some(o.result.error)))
  {
    var parts := Split(line, ' ');
    if |parts| < 3 then Step(tables, Stop(Some(InvalidRule(line))))
    else
      var chain := parts[1];
      var rule := TrimPrefix(line, position + " " + chain + " ");
      var o := EnsureRule(tables, position, tableName, chain, rule, ctx.ipFamily);
      if o.result.Err? then Step(o.tables, Stop(Some(o.result.error))) else Step(o.tables, Continue(tableName))
  }

  /** A "-X <chain>" line deletes the chain, which must exist. */
  function DeleteLine(tables: Tables, tableName: string, line: string): (s: Step)
    ensures |Split(line, ' ')| < 2 ==> s == Step(tables, Stop(Some(InvalidRule(line))))
    ensures |Split(line, ' ')| >= 2 && HasChain(tables, tableName, Split(line, ' ')[1]) ==>
              && s.flow == Continue(tableName)
              && !HasChain(s.tables, tableName, Split(line, ' ')[1])
              && s.tables == DeleteChain(tables, tableName, Split(line, ' ')[1]).tables
    ensures |Split(line, ' ')| >= 2 && !HasChain(tables, tableName, Split(line, ' ')[1]) ==>
              s == Step(tables, Stop(Some(GetChain(tables, tableName, Split(line, ' ')[1]).error)))
  {
    var parts := Split(line, ' ');
    if |parts| < 2 then Step(tables, Stop(Some(InvalidRule(line))))
    else
      var o := DeleteChain(tables, tableName, parts[1]);
      if o.result.Err? then Step(o.tables, Stop(Some(o.result.error))) else Step(o.tables, Continue(tableName))
  }

  /** One pass of restore's loop over the line `raw` (newline included),
      with `tableName` the table the last "*" line opened ("" for none). */
  function LineStep(tables: Tables, tableName: string, raw: string, ctx: RestoreContext): (s: Step)
    requires |raw| > 0
  {
    if raw[0] == '#' then Step(tables, Continue(tableName))
    else
      var line := TrimSuffix(raw, "\n");
      var name := if HasPrefix(line, "*") then line[1..] else tableName;
      if name == "" then Step(tables, Continue(name))
      else if ctx.restoreTable != "" && ctx.restoreTable != name then Step(tables, Continue(name))
      else if HasPrefix(line, ":") then ChainLine(tables, name, line, ctx)
      else if HasPrefix(line, "-A") then RuleLine(tables, name, line, Append, ctx)
      else if HasPrefix(line, "-I") then RuleLine(tables, name, line, Prepend, ctx)
      else if HasPrefix(line, "-X") then DeleteLine(tables, name, line)
      else if line == "COMMIT" then
        if ctx.restoreTable == name then Step(tables, Stop(None)) else Step(tables, Continue(""))
      else Step(tables, Continue(name))
  }

  /** What a replay reports, and the tables it leaves (an error does not
      undo the lines before it). */
  datatype Restored = Restored(err: Option<Error>, tables: Tables)

  /** restore's loop, run from `tableName` over the unread input `data`. */
  function RestoreFrom(tables: Tables, tableName: string, data: string, ctx: RestoreContext): Restored
    decreases |data|
  {
    match NextLine(data)
    case None => Restored(None, tables)
    case Some(line) =>
      var step := LineStep(tables, tableName, line.text, ctx);
      match step.flow
      case Stop(err) => Restored(err, step.tables)
      case Continue(name) => RestoreFrom(step.tables, name, line.rest, ctx)
  }

  /** restore: replays `data` from the start, with no table open. */
  function Restore(tables: Tables, restoreTable: string, data: string, flush: FlushFlag,
                   builtins: map<string, set<string>>, ipFamily: string -> IPFamily): Restored
  {
    RestoreFrom(tables, "", data, RestoreContext(restoreTable, data, flush, builtins, ipFamily))
  }
}
