/** What each operation of the fake rule store does to its tables, as pure
    functions of the tables before the call. The class in FakeIPTables runs
    the same operations step by step and is proved to agree with these. */
module TableStore {
  import opened Text
  import opened IPTablesTypes
  import opened Normalizer

  /** What an operation answers, and the tables it leaves behind. */
  datatype Outcome<T> = Outcome(result: Result<T>, tables: Tables)

  predicate HasChain(tables: Tables, table: string, chain: string) {
    table in tables && chain in tables[table]
  }

  /** Every chain other than `table`/`chain` is present in both or neither,
      with the same rules, and no table other than `table` came or went. */
  ghost predicate SameElsewhere(before: Tables, after: Tables, table: string, chain: string) {
    && (forall t :: t != table ==> (t in after <==> t in before))
    && (forall t, c :: (t != table || c != chain) ==> (HasChain(after, t, c) <==> HasChain(before, t, c)))
    && (forall t, c :: (t != table || c != chain) && HasChain(before, t, c) ==> after[t][c] == before[t][c])
  }

  /** getTable: the chains of a table, or "table does not exist". */
  function GetTable(tables: Tables, table: string): (r: Result<Chains>)
    ensures r.Ok? <==> table in tables
    ensures r.Err? ==> r.error == TableNotFound(table)
  {
    if table in tables then Ok(tables[table]) else Err(TableNotFound(table))
  }

  /** getChain: the rules of a chain; a missing table is reported before a
      missing chain. */
  function GetChain(tables: Tables, table: string, chain: string): (r: Result<seq<string>>)
    ensures r.Ok? <==> HasChain(tables, table, chain)
    ensures r.Err? && table !in tables ==> r.error == TableNotFound(table)
    ensures r.Err? && table in tables ==> r.error == ChainNotFound(table, chain)
  {
    match GetTable(tables, table)
    case Err(e) => Err(e)
    case Ok(chains) => if chain in chains then Ok(chains[chain]) else Err(ChainNotFound(table, chain))
  }

  /** The tables with `chain` present: untouched when it already exists,
      otherwise created empty, together with its table when that is missing
      too. */
  function WithChain(tables: Tables, table: string, chain: string): (r: Tables)
    ensures HasChain(r, table, chain)
    ensures HasChain(tables, table, chain) ==> r == tables
    ensures !HasChain(tables, table, chain) ==> r[table][chain] == []
    ensures r.Keys == tables.Keys + {table}
    ensures SameElsewhere(tables, r, table, chain)
  {
    if HasChain(tables, table, chain) then tables
    else
      var chains := if table in tables then tables[table] else map[];
      tables[table := chains[chain := []]]
  }

  /** The tables with the rules of an existing chain replaced. */
  function WithRules(tables: Tables, table: string, chain: string, rules: seq<string>): (r: Tables)
    requires HasChain(tables, table, chain)
    ensures HasChain(r, table, chain) && r[table][chain] == rules
    ensures r.Keys == tables.Keys
    ensures SameElsewhere(tables, r, table, chain)
  {
    tables[table := tables[table][chain := rules]]
  }

  /** EnsureChain: whether the chain existed; afterwards it does. */
  function EnsureChain(tables: Tables, table: string, chain: string): (o: Outcome<bool>)
    ensures o.result == Ok(HasChain(tables, table, chain))
    ensures HasChain(o.tables, table, chain)
    ensures HasChain(tables, table, chain) ==> o.tables == tables
    ensures !HasChain(tables, table, chain) ==> o.tables[table][chain] == []
    ensures o.tables.Keys == tables.Keys + {table}
    ensures SameElsewhere(tables, o.tables, table, chain)
  {
    Outcome(Ok(HasChain(tables, table, chain)), WithChain(tables, table, chain))
  }

  /** FlushChain: empties an existing chain, or reports the missing one. */
  function FlushChain(tables: Tables, table: string, chain: string): (o: Outcome<()>)
    ensures o.result.Ok? <==> HasChain(tables, table, chain)
    ensures o.result.Ok? ==> HasChain(o.tables, table, chain) && o.tables[table][chain] == []
    ensures o.result.Err? ==> o.tables == tables
    ensures o.tables.Keys == tables.Keys
    ensures SameElsewhere(tables, o.tables, table, chain)
  {
    match GetChain(tables, table, chain)
    case Err(e) => Outcome(Err(e), tables)
    case Ok(_) => Outcome(Ok(()), WithRules(tables, table, chain, []))
  }

  /** DeleteChain: removes an existing chain (its table stays, even when it
      is left without chains), or reports the missing one. */
  function DeleteChain(tables: Tables, table: string, chain: string): (o: Outcome<()>)
    ensures o.result.Ok? <==> HasChain(tables, table, chain)
    ensures !HasChain(o.tables, table, chain)
    ensures o.result.Err? ==> o.tables == tables
    ensures o.tables.Keys == tables.Keys
    ensures SameElsewhere(tables, o.tables, table, chain)
  {
    match GetChain(tables, table, chain)
    case Err(e) => Outcome(Err(e), tables)
    case Ok(_) => Outcome(Ok(()), tables[table := tables[table] - {chain}])
  }

  /** ChainExists: true for an existing chain; false with the error of
      getChain otherwise. */
  function ChainExists(tables: Tables, table: string, chain: string): (r: Result<bool>)
    ensures r.Ok? <==> HasChain(tables, table, chain)
    ensures r.Ok? ==> r.value
    ensures r.Err? ==> r.error == GetChain(tables, table, chain).error
  {
    match GetChain(tables, table, chain)
    case Err(e) => Err(e)
    case Ok(_) => Ok(true)
  }

  /** ensureRule: creates the chain if needed, normalises the rule, and
      answers true when the normalised rule is already present; otherwise it
      puts the rule at the front (Prepend) or back (Append) of the chain. A
      rule that does not normalise, or an unknown position, is an error that
      still leaves the chain created. */
  function EnsureRule(tables: Tables, position: string, table: string, chain: string, rule: string,
                      ipFamily: string -> IPFamily): (o: Outcome<bool>)
    ensures HasChain(o.tables, table, chain)
    ensures o.tables.Keys == tables.Keys + {table}
    ensures SameElsewhere(tables, o.tables, table, chain)
    ensures o.result.Err? ==> o.tables == WithChain(tables, table, chain)
    ensures Normalize(rule, ipFamily).Err? ==> o.result == Err(Normalize(rule, ipFamily).error)
    ensures o.result.Ok? ==> Normalize(rule, ipFamily).value in o.tables[table][chain]
  {
    var created := WithChain(tables, table, chain);
    var rules := created[table][chain];
    match Normalize(rule, ipFamily)
    case Err(e) => Outcome(Err(e), created)
    case Ok(normalized) =>
      if Index(rules, normalized) >= 0 then Outcome(Ok(true), created)
      else if position == Prepend then Outcome(Ok(false), WithRules(created, table, chain, [normalized] + rules))
      else if position == Append then Outcome(Ok(false), WithRules(created, table, chain, rules + [normalized]))
      else Outcome(Err(UnknownPosition(position)), created)
  }

  /** The rules with the one at index `i` taken out. */
  function RemoveAt(rules: seq<string>, i: nat): (r: seq<string>)
    requires i < |rules|
    ensures |r| == |rules| - 1
    ensures forall k :: 0 <= k < i ==> r[k] == rules[k]
    ensures forall k :: i <= k < |r| ==> r[k] == rules[k + 1]
  {
    rules[..i] + rules[i + 1..]
  }

  /** DeleteRule: removes the first copy of the rule the arguments spell,
      compared as written (not normalised). A missing chain or rule is not
      an error: nothing changes. */
  function DeleteRule(tables: Tables, table: string, chain: string, args: seq<string>): (r: Tables)
    ensures r.Keys == tables.Keys
    ensures SameElsewhere(tables, r, table, chain)
    ensures HasChain(r, table, chain) <==> HasChain(tables, table, chain)
    ensures HasChain(tables, table, chain) && Join(args, " ") in tables[table][chain] ==>
              var rules := tables[table][chain];
              var i := Index(rules, Join(args, " "));
              && 0 <= i < |rules| && rules[i] == Join(args, " ")
              && (forall k :: 0 <= k < i ==> rules[k] != Join(args, " "))
              && r[table][chain] == rules[..i] + rules[i + 1..]
    ensures !HasChain(tables, table, chain) || Join(args, " ") !in tables[table][chain] ==> r == tables
  {
    match GetChain(tables, table, chain)
    case Err(_) => tables
    case Ok(rules) =>
      var i := Index(rules, Join(args, " "));
      if i < 0 then tables else WithRules(tables, table, chain, RemoveAt(rules, i))
  }

  /** isBuiltinChain */
  predicate IsBuiltinChain(builtins: map<string, set<string>>, table: string, chain: string) {
    table in builtins && chain in builtins[table]
  }
}
