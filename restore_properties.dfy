/** What replaying a text does, line by line: comments and lines outside a
    table are skipped, a short rule line is rejected, COMMIT closes a table,
    and the flush flag decides what happens to a declared chain. */
module RestoreProperties {
  import opened Text
  import opened IPTablesTypes
  import opened Normalizer
  import opened TableStore
  import opened StoreProperties
  import opened SaveRestore

  predicate NoNewline(s: string) {
    forall k :: 0 <= k < |s| ==> s[k] != '\n'
  }

  /** ReadString returns a line up to its newline and leaves the rest. */
  lemma NextLineOf(line: string, rest: string)
    requires NoNewline(line)
    ensures NextLine(line + "\n" + rest) == Some(Line(line + "\n", rest))
  {
    var data := line + "\n" + rest;
    IndexAfter(line, '\n', rest);
    assert data[..|line| + 1] == line + "\n";
    assert data[|line| + 1..] == rest;
  }

  /** Replaying a line and then the rest of the input. */
  lemma ReplayLine(tables: Tables, tableName: string, line: string, rest: string, ctx: RestoreContext)
    requires NoNewline(line)
    ensures var s := LineStep(tables, tableName, line + "\n", ctx);
      RestoreFrom(tables, tableName, line + "\n" + rest, ctx)
        == if s.flow.Stop? then Restored(s.flow.err, s.tables)
           else RestoreFrom(s.tables, s.flow.tableName, rest, ctx)
  {
    NextLineOf(line, rest);
  }

  /** A line that stops the replay: nothing after it is read. */
  lemma StopLine(tables: Tables, tableName: string, line: string, rest: string, ctx: RestoreContext,
                 after: Tables, err: Option<Error>)
    requires NoNewline(line)
    requires LineStep(tables, tableName, line + "\n", ctx) == Step(after, Stop(err))
    ensures RestoreFrom(tables, tableName, line + "\n" + rest, ctx) == Restored(err, after)
  {
    NextLineOf(line, rest);
  }

  /** The newline is cut off a line before it is looked at. */
  lemma TrimNewline(line: string)
    ensures TrimSuffix(line + "\n", "\n") == line
  {
    assert (line + "\n")[|line + "\n"| - 1..] == "\n";
  }

  /** A line that starts with '#' is skipped. */
  lemma CommentSkipped(tables: Tables, tableName: string, comment: string, rest: string, ctx: RestoreContext)
    requires NoNewline(comment) && |comment| > 0 && comment[0] == '#'
    ensures RestoreFrom(tables, tableName, comment + "\n" + rest, ctx) == RestoreFrom(tables, tableName, rest, ctx)
  {
    ReplayLine(tables, tableName, comment, rest, ctx);
  }

  /** A last line without a newline is never read. */
  lemma UnterminatedLineIgnored(tables: Tables, tableName: string, tail: string, ctx: RestoreContext)
    requires NoNewline(tail)
    ensures RestoreFrom(tables, tableName, tail, ctx) == Restored(None, tables)
  {
  }

  /** Until a "*<table>" line opens a table, every line is skipped. */
  lemma SkippedBeforeTable(tables: Tables, line: string, rest: string, ctx: RestoreContext)
    requires NoNewline(line) && !HasPrefix(line, "*")
    ensures RestoreFrom(tables, "", line + "\n" + rest, ctx) == RestoreFrom(tables, "", rest, ctx)
  {
    ReplayLine(tables, "", line, rest, ctx);
    TrimNewline(line);
  }

  /** When one table is restored, the lines of another are skipped, its
      COMMIT line included: only a new "*" line changes the table. */
  lemma OtherTableSkipped(tables: Tables, tableName: string, line: string, rest: string, ctx: RestoreContext)
    requires NoNewline(line) && !HasPrefix(line, "*")
    requires ctx.restoreTable != "" && tableName != ctx.restoreTable
    ensures RestoreFrom(tables, tableName, line + "\n" + rest, ctx) == RestoreFrom(tables, tableName, rest, ctx)
  {
    ReplayLine(tables, tableName, line, rest, ctx);
    TrimNewline(line);
  }

  /** The COMMIT of the one table being restored ends the replay: nothing
      after it is read. */
  lemma CommitEndsRestore(tables: Tables, rest: string, ctx: RestoreContext)
    requires ctx.restoreTable != ""
    ensures RestoreFrom(tables, ctx.restoreTable, "COMMIT\n" + rest, ctx) == Restored(None, tables)
  {
    assert "COMMIT" + "\n" == "COMMIT\n";
    CommitStep(tables, ctx.restoreTable, ctx);
    StopLine(tables, ctx.restoreTable, "COMMIT", rest, ctx, tables, None);
  }

  /** When every table is restored, COMMIT closes the current table and the
      replay goes on with none open. */
  lemma CommitClosesTable(tables: Tables, tableName: string, rest: string, ctx: RestoreContext)
    requires ctx.restoreTable == "" && tableName != ""
    ensures RestoreFrom(tables, tableName, "COMMIT\n" + rest, ctx) == RestoreFrom(tables, "", rest, ctx)
  {
    assert "COMMIT" + "\n" == "COMMIT\n";
    CommitStep(tables, tableName, ctx);
    NextLineOf("COMMIT", rest);
  }

  lemma CommitStep(tables: Tables, tableName: string, ctx: RestoreContext)
    requires tableName != "" && (ctx.restoreTable == "" || ctx.restoreTable == tableName)
    ensures LineStep(tables, tableName, "COMMIT" + "\n", ctx)
         == Step(tables, if ctx.restoreTable == tableName then Stop(None) else Continue(""))
  {
    TrimNewline("COMMIT");
    CommitIsNoCommand();
  }

  /** "COMMIT" is none of the other kinds of line. */
  lemma CommitIsNoCommand()
    ensures var line := "COMMIT";
      && !HasPrefix(line, "*") && !HasPrefix(line, ":")
      && !HasPrefix(line, "-A") && !HasPrefix(line, "-I") && !HasPrefix(line, "-X")
  {
    var line := "COMMIT";
    assert line[..1] == "C" && line[..2] == "CO";
  }

  /** A rule line with fewer than three fields stops the replay with an
      error and changes nothing. */
  lemma ShortRuleLineRejected(tables: Tables, tableName: string, line: string, rest: string, ctx: RestoreContext)
    requires NoNewline(line) && HasPrefix(line, "-A") && |Split(line, ' ')| < 3
    requires tableName != "" && (ctx.restoreTable == "" || ctx.restoreTable == tableName)
    ensures RestoreFrom(tables, tableName, line + "\n" + rest, ctx) == Restored(Some(InvalidRule(line)), tables)
  {
    AppendLineStep(tables, tableName, line, ctx);
    ReplayLine(tables, tableName, line, rest, ctx);
  }

  /** A "-A" line of the open table is a rule to append. */
  lemma AppendLineStep(tables: Tables, tableName: string, line: string, ctx: RestoreContext)
    requires HasPrefix(line, "-A")
    requires tableName != "" && (ctx.restoreTable == "" || ctx.restoreTable == tableName)
    ensures LineStep(tables, tableName, line + "\n", ctx) == RuleLine(tables, tableName, line, Append, ctx)
  {
    TrimNewline(line);
    assert line[0] == '-';
    assert !HasPrefix(line, "*") && !HasPrefix(line, ":");
  }

  /** An "-I" line of the open table is a rule to insert at the front. */
  lemma InsertLineStep(tables: Tables, tableName: string, line: string, ctx: RestoreContext)
    requires HasPrefix(line, "-I")
    requires tableName != "" && (ctx.restoreTable == "" || ctx.restoreTable == tableName)
    ensures LineStep(tables, tableName, line + "\n", ctx) == RuleLine(tables, tableName, line, Prepend, ctx)
  {
    TrimNewline(line);
    assert line[0] == '-' && line[1] == 'I';
    assert !HasPrefix(line, "*") && !HasPrefix(line, ":") && !HasPrefix(line, "-A");
  }

  /** An "-I" line whose rule normalises to one the chain lacks puts it at
      the front of the chain (created first when missing), and the replay
      goes on. */
  lemma InsertLinePrepends(tables: Tables, tableName: string, line: string, rest: string, ctx: RestoreContext)
    requires NoNewline(line) && HasPrefix(line, "-I") && |Split(line, ' ')| >= 3
    requires tableName != "" && (ctx.restoreTable == "" || ctx.restoreTable == tableName)
    requires var chain := Split(line, ' ')[1];
      var n := Normalize(TrimPrefix(line, Prepend + " " + chain + " "), ctx.ipFamily);
      n.Ok? && n.value !in WithChain(tables, tableName, chain)[tableName][chain]
    ensures var chain := Split(line, ' ')[1];
      var n := Normalize(TrimPrefix(line, Prepend + " " + chain + " "), ctx.ipFamily).value;
      var created := WithChain(tables, tableName, chain);
      RestoreFrom(tables, tableName, line + "\n" + rest, ctx)
        == RestoreFrom(WithRules(created, tableName, chain, [n] + created[tableName][chain]), tableName, rest, ctx)
  {
    var chain := Split(line, ' ')[1];
    var rule := TrimPrefix(line, Prepend + " " + chain + " ");
    InsertLineStep(tables, tableName, line, ctx);
    EnsureRulePlacement(tables, Prepend, tableName, chain, rule, ctx.ipFamily);
    RuleLineContinues(tables, tableName, line, Prepend, ctx);
    ReplayLine(tables, tableName, line, rest, ctx);
  }

  /** A rule line whose rule is ensured without error lets the replay go on
      with the tables EnsureRule leaves. */
  lemma RuleLineContinues(tables: Tables, tableName: string, line: string, position: string, ctx: RestoreContext)
    requires |Split(line, ' ')| >= 3
    requires var chain := Split(line, ' ')[1];
      EnsureRule(tables, position, tableName, chain, TrimPrefix(line, position + " " + chain + " "), ctx.ipFamily).result.Ok?
    ensures var chain := Split(line, ' ')[1];
      RuleLine(tables, tableName, line, position, ctx)
        == Step(EnsureRule(tables, position, tableName, chain, TrimPrefix(line, position + " " + chain + " "),
                           ctx.ipFamily).tables, Continue(tableName))
  {
  }

  /** A rule line whose rule does not normalise stops the replay with the
      normaliser's error; the chain it names has been created all the same. */
  lemma UnnormalisedRuleRejected(tables: Tables, tableName: string, line: string, rest: string, ctx: RestoreContext)
    requires NoNewline(line) && HasPrefix(line, "-A") && |Split(line, ' ')| >= 3
    requires tableName != "" && (ctx.restoreTable == "" || ctx.restoreTable == tableName)
    requires Normalize(TrimPrefix(line, Append + " " + Split(line, ' ')[1] + " "), ctx.ipFamily).Err?
    ensures var chain := Split(line, ' ')[1];
      RestoreFrom(tables, tableName, line + "\n" + rest, ctx)
        == Restored(Some(Normalize(TrimPrefix(line, Append + " " + chain + " "), ctx.ipFamily).error),
                    WithChain(tables, tableName, chain))
  {
    AppendLineStep(tables, tableName, line, ctx);
    ReplayLine(tables, tableName, line, rest, ctx);
  }

  /** A "-X" line of the open table deletes a chain. */
  lemma DeleteLineStep(tables: Tables, tableName: string, line: string, ctx: RestoreContext)
    requires HasPrefix(line, "-X")
    requires tableName != "" && (ctx.restoreTable == "" || ctx.restoreTable == tableName)
    ensures LineStep(tables, tableName, line + "\n", ctx) == DeleteLine(tables, tableName, line)
  {
    TrimNewline(line);
    assert line[0] == '-' && line[1] == 'X';
    assert !HasPrefix(line, "*") && !HasPrefix(line, ":") && !HasPrefix(line, "-A") && !HasPrefix(line, "-I");
  }

  /** "-X <chain>" for an existing chain removes it and the replay goes on. */
  lemma DeleteLineRemovesChain(tables: Tables, tableName: string, line: string, rest: string, ctx: RestoreContext)
    requires NoNewline(line) && HasPrefix(line, "-X") && |Split(line, ' ')| >= 2
    requires tableName != "" && (ctx.restoreTable == "" || ctx.restoreTable == tableName)
    requires HasChain(tables, tableName, Split(line, ' ')[1])
    ensures RestoreFrom(tables, tableName, line + "\n" + rest, ctx)
         == RestoreFrom(DeleteChain(tables, tableName, Split(line, ' ')[1]).tables, tableName, rest, ctx)
  {
    DeleteLineStep(tables, tableName, line, ctx);
    ReplayLine(tables, tableName, line, rest, ctx);
  }

  /** "-X <chain>" for a chain that does not exist stops the replay with the
      error of getChain and changes nothing. */
  lemma MissingChainDeleteRejected(tables: Tables, tableName: string, line: string, rest: string,
                                   ctx: RestoreContext)
    requires NoNewline(line) && HasPrefix(line, "-X") && |Split(line, ' ')| >= 2
    requires tableName != "" && (ctx.restoreTable == "" || ctx.restoreTable == tableName)
    requires !HasChain(tables, tableName, Split(line, ' ')[1])
    ensures RestoreFrom(tables, tableName, line + "\n" + rest, ctx)
         == Restored(Some(GetChain(tables, tableName, Split(line, ' ')[1]).error), tables)
  {
    DeleteLineStep(tables, tableName, line, ctx);
    ReplayLine(tables, tableName, line, rest, ctx);
  }

  /** A ":" line of the open table declares a chain. */
  lemma ChainLineStep(tables: Tables, tableName: string, line: string, ctx: RestoreContext)
    requires HasPrefix(line, ":")
    requires tableName != "" && (ctx.restoreTable == "" || ctx.restoreTable == tableName)
    ensures LineStep(tables, tableName, line + "\n", ctx) == ChainLine(tables, tableName, line, ctx)
  {
    TrimNewline(line);
    assert line[0] == ':';
    assert !HasPrefix(line, "*");
  }

  /** With FlushTables a declared chain must already exist: a new one
      stops the replay with the error of getChain. */
  lemma FlushNeedsExistingChain(tables: Tables, tableName: string, line: string, ctx: RestoreContext)
    requires HasPrefix(line, ":") && ctx.flush == FlushTables
    requires !HasChain(tables, tableName, DeclaredChain(line))
    ensures ChainLine(tables, tableName, line, ctx).flow == Stop(Some(GetChain(tables, tableName, DeclaredChain(line)).error))
  {
  }

  /** With FlushTables an existing chain is replaced by an empty one. */
  lemma FlushEmptiesChain(tables: Tables, tableName: string, line: string, ctx: RestoreContext)
    requires HasPrefix(line, ":") && ctx.flush == FlushTables
    requires HasChain(tables, tableName, DeclaredChain(line))
    ensures var s := ChainLine(tables, tableName, line, ctx);
      s.flow == Continue(tableName) && s.tables == WithRules(tables, tableName, DeclaredChain(line), [])
  {
    var chain := DeclaredChain(line);
    var t1 := tables[tableName := tables[tableName] - {chain}];
    assert (tables[tableName] - {chain})[chain := []] == tables[tableName][chain := []];
    var t2 := WithChain(t1, tableName, chain);
    assert t2 == WithRules(tables, tableName, chain, []);
    assert t2[tableName][chain := []] == t2[tableName];
    assert WithRules(t2, tableName, chain, []) == t2;
  }

  /** Without FlushTables a builtin chain keeps its rules. */
  lemma NoFlushKeepsBuiltinChain(tables: Tables, tableName: string, line: string, ctx: RestoreContext)
    requires HasPrefix(line, ":") && ctx.flush == NoFlushTables
    requires HasChain(tables, tableName, DeclaredChain(line))
    requires IsBuiltinChain(ctx.builtins, tableName, DeclaredChain(line))
    ensures ChainLine(tables, tableName, line, ctx) == Step(tables, Continue(tableName))
  {
  }

  /** Without FlushTables a user chain is flushed anyway, unless the text
      "-X <chain>" occurs anywhere in the input. */
  lemma NoFlushEmptiesUserChain(tables: Tables, tableName: string, line: string, ctx: RestoreContext)
    requires HasPrefix(line, ":") && ctx.flush == NoFlushTables
    requires !IsBuiltinChain(ctx.builtins, tableName, DeclaredChain(line))
    ensures var chain := DeclaredChain(line);
      var s := ChainLine(tables, tableName, line, ctx);
      && (!Contains(ctx.allLines, "-X " + chain) ==> s.tables[tableName][chain] == [])
      && (Contains(ctx.allLines, "-X " + chain) ==> s.tables == WithChain(tables, tableName, chain))
  {
  }

  /** What keeps a user chain's rules is the text "-X <chain>" anywhere in
      the input, not a line that deletes the chain: the text may continue
      a longer chain name (`-X FOOBAR` keeps `FOO`), sit in a comment, or
      come before the declaration. */
  lemma DeleteTextKeepsUserChain(tables: Tables, tableName: string, line: string, ctx: RestoreContext,
                                 before: string, more: string, after: string)
    requires HasPrefix(line, ":") && ctx.flush == NoFlushTables
    requires !IsBuiltinChain(ctx.builtins, tableName, DeclaredChain(line))
    requires ctx.allLines == before + ("-X " + DeclaredChain(line) + more) + after
    ensures ChainLine(tables, tableName, line, ctx) == Step(WithChain(tables, tableName, DeclaredChain(line)), Continue(tableName))
  {
    var sub := "-X " + DeclaredChain(line);
    assert ctx.allLines == before + sub + (more + after);
    ContainsAt(before, sub, more + after);
  }
}
