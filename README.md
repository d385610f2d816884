# CRI-O's fake iptables store and cgroup-manager checks, in Dafny

This project models two pieces of CRI-O.

**The in-memory iptables stand-in** (`internal/hostport/fake_iptables.go`).
The host-port manager's tests use it in place of the real `iptables`
binaries. It keeps tables of chains of rule strings and supports these
operations:

- ensuring, flushing, deleting and querying chains;
- ensuring rules at the front or back of a chain, after normalising them the
  way iptables would, and deleting rules;
- writing a table out in `iptables-save` format;
- replaying such a text, as `iptables-restore` does, with or without
  flushing.

The store is a class, `IPTablesFake.FakeIPTables`, whose `tables` field its
methods update in place. Each method is proved equal to a pure function of
the old state. These functions are in `TableStore` for the store operations,
in `Normalizer` for the rule normaliser, and in `SaveRestore` for the save
text and the line-by-line replay. Lemmas about those functions live in three
modules:

- `StoreProperties`: idempotence, no duplicates, and delete undoing insert;
- `RestoreProperties`: what each kind of restore line does;
- `RoundTrip`: replaying the text that `SaveInto` writes puts the table back.

**The cgroup-manager helpers** (`internal/config/cgmgr/cgmgr_linux.go`),
modelled as pure functions in `Cgmgr`:

- choosing the manager from its configured name;
- the name of a container's cgroup;
- the check that a pod cgroup's memory limit is at least the minimum a
  container needs.

This check reads the limit file, trims trailing newlines, accepts an empty
value or `max`, and otherwise parses a decimal int64. The int64 parser and
the `%d` formatter are written out, and proved to agree with each other and
with a direct definition of decimal numerals.

Shared string behaviour is in `Text`: prefix and suffix tests, `Index`,
`Split`, `Join`, `TrimSpace`, `Contains` and a single replacement. The types
of the store are in `IPTablesTypes`.

Two things the source obtains from elsewhere are parameters of the model:

- the IP-address classifier, `ipFamily`;
- whether the node runs cgroup v2, `cgroupIsV2`.

Go's map iteration order in `SaveInto` is also a parameter, `order`. It is
any enumeration of the chain names, and every result holds for every such
order.

## Model

| member | source | states |
|---|---|---|
| `IPTablesFake.FakeIPTables.constructor` | internal/hostport/fake_iptables.go:48-67 | a new store holds the empty `filter` and `nat` tables and the builtin chains of filter, nat and mangle |
| `IPTablesFake.FakeIPTables.EnsureChain` | internal/hostport/fake_iptables.go:92-120 | answers whether the chain existed; the new state is `TableStore.EnsureChain` of the old one |
| `TableStore.EnsureChain` | internal/hostport/fake_iptables.go:92-120 | reports whether the chain existed, and afterwards the chain exists. An existing chain leaves the tables unchanged; a new chain is empty and its table is created when missing; every other chain is untouched |
| `TableStore.WithChain` | internal/hostport/fake_iptables.go:92-114 | the chain exists afterwards; the tables are unchanged when it already existed, otherwise it is new and empty; table keys grow by at most the table; every other chain is untouched |
| `TableStore.GetTable` | internal/hostport/fake_iptables.go:69-76 | succeeds exactly when the table exists; otherwise the error is "table does not exist" |
| `TableStore.GetChain` | internal/hostport/fake_iptables.go:78-90 | succeeds exactly when table and chain exist; a missing table is reported before a missing chain |
| `IPTablesFake.FakeIPTables.FlushChain` | internal/hostport/fake_iptables.go:122-131 | result and new state equal `TableStore.FlushChain` of the old state |
| `TableStore.FlushChain` | internal/hostport/fake_iptables.go:122-131 | succeeds exactly when the chain exists, and then it is empty; on error nothing changes; no other chain changes |
| `IPTablesFake.FakeIPTables.DeleteChain` | internal/hostport/fake_iptables.go:133-142 | result and new state equal `TableStore.DeleteChain` of the old state |
| `TableStore.DeleteChain` | internal/hostport/fake_iptables.go:133-142 | succeeds exactly when the chain exists; afterwards it is gone and its table stays; on error nothing changes; no other chain changes |
| `IPTablesFake.FakeIPTables.ChainExists` | internal/hostport/fake_iptables.go:144-151 | the answer equals `TableStore.ChainExists`, and the state is unchanged |
| `TableStore.ChainExists` | internal/hostport/fake_iptables.go:144-151 | true exactly for an existing chain; otherwise the error from getChain |
| `IPTablesFake.FindRule` | internal/hostport/fake_iptables.go:153-162 | returns the index of the first equal rule, or -1 when there is none (`Text.Index`) |
| `IPTablesFake.FakeIPTables.EnsureRuleLine` | internal/hostport/fake_iptables.go:164-190 | result and new state equal `TableStore.EnsureRule` of the old state |
| `TableStore.EnsureRule` | internal/hostport/fake_iptables.go:164-190 | the chain exists afterwards; a normaliser error or unknown position leaves only the created chain; on success the normalised rule is in the chain; nothing else changes |
| `TableStore.RemoveAt` | internal/hostport/fake_iptables.go:269 | removing one index keeps the rules before it and shifts those after it down by one |
| `IPTablesFake.FakeIPTables.DeleteRule` | internal/hostport/fake_iptables.go:259-273 | the new state equals `TableStore.DeleteRule` of the old state |
| `TableStore.DeleteRule` | internal/hostport/fake_iptables.go:259-273 | when the joined arguments are in the chain, the first rule equal to them is taken out and the others keep their order; a missing chain or rule changes nothing; no other chain changes |
| `StoreProperties.DeleteRuleRemovesOneCopy` | internal/hostport/fake_iptables.go:259-273 | a present rule loses exactly one copy, and every other rule keeps its count |
| `IPTablesFake.QuoteRuleArgs` | internal/hostport/fake_iptables.go:245-254 | each argument containing a space is replaced by its `%q` form, and the others are kept (`Normalizer.QuoteArgs`) |
| `IPTablesFake.FakeIPTables.EnsureRule` | internal/hostport/fake_iptables.go:244-257 | equals `TableStore.EnsureRule` applied to the quoted arguments joined by single spaces |
| `Normalizer.QuoteArgs` | internal/hostport/fake_iptables.go:245-254 | one output per argument, position by position: quoted when it contains a space, unchanged otherwise |
| `Normalizer.QuoteChar` | internal/hostport/fake_iptables.go:249-250 | every ASCII character yields a non-empty escape; printable characters other than `"` and `\` stand for themselves |
| `Normalizer.GoQuoteSafe` | internal/hostport/fake_iptables.go:249-250 | `%q` of text that needs no escaping is that text between double quotes |
| `Normalizer.QuotedArgsWellFormed` | internal/hostport/fake_iptables.go:244-257 | quoting turns well-formed arguments into well-formed tokens; an argument with a space becomes one quoted token |
| `Normalizer.QuotedArgsNormalize` | internal/hostport/fake_iptables.go:244-257 | EnsureRule with well-formed arguments stores exactly their canonical tokens joined by single spaces |
| `Normalizer.Rewritten` | internal/hostport/fake_iptables.go:199-201 | rewriting a leading `--to-destination=` keeps the length of the remaining text |
| `Normalizer.ToDestinationRewrite` | internal/hostport/fake_iptables.go:199-201 | a leading `--to-destination=X` becomes `--to-destination X` |
| `Normalizer.TokenEnd` | internal/hostport/fake_iptables.go:203-215 | the end of the head token is -1 (an unclosed quote) or lies within the remaining text |
| `Normalizer.TokenEndMeaning` | internal/hostport/fake_iptables.go:203-215 | a token that opens with a quote ends just after the next quote, and -1 means there is none; any other token ends at the first space or at the end of the text, and holds no space |
| `Normalizer.NormalizeRule` | internal/hostport/fake_iptables.go:192-242 | the loop returns `Normalizer.Normalize` of the rule: its canonical text, or mismatched quotes, or the index-out-of-range failure |
| `Normalizer.NormalizeWellFormed` | internal/hostport/fake_iptables.go:192-242 | single-space-separated well-formed tokens normalise to their canonical tokens, single-space-separated: addresses gain `/32` or `/128`, `--to-destination=X` splits, quoted tokens stay whole |
| `Normalizer.UnterminatedQuote` | internal/hostport/fake_iptables.go:203-207 | a rule ending in an unclosed quote is rejected with mismatched quotes, whatever well-formed tokens precede it |
| `Normalizer.OpenQuoteFails` | internal/hostport/fake_iptables.go:203-207 | a quote with no closing quote after it fails, whatever was normalised before |
| `Normalizer.HostPrefixEquivalent` | internal/hostport/fake_iptables.go:219-226 | writing an address bare or with its host prefix length gives the same normalised rule |
| `Normalizer.PrefixedAddressPlain` | internal/hostport/fake_iptables.go:219-226 | an address with its prefix length appended is still a single plain token |
| `Normalizer.NormalizeIdempotent` | internal/hostport/fake_iptables.go:192-242 | normalising the normalised text of a rule of well-formed tokens gives it back, when no quoted or canonical token is an address |
| `Normalizer.NormalizeNotIdempotent` | internal/hostport/fake_iptables.go:192-242 | a rule shaped like `x \t"a b"c d` normalises to `x "a b"c d`, which normalises again to `x "a b"  d` |
| `Normalizer.CanonicalAllStable` | internal/hostport/fake_iptables.go:192-242 | under the same assumption, the canonical tokens of a rule are well-formed and are their own canonical form |
| `Normalizer.CanonicalTokensStable` | internal/hostport/fake_iptables.go:199-232 | the same for the canonical tokens of a single token |
| `Normalizer.SuffixedPlain` | internal/hostport/fake_iptables.go:219-226 | a plain token that is no `--to-destination=` token stays one when its prefix length is added |
| `Normalizer.QuotedTokenKept` | internal/hostport/fake_iptables.go:203-232 | a quoted token that is not an address is emitted as written, quotes included |
| `Normalizer.QuoteSkipsNextCharacter` | internal/hostport/fake_iptables.go:234-238 | after a closing quote the next character is skipped as if it were the separating space, whatever it is |
| `StoreProperties.EnsureChainIdempotent` | internal/hostport/fake_iptables.go:92-120 | ensuring a chain a second time answers true and changes nothing |
| `StoreProperties.DeleteThenEnsureChain` | internal/hostport/fake_iptables.go:92-142 | a deleted chain that is ensured again comes back empty and is reported as new |
| `StoreProperties.EnsuredChainExists` | internal/hostport/fake_iptables.go:92-151 | after EnsureChain, ChainExists answers true |
| `StoreProperties.EnsureRuleEquivalent` | internal/hostport/fake_iptables.go:164-242 | two spellings with one canonical form are stored once: after one is ensured, ensuring the other at any position answers true and changes nothing |
| `StoreProperties.EnsureRulePlacement` | internal/hostport/fake_iptables.go:164-190 | a present rule answers true and nothing moves; a new one goes in front for Prepend and at the back for Append; any other position is an error |
| `StoreProperties.EnsureRuleKeepsDistinct` | internal/hostport/fake_iptables.go:164-190 | a chain whose rules are distinct stays so under EnsureRule |
| `StoreProperties.EnsureRuleAdded` | internal/hostport/fake_iptables.go:164-190 | an EnsureRule that answers false added the normalised rule, which was absent, at the front or back |
| `StoreProperties.DeleteRuleUndoesEnsureRule` | internal/hostport/fake_iptables.go:164-273 | DeleteRule with the arguments of a rule that EnsureRule just added restores the previous tables, in a chain that already existed and when the arguments are already canonical |
| `StoreProperties.DeleteUndoesInsert` | internal/hostport/fake_iptables.go:259-273 | deleting a rule just put at the front or back of a chain that lacked it gives the tables back |
| `StoreProperties.DeleteRuleIsLiteral` | internal/hostport/fake_iptables.go:259-273 | DeleteRule does not normalise: arguments that only normalise to a stored rule remove nothing, though EnsureRule would find that rule |
| `IPTablesFake.SaveChain` | internal/hostport/fake_iptables.go:283-287 | appends one `-A <chain> <rule>` line per rule, in chain order (`SaveRestore.ChainRuleLines`) |
| `IPTablesFake.SaveChains` | internal/hostport/fake_iptables.go:299-302 | in the given chain order, the declarations go to the buffer and all rule lines to the second buffer |
| `IPTablesFake.FakeIPTables.SaveInto` | internal/hostport/fake_iptables.go:289-308 | the output equals `SaveRestore.SaveInto`; the state is unchanged |
| `SaveRestore.SaveInto` | internal/hostport/fake_iptables.go:289-308 | succeeds exactly for an existing table, and then extends the buffer and ends in `COMMIT`; a missing table is "table does not exist" |
| `SaveRestore.NextLine` | internal/hostport/fake_iptables.go:316-320 | a line is read only when a newline remains: the line ends at the first newline, includes it, and the rest follows |
| `SaveRestore.ChainLine` | internal/hostport/fake_iptables.go:336-356 | a `:` line ensures the chain and continues in the same table; it stops only under FlushTables when the chain is missing, with getChain's error and no change |
| `SaveRestore.RuleLine` | internal/hostport/fake_iptables.go:357-382 | a rule line with fewer than three fields stops with "invalid rule" and changes nothing; otherwise the tables are EnsureRule's for the chain in the second field and the rest of the line, and the replay continues in the same table exactly when EnsureRule succeeds, else stops with its error |
| `SaveRestore.DeleteLine` | internal/hostport/fake_iptables.go:383-391 | a `-X` line with fewer than two fields stops with "invalid rule" and changes nothing; an existing chain named in the second field is deleted and the replay continues; a missing one stops with getChain's error and changes nothing |
| `IPTablesFake.FakeIPTables.RestoreLine` | internal/hostport/fake_iptables.go:322-398 | one pass of the loop body changes the state and the flow exactly as `SaveRestore.LineStep` says |
| `IPTablesFake.FakeIPTables.RestoreChainLine` | internal/hostport/fake_iptables.go:336-356 | a `:` line's new state and flow equal `SaveRestore.ChainLine` |
| `IPTablesFake.FakeIPTables.RestoreRuleLine` | internal/hostport/fake_iptables.go:357-382 | an `-A` or `-I` line's new state and flow equal `SaveRestore.RuleLine` |
| `IPTablesFake.FakeIPTables.RestoreData` | internal/hostport/fake_iptables.go:310-403 | the loop over the input ends with the error and the tables that `SaveRestore.Restore` gives |
| `IPTablesFake.FakeIPTables.Restore` | internal/hostport/fake_iptables.go:405-407 | restores the named table only, as `SaveRestore.Restore` says |
| `IPTablesFake.FakeIPTables.RestoreAll` | internal/hostport/fake_iptables.go:409-411 | restores every table in the input, as `SaveRestore.Restore` with no table name says |
| `RestoreProperties.NextLineOf` | internal/hostport/fake_iptables.go:317-320 | ReadString returns the text up to and including the newline, and leaves the rest |
| `RestoreProperties.ReplayLine` | internal/hostport/fake_iptables.go:316-400 | replaying a line, then the rest: either the line stops the replay, or the replay goes on from its result |
| `RestoreProperties.CommentSkipped` | internal/hostport/fake_iptables.go:322-324 | a line starting with `#` changes nothing and keeps the current table |
| `RestoreProperties.UnterminatedLineIgnored` | internal/hostport/fake_iptables.go:317-320 | a last line without a newline is never replayed |
| `RestoreProperties.SkippedBeforeTable` | internal/hostport/fake_iptables.go:326-331 | until a `*` line opens a table, every line is skipped |
| `RestoreProperties.OtherTableSkipped` | internal/hostport/fake_iptables.go:331-334 | when one table is restored, the lines of another table, its COMMIT included, are skipped |
| `RestoreProperties.CommitEndsRestore` | internal/hostport/fake_iptables.go:392-395 | the COMMIT of the one table being restored ends the replay without error; nothing after it is read |
| `RestoreProperties.CommitClosesTable` | internal/hostport/fake_iptables.go:392-398 | when every table is restored, COMMIT closes the current table and the replay goes on |
| `RestoreProperties.InsertLinePrepends` | internal/hostport/fake_iptables.go:370-382 | an `-I` line puts its normalised rule at the front of the chain, creating the chain when needed, and the replay goes on |
| `RestoreProperties.UnnormalisedRuleRejected` | internal/hostport/fake_iptables.go:357-369 | an `-A` line whose rule does not normalise ends the replay with the normaliser's error; the chain it names is left created |
| `RestoreProperties.DeleteLineRemovesChain` | internal/hostport/fake_iptables.go:383-391 | an `-X` line for an existing chain deletes it and the replay goes on |
| `RestoreProperties.MissingChainDeleteRejected` | internal/hostport/fake_iptables.go:383-391 | an `-X` line for a missing chain ends the replay with getChain's error and changes nothing |
| `RestoreProperties.ShortRuleLineRejected` | internal/hostport/fake_iptables.go:357-361 | an `-A` line with fewer than three fields ends the replay with "invalid rule" and changes nothing |
| `RestoreProperties.FlushNeedsExistingChain` | internal/hostport/fake_iptables.go:338-342 | under FlushTables, declaring a chain that does not exist stops with getChain's error |
| `RestoreProperties.FlushEmptiesChain` | internal/hostport/fake_iptables.go:338-349 | under FlushTables, an existing chain is replaced by an empty one |
| `RestoreProperties.NoFlushKeepsBuiltinChain` | internal/hostport/fake_iptables.go:349-356 | without flushing, an existing builtin chain keeps its rules |
| `RestoreProperties.NoFlushEmptiesUserChain` | internal/hostport/fake_iptables.go:349-356 | without flushing, a user chain is emptied unless the text `-X <chain>` occurs anywhere in the input; otherwise it keeps its rules |
| `RestoreProperties.DeleteTextKeepsUserChain` | internal/hostport/fake_iptables.go:349-356 | the test is a substring test over the whole input: `-X` of a longer chain name, a comment, or text before the declaration keeps a user chain's rules |
| `RoundTrip.SaveThenRestore` | internal/hostport/fake_iptables.go:289-403 | replaying SaveInto's text without flushing restores every saved chain with its rules in order and reports no error, into a store that has no chains of that table. This holds for every chain order |
| `RoundTrip.SaveIntoThenRestore` | internal/hostport/fake_iptables.go:289-411 | SaveInto on one store, replayed by Restore or RestoreAll into another, copies the table across |
| `RoundTrip.HeaderLinesDeclare` | internal/hostport/fake_iptables.go:336-356 | the saved `:<chain>` lines declare each chain empty, in the open table |
| `RoundTrip.RuleLinesFill` | internal/hostport/fake_iptables.go:357-369 | the saved `-A` lines refill the declared chains with their rules, in order |
| `RoundTrip.NewChainLine` | internal/hostport/fake_iptables.go:336-356 | without flushing, a `:` line for a chain the table lacks creates it empty |
| `Cgmgr.SetCgroupManager` | internal/config/cgmgr/cgmgr_linux.go:99-122 | succeeds exactly for `systemd` or `cgroupfs`; the cgroupfs manager uses the v2 memory file on cgroup v2, and otherwise the v1 file plus the per-container maps; any other name is "invalid cgroup manager" |
| `Cgmgr.SelectedManagerNamed` | internal/config/cgmgr/cgmgr_linux.go:38-45 | the chosen manager reports the name it was chosen by, and is systemd exactly for `systemd` |
| `Cgmgr.DefaultManagerSelected` | internal/config/cgmgr/cgmgr_linux.go:28 | the default name selects the systemd manager, so New never panics |
| `Cgmgr.ContainerCgroupPath` | internal/config/cgmgr/cgmgr_linux.go:245-247 | the path is `crio-` followed by the container ID |
| `Cgmgr.ContainerCgroupPathInjective` | internal/config/cgmgr/cgmgr_linux.go:245-247 | different containers get different cgroup paths |
| `Cgmgr.VerifyMemoryIsEnough` | internal/config/cgmgr/cgmgr_linux.go:153-160 | an error exactly when the limit is nonzero and below the minimum; the error carries both numbers |
| `Cgmgr.EnoughForLess` | internal/config/cgmgr/cgmgr_linux.go:153-160 | a limit that satisfies one minimum also satisfies every smaller minimum |
| `Cgmgr.ScanDigitsValue` | internal/config/cgmgr/cgmgr_linux.go:140 | the base-10 digit scan succeeds exactly on digits whose value fits 64 bits, and yields that value |
| `Cgmgr.ParseInt64Accepts` | internal/config/cgmgr/cgmgr_linux.go:140 | ParseInt with base 10 and 64 bits accepts exactly an optional sign, then digits, then nothing else, within int64; the result is the value written |
| `Cgmgr.FormatNat` | internal/config/cgmgr/cgmgr_linux.go:156 | `%d` writes at least one digit and digits only |
| `Cgmgr.FormatNatValue` | internal/config/cgmgr/cgmgr_linux.go:156 | the digits `%d` writes stand for the number written |
| `Cgmgr.ParseFormatRoundTrip` | internal/config/cgmgr/cgmgr_linux.go:140-156 | ParseInt reads back every int64 that `%d` writes |
| `Cgmgr.TrimNewlines` | internal/config/cgmgr/cgmgr_linux.go:138 | the result is a prefix; only newlines were removed; the result does not end in one |
| `Cgmgr.TrimNewlinesOf` | internal/config/cgmgr/cgmgr_linux.go:138 | trimming removes exactly the trailing newlines after text that does not end in one |
| `Cgmgr.VerifyCgroupHasEnoughMemory` | internal/config/cgmgr/cgmgr_linux.go:124-151 | a missing file passes; an unreadable file fails with the read error naming the slice; a read file gets the verdict on its text that `Cgmgr.UnlimitedFileAccepted`, `Cgmgr.NumericFileVerdict` and `Cgmgr.NonNumericFileRejected` state |
| `Cgmgr.UnlimitedFileAccepted` | internal/config/cgmgr/cgmgr_linux.go:138-139 | an empty file or `max`, with any trailing newlines, passes every minimum |
| `Cgmgr.NumericFileVerdict` | internal/config/cgmgr/cgmgr_linux.go:138-150 | a file whose text, without its trailing newlines, is any number ParseInt accepts (with a sign or leading zeros too) gets exactly VerifyMemoryIsEnough's verdict on that number, its error wrapped for the pod |
| `Cgmgr.FormattedFileVerdict` | internal/config/cgmgr/cgmgr_linux.go:138-156 | a file holding a number as `%d` writes it, with any trailing newlines, gets that verdict for that number |
| `Cgmgr.NonNumericFileRejected` | internal/config/cgmgr/cgmgr_linux.go:139-143 | any other text fails as a conversion error naming the trimmed text |

## Left out

- Monitor, IsIPv6, Protocol, HasRandomFully and Present are not modelled. Monitor does nothing. The other four report the fixed protocol, or a constant.
- The counters flag of Restore and RestoreAll is ignored by the source, so the model has no such parameter.
- `utilnet.IPFamilyOfString` is the parameter `ipFamily`. Some lemmas state what they assume of it: `Normalizer.HostPrefixEquivalent` assumes that an address followed by its prefix length is not an address, `Normalizer.QuotedTokenKept` assumes that the quoted token is not an address. `Normalizer.NormalizeIdempotent` assumes that no quoted token and no canonical token is an address. `Normalizer.NormalizeNotIdempotent` assumes that no token is an address.
- Go's map iteration order in SaveInto is the parameter `order`. Every property is proved for every order.
- Chains and tables carry no separate `name` field: the store's key is the name, since the source always sets the name to the key.
- `IPTablesFake.FakeIPTables.EnsureRule`: `%q` is modelled on ASCII text only. The method requires every argument that contains a space to be ASCII, and does not model Unicode escapes.
- `Normalizer.NormalizeRule`: in the source, a rule that is empty or only white space, or one that leaves nothing after a separator (for example a trailing `=` in `--to-destination=`), indexes an empty string and panics (fake_iptables.go:194 trims the rule, and 203 reads its first character). The model returns the `IndexOutOfRange` error instead.
- `SaveRestore.ChainLine`: the FlushChain error inside a `:` line cannot happen, because the chain has just been ensured. The model has no such error branch.
- `RoundTrip.SaveThenRestore`: proved for rules that normalise to themselves, have no newline, and are distinct; for chain names with no space or newline; and for a target store with no chains in that table. A table with no chains is not created by the replay, because the source creates a table only when it declares a chain. A rule stored by EnsureRule need not normalise to itself, because normalisation is not idempotent in general. `Normalizer.NormalizeNotIdempotent` proves this for every rule shaped like `x \t"a b"c d`. That rule normalises to `x "a b"c d`: the first pass splits at spaces and trims the tab off `\t"a`. The result then normalises to `x "a b"  d`: the second pass reads `"a b"` as one quoted token, skips the `c` after it, and emits an empty token. `Normalizer.NormalizeIdempotent` proves the first part of the precondition, normalising to itself, for every rule EnsureRule stores from well-formed tokens, provided no quoted or canonical token is an address.
- Strings are sequences of characters; the source works on bytes. The delimiters it looks for are all ASCII.
- Cgroup file I/O is a parameter, `Cgmgr.MemoryFile`: the file's contents, a missing file, or an unreadable file. The warning logged for a missing file is not modelled, and neither is the joined file path.
- MoveProcessToContainerCgroup, createSandboxCgroup and removeSandboxCgroup only act on the file system and libcontainer. They are not modelled.
- NewSystemdManager and the CgroupfsManager methods live in other files and are not part of this model. The systemd manager is an opaque value; the cgroupfs manager is its memory-file location plus whether it keeps the v1 maps.
- `node.CgroupIsV2` is the parameter `cgroupIsV2`.
- Only the memory-limit error's message text is written out (`Cgmgr.MemoryMessage`). The other errors are datatype values that carry the data their messages show.
- `Cgmgr.ParseInt64Accepts` characterises when ParseInt succeeds. The kind of a failure (syntax or range) follows strconv's loop, but no lemma states it.
