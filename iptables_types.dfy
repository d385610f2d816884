/** The vocabulary of the in-memory rule store: its state, its errors and its
    fixed tables. */
module IPTablesTypes {

  /** Chain name to ordered rule list, for one table. */
  type Chains = map<string, seq<string>>

  /** Table name to its chains: the whole state of the store. */
  type Tables = map<string, Chains>

  datatype Option<T> = None | Some(value: T)

  /** The errors the store reports, one per distinct failure of the source. */
  datatype Error =
    | TableNotFound(table: string)               // "table %s does not exist"
    | ChainNotFound(table: string, chain: string)  // "chain %s/%s does not exist"
    | MismatchedQuotes                           // "invalid rule syntax: mismatched quotes"
    | IndexOutOfRange                            // the normaliser indexes an empty remainder (a Go panic)
    | UnknownPosition(position: string)          // "unknown position argument %q"
    | InvalidRule(line: string)                  // "invalid iptables rule '%s'"

  datatype Result<T> = Ok(value: T) | Err(error: Error)

  /** What the address classifier says of a token. */
  datatype IPFamily = IPv4 | IPv6 | NotIP

  /** Whether a restore first deletes every chain it redefines. */
  datatype FlushFlag = FlushTables | NoFlushTables

  /** Rule positions are strings, as in the source: any other value is invalid. */
  const Prepend := "-I"
  const Append := "-A"

  const FilterTable := "filter"
  const NatTable := "nat"
  const MangleTable := "mangle"

  /** A new store holds the empty filter and nat tables. */
  const InitialTables: Tables := map[FilterTable := map[], NatTable := map[]]

  /** The chains each table always has; a restore does not flush them. */
  const BuiltinChains: map<string, set<string>> := map[
    FilterTable := {"INPUT", "FORWARD", "OUTPUT"},
    NatTable := {"PREROUTING", "INPUT", "OUTPUT", "POSTROUTING"},
    MangleTable := {"PREROUTING", "INPUT", "FORWARD", "OUTPUT", "POSTROUTING"}
  ]
}
