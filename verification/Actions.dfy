// What a list says about a domain (action.go) and how widely it says it (radix.go).
module Actions {
  import opened Bytes

  datatype Action = Blackhole | Remap | Pass | NXDomain
  datatype MatchMode = MatchNone | MatchExact | MatchPrefix
  datatype Entry = Entry(action: Action, mode: MatchMode)

  /** The zero value of Action, which a node without an entry carries. */
  const ZERO := Blackhole
}
