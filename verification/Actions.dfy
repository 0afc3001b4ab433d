/** internal/policy/types.go and selectAction of internal/policy/domains.go. */
module Actions {
  datatype Action = Unknown | Direct | Proxy

  /** The order Unknown < Direct < Proxy. */
  function Rank(a: Action): nat
  {
    match a
    case Unknown => 0
    case Direct => 1
    case Proxy => 2
  }

  function Select(current: Action, candidate: Action): (r: Action)
    ensures Rank(r) == if Rank(current) < Rank(candidate) then Rank(candidate) else Rank(current)
  {
    if current == Proxy || candidate == Proxy then Proxy
    else if candidate != Unknown then candidate
    else current
  }
}
