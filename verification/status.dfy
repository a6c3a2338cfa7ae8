/** The host's reconfiguration state (Enum.Status.cs). */
module LcStatus {

  import opened Wrappers

  /** Declared in this order, so the ordinals are 0, 1, 2, 3 and the default
      value of an uninitialised field is `Ready`. */
  datatype Status = Ready | AwaitingConfirmation | Cooldown | Disabled

  /** The enum's name, which is what `$"Status={ActualStatus}"` writes. */
  function Name(s: Status): string
  {
    match s
    case Ready => "Ready"
    case AwaitingConfirmation => "AwaitingConfirmation"
    case Cooldown => "Cooldown"
    case Disabled => "Disabled"
  }

  /** The inverse of `Name`: the status a `Status=` value denotes, if any. */
  function FromName(name: string): (r: Option<Status>)
    ensures r.Some? ==> Name(r.value) == name
  {
    if name == "Ready" then Some(Ready)
    else if name == "AwaitingConfirmation" then Some(AwaitingConfirmation)
    else if name == "Cooldown" then Some(Cooldown)
    else if name == "Disabled" then Some(Disabled)
    else None
  }

  /** The enum's underlying integer. */
  function Ordinal(s: Status): nat
  {
    match s
    case Ready => 0
    case AwaitingConfirmation => 1
    case Cooldown => 2
    case Disabled => 3
  }

  /** The status with a given underlying integer. */
  function FromOrdinal(n: nat): (s: Status)
    requires n < 4
    ensures Ordinal(s) == n
  {
    if n == 0 then Ready
    else if n == 1 then AwaitingConfirmation
    else if n == 2 then Cooldown
    else Disabled
  }

  /** Every status has a name that reads back as that status, so the names are
      pairwise distinct and `Status=<name>` identifies the state. */
  lemma NameRoundTrip(s: Status)
    ensures FromName(Name(s)) == Some(s)
  {}

  lemma NamesDistinct(a: Status, b: Status)
    ensures Name(a) == Name(b) <==> a == b
  {
    NameRoundTrip(a);
    NameRoundTrip(b);
  }

  /** There are exactly four statuses, numbered 0 to 3 in declaration order,
      and the zero value is `Ready`. */
  lemma OrdinalsAreDense(s: Status)
    ensures Ordinal(s) < 4 && FromOrdinal(Ordinal(s)) == s
    ensures FromOrdinal(0) == Ready
  {}
}
