/** The registry of conversion rules by name. `equal` has a rule of its own but is not
    registered, so it cannot be requested by name. */
module Conversions {
  import LessConversion
  import LessOrEqualConversion
  import MoreConversion
  import MoreOrEqualConversion
  import TopConversion

  datatype Option<T> = None | Some(value: T)

  /** The registered rules. */
  datatype Method = Less | LessOrEqual | More | MoreOrEqual | Top

  /** The names under which the rules are registered. */
  const Registered: set<string> := {"less", "lessOrEqual", "more", "moreOrEqual", "top"}

  /** The registry key of a rule. */
  function Name(m: Method): (name: string)
    ensures name in Registered
  {
    match m
    case Less => "less"
    case LessOrEqual => "lessOrEqual"
    case More => "more"
    case MoreOrEqual => "moreOrEqual"
    case Top => "top"
  }

  /** Looks a name up in the registry. */
  function Lookup(name: string): (r: Option<Method>)
    ensures r.Some? <==> name in Registered
    ensures r.Some? ==> Name(r.value) == name
  {
    if name == "less" then Some(Less)
    else if name == "lessOrEqual" then Some(LessOrEqual)
    else if name == "more" then Some(More)
    else if name == "moreOrEqual" then Some(MoreOrEqual)
    else if name == "top" then Some(Top)
    else None
  }

  /** Every rule is found again under its own name. */
  lemma LookupName(m: Method)
    ensures Lookup(Name(m)) == Some(m)
  {
  }

  /** `equal` is not a registered name. */
  lemma EqualNotRegistered()
    ensures Lookup("equal") == None
  {
  }

  /** Closed form of one cell of a rule's output: whether the rule covers cell `i`. */
  ghost predicate Covers(m: Method, row: seq<real>, cutoffValue: real, i: int)
    requires 0 <= i < |row|
  {
    match m
    case Less => row[i] < cutoffValue
    case LessOrEqual => row[i] <= cutoffValue
    case More => row[i] > cutoffValue
    case MoreOrEqual => row[i] >= cutoffValue
    case Top => (1 + TopConversion.CountGreater(row, row[i])) as real <= cutoffValue
  }

  /** `conversions[name]`: the conversion function registered for a rule. Every one of them
      returns a row of flags as long as the row of ratings it is given. */
  function Registry(m: Method): (convert: (seq<real>, real) -> seq<bool>)
    ensures forall row, cutoffValue :: |convert(row, cutoffValue)| == |row|
  {
    match m
    case Less => LessConversion.Less
    case LessOrEqual => LessOrEqualConversion.LessOrEqual
    case More => MoreConversion.More
    case MoreOrEqual => MoreOrEqualConversion.MoreOrEqual
    case Top => TopConversion.Top
  }

  /** Each registered function decides every cell by its rule's closed form: from that
      cell's rating, the cutoff and (for `top`) the other ratings of the same row only. */
  lemma RegistryCovers(m: Method, row: seq<real>, cutoffValue: real)
    ensures forall i :: 0 <= i < |row| ==> Registry(m)(row, cutoffValue)[i] == Covers(m, row, cutoffValue, i)
  {
  }
}
