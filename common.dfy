/**
 * Shared vocabulary of the soft-delete layer: the values a marker field can hold, the
 * deleted-value producers, entity classes with their prototype chains, the `??` baseline
 * rule and the one filter name every soft-deletable type shares (src/common.ts).
 */
module Common {

  /** Name of the default filter installed for every soft-deletable type. */
  const SOFT_DELETABLE_FILTER: string := "soft-deletable-filter"

  /** A JavaScript value as it can sit in an entity property, a payload entry or a filter condition. */
  datatype Value =
    | Undefined
    | Null
    | Bool(b: bool)
    | Num(n: int)
    | Str(s: string)
    | Stamp(time: int)  // a `Date` object

  /** JavaScript truthiness of a value (a `Date` object is always truthy). */
  predicate Truthy(v: Value)
  {
    match v
    case Undefined => false
    case Null => false
    case Bool(b) => b
    case Num(n) => n != 0
    case Str(s) => s != ""
    case Stamp(_) => true
  }

  /** `undefined` and `null`, the two values `??` replaces. */
  predicate Nullish(v: Value)
  {
    v == Undefined || v == Null
  }

  /**
   * The not-deleted baseline `valueInitial ?? null`: an absent or null `valueInitial` means
   * `null`, every other value (`false`, `0` and `""` included) is kept.
   */
  function Baseline(valueInitial: Value): (b: Value)
    ensures b == valueInitial || b == Null
    ensures !Nullish(valueInitial) ==> b == valueInitial
    ensures b != Undefined
  {
    if Nullish(valueInitial) then Null else valueInitial
  }

  /** What `valueInitial || null` would give; the source does not use it. */
  function OrNull(valueInitial: Value): Value
  {
    if Truthy(valueInitial) then valueInitial else Null
  }

  /**
   * `??` and `||` part ways exactly on the falsy values that are not nullish: with
   * `valueInitial = false` the baseline stays `false`.
   */
  lemma BaselineVersusOr(v: Value)
    ensures Baseline(v) != OrNull(v) <==> !Truthy(v) && !Nullish(v)
    ensures Baseline(Bool(false)) == Bool(false) && OrNull(Bool(false)) == Null
  {
    match v
    case Undefined =>
    case Null =>
    case Bool(b) =>
    case Num(n) =>
    case Str(s) =>
    case Stamp(t) =>
  }

  /**
   * Identity of a zero-argument `value` function given to the decorator. What it returns on
   * each call is decided by an oracle `(Producer, nat) -> Value`, the `nat` being the index of
   * the call, so that two calls may return different values (as `() => new Date()` does).
   */
  datatype Producer = Producer(id: nat)

  /** An entity class together with its chain of base classes. */
  datatype Class =
    | Base(name: string)
    | Derived(name: string, parent: Class)
  {
    /** The prototype chain a metadata lookup walks: this class first, then its ancestors. */
    function Chain(): (s: seq<Class>)
      ensures |s| >= 1 && s[0] == this
    {
      match this
      case Base(_) => [this]
      case Derived(_, p) => [this] + p.Chain()
    }
  }

  /**
   * The configuration record: the marker `field`, the `value` producer written on deletion,
   * the `valueInitial` baseline (`Undefined` when omitted) and, for the current decorator, the
   * `type` thunk's class, which nothing reads.
   */
  datatype InferableConfig = InferableConfig(
    typeRef: Class,
    field: string,
    value: Producer,
    valueInitial: Value)
}
