/**
 * The current `SoftDeletable` decorator factory (src/decorator.ts): its two call forms are
 * normalised into one configuration record, or rejected with `Invalid arguments` before any
 * decorator exists; the decorator it returns stores the record as the decorated class's
 * metadata and installs the default soft-delete filter on that class.
 */
module Decorator {
  import opened Wrappers
  import opened Common
  import opened Filters
  import opened Registry
  import opened UnitOfWork
  import opened Handler

  /** The one error the factory throws. */
  datatype Error = InvalidArguments

  /**
   * The arguments `SoftDeletable` can be called with. `ObjectForm` is a configuration object;
   * `Positional` is a `type` thunk followed by `field`, `value` and `valueInitial`, a missing
   * argument being `None` (`valueInitial` is `Undefined` when omitted); `Absent` is a first
   * argument that is `undefined` or `null`.
   */
  datatype Args =
    | ObjectForm(config: InferableConfig)
    | Positional(typeRef: Class, field: Option<string>, value: Option<Producer>, valueInitial: Value)
    | Absent

  /** JavaScript truthiness of an optional property key: absent and `""` are falsy. */
  predicate KeyGiven(field: Option<string>)
  {
    field.Some? && Truthy(Str(field.value))
  }

  /**
   * The factory's normalisation: the object form is taken as it is, without any check; the
   * positional form is accepted exactly when `field` is truthy and `value` is given, and its
   * four arguments become the record's four fields; anything else is `Invalid arguments`.
   */
  function Normalize(args: Args): (r: Result<InferableConfig, Error>)
    ensures args.ObjectForm? ==> r == Ok(args.config)
    ensures args.Absent? ==> r == Err(InvalidArguments)
    ensures args.Positional? ==>
              (r.Ok? <==> args.field.Some? && args.field.value != "" && args.value.Some?)
    ensures args.Positional? && r.Ok? ==>
              && r.value.typeRef == args.typeRef
              && r.value.field == args.field.value
              && r.value.value == args.value.value
              && r.value.valueInitial == args.valueInitial
    ensures r.Err? ==> r.error == InvalidArguments
  {
    match args
    case ObjectForm(config) => Ok(config)
    case Positional(typeRef, field, value, valueInitial) =>
      if KeyGiven(field) && value.Some? then
        Ok(InferableConfig(typeRef, field.value, value.value, valueInitial))
      else
        Err(InvalidArguments)
    case Absent => Err(InvalidArguments)
  }

  /** The positional call that spells out a configuration record. */
  function AsPositional(config: InferableConfig): Args
  {
    Positional(config.typeRef, Some(config.field), Some(config.value), config.valueInitial)
  }

  /**
   * Both call forms describe the same record: spelling a record with a non-empty field
   * positionally normalises to that record, as the object form does, and every accepted
   * positional call is the spelling of the record it normalises to.
   */
  lemma FormsAgree(config: InferableConfig, args: Args)
    ensures config.field != "" ==>
              Normalize(AsPositional(config)) == Ok(config) == Normalize(ObjectForm(config))
    ensures config.field == "" ==> Normalize(AsPositional(config)) == Err(InvalidArguments)
    ensures args.Positional? && Normalize(args).Ok? ==> AsPositional(Normalize(args).value) == args
  {
  }

  /**
   * The decorator `SoftDeletable` returns, applied to class `target`: the record is stored
   * under `target` (not under the class its `type` thunk names), replacing any earlier entry,
   * and the default filter `{ [field]: valueInitial ?? null }` is registered on `target`.
   */
  method Decorate(registry: Registry, config: InferableConfig, target: Class)
    modifies registry
    ensures registry.metadata == old(registry.metadata)[target := Inferable(config)]
    ensures registry.filters ==
              old(registry.filters)[(target, SOFT_DELETABLE_FILTER) := SoftDeleteFilter(config.field, config.valueInitial)]
  {
    registry.DefineMetadata(target, Inferable(config));
    registry.AddFilter(target, SoftDeleteFilter(config.field, config.valueInitial));
  }

  /**
   * `@SoftDeletable(...)` on class `target`: a rejected call throws before any decorator is
   * returned, so nothing is registered; an accepted one registers as `Decorate` does.
   */
  method SoftDeletable(registry: Registry, args: Args, target: Class) returns (r: Result<InferableConfig, Error>)
    modifies registry
    ensures r == Normalize(args)
    ensures r.Err? ==> registry.metadata == old(registry.metadata) && registry.filters == old(registry.filters)
    ensures r.Ok? ==> registry.metadata == old(registry.metadata)[target := Inferable(r.value)]
    ensures r.Ok? ==>
              registry.filters ==
                old(registry.filters)[(target, SOFT_DELETABLE_FILTER) := SoftDeleteFilter(r.value.field, r.value.valueInitial)]
  {
    r := Normalize(args);
    if r.Ok? {
      Decorate(registry, r.value, target);
    }
  }

  /**
   * End to end: once `@SoftDeletable` has stored `config` on `target`, the flush handler turns
   * a DELETE of `target`, or of a subclass with no metadata of its own between it and
   * `target`, into an UPDATE that writes `config.value`'s outputs into `config.field`.
   */
  lemma DecoratedDeletionConverted(metadata: map<Class, Metadata>, config: InferableConfig, target: Class,
                                   c: Change, produce: (Producer, nat) -> Value, t: nat, k: nat)
    requires c.kind == Delete
    requires k < |c.cls.Chain()| && c.cls.Chain()[k] == target
    requires forall j :: 0 <= j < k ==> c.cls.Chain()[j] !in metadata
    ensures var r := Intercept(c, metadata[target := Inferable(config)], produce, t);
            && r.kind == Update && r.cls == c.cls
            && r.entity == c.entity[config.field := produce(config.value, t)]
            && r.payload == c.payload[config.field := produce(config.value, t + 1)]
  {
    DefinedResolves(metadata, target, Inferable(config), c.cls, k);
  }
}
