/**
 * The older `SoftDeletable` decorator (src/soft-deletable.decorator.ts): positional only, with
 * no validation, it stores just `{ field, value }` as the decorated class's metadata and
 * installs the same default filter, its last argument `fieldValue` serving as the baseline.
 */
module LegacyDecorator {
  import opened Wrappers
  import opened Common
  import opened Filters
  import opened Registry
  import opened UnitOfWork
  import opened Handler
  import Decorator

  /**
   * `@SoftDeletable(type, field, value, fieldValue)` on class `target`. The `type` thunk is not
   * used and no argument is checked, so the call cannot fail; `fieldValue` is not stored.
   */
  method SoftDeletable(registry: Registry, typeRef: Class, field: string, value: Producer, fieldValue: Value,
                       target: Class)
    modifies registry
    ensures registry.metadata == old(registry.metadata)[target := FieldAndValue(field, value)]
    ensures registry.filters ==
              old(registry.filters)[(target, SOFT_DELETABLE_FILTER) := SoftDeleteFilter(field, fieldValue)]
  {
    registry.DefineMetadata(target, FieldAndValue(field, value));
    registry.AddFilter(target, SoftDeleteFilter(field, fieldValue));
  }

  /**
   * The handler cannot tell which decorator stored the metadata: it reads only `field` and
   * `value`, so each change is intercepted the same under either record.
   */
  lemma InterceptAgrees(metadata: map<Class, Metadata>, config: InferableConfig, target: Class,
                        c: Change, produce: (Producer, nat) -> Value, t: nat)
    ensures Intercept(c, metadata[target := Inferable(config)], produce, t)
              == Intercept(c, metadata[target := FieldAndValue(config.field, config.value)], produce, t)
    ensures Converts(c, metadata[target := Inferable(config)])
              == Converts(c, metadata[target := FieldAndValue(config.field, config.value)])
  {
    ResolveSwap(metadata, target, Inferable(config), FieldAndValue(config.field, config.value), c.cls);
  }

  /**
   * A whole flush agrees too: the list a pass leaves, and the producer calls it makes, do not
   * depend on which of the two decorators registered the class.
   */
  lemma {:induction false} FlushAgrees(cs: seq<Change>, metadata: map<Class, Metadata>, config: InferableConfig,
                                       target: Class, produce: (Producer, nat) -> Value, t: nat)
    ensures var older := metadata[target := FieldAndValue(config.field, config.value)];
            var newer := metadata[target := Inferable(config)];
            && Flush(cs, newer, produce, t) == Flush(cs, older, produce, t)
            && Conversions(cs, newer) == Conversions(cs, older)
  {
    if cs != [] {
      FlushAgrees(cs[..|cs| - 1], metadata, config, target, produce, t);
      InterceptAgrees(metadata, config, target, cs[|cs| - 1], produce, t + 2 * Conversions(cs[..|cs| - 1], metadata[target := Inferable(config)]));
    }
  }

  /**
   * Called with the same positional arguments, the current decorator accepts exactly when the
   * field is non-empty, and then installs the same filter and stores a record with the same
   * `field` and `value`; the older one accepts every call.
   */
  lemma SameRegistration(typeRef: Class, field: string, value: Producer, fieldValue: Value)
    ensures var r := Decorator.Normalize(Decorator.Positional(typeRef, Some(field), Some(value), fieldValue));
            && (r.Ok? <==> field != "")
            && (r.Ok? ==> SoftDeleteFilter(r.value.field, r.value.valueInitial) == SoftDeleteFilter(field, fieldValue))
            && (r.Ok? ==> Inferable(r.value).Field() == FieldAndValue(field, value).Field())
            && (r.Ok? ==> Inferable(r.value).Value() == FieldAndValue(field, value).Value())
  {
  }
}
