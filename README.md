# Soft delete for MikroORM, modelled in Dafny

The library turns hard deletes into soft deletes in MikroORM.

- You mark an entity class with `@SoftDeletable(...)` and name a marker field (such as `deletedAt` or `isDeleted`), a zero-argument `value` producer and an optional `valueInitial`, the marker's value for a row that is not deleted.
- The decorator stores this configuration as metadata of the decorated class. It also installs a default filter named `soft-deletable-filter` with the condition `{ [field]: valueInitial ?? null }`.
- During every flush, a handler walks the unit of work's change sets. Each DELETE change set is turned into an UPDATE when its entity's class, or the nearest ancestor class, has this metadata. The UPDATE writes a freshly produced value into the marker, in both the entity and the payload.

The repository has two versions of each piece, and both are modelled:

| piece | current version | older version |
|---|---|---|
| decorator | `src/decorator.ts` | `src/soft-deletable.decorator.ts` |
| handler | `src/handler.ts` | `src/soft-deletable-handler.subscriber.ts` |

How each piece is modelled:

- **`common.dfy`, module `Common`**: the values a marker can hold, JavaScript truthiness, the `?? null` baseline rule, producer identities, entity classes with their prototype chains, the configuration record and the filter name (`src/common.ts`).
- **`filters.dfy`, module `Filters`**: the filter both decorators install, and which rows it lets through.
- **`registry.dfy`, module `Registry`**: the global state both decorators write and both handlers read.
  - The class `Registry` holds the `SOFT_DELETABLE` metadata per class and the engine's table of named filters per class.
  - `Resolve` is the lookup along the prototype chain that `Reflect.getMetadata` performs.
- **`unit_of_work.dfy`, module `UnitOfWork`**: the change sets. A `ChangeSet` is a class whose `kind`, `entity` and `payload` the handlers update in place. `Change` is its value.
- **`handler.dfy`, module `Handler`**: the current handler.
  - The function `Flush` is one pass over the list, as values, with its properties proved.
  - The method `OnFlush` is the in-place `forEach`, proved to leave the change sets as `Flush` says.
- **`legacy_handler.dfy`, module `LegacyHandler`**: the older subscriber. It filters out the DELETE change sets first, then converts those. It is proved to leave the list exactly as the current handler does, with the same producer calls.
- **`decorator.dfy`, module `Decorator`**: the current decorator.
  - `Normalize` turns the two call forms into one record, or into `Invalid arguments`.
  - `Decorate` is the decorator it returns.
  - `SoftDeletable` is the whole application to a class.
- **`legacy_decorator.dfy`, module `LegacyDecorator`**: the older decorator, proved interchangeable with the current one as far as the handlers and the filter can tell.

How the producer is modelled: a `value` function is a `Producer` identity, and what it returns is an oracle `produce: (Producer, nat) -> Value` indexed by a running call number. The handlers take the number of calls made so far and return the new count, two calls per converted change set. The two writes of one conversion therefore come from two separate calls.

Two differences between the source's comments and its code are worth knowing:

- The doc comment at `src/soft-deletable.decorator.ts:15` calls `fieldValue` the value that identifies *deleted* entities. The code at line 32 uses it as the filter's equality condition, which is the *not-deleted* baseline. The model follows the code: `LegacyDecorator.SoftDeletable` installs `SoftDeleteFilter(field, fieldValue)`.
- The older subscriber imports its key from `src/soft-deletable.symbol.ts`, which is not part of this model. The current handler imports its key from `src/common.ts`. Both versions take the `Registry` as a parameter, so the model lets them share one store or use separate ones.

## Model

| member | source | states |
|---|---|---|
| Common.Baseline | src/decorator.ts:72 | the not-deleted baseline `valueInitial ?? null` is `valueInitial` unless that is `undefined` or `null`, in which case it is `null`; it is never `undefined` |
| Common.BaselineVersusOr | src/decorator.ts:72 | `??` and `\|\|` disagree exactly on the falsy non-nullish values; with `valueInitial = false` the baseline stays `false` where `\|\|` would give `null` |
| Filters.SoftDeleteFilter | src/decorator.ts:70-74 | the installed filter has the fixed name `soft-deletable-filter`, is on by default, and compares `field` with the baseline |
| Filters.VisibleIffBaseline | src/decorator.ts:70-74 | with default filters on, a row is visible exactly when its marker equals the baseline; with filters off every row is visible |
| Filters.FalseBaseline | __tests__/soft-delete.spec.ts:106-125 | with `valueInitial = false`, `false` rows are visible while `true` rows and rows with an unset marker are hidden |
| Filters.StampedRowHidden | __tests__/soft-delete.spec.ts:74-85 | without `valueInitial`, a row whose `deletedAt` holds a date is hidden by default and visible with filters off |
| Filters.Updated | src/handler.ts:36-38 | writing an UPDATE payload keeps the row's other columns and overwrites exactly the payload's columns |
| Registry.Resolve | src/handler.ts:31-34 | lookup returns the class's own metadata when it has some, and otherwise only metadata that is stored for some class |
| Registry.ResolveNearest | src/handler.ts:31-34 | lookup finds nothing exactly when no class of the prototype chain has metadata; otherwise it finds the metadata of the first chain class that has some |
| Registry.ChainSuffix | src/handler.ts:31 | the prototype chain of the `k`-th class of a chain is the rest of that chain |
| Registry.DefinedResolves | src/decorator.ts:67-68 | after storing `m` under `target`, lookup yields `m` for `target` and for every subclass that has no metadata of its own between it and `target` |
| Registry.ResolveSwap | src/soft-deletable-handler.subscriber.ts:30-31 | storing one record or another under the same class changes lookups only where they find that stored record |
| Registry.Registry.HasMetadata | src/handler.ts:31 | `hasMetadata` holds exactly when some class of the entity's chain has metadata |
| Registry.Registry.GetMetadata | src/handler.ts:33-34 | `getMetadata` is defined exactly when `hasMetadata` holds and returns a stored record |
| Registry.Registry.DefineMetadata | src/decorator.ts:68 | the class's entry is replaced by the new record; nothing else changes |
| Registry.Registry.AddFilter | src/decorator.ts:70-74 | the filter of that name on that class is replaced; the metadata is untouched |
| Handler.Target | src/handler.ts:29-34 | a change is converted exactly when it is a DELETE and its class's chain has metadata, and then with the nearest record |
| Handler.Intercept | src/handler.ts:29-38 | a change the handler does not convert is returned unchanged; a converted one becomes an UPDATE of the same class |
| Handler.Convert | src/handler.ts:36-38 | the change set becomes an UPDATE, with the marker set in entity and payload by two consecutive producer calls |
| Handler.InterceptEffect | src/handler.ts:36-47 | a converted change differs only in its kind and its marker key; both marker values come from separate calls, and no other key is changed, added or removed |
| Handler.Conversions | src/handler.ts:29-38 | the number of converted changes is at most the length of the list |
| Handler.Flush | src/handler.ts:23-50 | one pass keeps the list's length and each change's class at each position |
| Handler.FlushAt | src/handler.ts:23-38 | the `k`-th change after a pass is the `k`-th change intercepted, with call numbers after those of the conversions before it |
| Handler.FlushAtOffset | src/handler.ts:23-38 | `FlushAt` with the call number named by the caller |
| Handler.FlushSame | src/handler.ts:23-38 | equal changes with equally many conversions before them come out of a pass equal |
| Handler.FlushEffect | src/handler.ts:29-38 | a non-DELETE change, or one whose class has no metadata, is left as it was; a DELETE with metadata ends as an UPDATE; a change is DELETE afterwards exactly when it was a DELETE without metadata |
| Handler.NothingLeftToConvert | src/handler.ts:29-38 | after a pass the handler would convert nothing |
| Handler.SecondPassChangesNothing | src/handler.ts:29-38 | a second pass leaves the list as the first left it and calls no producer |
| Handler.Settled | src/handler.ts:29-38 | each change after a pass is beyond conversion and survives a second pass unchanged |
| Handler.ConversionsMonotone | src/handler.ts:23-38 | a longer prefix of the list never has fewer conversions |
| Handler.CallsAreSeparate | src/handler.ts:37-38 | the producer calls of two different converted changes never coincide |
| Handler.InheritedMetadataConverts | __tests__/soft-delete.spec.ts:23-38 | a DELETE of a subclass of a registered base class is converted with the base's marker and producer when no class between them has metadata |
| Handler.ConvertedRowHidden | src/handler.ts:36-38 | once a converted change is written, the row fails its type's default filter whenever the produced value differs from the baseline, and is still found with filters off |
| Handler.HandleItem | src/handler.ts:26-49 | the callback turns the change set into its interception and advances the call count by two exactly when it converts |
| Handler.Schedule | src/handler.ts:23-50 | a pass laid out change by change: each change's first call number, and what the change becomes |
| Handler.OnFlush | src/handler.ts:22-51 | the change sets end exactly as `Flush` describes: same length and order, only the conversions above applied; the returned count is two calls per conversion |
| LegacyHandler.DeletePositions | src/soft-deletable-handler.subscriber.ts:22-24 | the positions the filter keeps hold DELETE changes and lie within the list |
| LegacyHandler.DeletePositionsIncreasing | src/soft-deletable-handler.subscriber.ts:22-24 | the filter keeps the list's order |
| LegacyHandler.DeletePositionsComplete | src/soft-deletable-handler.subscriber.ts:22-24 | the filter keeps every DELETE |
| LegacyHandler.Deletions | src/soft-deletable-handler.subscriber.ts:22-24 | the filtered list holds only DELETE changes, one per kept position |
| LegacyHandler.DeletionsAt | src/soft-deletable-handler.subscriber.ts:22-24 | the `i`-th kept change is the change at the `i`-th kept position |
| LegacyHandler.ConversionsOfDeletions | src/soft-deletable-handler.subscriber.ts:22-36 | the filter drops no change that would be converted |
| LegacyHandler.DeletionsPrefix | src/soft-deletable-handler.subscriber.ts:22-24 | what the filter keeps before its `i`-th change is what it keeps of the list before that change |
| LegacyHandler.FilterFirst | src/soft-deletable-handler.subscriber.ts:22-36 | converting the filtered list gives each DELETE the same result and producer calls as one pass over the whole list |
| LegacyHandler.DroppedUnchanged | src/soft-deletable-handler.subscriber.ts:22-24 | a change the filter drops is one a pass leaves unchanged |
| LegacyHandler.DeletePositionsStep | src/soft-deletable-handler.subscriber.ts:22-24 | reading one more change adds its position exactly when it is a DELETE |
| LegacyHandler.DistinctPicks | src/soft-deletable-handler.subscriber.ts:22-24 | change sets picked in increasing order from a list without repeats have no repeats |
| LegacyHandler.DeletionChangeSets | src/soft-deletable-handler.subscriber.ts:22-24 | the new list holds the DELETE change sets themselves, in order, and reads as `Deletions` of the old list |
| LegacyHandler.HandleDeletion | src/soft-deletable-handler.subscriber.ts:29-46 | for a DELETE change set, the callback does what the current handler's callback does |
| LegacyHandler.ConvertDeletions | src/soft-deletable-handler.subscriber.ts:26-48 | the pass over the filtered copy leaves it as `Flush` describes |
| LegacyHandler.Reassembled | src/soft-deletable-handler.subscriber.ts:22-48 | the dropped change sets as they were, plus the converted filtered ones, make exactly one pass of the current handler over the whole list |
| LegacyHandler.OnFlush | src/soft-deletable-handler.subscriber.ts:21-49 | the older subscriber leaves the change sets, and makes producer calls, exactly as the current handler's `Flush` does |
| Decorator.Normalize | src/decorator.ts:54-65 | the object form is used as given; a null or undefined first argument is `Invalid arguments`; the positional form is accepted exactly when `field` is non-empty and `value` is given, and then copies its four arguments into the record |
| Decorator.FormsAgree | src/decorator.ts:29-64 | a record with a non-empty field normalises the same in both forms; with an empty field the positional form is rejected; every accepted positional call spells out the record it yields |
| Decorator.Decorate | src/decorator.ts:67-75 | the record is stored under the decorated class, not under the class the `type` thunk names, and replaces any earlier entry; the default filter is registered on that class |
| Decorator.SoftDeletable | src/decorator.ts:46-76 | a rejected call registers nothing; an accepted one stores its record and filter as `Decorate` does |
| Decorator.DecoratedDeletionConverted | src/decorator.ts:67-68 | after decoration, a DELETE of the class or of an unregistered subclass becomes an UPDATE with the marker written from the configured producer |
| LegacyDecorator.SoftDeletable | src/soft-deletable.decorator.ts:19-35 | stores exactly `{ field, value }` under the decorated class and installs the filter `{ [field]: fieldValue ?? null }`; it accepts every call and ignores the `type` thunk |
| LegacyDecorator.InterceptAgrees | src/soft-deletable.decorator.ts:27-28 | the handler converts each change the same whichever decorator stored the metadata |
| LegacyDecorator.FlushAgrees | src/soft-deletable.decorator.ts:27-28 | a whole pass, and its producer calls, are the same whichever decorator stored the metadata |
| LegacyDecorator.SameRegistration | src/soft-deletable.decorator.ts:19-35 | with the same positional arguments, the current decorator accepts exactly when the field is non-empty, and then installs the same filter and a record with the same `field` and `value` |

## Left out

- The MikroORM engine is not modelled: change-set computation, SQL, schema creation and subscriber registration are all outside the model. This includes `SoftDeleteHandler.register` (`src/handler.ts:18-20`) and the `@Subscriber()` registration of the older subscriber. Where the engine matters, it appears only as the row and filter predicates in `Filters`.
- How the engine applies filters to subclasses is not modelled. A filter is recorded only on the class it was registered on.
- `reflect-metadata` is replaced by the explicit map in `Registry` plus the prototype walk `Resolve`.
- Class identity is structural: a class is its name and its chain of parents. Two distinct classes with the same name and parents are not told apart.
- `onFlush` is `async`, but its body has no `await`, so it is modelled as a synchronous method.
- `new Date()` and the clock: producers are an oracle indexed by call number. A producer that throws is not modelled.
- `uow.recomputeSingleChangeSet` is deliberately not called by the source. Its absence shows up only in the contracts, which say that nothing beyond `type` and the marker changes.
- The entity object is folded into its change set. The engine keeps one change set per entity, so no other change set reaches it. Aliasing between entities of different change sets is therefore not modelled.
- `ChangeSetType` is cut down to the three kinds the handlers tell apart.
- Decorator.Normalize: property keys are strings only. A numeric key `0`, which JavaScript treats as falsy and rejects, and symbol keys are not modelled.
- Decorator.Normalize: a first argument that is neither a function, an object nor nullish is not modelled. Neither is an object-form config with no `field`, which the source accepts unchecked.
- JavaScript numbers are modelled as unbounded integers. Floating point and `NaN` are not modelled.
- `src/soft-deletable-metadata.interface.ts` has no behaviour of its own. Its record `{ field, value }` is `Registry.Metadata.FieldAndValue`.
- `src/soft-deletable.symbol.ts` and `src/soft-deletable-filter.constant.ts` are not part of this model. The older files use the same filter name as `src/common.ts`, and their own registry key is modelled as a `Registry` object passed in.
