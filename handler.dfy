/**
 * The flush handler of the current version (`SoftDeleteHandler.onFlush`): every DELETE change
 * set whose entity class, or nearest ancestor class, carries soft-delete metadata becomes an
 * UPDATE that writes a freshly produced value into the marker field of the entity and of the
 * payload; nothing else in the list changes.
 *
 * The first half states what one pass does to the list as a function on values (`Flush`) and
 * proves its properties; `OnFlush` is the in-place loop, proved to produce `Flush`.
 */
module Handler {
  import opened Wrappers
  import opened Common
  import opened Filters
  import opened Registry
  import opened UnitOfWork

  /** The metadata a change is converted with: `None` unless it is a DELETE of a class that has some. */
  function Target(c: Change, metadata: map<Class, Metadata>): (r: Option<Metadata>)
    ensures r.Some? <==> c.kind == Delete && Resolve(metadata, c.cls).Some?
    ensures r.Some? ==> r == Resolve(metadata, c.cls)
  {
    if c.kind == Delete then Resolve(metadata, c.cls) else None
  }

  /**
   * What the handler does to one change, the two `value()` calls being calls `t` and `t + 1`
   * of the oracle `produce`.
   */
  function Intercept(c: Change, metadata: map<Class, Metadata>, produce: (Producer, nat) -> Value, t: nat)
    : (r: Change)
    ensures r.cls == c.cls
    ensures Target(c, metadata).None? ==> r == c
    ensures Target(c, metadata).Some? ==> r.kind == Update
  {
    match Target(c, metadata)
    case None => c
    case Some(m) => Converted(c, m, produce, t)
  }

  /** The UPDATE a DELETE becomes under metadata `m`: the marker set by calls `t` and `t + 1`. */
  function Converted(c: Change, m: Metadata, produce: (Producer, nat) -> Value, t: nat): Change
  {
    Change(Update, c.cls,
           c.entity[m.Field() := produce(m.Value(), t)],
           c.payload[m.Field() := produce(m.Value(), t + 1)])
  }

  /** Rewrites one change set in place: the body of the handler's callback for a match. */
  method Convert(item: ChangeSet, m: Metadata, produce: (Producer, nat) -> Value, t: nat)
    modifies item
    ensures item.View() == Converted(old(item.View()), m, produce, t)
  {
    item.kind := Update;
    item.entity := item.entity[m.Field() := produce(m.Value(), t)];
    item.payload := item.payload[m.Field() := produce(m.Value(), t + 1)];
    // No recomputation of the change set from the entity follows.
  }

  /**
   * A converted change differs from the DELETE it was in its kind and in the one marker key
   * of entity and payload, which hold the results of two separate producer calls; every other
   * key keeps its value and no key is removed.
   */
  lemma InterceptEffect(c: Change, metadata: map<Class, Metadata>, produce: (Producer, nat) -> Value, t: nat)
    requires Target(c, metadata).Some?
    ensures var m := Target(c, metadata).value;
            var r := Intercept(c, metadata, produce, t);
            && r.kind == Update && r.cls == c.cls
            && m.Field() in r.entity && r.entity[m.Field()] == produce(m.Value(), t)
            && m.Field() in r.payload && r.payload[m.Field()] == produce(m.Value(), t + 1)
            && r.entity.Keys == c.entity.Keys + {m.Field()}
            && r.payload.Keys == c.payload.Keys + {m.Field()}
            && (forall k :: k in c.entity && k != m.Field() ==> r.entity[k] == c.entity[k])
            && (forall k :: k in c.payload && k != m.Field() ==> r.payload[k] == c.payload[k])
  {
  }

  /** 1 when the handler converts `c`, else 0. */
  function Converts(c: Change, metadata: map<Class, Metadata>): nat
  {
    if Target(c, metadata).Some? then 1 else 0
  }

  /** How many changes of `cs` the handler converts. */
  function Conversions(cs: seq<Change>, metadata: map<Class, Metadata>): (n: nat)
    ensures n <= |cs|
  {
    if cs == [] then 0
    else Conversions(cs[..|cs| - 1], metadata) + Converts(cs[|cs| - 1], metadata)
  }

  /**
   * One pass of the handler over the list, front to back; the producer calls are numbered
   * from `t`, two per converted change.
   */
  function Flush(cs: seq<Change>, metadata: map<Class, Metadata>, produce: (Producer, nat) -> Value, t: nat)
    : (r: seq<Change>)
    ensures |r| == |cs|
    ensures forall k :: 0 <= k < |cs| ==> r[k].cls == cs[k].cls
  {
    if cs == [] then []
    else
      var init := cs[..|cs| - 1];
      Flush(init, metadata, produce, t)
        + [Intercept(cs[|cs| - 1], metadata, produce, t + 2 * Conversions(init, metadata))]
  }

  /** The `k`-th change after a pass is the `k`-th change intercepted, its calls numbered after those of the changes before it. */
  lemma {:induction false} FlushAt(cs: seq<Change>, metadata: map<Class, Metadata>, produce: (Producer, nat) -> Value, t: nat, k: nat)
    requires k < |cs|
    ensures Flush(cs, metadata, produce, t)[k]
              == Intercept(cs[k], metadata, produce, t + 2 * Conversions(cs[..k], metadata))
  {
    var init := cs[..|cs| - 1];
    if k < |cs| - 1 {
      FlushAt(init, metadata, produce, t, k);
      assert init[..k] == cs[..k];
    } else {
      assert cs[..k] == init;
    }
  }

  /**
   * Two changes at positions with the same number of conversions before them come out of a
   * pass the same: a pass looks at nothing else.
   */
  lemma FlushSame(a: seq<Change>, b: seq<Change>, i: nat, j: nat, metadata: map<Class, Metadata>,
                  produce: (Producer, nat) -> Value, t: nat)
    requires i < |a| && j < |b| && a[i] == b[j]
    requires Conversions(a[..i], metadata) == Conversions(b[..j], metadata)
    ensures Flush(a, metadata, produce, t)[i] == Flush(b, metadata, produce, t)[j]
  {
    var n := t + 2 * Conversions(a[..i], metadata);
    FlushAtOffset(a, metadata, produce, t, i, n);
    FlushAtOffset(b, metadata, produce, t, j, n);
  }

  /** `FlushAt` with the call number of the `k`-th change named by the caller. */
  lemma FlushAtOffset(cs: seq<Change>, metadata: map<Class, Metadata>, produce: (Producer, nat) -> Value, t: nat, k: nat, n: nat)
    requires k < |cs| && n == t + 2 * Conversions(cs[..k], metadata)
    ensures Flush(cs, metadata, produce, t)[k] == Intercept(cs[k], metadata, produce, n)
  {
    FlushAt(cs, metadata, produce, t, k);
  }

  /**
   * What a pass does to each change: a change that is not a DELETE, or whose class has no
   * metadata, is left as it was; a DELETE of a class with metadata ends as an UPDATE; nothing
   * stays a DELETE that a class's metadata covers.
   */
  lemma FlushEffect(cs: seq<Change>, metadata: map<Class, Metadata>, produce: (Producer, nat) -> Value, t: nat, k: nat)
    requires k < |cs|
    ensures cs[k].kind != Delete ==> Flush(cs, metadata, produce, t)[k] == cs[k]
    ensures Resolve(metadata, cs[k].cls).None? ==> Flush(cs, metadata, produce, t)[k] == cs[k]
    ensures cs[k].kind == Delete && Resolve(metadata, cs[k].cls).Some? ==>
              Flush(cs, metadata, produce, t)[k].kind == Update
    ensures Flush(cs, metadata, produce, t)[k].kind == Delete <==>
              cs[k].kind == Delete && Resolve(metadata, cs[k].cls).None?
  {
    FlushAt(cs, metadata, produce, t, k);
  }

  /** A pass leaves nothing to convert. */
  lemma {:induction false} NothingLeftToConvert(cs: seq<Change>, metadata: map<Class, Metadata>, produce: (Producer, nat) -> Value, t: nat)
    ensures Conversions(Flush(cs, metadata, produce, t), metadata) == 0
  {
    if cs != [] {
      var init := cs[..|cs| - 1];
      var r := Flush(cs, metadata, produce, t);
      NothingLeftToConvert(init, metadata, produce, t);
      assert r[..|r| - 1] == Flush(init, metadata, produce, t);
      FlushAt(cs, metadata, produce, t, |cs| - 1);
    }
  }

  /**
   * A second pass changes nothing and calls no producer: every registered DELETE was
   * converted by the first.
   */
  lemma SecondPassChangesNothing(cs: seq<Change>, metadata: map<Class, Metadata>, produce: (Producer, nat) -> Value, t: nat, t': nat)
    ensures Flush(Flush(cs, metadata, produce, t), metadata, produce, t') == Flush(cs, metadata, produce, t)
    ensures Conversions(Flush(cs, metadata, produce, t), metadata) == 0
  {
    var r := Flush(cs, metadata, produce, t);
    NothingLeftToConvert(cs, metadata, produce, t);
    forall k | 0 <= k < |r|
      ensures Flush(r, metadata, produce, t')[k] == r[k]
    {
      Settled(cs, metadata, produce, t, t', k);
    }
  }

  /** After a pass no change is left for the handler to convert: a second pass keeps each one. */
  lemma Settled(cs: seq<Change>, metadata: map<Class, Metadata>, produce: (Producer, nat) -> Value, t: nat, t': nat, k: nat)
    requires k < |cs|
    ensures Target(Flush(cs, metadata, produce, t)[k], metadata).None?
    ensures Flush(Flush(cs, metadata, produce, t), metadata, produce, t')[k] == Flush(cs, metadata, produce, t)[k]
  {
    FlushEffect(cs, metadata, produce, t, k);
    FlushAt(Flush(cs, metadata, produce, t), metadata, produce, t', k);
  }

  /** Counting a longer prefix never gives less. */
  lemma {:induction false} ConversionsMonotone(cs: seq<Change>, metadata: map<Class, Metadata>, i: nat, j: nat)
    requires i <= j <= |cs|
    ensures Conversions(cs[..i], metadata) <= Conversions(cs[..j], metadata)
  {
    if i < j {
      ConversionsMonotone(cs, metadata, i, j - 1);
      assert cs[..j][..j - 1] == cs[..j - 1];
    }
  }

  /**
   * Every producer call of a pass belongs to one converted change: the calls of two different
   * converted changes never coincide, so entity and payload values come from separate calls.
   */
  lemma CallsAreSeparate(cs: seq<Change>, metadata: map<Class, Metadata>, i: nat, j: nat)
    requires i < j < |cs|
    requires Target(cs[i], metadata).Some?
    ensures 2 * Conversions(cs[..i], metadata) + 1 < 2 * Conversions(cs[..j], metadata)
  {
    ConversionsMonotone(cs, metadata, i + 1, j);
    assert cs[..i + 1][..i] == cs[..i];
  }

  /**
   * A subclass of a registered base class is converted with the base's marker when no class
   * between them has metadata of its own.
   */
  lemma InheritedMetadataConverts(c: Change, metadata: map<Class, Metadata>, produce: (Producer, nat) -> Value, t: nat, k: nat)
    requires c.kind == Delete
    requires k < |c.cls.Chain()| && c.cls.Chain()[k] in metadata
    requires forall j :: 0 <= j < k ==> c.cls.Chain()[j] !in metadata
    ensures var m := metadata[c.cls.Chain()[k]];
            && Intercept(c, metadata, produce, t).kind == Update
            && m.Field() in Intercept(c, metadata, produce, t).payload
            && Intercept(c, metadata, produce, t).payload[m.Field()] == produce(m.Value(), t + 1)
  {
    ResolveNearest(metadata, c.cls);
    var k' :| 0 <= k' < |c.cls.Chain()| && c.cls.Chain()[k'] in metadata
              && Resolve(metadata, c.cls) == Some(metadata[c.cls.Chain()[k']])
              && forall j :: 0 <= j < k' ==> c.cls.Chain()[j] !in metadata;
    assert k' == k;
  }

  /**
   * A soft-deleted row disappears: once the UPDATE a conversion produces is written, the row
   * fails its type's default filter whenever the produced value differs from the baseline.
   */
  lemma ConvertedRowHidden(c: Change, metadata: map<Class, Metadata>, produce: (Producer, nat) -> Value, t: nat,
                           config: InferableConfig, row: Row)
    requires c.kind == Delete && Resolve(metadata, c.cls) == Some(Inferable(config))
    requires produce(config.value, t + 1) != Baseline(config.valueInitial)
    ensures !Visible(Updated(row, Intercept(c, metadata, produce, t).payload),
                     SoftDeleteFilter(config.field, config.valueInitial), true)
    ensures Visible(Updated(row, Intercept(c, metadata, produce, t).payload),
                    SoftDeleteFilter(config.field, config.valueInitial), false)
  {
  }

  /**
   * The `forEach` callback: converts `item` when it is a DELETE and its entity's runtime class
   * has metadata, and returns the producer-call count after its calls.
   */
  method HandleItem(item: ChangeSet, registry: Registry, produce: (Producer, nat) -> Value, calls: nat)
    returns (calls': nat)
    modifies item
    ensures item.View() == Intercept(old(item.View()), registry.metadata, produce, calls)
    ensures calls' == calls + 2 * Converts(old(item.View()), registry.metadata)
  {
    calls' := calls;
    if item.kind == Delete && registry.HasMetadata(item.cls) {
      var m := registry.GetMetadata(item.cls).value;
      Convert(item, m, produce, calls);
      calls' := calls + 2;
    }
  }

  /**
   * A pass laid out change by change: `offsets[k]` is the number of the first producer call
   * the `k`-th change may make, and `after[k]` what that change becomes.
   */
  lemma Schedule(cs: seq<Change>, metadata: map<Class, Metadata>, produce: (Producer, nat) -> Value, t: nat)
    returns (after: seq<Change>, offsets: seq<nat>)
    ensures after == Flush(cs, metadata, produce, t)
    ensures |offsets| == |cs| + 1 && offsets[0] == t
    ensures offsets[|cs|] == t + 2 * Conversions(cs, metadata)
    ensures forall k :: 0 <= k < |cs| ==> offsets[k + 1] == offsets[k] + 2 * Converts(cs[k], metadata)
    ensures forall k :: 0 <= k < |cs| ==> after[k] == Intercept(cs[k], metadata, produce, offsets[k])
  {
    after := Flush(cs, metadata, produce, t);
    offsets := seq(|cs| + 1, k requires 0 <= k <= |cs| => t + 2 * Conversions(cs[..k], metadata));
    forall k | 0 <= k < |cs|
      ensures offsets[k + 1] == offsets[k] + 2 * Converts(cs[k], metadata)
      ensures after[k] == Intercept(cs[k], metadata, produce, offsets[k])
    {
      assert cs[..k + 1][..k] == cs[..k];
      FlushAt(cs, metadata, produce, t, k);
    }
    assert cs[..|cs|] == cs;
  }

  /**
   * `onFlush`: walks the change sets once and rewrites, in place, each DELETE change set whose
   * entity's runtime class has metadata; the change sets end as `Flush` describes. Returns the
   * number of producer calls made so far, `start` being the number made before.
   */
  method OnFlush(changeSets: seq<ChangeSet>, registry: Registry, produce: (Producer, nat) -> Value, start: nat)
    returns (calls: nat)
    requires Distinct(changeSets)
    modifies changeSets
    ensures Views(changeSets) == Flush(old(Views(changeSets)), registry.metadata, produce, start)
    ensures calls == start + 2 * Conversions(old(Views(changeSets)), registry.metadata)
  {
    ghost var before := Views(changeSets);
    ghost var metadata := registry.metadata;
    ghost var after, offsets := Schedule(before, metadata, produce, start);
    calls := start;
    for i := 0 to |changeSets|
      invariant registry.metadata == metadata
      invariant calls == offsets[i]
      invariant forall k :: 0 <= k < i ==> changeSets[k].View() == after[k]
      invariant forall k :: i <= k < |changeSets| ==> changeSets[k].View() == before[k]
    {
      calls := HandleItem(changeSets[i], registry, produce, calls);
    }
  }
}
