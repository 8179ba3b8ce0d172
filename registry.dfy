/**
 * The process-wide state both decorators write and both handlers read: the metadata stored
 * under the single `SOFT_DELETABLE` key per class (looked up along the prototype chain, as
 * `Reflect.getMetadata` does) and the engine's per-class table of named filters.
 */
module Registry {
  import opened Wrappers
  import opened Common
  import opened Filters

  /**
   * What a class holds under `SOFT_DELETABLE`: the whole configuration for the current
   * decorator, exactly `{ field, value }` for the older one.
   */
  datatype Metadata =
    | Inferable(config: InferableConfig)
    | FieldAndValue(markerField: string, producer: Producer)
  {
    /** The `field` a handler destructures from the metadata. */
    function Field(): string
    {
      match this
      case Inferable(c) => c.field
      case FieldAndValue(f, _) => f
    }

    /** The `value` a handler destructures from the metadata. */
    function Value(): Producer
    {
      match this
      case Inferable(c) => c.value
      case FieldAndValue(_, p) => p
    }
  }

  /** The metadata of `c` or of its nearest ancestor that has some; `None` when there is none. */
  function Resolve(metadata: map<Class, Metadata>, c: Class): (r: Option<Metadata>)
    ensures r.Some? ==> r.value in metadata.Values
    ensures c in metadata ==> r == Some(metadata[c])
  {
    if c in metadata then Some(metadata[c])
    else match c
      case Base(_) => None
      case Derived(_, p) => Resolve(metadata, p)
  }

  /**
   * Lookup finds the first class of the prototype chain that has metadata, and finds none
   * exactly when no class of the chain has any.
   */
  lemma {:induction false} ResolveNearest(metadata: map<Class, Metadata>, c: Class)
    ensures Resolve(metadata, c).None? <==> forall a :: a in c.Chain() ==> a !in metadata
    ensures Resolve(metadata, c).Some? ==>
              exists k :: 0 <= k < |c.Chain()| && c.Chain()[k] in metadata
                && Resolve(metadata, c) == Some(metadata[c.Chain()[k]])
                && forall j :: 0 <= j < k ==> c.Chain()[j] !in metadata
  {
    if c !in metadata {
      match c
      case Base(_) =>
        assert c.Chain() == [c];
      case Derived(_, p) =>
        ResolveNearest(metadata, p);
        assert c.Chain() == [c] + p.Chain();
        if Resolve(metadata, p).Some? {
          var k :| 0 <= k < |p.Chain()| && p.Chain()[k] in metadata
                   && Resolve(metadata, p) == Some(metadata[p.Chain()[k]])
                   && forall j :: 0 <= j < k ==> p.Chain()[j] !in metadata;
          assert c.Chain()[k + 1] == p.Chain()[k];
          forall j | 0 <= j < k + 1
            ensures c.Chain()[j] !in metadata
          {
            if j > 0 { assert c.Chain()[j] == p.Chain()[j - 1]; }
          }
        }
    } else {
      assert c.Chain()[0] == c;
    }
  }

  /** The chain of the `k`-th class of a chain is the rest of that chain. */
  lemma {:induction false} ChainSuffix(c: Class, k: nat)
    requires k < |c.Chain()|
    ensures c.Chain()[k].Chain() == c.Chain()[k..]
  {
    match c
    case Base(_) =>
    case Derived(_, p) =>
      if k > 0 {
        ChainSuffix(p, k - 1);
        assert c.Chain()[k..] == p.Chain()[k - 1..];
      }
  }

  /**
   * Once `m` is stored under `target`, lookup finds `m` for `target` and for every class whose
   * chain reaches `target` without passing a class that has metadata of its own.
   */
  lemma {:induction false} DefinedResolves(metadata: map<Class, Metadata>, target: Class, m: Metadata, c: Class, k: nat)
    requires k < |c.Chain()| && c.Chain()[k] == target
    requires forall j :: 0 <= j < k ==> c.Chain()[j] !in metadata
    ensures Resolve(metadata[target := m], c) == Some(m)
  {
    match c
    case Base(_) =>
    case Derived(_, p) =>
      if k > 0 {
        assert c.Chain()[0] == c && c !in metadata;
        ChainSuffix(c, k);
        assert c != target;
        forall j | 0 <= j < k - 1
          ensures p.Chain()[j] !in metadata
        {
          assert p.Chain()[j] == c.Chain()[j + 1];
        }
        assert p.Chain()[k - 1] == c.Chain()[k];
        DefinedResolves(metadata, target, m, p, k - 1);
      }
  }

  /**
   * Storing `m1` or `m2` under `target` makes no difference to lookups that do not end at
   * the stored entry: either both find what they stored or both find the same thing.
   */
  lemma {:induction false} ResolveSwap(metadata: map<Class, Metadata>, target: Class, m1: Metadata, m2: Metadata, c: Class)
    ensures || (Resolve(metadata[target := m1], c) == Some(m1) && Resolve(metadata[target := m2], c) == Some(m2))
            || Resolve(metadata[target := m1], c) == Resolve(metadata[target := m2], c)
  {
    if c != target && c !in metadata {
      match c
      case Base(_) =>
      case Derived(_, p) =>
        ResolveSwap(metadata, target, m1, m2, p);
    }
  }

  /**
   * The two global stores. `metadata` stands for `Reflect.defineMetadata(SOFT_DELETABLE, ...)`,
   * one entry per class; `filters` for the engine's filter table, one entry per class and name.
   */
  class Registry {
    var metadata: map<Class, Metadata>
    var filters: map<(Class, string), FilterDef>

    constructor ()
      ensures metadata == map[] && filters == map[]
    {
      metadata := map[];
      filters := map[];
    }

    /** `Reflect.hasMetadata(SOFT_DELETABLE, c)`: `c` or an ancestor has metadata. */
    function HasMetadata(c: Class): (b: bool)
      reads this
      ensures b <==> exists a :: a in c.Chain() && a in metadata
    {
      ResolveNearest(metadata, c);
      Resolve(metadata, c).Some?
    }

    /** `Reflect.getMetadata(SOFT_DELETABLE, c)`: `undefined` is `None`. */
    function GetMetadata(c: Class): (r: Option<Metadata>)
      reads this
      ensures r.Some? <==> HasMetadata(c)
      ensures r.Some? ==> r.value in metadata.Values
    {
      Resolve(metadata, c)
    }

    /** Store `m` under `target`, replacing what was there. */
    method DefineMetadata(target: Class, m: Metadata)
      modifies this
      ensures metadata == old(metadata)[target := m]
      ensures filters == old(filters)
    {
      metadata := metadata[target := m];
    }

    /** Register filter `f` on `target`, replacing a filter of the same name there. */
    method AddFilter(target: Class, f: FilterDef)
      modifies this
      ensures filters == old(filters)[(target, f.name) := f]
      ensures metadata == old(metadata)
    {
      filters := filters[(target, f.name) := f];
    }
  }
}
