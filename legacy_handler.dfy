/**
 * The flush subscriber of the earlier version (`SoftDeletableHandlerSubscriber.onFlush`): it
 * first copies out the DELETE change sets, then walks that copy and converts each one whose
 * entity class has metadata. Proved to leave the change sets exactly as the current handler's
 * single pass (`Handler.Flush`) does, with the same producer calls in the same order.
 */
module LegacyHandler {
  import opened Common
  import opened Registry
  import opened UnitOfWork
  import opened Handler

  /** The indices of the DELETE changes of `cs`, in list order. */
  function DeletePositions(cs: seq<Change>): (pos: seq<nat>)
    ensures forall j :: 0 <= j < |pos| ==> pos[j] < |cs| && cs[pos[j]].kind == Delete
  {
    if cs == [] then []
    else
      var init := cs[..|cs| - 1];
      DeletePositions(init) + (if cs[|cs| - 1].kind == Delete then [|cs| - 1] else [])
  }

  /** The indices come in increasing order. */
  lemma {:induction false} DeletePositionsIncreasing(cs: seq<Change>)
    ensures forall i, j :: 0 <= i < j < |DeletePositions(cs)| ==> DeletePositions(cs)[i] < DeletePositions(cs)[j]
  {
    if cs != [] {
      var init := cs[..|cs| - 1];
      DeletePositionsIncreasing(init);
      var p := DeletePositions(init);
      var pos := DeletePositions(cs);
      assert pos == p + (if cs[|cs| - 1].kind == Delete then [|cs| - 1] else []);
      forall i, j | 0 <= i < j < |pos|
        ensures pos[i] < pos[j]
      {
        if j < |p| {
          assert pos[i] == p[i] && pos[j] == p[j] && p[i] < p[j];
        } else {
          assert pos[i] == p[i] < |init| && pos[j] == |cs| - 1;
        }
      }
    }
  }

  /** Every DELETE change of `cs` is listed. */
  lemma {:induction false} DeletePositionsComplete(cs: seq<Change>)
    ensures forall k :: 0 <= k < |cs| && cs[k].kind == Delete ==> k in DeletePositions(cs)
  {
    if cs != [] {
      DeletePositionsComplete(cs[..|cs| - 1]);
    }
  }

  /** The DELETE changes of `cs`, in list order: what the `filter` call keeps. */
  function Deletions(cs: seq<Change>): (ds: seq<Change>)
    ensures forall i :: 0 <= i < |ds| ==> ds[i].kind == Delete
    ensures |ds| == |DeletePositions(cs)|
  {
    if cs == [] then []
    else
      var init := cs[..|cs| - 1];
      Deletions(init) + (if cs[|cs| - 1].kind == Delete then [cs[|cs| - 1]] else [])
  }

  /** The `i`-th change kept by the filter is the change at the `i`-th DELETE position. */
  lemma {:induction false} DeletionsAt(cs: seq<Change>)
    ensures forall i :: 0 <= i < |Deletions(cs)| ==> Deletions(cs)[i] == cs[DeletePositions(cs)[i]]
  {
    if cs != [] {
      DeletionsAt(cs[..|cs| - 1]);
    }
  }

  /** The filter drops no change the handler converts. */
  lemma {:induction false} ConversionsOfDeletions(cs: seq<Change>, metadata: map<Class, Metadata>)
    ensures Conversions(Deletions(cs), metadata) == Conversions(cs, metadata)
  {
    if cs != [] {
      var init := cs[..|cs| - 1];
      var ds := Deletions(cs);
      ConversionsOfDeletions(init, metadata);
      if cs[|cs| - 1].kind == Delete {
        assert ds[..|ds| - 1] == Deletions(init);
      } else {
        assert ds == Deletions(init);
      }
    }
  }

  /** What the filter keeps before the `i`-th deletion is what it keeps of the list before it. */
  lemma {:induction false} DeletionsPrefix(cs: seq<Change>, i: nat)
    requires i < |Deletions(cs)|
    ensures DeletePositions(cs)[i] < |cs|
    ensures Deletions(cs)[..i] == Deletions(cs[..DeletePositions(cs)[i]])
  {
    var init := cs[..|cs| - 1];
    var ds := Deletions(cs);
    var pos := DeletePositions(cs);
    if cs[|cs| - 1].kind == Delete && i == |ds| - 1 {
      assert ds[..i] == Deletions(init);
      assert pos[i] == |cs| - 1;
    } else {
      DeletionsPrefix(init, i);
      assert ds[..i] == Deletions(init)[..i];
      assert pos[i] == DeletePositions(init)[i];
      assert init[..pos[i]] == cs[..pos[i]];
    }
  }

  /**
   * Filtering first changes nothing: one pass over the DELETE changes alone turns the `i`-th
   * of them into what one pass over the whole list makes of it, with the same producer calls.
   */
  lemma FilterFirst(cs: seq<Change>, metadata: map<Class, Metadata>, produce: (Producer, nat) -> Value, t: nat, i: nat)
    requires i < |Deletions(cs)|
    ensures Flush(Deletions(cs), metadata, produce, t)[i] == Flush(cs, metadata, produce, t)[DeletePositions(cs)[i]]
  {
    var ds := Deletions(cs);
    var p := DeletePositions(cs)[i];
    DeletionsAt(cs);
    DeletionsPrefix(cs, i);
    ConversionsOfDeletions(cs[..p], metadata);
    FlushSame(ds, cs, i, p, metadata, produce, t);
  }

  /** The changes the filter drops are ones a pass leaves as they are. */
  lemma DroppedUnchanged(cs: seq<Change>, metadata: map<Class, Metadata>, produce: (Producer, nat) -> Value, t: nat, k: nat)
    requires k < |cs| && cs[k].kind != Delete
    ensures Flush(cs, metadata, produce, t)[k] == cs[k]
  {
    FlushAt(cs, metadata, produce, t, k);
  }

  /** Looking at one more change adds its index when it is a DELETE. */
  lemma DeletePositionsStep(cs: seq<Change>, i: nat)
    requires i < |cs|
    ensures DeletePositions(cs[..i + 1]) == DeletePositions(cs[..i]) + (if cs[i].kind == Delete then [i] else [])
  {
    assert cs[..i + 1][..i] == cs[..i];
  }

  /** Change sets picked at increasing indices of a list without repeats have no repeats. */
  lemma DistinctPicks(changeSets: seq<ChangeSet>, picked: seq<ChangeSet>, pos: seq<nat>)
    requires Distinct(changeSets)
    requires |picked| == |pos|
    requires forall j :: 0 <= j < |picked| ==> pos[j] < |changeSets| && picked[j] == changeSets[pos[j]]
    requires forall i, j :: 0 <= i < j < |pos| ==> pos[i] < pos[j]
    ensures Distinct(picked)
  {
  }

  /**
   * `uow.getChangeSets().filter(item => item.type == DELETE)`: a new list holding the DELETE
   * change sets, in their order.
   */
  method DeletionChangeSets(changeSets: seq<ChangeSet>) returns (deletions: seq<ChangeSet>)
    ensures var pos := DeletePositions(Views(changeSets));
            && |deletions| == |pos|
            && forall j :: 0 <= j < |deletions| ==> deletions[j] == changeSets[pos[j]]
    ensures Views(deletions) == Deletions(Views(changeSets))
    ensures forall c :: c in deletions ==> c.kind == Delete
  {
    ghost var before := Views(changeSets);
    ghost var pos: seq<nat> := [];
    deletions := [];
    for i := 0 to |changeSets|
      invariant pos == DeletePositions(before[..i])
      invariant |deletions| == |pos|
      invariant forall j :: 0 <= j < |deletions| ==> pos[j] < i && deletions[j] == changeSets[pos[j]]
    {
      DeletePositionsStep(before, i);
      if changeSets[i].kind == Delete {
        deletions := deletions + [changeSets[i]];
        pos := pos + [i];
      }
    }
    assert before[..|changeSets|] == before;
    DeletionsAt(before);
  }

  /**
   * The `forEach` callback over the deletions: converts `item` when its entity's runtime class
   * has metadata (`if (metadata)`).
   */
  method HandleDeletion(item: ChangeSet, registry: Registry, produce: (Producer, nat) -> Value, calls: nat)
    returns (calls': nat)
    requires item.kind == Delete
    modifies item
    ensures item.View() == Intercept(old(item.View()), registry.metadata, produce, calls)
    ensures calls' == calls + 2 * Converts(old(item.View()), registry.metadata)
  {
    var metadata := registry.GetMetadata(item.cls);
    if metadata.Some? {
      Convert(item, metadata.value, produce, calls);
      calls' := calls + 2;
    } else {
      calls' := calls;
    }
  }

  /** `deletionChangeSets.forEach(...)`: one pass over the filtered list, in place. */
  method ConvertDeletions(deletions: seq<ChangeSet>, registry: Registry, produce: (Producer, nat) -> Value, start: nat)
    returns (calls: nat)
    requires Distinct(deletions)
    requires forall c :: c in deletions ==> c.kind == Delete
    modifies deletions
    ensures Views(deletions) == Flush(old(Views(deletions)), registry.metadata, produce, start)
    ensures calls == start + 2 * Conversions(old(Views(deletions)), registry.metadata)
  {
    ghost var before := Views(deletions);
    ghost var metadata := registry.metadata;
    ghost var after, offsets := Schedule(before, metadata, produce, start);
    calls := start;
    for j := 0 to |deletions|
      invariant registry.metadata == metadata
      invariant calls == offsets[j]
      invariant forall k :: 0 <= k < j ==> deletions[k].View() == after[k]
      invariant forall k :: j <= k < |deletions| ==> deletions[k].View() == before[k]
    {
      calls := HandleDeletion(deletions[j], registry, produce, calls);
    }
  }

  /**
   * The list after the filtered pass: the dropped change sets as they were, and the `i`-th
   * DELETE change set as the `i`-th change of a pass over the DELETEs alone. That is one pass
   * over the whole list.
   */
  lemma Reassembled(changeSets: seq<ChangeSet>, deletions: seq<ChangeSet>, before: seq<Change>,
                    metadata: map<Class, Metadata>, produce: (Producer, nat) -> Value, t: nat)
    requires |changeSets| == |before|
    requires |deletions| == |DeletePositions(before)|
    requires forall j :: 0 <= j < |deletions| ==> deletions[j] == changeSets[DeletePositions(before)[j]]
    requires Views(deletions) == Flush(Deletions(before), metadata, produce, t)
    requires forall k :: 0 <= k < |before| && before[k].kind != Delete ==> changeSets[k].View() == before[k]
    ensures Views(changeSets) == Flush(before, metadata, produce, t)
  {
    var pos := DeletePositions(before);
    DeletePositionsComplete(before);
    forall k | 0 <= k < |before|
      ensures changeSets[k].View() == Flush(before, metadata, produce, t)[k]
    {
      if before[k].kind == Delete {
        var i :| 0 <= i < |pos| && pos[i] == k;
        assert deletions[i] == changeSets[k];
        FilterFirst(before, metadata, produce, t, i);
      } else {
        DroppedUnchanged(before, metadata, produce, t, k);
      }
    }
  }

  /**
   * `onFlush` of the earlier subscriber: filter, then convert the filtered change sets in
   * place. The change sets end exactly as one pass of the current handler leaves them.
   */
  method OnFlush(changeSets: seq<ChangeSet>, registry: Registry, produce: (Producer, nat) -> Value, start: nat)
    returns (calls: nat)
    requires Distinct(changeSets)
    modifies changeSets
    ensures Views(changeSets) == Flush(old(Views(changeSets)), registry.metadata, produce, start)
    ensures calls == start + 2 * Conversions(old(Views(changeSets)), registry.metadata)
  {
    ghost var before := Views(changeSets);
    var deletions := DeletionChangeSets(changeSets);
    DeletePositionsIncreasing(before);
    DistinctPicks(changeSets, deletions, DeletePositions(before));
    ConversionsOfDeletions(before, registry.metadata);
    label Filtered:
    calls := ConvertDeletions(deletions, registry, produce, start);
    forall k | 0 <= k < |before| && before[k].kind != Delete
      ensures changeSets[k].View() == before[k]
    {
      assert changeSets[k] !in deletions;
      assert changeSets[k].View() == old@Filtered(changeSets[k].View());
    }
    Reassembled(changeSets, deletions, before, registry.metadata, produce, start);
  }
}
