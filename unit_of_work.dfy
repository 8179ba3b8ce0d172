/**
 * The engine's pending changes as the flush handlers see them: change sets whose `type`,
 * entity properties and `payload` the handlers rewrite in place.
 */
module UnitOfWork {
  import opened Common

  /** `ChangeSetType`, restricted to the kinds the handlers tell apart. */
  datatype Kind = Create | Update | Delete

  /**
   * A pending change: its kind, the runtime class of its entity (`entity.constructor`), the
   * entity's properties and the serialised write payload. The entity's properties live here
   * because the engine keeps one change set per entity, so no other change set reaches them.
   */
  class ChangeSet {
    var kind: Kind
    const cls: Class
    var entity: map<string, Value>
    var payload: map<string, Value>

    constructor (kind: Kind, cls: Class, entity: map<string, Value>, payload: map<string, Value>)
      ensures this.kind == kind && this.cls == cls && this.entity == entity && this.payload == payload
    {
      this.kind := kind;
      this.cls := cls;
      this.entity := entity;
      this.payload := payload;
    }

    /** The value of this change set at this moment. */
    function View(): (c: Change)
      reads this
      ensures c.kind == kind && c.cls == cls && c.entity == entity && c.payload == payload
    {
      Change(kind, cls, entity, payload)
    }
  }

  /** A change set as a value: what the handlers read and write of it. */
  datatype Change = Change(kind: Kind, cls: Class, entity: map<string, Value>, payload: map<string, Value>)

  /** The engine keeps one change set per entity: no change set occurs twice in the list. */
  predicate Distinct(changeSets: seq<ChangeSet>)
  {
    forall i, j :: 0 <= i < j < |changeSets| ==> changeSets[i] != changeSets[j]
  }

  /** The whole list as values. */
  function Views(changeSets: seq<ChangeSet>): (cs: seq<Change>)
    reads changeSets
    ensures |cs| == |changeSets|
    ensures forall k :: 0 <= k < |changeSets| ==> cs[k] == changeSets[k].View()
  {
    seq(|changeSets|, k requires 0 <= k < |changeSets| reads changeSets => changeSets[k].View())
  }
}
