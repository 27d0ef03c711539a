/**
 * The per-project enablement store of the linter: whether linting is on for
 * a project, and which of the project's resources are excluded from it. Both
 * live in one preference node; the store only adds a flag that says whether
 * it has changed the node since the node was last flushed.
 */
module Preferences {
  import opened Wrappers
  import opened PathCodec
  import opened ExclusionList

  /** What the `enabled` key reads as when it is absent. */
  const DefaultEnabled: bool := false

  /** What the `excluded` key reads as when it is absent. */
  const DefaultExcluded: string := ""

  /** The message of the one error the store reports. */
  const StoreFailedMessage: string := "Failed to store preferences"

  /** The one error kind: the node could not be written to its backing store. */
  datatype PersistenceError = PersistenceError(message: string)

  /**
   * The preference node of one project, reduced to the two keys the store
   * uses; `None` is an absent key. The `saved` fields are what the node last
   * handed to its backing store.
   */
  class Node {
    var enabled: Option<bool>
    var excluded: Option<string>
    var savedEnabled: Option<bool>
    var savedExcluded: Option<string>

    /** Whether the backing store holds what the node holds. */
    predicate Flushed()
      reads this
    {
      savedEnabled == enabled && savedExcluded == excluded
    }

    /** A node as loaded from its backing store, with nothing pending. */
    constructor (enabled: Option<bool>, excluded: Option<string>)
      ensures this.enabled == enabled && this.excluded == excluded
      ensures Flushed()
    {
      this.enabled, this.excluded := enabled, excluded;
      savedEnabled, savedExcluded := enabled, excluded;
    }

    /** Writes the node to its backing store; `succeeds` is the outcome of
        that I/O, which is not modelled. */
    method Flush(succeeds: bool) returns (ok: bool)
      modifies this`savedEnabled, this`savedExcluded
      ensures ok == succeeds
      ensures ok ==> Flushed()
      ensures !ok ==> savedEnabled == old(savedEnabled) && savedExcluded == old(savedExcluded)
    {
      ok := succeeds;
      if ok {
        savedEnabled, savedExcluded := enabled, excluded;
      }
    }
  }

  /** The enablement and exclusion settings of one project. */
  class EnablementPreferences {
    const node: Node
    var changed: bool

    /** The value of the `enabled` key, `false` when it is absent. */
    function GetEnabled(): (r: bool)
      reads node
      ensures r <==> node.enabled == Some(true)
    {
      node.enabled.GetOr(DefaultEnabled)
    }

    /** The value of the `excluded` key, `""` when it is absent. */
    function StoredExcluded(): string
      reads node
    {
      node.excluded.GetOr(DefaultExcluded)
    }

    /** Whether the store has changed the node since the last successful save. */
    function HasChanged(): (r: bool)
      reads this
      ensures r == changed
    {
      changed
    }

    /** The dirty-flag discipline: while no change is recorded, the node holds
        what its backing store holds. */
    predicate Consistent()
      reads this, node
    {
      changed || node.Flushed()
    }

    /** A store over `node`, with no change recorded. */
    constructor (node: Node)
      ensures this.node == node && !changed
      ensures Consistent() <==> node.Flushed()
    {
      this.node := node;
      changed := false;
    }

    /** Turns linting on or off. A value equal to the current one changes
        nothing; turning it off removes the key rather than storing `false`. */
    method SetEnabled(enabled: bool)
      modifies this`changed, node`enabled
      ensures GetEnabled() == enabled
      ensures enabled == old(GetEnabled()) ==> node.enabled == old(node.enabled) && changed == old(changed)
      ensures enabled != old(GetEnabled()) ==>
        node.enabled == (if enabled then Some(true) else None) && changed
      ensures old(Consistent()) ==> Consistent()
    {
      if enabled != node.enabled.GetOr(DefaultEnabled) {
        if enabled == DefaultEnabled {
          node.enabled := None;
        } else {
          node.enabled := Some(enabled);
        }
        changed := true;
      }
    }

    /** The decoded list under the `excluded` key. */
    method GetExcludedList() returns (excluded: seq<string>)
      ensures excluded == Decode(StoredExcluded())
    {
      var value := node.excluded.GetOr(DefaultExcluded);
      excluded := DecodePaths(value);
    }

    /** Stores a list under the `excluded` key. An encoding equal to the stored
        string changes nothing; an empty one removes the key. */
    method StoreExcluded(excluded: seq<string>)
      modifies this`changed, node`excluded
      ensures StoredExcluded() == Encode(excluded)
      ensures Encode(excluded) == old(StoredExcluded()) ==>
        node.excluded == old(node.excluded) && changed == old(changed)
      ensures Encode(excluded) != old(StoredExcluded()) ==>
        node.excluded == (if Encode(excluded) == "" then None else Some(Encode(excluded))) && changed
      ensures old(Consistent()) ==> Consistent()
    {
      var value := EncodePaths(excluded);
      if value != node.excluded.GetOr(DefaultExcluded) {
        if value == DefaultExcluded {
          node.excluded := None;
        } else {
          node.excluded := Some(value);
        }
        changed := true;
      }
    }

    /** Excludes a resource from linting, or includes it again. The stored
        string becomes the encoding of the edited list. When the store was
        written by this class and the path is storable, the path is excluded
        afterwards exactly as requested and no other path changes. */
    method SetExcluded(resourcePath: string, exclude: bool)
      modifies this`changed, node`excluded
      ensures StoredExcluded() == Encode(Toggled(Decode(old(StoredExcluded())), resourcePath, exclude))
      ensures StoredExcluded() == old(StoredExcluded()) ==>
        node.excluded == old(node.excluded) && changed == old(changed)
      ensures StoredExcluded() != old(StoredExcluded()) ==>
        node.excluded == (if StoredExcluded() == "" then None else Some(StoredExcluded())) && changed
      ensures ValidStored(old(StoredExcluded())) && StorablePath(resourcePath) ==>
        && ValidStored(StoredExcluded())
        && Member(StoredExcluded(), resourcePath) == exclude
        && forall q :: q != resourcePath ==>
             Member(StoredExcluded(), q) == Member(old(StoredExcluded()), q)
      ensures old(Consistent()) ==> Consistent()
    {
      ghost var before := StoredExcluded();
      var excluded := GetExcludedList();
      if exclude && resourcePath !in excluded {
        excluded := excluded + [resourcePath];
      } else if !exclude && resourcePath in excluded {
        excluded := RemoveFirst(excluded, resourcePath);
      }
      StoreExcluded(excluded);
      if ValidStored(before) && StorablePath(resourcePath) {
        ExclusionUpdate(before, resourcePath, exclude);
      }
    }

    /** Whether a resource is excluded. The project itself, whose path is
        empty, never is. */
    method GetExcluded(resourcePath: string) returns (r: bool)
      ensures r == Member(StoredExcluded(), resourcePath)
      ensures resourcePath == "" ==> !r
    {
      if resourcePath == "" {
        return false;
      }
      var excludedFiles := GetExcludedList();
      r := resourcePath in excludedFiles;
    }

    /** Flushes the node. On success no change is recorded any more and the
        backing store holds the node; on failure the error carries a fixed
        message and the recorded change is kept, so the save can be retried. */
    method Save(flushSucceeds: bool) returns (result: Outcome<PersistenceError>)
      modifies this`changed, node`savedEnabled, node`savedExcluded
      ensures flushSucceeds ==> result == Pass && !changed && node.Flushed()
      ensures !flushSucceeds ==>
        && result == Fail(PersistenceError(StoreFailedMessage))
        && changed == old(changed)
        && node.savedEnabled == old(node.savedEnabled)
        && node.savedExcluded == old(node.savedExcluded)
      ensures old(Consistent()) ==> Consistent()
    {
      var ok := node.Flush(flushSucceeds);
      if ok {
        changed := false;
        result := Pass;
      } else {
        result := Fail(PersistenceError(StoreFailedMessage));
      }
    }
  }
}
