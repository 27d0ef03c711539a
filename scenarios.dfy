/**
 * Whole sessions with one store, run against a node that starts empty: what
 * a caller sees through the store's queries after a sequence of calls.
 */
module Scenarios {
  import opened Wrappers
  import opened PathCodec
  import opened ExclusionList
  import opened Preferences

  /** Enable a project, exclude one file, save: the change is recorded until
      the save, and afterwards the settings read back as they were made. */
  method EnableExcludeSave()
    returns (changedBeforeSave: bool, changedAfterSave: bool, enabled: bool,
             fooExcluded: bool, barExcluded: bool)
    ensures changedBeforeSave && !changedAfterSave
    ensures enabled && fooExcluded && !barExcluded
  {
    var node := new Node(None, None);
    var prefs := new EnablementPreferences(node);
    assert ValidStored(prefs.StoredExcluded());
    assert StorablePath("src/Foo.js");
    prefs.SetEnabled(true);
    prefs.SetExcluded("src/Foo.js", true);
    changedBeforeSave := prefs.HasChanged();
    var saved := prefs.Save(true);
    changedAfterSave := prefs.HasChanged();
    enabled := prefs.GetEnabled();
    fooExcluded := prefs.GetExcluded("src/Foo.js");
    barExcluded := prefs.GetExcluded("src/Bar.js");
  }

  /** Turning linting on and off again leaves the key absent, as if never set,
      yet the change stays recorded: the flag records that a write happened,
      not that the node differs from its backing store. */
  method EnableThenDisable() returns (changed: bool, keyAbsent: bool, sameAsStored: bool)
    ensures changed && keyAbsent && sameAsStored
  {
    var node := new Node(None, None);
    var prefs := new EnablementPreferences(node);
    prefs.SetEnabled(true);
    prefs.SetEnabled(false);
    changed := prefs.HasChanged();
    keyAbsent := node.enabled == None;
    sameAsStored := node.Flushed();
  }

  /** A failed save reports the fixed message and keeps the change recorded;
      a retry that succeeds clears it. */
  method FailedSaveThenRetry()
    returns (error: Outcome<PersistenceError>, changedAfterFailure: bool, changedAfterRetry: bool)
    ensures error == Fail(PersistenceError("Failed to store preferences"))
    ensures changedAfterFailure && !changedAfterRetry
  {
    var node := new Node(None, None);
    var prefs := new EnablementPreferences(node);
    prefs.SetExcluded("lib", true);
    error := prefs.Save(false);
    changedAfterFailure := prefs.HasChanged();
    var retried := prefs.Save(true);
    changedAfterRetry := prefs.HasChanged();
  }

  /** Excluding a file and including it again leaves no `excluded` key. */
  method ExcludeThenInclude() returns (keyAbsent: bool, excluded: bool)
    ensures keyAbsent && !excluded
  {
    var node := new Node(None, None);
    var prefs := new EnablementPreferences(node);
    var path := "src/Foo.js";
    assert StorablePath(path);
    prefs.SetExcluded(path, true);
    assert prefs.StoredExcluded() == path by {
      assert Decode("") == [""];
      assert Toggled([""], path, true) == ["", path];
      assert ["", path][..1] == [""];
    }
    prefs.SetExcluded(path, false);
    assert prefs.StoredExcluded() == "" by {
      DecodeWithoutSeparator(path);
      assert Toggled([path], path, false) == [];
    }
    keyAbsent := node.excluded == None;
    excluded := prefs.GetExcluded("src/Foo.js");
  }
}
