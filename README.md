# Enablement preferences of the JSHint Eclipse plugin, in Dafny

This project models `EnablementPreferences`, the per-project store that
decides whether JSHint runs on a project and which of the project's
resources it skips. The store wraps one preference node with two keys:

- `enabled` is a boolean. It defaults to `false`.
- `excluded` is the list of excluded project-relative paths. The list is
  stored as one string with the paths joined by `:`. It defaults to `""`.

The store keeps a `changed` flag. Any write to the node sets it. Only a
successful `save` clears it.

The model has five modules:

- `Wrappers` (`wrappers.dfy`) holds `Option` and `Outcome`.
- `PathCodec` (`path_codec.dfy`) is the stored format of the path list.
  - `Encode` and `Decode` are the reference functions.
  - `EncodePaths` is the builder loop of `encodePaths`.
  - `DecodePaths` is the split-and-copy loop of `decodePaths`. It uses
    `ScanSegments` and `TrimTrailingEmpty`, which model what
    `String.split(":")` does with limit 0.
  - Each loop is proved equal to its reference function.
  - The lemmas relate `Encode` and `Decode` to a plain `Join` and to
    `Segments` (the pieces of a string between separators).
- `ExclusionList` (`exclusion_list.dfy`) holds the list edit that
  `setExcluded(String, boolean)` makes:
  - `RemoveFirst` models `ArrayList.remove(Object)`.
  - `Toggled` is the add-or-remove edit.
  - `Member` is what `getExcluded(String)` answers.
  - The lemmas say what one edit does to a stored string.
- `Preferences` (`enablement_preferences.dfy`) has two classes.
  - `Node` is the preference node, reduced to the two keys. An absent key is
    `None`. Its `saved` fields hold what the node last flushed.
  - `EnablementPreferences` has the `changed` field and one method per
    operation of the Java class.
  - `GetEnabled`, `StoredExcluded`, `HasChanged`, `GetExcludedList` and
    `GetExcluded` are read-only. The contracts of the constructor,
    `SetEnabled`, `StoreExcluded`, `SetExcluded` and `Save` state what
    `HasChanged` returns after each of them.
  - Every mutating method keeps `Consistent()`: while no change is
    recorded, the node holds what it last flushed.
- `Scenarios` (`scenarios.dfy`) runs whole sessions against an empty node.

The flush I/O is a parameter: `Save(flushSucceeds)` and
`Node.Flush(succeeds)` take its outcome from the caller.

Three behaviours of the code are easy to misread, and the model states them
as the code has them:

- **Dirty flag.** The flag records that a write happened, not that the node
  differs from its backing store: `setEnabled(true)` then `setEnabled(false)`
  leaves the node as it was, but `changed` stays true
  (`Scenarios.EnableThenDisable`). The model proves the one direction the
  code gives: no recorded change means the node equals its backing store.
- **Encoding.** A `:` is written only after non-empty output, so leading
  empty paths vanish. The model proves
  `Encode(ps) == Join(DropLeadingEmpty(ps))`.
- **Decoding.** The split on `:` drops trailing empty pieces, so `":"`
  decodes to no paths at all, while a string without `:`, `""` included,
  decodes to the one-element list of itself.

## Model

| member | source | states |
|---|---|---|
| `Preferences.EnablementPreferences.constructor` | com.eclipsesource.jshint.ui/src/com/eclipsesource/jshint/ui/internal/preferences/EnablementPreferences.java:36-39 | a new store is bound to the given node and records no change; the dirty-flag invariant then holds exactly when the node is already flushed |
| `Preferences.EnablementPreferences.GetEnabled` | com.eclipsesource.jshint.ui/src/com/eclipsesource/jshint/ui/internal/preferences/EnablementPreferences.java:52-54 | linting is on exactly when the `enabled` key holds `true`; an absent key reads as the default `false` |
| `Preferences.EnablementPreferences.SetEnabled` | com.eclipsesource.jshint.ui/src/com/eclipsesource/jshint/ui/internal/preferences/EnablementPreferences.java:41-50 | afterwards `GetEnabled()` is the value set; a value equal to the current one changes neither the node nor the flag; a different value sets the flag and stores `true`, or removes the key for `false`; the `excluded` key is not touched; the dirty-flag invariant is kept |
| `Preferences.EnablementPreferences.GetExcludedList` | com.eclipsesource.jshint.ui/src/com/eclipsesource/jshint/ui/internal/preferences/EnablementPreferences.java:75-78 | the list returned is the decoding of the stored string, `""` when the key is absent |
| `Preferences.EnablementPreferences.StoreExcluded` | com.eclipsesource.jshint.ui/src/com/eclipsesource/jshint/ui/internal/preferences/EnablementPreferences.java:80-90 | afterwards the stored string is the encoding of the list; an encoding equal to the stored string changes neither node nor flag; otherwise the flag is set and the key holds the encoding, or is removed when the encoding is `""`; `enabled` is not touched |
| `Preferences.EnablementPreferences.SetExcluded` | com.eclipsesource.jshint.ui/src/com/eclipsesource/jshint/ui/internal/preferences/EnablementPreferences.java:56-64 | the stored string becomes the encoding of the decoded list with the path added if missing or its first occurrence removed if present; the flag is set exactly when the string changed; for a string the store wrote and a non-empty, colon-free path, the path is excluded afterwards exactly as requested, every other path keeps its state, and the string stays one the store could have written |
| `Preferences.EnablementPreferences.GetExcluded` | com.eclipsesource.jshint.ui/src/com/eclipsesource/jshint/ui/internal/preferences/EnablementPreferences.java:66-73 | the answer is whether the path is non-empty and in the decoded list; the empty path (the project itself) is never excluded |
| `Preferences.EnablementPreferences.HasChanged` | com.eclipsesource.jshint.ui/src/com/eclipsesource/jshint/ui/internal/preferences/EnablementPreferences.java:92-94 | returns the `changed` flag; the contracts of the constructor, `SetEnabled`, `StoreExcluded`, `SetExcluded` and `Save` say what it holds after each call |
| `Preferences.EnablementPreferences.Save` | com.eclipsesource.jshint.ui/src/com/eclipsesource/jshint/ui/internal/preferences/EnablementPreferences.java:96-105 | a successful flush clears the flag and leaves the backing store equal to the node; a failed one returns the error "Failed to store preferences" and keeps both the flag and the backing store as they were |
| `Preferences.Node.Flush` | com.eclipsesource.jshint.ui/src/com/eclipsesource/jshint/ui/internal/preferences/EnablementPreferences.java:98-100 | succeeds exactly when the caller says so; on success the backing store holds the node, on failure it is unchanged |
| `PathCodec.EncodePaths` | com.eclipsesource.jshint.ui/src/com/eclipsesource/jshint/ui/internal/preferences/EnablementPreferences.java:111-120 | the builder loop yields `Encode(paths)`, which equals the `:`-join of the paths after the leading empty ones are dropped |
| `PathCodec.DecodePaths` | com.eclipsesource.jshint.ui/src/com/eclipsesource/jshint/ui/internal/preferences/EnablementPreferences.java:122-128 | the split and the copy loop yield `Decode(encodedPaths)` |
| `PathCodec.ScanSegments` | com.eclipsesource.jshint.ui/src/com/eclipsesource/jshint/ui/internal/preferences/EnablementPreferences.java:124 | the scan of the split yields every piece between separators, empty ones included, and reports whether any separator occurs |
| `PathCodec.TrimTrailingEmpty` | com.eclipsesource.jshint.ui/src/com/eclipsesource/jshint/ui/internal/preferences/EnablementPreferences.java:124 | the split with limit 0 keeps the pieces up to the last non-empty one |
| `PathCodec.DropTrailingEmpty` | com.eclipsesource.jshint.ui/src/com/eclipsesource/jshint/ui/internal/preferences/EnablementPreferences.java:124 | the result is a prefix of the pieces; every piece cut off is empty; the result is empty or ends in a non-empty piece |
| `PathCodec.DropLeadingEmpty` | com.eclipsesource.jshint.ui/src/com/eclipsesource/jshint/ui/internal/preferences/EnablementPreferences.java:114-117 | the result is a suffix of the paths; every path cut off is empty; the result is empty or starts with a non-empty path |
| `PathCodec.JoinSegments` | com.eclipsesource.jshint.ui/src/com/eclipsesource/jshint/ui/internal/preferences/EnablementPreferences.java:124 | joining the pieces of a string with `:` gives the string back |
| `PathCodec.SegmentsJoin` | com.eclipsesource.jshint.ui/src/com/eclipsesource/jshint/ui/internal/preferences/EnablementPreferences.java:124 | splitting the `:`-join of a non-empty list of colon-free paths gives the list back |
| `PathCodec.SingleSegment` | com.eclipsesource.jshint.ui/src/com/eclipsesource/jshint/ui/internal/preferences/EnablementPreferences.java:124 | a string has exactly one piece exactly when it contains no `:` |
| `PathCodec.SegmentsAppend` | com.eclipsesource.jshint.ui/src/com/eclipsesource/jshint/ui/internal/preferences/EnablementPreferences.java:124 | the pieces of `a:b` are the pieces of `a` followed by the pieces of `b` |
| `PathCodec.EncodeIsJoin` | com.eclipsesource.jshint.ui/src/com/eclipsesource/jshint/ui/internal/preferences/EnablementPreferences.java:111-120 | the encoding is the `:`-join of the paths after the leading empty ones are dropped |
| `PathCodec.DecodeEncode` | com.eclipsesource.jshint.ui/src/com/eclipsesource/jshint/ui/internal/preferences/EnablementPreferences.java:111-128 | round trip: a non-empty list of non-empty, colon-free paths decodes from its encoding as exactly that list |
| `PathCodec.EncodeDecode` | com.eclipsesource.jshint.ui/src/com/eclipsesource/jshint/ui/internal/preferences/EnablementPreferences.java:111-128 | round trip: a stored string that neither starts nor ends with `:` encodes back from its decoding unchanged |
| `PathCodec.EncodeExamples` | com.eclipsesource.jshint.ui/src/com/eclipsesource/jshint/ui/internal/preferences/EnablementPreferences.java:111-120 | no paths and the one empty path both encode to `""`; `["", "x"]` encodes to `"x"`; an empty path in the middle leaves `::` |
| `PathCodec.DecodeEmpty` | com.eclipsesource.jshint.ui/src/com/eclipsesource/jshint/ui/internal/preferences/EnablementPreferences.java:122-128 | `""` decodes to `[""]`, not to the empty list |
| `PathCodec.DecodeWithoutSeparator` | com.eclipsesource.jshint.ui/src/com/eclipsesource/jshint/ui/internal/preferences/EnablementPreferences.java:122-128 | a string without `:` decodes to the one-element list of itself |
| `PathCodec.DecodeLoneSeparator` | com.eclipsesource.jshint.ui/src/com/eclipsesource/jshint/ui/internal/preferences/EnablementPreferences.java:122-128 | `":"` decodes to the empty list, since both of its pieces are trailing empty ones |
| `PathCodec.DecodeTrailingSeparator` | com.eclipsesource.jshint.ui/src/com/eclipsesource/jshint/ui/internal/preferences/EnablementPreferences.java:122-128 | a trailing `:` leaves no trace: `"a:"` decodes to `["a"]` |
| `PathCodec.DecodeLeadingSeparator` | com.eclipsesource.jshint.ui/src/com/eclipsesource/jshint/ui/internal/preferences/EnablementPreferences.java:122-128 | a leading `:` keeps its empty piece: `":a"` decodes to `["", "a"]` |
| `PathCodec.TwoPathRoundTrip` | com.eclipsesource.jshint.ui/src/com/eclipsesource/jshint/ui/internal/preferences/EnablementPreferences.java:111-128 | `["a/b", "c"]` is stored as `"a/b:c"` and read back as the same list |
| `ExclusionList.IndexOf` | com.eclipsesource.jshint.ui/src/com/eclipsesource/jshint/ui/internal/preferences/EnablementPreferences.java:58-61 | the index is that of the first occurrence, with no occurrence before it, and equals the length exactly when the path is absent |
| `ExclusionList.RemoveFirst` | com.eclipsesource.jshint.ui/src/com/eclipsesource/jshint/ui/internal/preferences/EnablementPreferences.java:61 | removal by value takes exactly one copy of the value out of the list when it occurs, and leaves a list without the value unchanged |
| `ExclusionList.RemoveFirstAt` | com.eclipsesource.jshint.ui/src/com/eclipsesource/jshint/ui/internal/preferences/EnablementPreferences.java:61 | the copy taken out is the first occurrence; the paths before it and after it are kept in order |
| `ExclusionList.RemoveFirstFromWellFormed` | com.eclipsesource.jshint.ui/src/com/eclipsesource/jshint/ui/internal/preferences/EnablementPreferences.java:60-61 | on a duplicate-free list of storable paths, removal leaves such a list, without the path, with every other path kept |
| `ExclusionList.ToggledWellFormed` | com.eclipsesource.jshint.ui/src/com/eclipsesource/jshint/ui/internal/preferences/EnablementPreferences.java:57-62 | on a duplicate-free list of storable paths, the edit leaves such a list; the path is in it exactly when it was to be excluded, and every other path keeps its membership |
| `ExclusionList.PathsEncode` | com.eclipsesource.jshint.ui/src/com/eclipsesource/jshint/ui/internal/preferences/EnablementPreferences.java:80-90 | a duplicate-free list of storable paths, the empty list included, is read back from its encoding as exactly that list |
| `ExclusionList.ExclusionUpdate` | com.eclipsesource.jshint.ui/src/com/eclipsesource/jshint/ui/internal/preferences/EnablementPreferences.java:56-90 | one `setExcluded` edit of a string the store wrote, for a storable path, yields a string the store could have written; it stands for the edited list; the path is excluded exactly as requested; no other path changes |
| `ExclusionList.RootNeverExcluded` | com.eclipsesource.jshint.ui/src/com/eclipsesource/jshint/ui/internal/preferences/EnablementPreferences.java:66-70 | the empty path is not excluded, whatever is stored |
| `ExclusionList.MemberIsInPaths` | com.eclipsesource.jshint.ui/src/com/eclipsesource/jshint/ui/internal/preferences/EnablementPreferences.java:66-78 | a path is excluded exactly when it is non-empty and in the list the stored string stands for, where `""` stands for no paths |
| `ExclusionList.RemovalKeepsDuplicate` | com.eclipsesource.jshint.ui/src/com/eclipsesource/jshint/ui/internal/preferences/EnablementPreferences.java:60-61 | when a stored string lists a path twice, un-excluding it removes one copy and it stays excluded |
| `ExclusionList.SeparatorInPathIsLost` | com.eclipsesource.jshint.ui/src/com/eclipsesource/jshint/ui/internal/preferences/EnablementPreferences.java:111-128 | excluding a path that contains `:` stores it, but it reads back split apart and is not excluded |
| `Scenarios.EnableExcludeSave` | com.eclipsesource.jshint.ui/src/com/eclipsesource/jshint/ui/internal/preferences/EnablementPreferences.java:41-105 | on an empty node: after enabling and excluding `src/Foo.js` a change is recorded; after a successful save none is; the project reads as enabled, `src/Foo.js` as excluded and `src/Bar.js` as not |
| `Scenarios.EnableThenDisable` | com.eclipsesource.jshint.ui/src/com/eclipsesource/jshint/ui/internal/preferences/EnablementPreferences.java:41-50 | enabling then disabling leaves the key absent and the node equal to its backing store, yet the change stays recorded |
| `Scenarios.FailedSaveThenRetry` | com.eclipsesource.jshint.ui/src/com/eclipsesource/jshint/ui/internal/preferences/EnablementPreferences.java:96-105 | a failed save returns "Failed to store preferences" and keeps the change recorded; a successful retry clears it |
| `Scenarios.ExcludeThenInclude` | com.eclipsesource.jshint.ui/src/com/eclipsesource/jshint/ui/internal/preferences/EnablementPreferences.java:56-90 | excluding a file and including it again removes the `excluded` key, and the file is not excluded |

## Left out

- `getResourcePath` (lines 107-109) is not modelled. It only calls the IDE's resource API, whose behaviour is not part of this model.
- The preference node is reduced to its two keys. The model does not cover how `getBoolean` parses a stored string, nor any other key or child node.
- The flush I/O is not modelled. Its outcome is a parameter. The `BackingStoreException` that causes a failure is not carried in the error.
- `Status`, `CoreException` and the plug-in id are reduced to `PersistenceError` with the fixed message. The exception becomes a returned `Outcome`.
- Concurrent use of one node is not modelled. The class has no locking and assumes one owner. The `changed` invariant assumes that only this store writes the node.
- `null` arguments are not modelled, because Dafny strings cannot be null. In the Java code a null path throws nothing: `setExcluded(null, true)` appends the four characters `null` to the stored string (line 117), and `getExcluded(null)` answers false.
- The Java `ArrayList` that `setExcluded` edits in place is a local `seq` that is reassigned. The list is private to the call, so no aliasing is lost.
- `Preferences.EnablementPreferences.SetExcluded`: the membership guarantees are stated only for a stored string the store could have written (distinct, non-empty, colon-free paths) and a non-empty, colon-free path. For other inputs the model states only the exact new stored string, because the code promises nothing more there.
