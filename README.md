# OTP code extraction of the Buttercup mobile app

This project models the one piece of real logic in the app's vault helpers
(`source/shared/archiveContents.js`). It has two parts:

- **The top-level group walk** (`getTopMostFacadeGroup`). Starting from a group id, it follows the
  `parentID` chain of the archive facade's flat group list up to the root id `"0"`. It returns the
  last group it visited, or null when the start id is already the root.
- **The OTP collection** (the body of `updateAllVaultCodes`). For every unlocked source, in order:
  - It goes over the entries of that source's archive facade and skips every entry whose top-level
    group has the role `"trash"`.
  - For every other entry, it finds the attribute fields whose property starts with
    `BC_ENTRY_FIELD_TYPE:` and whose value is `"otp"`. These are the OTP descriptors.
  - For each descriptor, it strips the prefix to get a property name. It then looks up the first
    property field with that name and the first `title` property field.
  - When both exist, it emits an item made of the entry id, the entry title, a display title and
    the OTP URI.
  - Each source with at least one item becomes a group carrying the source's name, id and order.

Layout:

- `wrappers.dfy`: `Option` and `Result`.
- `sequences.dfy`: `Array.prototype.find` and `filter`, as `Find` and `Filter`.
- `facade.dfy`: the facade's plain data, namely groups, entries, fields and unlocked sources.
- `archive_contents.dfy`: everything else.
  - The walk is a total function `Walk`. Its outcome is one of `Returns`, `Throws` and `Diverges`:
    `Throws` is the missing-parent crash and `Diverges` is a cyclic parent chain. `WalkWithin` is
    the source's recursion taken literally, cut off after a number of calls. The two are proved
    to agree both ways. The walk diverges exactly when the recursion never ends. Whenever the
    recursion ends, at any depth, it ends with the walk's outcome.
  - The reduces and the `forEach` are specified by functions that recurse on the last element,
    in the same way the left folds of the source build their results. These are `ItemsFor`,
    `ArchiveOtpItems` and `VaultCodes`.
  - The loops themselves are the methods `ReduceDescriptors` (the inner reduce),
    `CollectArchiveOtpItems` (the entries' reduce) and `UpdateAllVaultCodes` (the `forEach`).
    `CollectEntryOtpItems` has no loop of its own: it filters an entry's descriptors and hands
    them to `ReduceDescriptors`. Each method is proved equal to its function.

A broken parent chain makes the source throw while reducing an archive. That exception aborts the
whole update before anything is dispatched. The model therefore returns
`Failure(MissingGroup(id))` when a `parentID` names no group. It returns `Failure(ParentCycle(id))`
when the chain is a cycle, the case where the source's recursion overflows the call stack. The
first failing entry, in source and entry order, decides the error.

## Model

| member | source | states |
|---|---|---|
| Sequences.FirstIndex | source/shared/archiveContents.js:79-87 | the scan behind `find`: tries the elements from the front; an index it returns is in range and its element satisfies the predicate |
| Sequences.Find | source/shared/archiveContents.js:79-87 | `Array.prototype.find`: the element at the first satisfying index, or nothing; what it yields is in the sequence and satisfies the predicate |
| Sequences.Filter | source/shared/archiveContents.js:71-76 | `Array.prototype.filter`: the satisfying elements in their original order; never longer than the input |
| Sequences.FindSpec | source/shared/archiveContents.js:79-87 | `find` yields nothing exactly when no element satisfies the predicate; otherwise it yields the first element that does |
| Sequences.FirstIndexSpec | source/shared/archiveContents.js:79-87 | the index `find` stops at is the first satisfying one; none is found only when no element satisfies |
| Sequences.FilterSpec | source/shared/archiveContents.js:71-76 | `filter` keeps exactly the elements that satisfy the predicate |
| Sequences.FilterAppend | source/shared/archiveContents.js:71-76 | filtering distributes over concatenation, so the kept elements stay in their original order |
| ArchiveContents.FindGroup | source/shared/archiveContents.js:38 | the group found has the looked-up id and belongs to the list |
| ArchiveContents.FindGroupSpec | source/shared/archiveContents.js:38 | nothing is found exactly when no group has the id; otherwise the first group with that id is found |
| ArchiveContents.Walk | source/shared/archiveContents.js:34-40 | a returned group is the previous group when the id is the root, otherwise a group of the list whose parent is the root; a throw names a non-root id whose lookup finds nothing; only a non-root id can diverge |
| ArchiveContents.TopMostFacadeGroup | source/shared/archiveContents.js:34-40 | returns null exactly when the start id is `"0"`; a returned group is in the list and its `parentID` is `"0"`; a throw names a non-root id whose lookup finds nothing |
| ArchiveContents.TopMostThrowsOnMissingGroup | source/shared/archiveContents.js:38-39 | the walk throws only on an id that no group of the list has |
| ArchiveContents.WalkAgreesWithRecursion | source/shared/archiveContents.js:34-40 | a walk that does not diverge gives the same outcome as the literal recursion given enough nested calls |
| ArchiveContents.DivergingWalkIsTrapped | source/shared/archiveContents.js:34-40 | a diverging walk has entered a set of ids, none of them the root, each naming a group whose parent is again in the set |
| ArchiveContents.TrappedWalkNeverEnds | source/shared/archiveContents.js:34-40 | from inside such a set the literal recursion neither returns nor throws, however many calls it is allowed |
| ArchiveContents.WalkWithin | source/shared/archiveContents.js:34-40 | the recursion as written: `"0"` returns the previous group, a failed lookup throws with the id, otherwise it recurses on the parent with the group found, with no result once the allowed calls run out |
| ArchiveContents.WalkWithinMonotone | source/shared/archiveContents.js:34-40 | once the recursion has ended within some number of calls, allowing more calls gives the same outcome |
| ArchiveContents.TopMostMatchesRecursion | source/shared/archiveContents.js:34-40 | the walk diverges exactly when the recursion never ends; otherwise some depth of the recursion gives the walk's outcome, and every depth at which the recursion ends gives exactly the walk's outcome |
| ArchiveContents.RecursionEndsBelowRoot | source/shared/archiveContents.js:35-39 | a returned group is the ancestor at some depth of the start id, its parent (the next ancestor) is the root, and it is the first group with its id |
| ArchiveContents.TopMostOnChain | source/shared/archiveContents.js:38-39 | when the start id is not the root and the walk returns, it returns a group on the start id's parent chain (the start group itself at depth 0) whose parent is the root |
| ArchiveContents.StripOtpPrefix | source/shared/archiveContents.js:78 | removes the anchored prefix once when it is present (prefix + result = input) and leaves other names unchanged |
| ArchiveContents.StripOtpPrefixRoundTrip | source/shared/archiveContents.js:78 | stripping a prefixed name gives back the name, even one that starts with the prefix itself |
| ArchiveContents.HasOtpPrefix | source/shared/archiveContents.js:14 | `ENTRY_FIELD_OTP_PREFIX.test(s)`: the anchored literal `BC_ENTRY_FIELD_TYPE:` starts `s` |
| ArchiveContents.IsOtpDescriptor | source/shared/archiveContents.js:72-75 | the filter's callback: an attribute field whose property has the prefix and whose value is `"otp"` |
| ArchiveContents.OtpDescriptors | source/shared/archiveContents.js:71-76 | the entry's fields filtered by that callback; no more descriptors than fields |
| ArchiveContents.OtpDescriptorsSpec | source/shared/archiveContents.js:71-76 | a field is an OTP descriptor exactly when it is an attribute, its property starts with `BC_ENTRY_FIELD_TYPE:` and its value is `"otp"` |
| ArchiveContents.FindProperty | source/shared/archiveContents.js:79-83 | a field found is a property field with the requested name, taken from the entry's fields |
| ArchiveContents.FindPropertySpec | source/shared/archiveContents.js:79-87 | nothing is found exactly when the entry has no property field with that name; otherwise the first such field is found |
| ArchiveContents.DisplayTitle | source/shared/archiveContents.js:92 | the display title is the field's title when it is set and non-empty (a truthy string), otherwise its property name, so it is empty only when the property name is |
| ArchiveContents.OtpItemFor | source/shared/archiveContents.js:78-95 | the reduce's callback for one descriptor: strips the prefix, looks up the target and the `title` property, and builds the item when both are found; an item carries the entry's id |
| ArchiveContents.OtpItemForSpec | source/shared/archiveContents.js:78-95 | a descriptor yields an item exactly when the stripped property and a `title` property both exist; its URI and display title come from the first field with the stripped name, and its entry title from the first `title` |
| ArchiveContents.ItemsFor | source/shared/archiveContents.js:77-97 | the inner reduce as a left fold from `[]`: the items of the descriptors before the last, then the last one's item if any; at most one item per descriptor |
| ArchiveContents.ItemsForStep | source/shared/archiveContents.js:88-96 | one step of the inner reduce pushes the descriptor's item when there is one and otherwise leaves the list unchanged |
| ArchiveContents.ItemsForSound | source/shared/archiveContents.js:77-97 | every item of the inner reduce is the item of one of its descriptors |
| ArchiveContents.ResolvedDescriptorIsCollected | source/shared/archiveContents.js:77-97 | the item of every descriptor that resolves is in the reduce's result |
| ArchiveContents.EntryOtpItems | source/shared/archiveContents.js:71-97 | an entry yields at most one item per OTP descriptor |
| ArchiveContents.EntryItemSound | source/shared/archiveContents.js:71-96 | every item of an entry is the item of one of its OTP descriptor fields |
| ArchiveContents.EmittedItemProvenance | source/shared/archiveContents.js:71-94 | every item carries the entry id; it comes from a prefixed `"otp"` attribute field naming a property field, the first of that name, whose value is the URI and which gives the display title; the entry title is the first `title` value |
| ArchiveContents.ItemsForAppend | source/shared/archiveContents.js:77-97 | the inner reduce over a concatenation is the concatenation of the reduces, so items follow descriptor order |
| ArchiveContents.EntryItemsFollowFieldOrder | source/shared/archiveContents.js:71-97 | splitting an entry's fields splits its items in the same order |
| ArchiveContents.EntryWithoutTitleHasNoItems | source/shared/archiveContents.js:84-96 | an entry without a `title` property yields no items |
| ArchiveContents.ResolvedDescriptorsYieldOneItemEach | source/shared/archiveContents.js:77-97 | when every descriptor resolves, there is exactly one item per descriptor |
| ArchiveContents.IsTrashGroup | source/shared/archiveContents.js:65-66 | a top-level group is the trash when it is not null and its role attribute is `"trash"` |
| ArchiveContents.InTrash | source/shared/archiveContents.js:64-66 | an entry is in the trash when its parent walk returns a trash group |
| ArchiveContents.EntryOutput | source/shared/archiveContents.js:62-98 | an entry fails exactly when its parent walk does not return (a missing parent gives `MissingGroup` with that id); an entry in the trash adds nothing; any other entry adds its items |
| ArchiveContents.RootEntryIsNotTrash | source/shared/archiveContents.js:64-70 | an entry directly under the root is never treated as trash and adds its items |
| ArchiveContents.AppendOutputs | source/shared/archiveContents.js:98 | `[...output, ...otpItems]`, where an exception thrown earlier wins: a failure on the left is kept, then a failure on the right; two successes are concatenated |
| ArchiveContents.AppendOutputsAssociative | source/shared/archiveContents.js:98 | joining partial outputs is associative, with the first failure winning |
| ArchiveContents.AppendOutputsUnit | source/shared/archiveContents.js:98 | appending an empty successful output changes nothing |
| ArchiveContents.AppendOutputsFailure | source/shared/archiveContents.js:98 | a failure after a success is kept whatever follows it |
| ArchiveContents.AppendOutputsSuccess | source/shared/archiveContents.js:98 | a join succeeds only when all its parts succeed |
| ArchiveContents.AppendOutputsKeeps | source/shared/archiveContents.js:98 | an element of a successful middle output is in the successful join around it |
| ArchiveContents.ArchiveOtpItems | source/shared/archiveContents.js:62-99 | the entries' reduce as a left fold from `[]`, joining each entry's output in entry order |
| ArchiveContents.ArchiveItemSound | source/shared/archiveContents.js:62-99 | every collected item is an item of an entry of the archive that is not in the trash |
| ArchiveContents.EntryItemIsCollected | source/shared/archiveContents.js:62-99 | when the archive succeeds, every item of every entry outside the trash is collected |
| ArchiveContents.EntryOutputIsCollected | source/shared/archiveContents.js:62-99 | when the archive succeeds, everything an entry adds is collected |
| ArchiveContents.ArchiveOtpItemsAround | source/shared/archiveContents.js:62-99 | the result over all entries joins, in order, the entries before `i`, entry `i` and the entries after it |
| ArchiveContents.ArchiveSucceedsWhenWalksReturn | source/shared/archiveContents.js:62-64 | collecting an archive succeeds when the parent walk of every entry returns |
| ArchiveContents.ArchiveSuccessMeansWalkReturned | source/shared/archiveContents.js:62-64 | when collecting an archive succeeds, the parent walk of every entry returned |
| ArchiveContents.ArchiveOtpItemsAppend | source/shared/archiveContents.js:62-99 | the items of concatenated entry lists are concatenated in entry order, and the first failing entry decides the failure |
| ArchiveContents.TrashedEntryContributesNothing | source/shared/archiveContents.js:63-70 | removing an entry that is in the trash does not change what is collected |
| ArchiveContents.ArchiveOtpItemsStep | source/shared/archiveContents.js:62-99 | one step of the entries' reduce joins what came before with the entry's output |
| ArchiveContents.ArchiveFailureAt | source/shared/archiveContents.js:62-64 | an entry whose walk fails, reached with everything before it succeeding, makes the archive fail with its error |
| ArchiveContents.VaultCodes | source/shared/archiveContents.js:60-108 | the `forEach` as a left fold from `[]`, joining each source's output in source order |
| ArchiveContents.SourceOutput | source/shared/archiveContents.js:100-107 | a source adds at most one group |
| ArchiveContents.VaultCodesShape | source/shared/archiveContents.js:60-108 | there are at most as many groups as sources, and no group is without items |
| ArchiveContents.VaultGroupSound | source/shared/archiveContents.js:60-108 | every group is the non-empty item list of one of the sources, under that source's name, id and order |
| ArchiveContents.VaultCodesAppend | source/shared/archiveContents.js:60-108 | the groups of concatenated source lists are concatenated, so groups follow source order |
| ArchiveContents.VaultSucceedsWhenArchivesSucceed | source/shared/archiveContents.js:60-108 | the update succeeds when the archive of every source succeeds |
| ArchiveContents.VaultSuccessMeansArchiveSucceeded | source/shared/archiveContents.js:60-108 | when the update succeeds, the archive of every source succeeded |
| ArchiveContents.SourceWithItemsIsListed | source/shared/archiveContents.js:100-107 | every source whose archive has items is listed with those items, its name, id and order |
| ArchiveContents.SourceOutputIsListed | source/shared/archiveContents.js:100-107 | the group a source adds is in the final list |
| ArchiveContents.VaultCodesAround | source/shared/archiveContents.js:60-108 | the result over all sources joins, in order, the sources before `i`, source `i` and the sources after it |
| ArchiveContents.VaultCodesStep | source/shared/archiveContents.js:60-108 | one step of the `forEach` joins what came before with the source's output |
| ArchiveContents.VaultFailureAt | source/shared/archiveContents.js:60-62 | a source whose archive fails, reached with everything before it succeeding, makes the update fail with that error |
| ArchiveContents.SourceFailureAt | source/shared/archiveContents.js:60-62 | the same, stated for the source's output |
| ArchiveContents.ReduceDescriptors | source/shared/archiveContents.js:77-97 | the inner reduce loop computes exactly the items of the given descriptors, in order |
| ArchiveContents.CollectEntryOtpItems | source/shared/archiveContents.js:71-97 | filtering the descriptors and reducing them computes exactly the entry's items |
| ArchiveContents.CollectArchiveOtpItems | source/shared/archiveContents.js:61-99 | the entries' reduce loop computes exactly the archive's items, or the first entry's failure |
| ArchiveContents.UpdateAllVaultCodes | source/shared/archiveContents.js:54-109 | the `forEach` loop computes exactly the per-source groups that would be dispatched, or the first failure |

## Left out

- `index.shared.js` and `source/actions/archives.js` are not part of this model. They hold UI wiring and one-line action creators, with no logic to verify.
- `lockSource`, `unlockSource`, `checkSourceHasOfflineCopy`, `getSourceReadonlyStatus` and `archiveToObject` only delegate to the external archive manager or source objects, so they are not modelled.
- `editGroup` and `updateCurrentArchive` are not modelled. They are Redux `dispatch`/`getState` calls, a UI sheet and asynchronous autofill registration.
- `createArchiveFacade` and the archive manager are external. Each unlocked source comes with its facade (groups and entries) as input, and the key `Group.Attributes.Role` is the parameter `roleKey`.
- The final `dispatch(setOTPCodes(...))` is a side effect. `UpdateAllVaultCodes` returns the list instead.
- The regular expression `/^BC_ENTRY_FIELD_TYPE:/` is modelled only as the anchored literal prefix test plus removal of one occurrence. Other regular-expression semantics are not modelled.
- A cyclic parent chain makes the source recurse until the JavaScript engine throws a stack-overflow error. The model reports it as `ParentCycle`.
- The engine's call-stack limit is not modelled. A long enough acyclic chain also overflows the stack in the source, but the model walks it to the end and returns its top-level group.
- A missing parent makes the source throw a `TypeError` on `group.parentID`. The model reports it as `MissingGroup` carrying the missing id, not as the engine's error object.
- JavaScript values are narrowed to strings. Ids are strings, so the loose comparison `groupID == "0"` is string equality. A field's `title` is `Option<string>`, where absent and `""` are both falsy.
- A field's `propertyType` is one of two constructors (`Property`, `Attribute`), and a group's `attributes` is a `map<string, string>`. A field of any other type cannot be represented, so the model does not show the source skipping such a field in both `filter` and `find`. A non-string attribute value cannot be represented either.
- ReduceDescriptors: the callback's two `find` calls and its `if` are the function `OtpItemFor`, which the loop calls, rather than statements inlined in the loop body.
- The mutable arrays `allOtpItems` and `otpGroups` are sequences that the loops reassign. No other code can see them while the loops run, so aliasing does not arise.
