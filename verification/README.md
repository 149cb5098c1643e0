# Message-button editor and dashboard rules, modelled in Dafny

This project models the core of a Discord bot dashboard. The centre of it is
the macro editor. In the editor a guild administrator arranges an ordered
three-level tree:

- a **group** holds **buttons**;
- a **button** holds **contents**;
- a content is one "send this text to this channel" instruction.

The model covers:

- the per-node edits: rename with the name sanitiser, add, remove, and edit a content;
- the drag session: drag start, the drag-over proposals, and the drop;
- the index normalisation pass. It makes every `index` equal its array position and every back-reference name its parent;
- the server-side tree assembly;
- the save walk, which upserts every entity with GET, then PUT, then POST as the fallback.

Next to the editor sit the dashboard's small rule sets:

- the command catalogue in browser storage, with role-gated create, update and delete;
- the theme gallery's tag list, filter and tag toggle;
- the command browser's category tabs and filter;
- the auth context's role check, authenticated flag and logout;
- the dashboard navigation, filtered by role, and its active-link rule.

Each source component or service is one module:

| module | models |
|---|---|
| `Tree` | the tree records and the normalisation pass |
| `NameField` | the header name input shared by groups and buttons |
| `ContentNode` | one content's editor |
| `ButtonNode` | a button's content list, summary, channel-name cache and drop marker |
| `GroupNode` | a group's button list and drop markers |
| `Editor` | the page: seed, load, group edits, drags, save |
| `MessageButtonService` | channel lookups, tree assembly and the save walk |
| `Commands` | the command catalogue |
| `Themes` | the theme gallery |
| `CommandList` | the command browser |
| `Auth` | the auth context |
| `Dashboard` | the dashboard navigation |

Shared helpers sit in four more modules:

- `Wrappers`: `Option`, `Result`, and JavaScript truthiness of an optional string;
- `Seqs`: `filter`, `splice`, `find`/`findIndex`, `new Set`;
- `Text`: UTF-16 length, `trim`, ASCII `toLowerCase`, `includes`, number-to-string, code-point ordering;
- `Sorting`: the stable `sort` by an integer key.

Everything is a pure function over immutable values. Network calls become inputs:

- what the remote returns is an `Option` (`None` when the call throws);
- the remote store is a map from `(collection, id)` to the last payload written;
- which requests throw is a `fails: nat -> bool` oracle over request numbers, and a request that throws is taken to have left the remote unchanged.

Generated ids and clock readings are parameters too.

The model follows what the code does, including where that is surprising:

- **Moving a button keeps its stale `groupId`.** `moveButton` splices the button into the target group with its old `groupId`, and only the normalisation pass at the next save repairs it (`Editor.MovedButtonKeepsStaleParent`).
- **A button can lose itself in a move.** When source and target are the same group, the button is filtered out of the source and never spliced back (`Editor.MoveWithinOneGroupLosesButton`).
- **The save is one depth-first walk.** `saveData` visits each group, then each of its buttons, each button followed by its contents.
- **One entity can get both PUT and POST.** This happens when the GET succeeds and the PUT throws (`MessageButtonService.UpsertCanUpdateAndCreate`).
- **`handleSave` writes the normalised indices back into the live state** (`Editor.HandleSave`).

Other behaviours the proofs pin down:

- **The group drop marker never appears.** A group-over-group drag-over puts the hovered group's id in the indicator, and the marker test asks for an id different from the hovered group's own (`Editor.GroupMarkerNeverShows`).
- **A downward drop inside one group lands one slot too far.** The gap index is computed before the dragged button is spliced out (`Editor.DownwardDropOvershoots`).
- **Removing a button does not renumber the rest** (`GroupNode.RemoveLeavesStaleIndex`).
- **A name typed through an IME composition is not sanitised.** `compositionend` lowers the flag and calls the change handler, but that handler was created while the composition was open and still reads the raised flag. It stores the composed text as typed, and a save hands it to the parent even when it has more than ten characters (`NameField.ComposedNameEscapesSanitizer`).

## Model

| member | source | states |
|---|---|---|
| `Tree.NormalizeContents` | src/pages/MessageButtonEditor.tsx:119-123 | every content gets its position as index and the button's id as parent; ids, channels and texts are kept in order |
| `Tree.NormalizeButtons` | src/pages/MessageButtonEditor.tsx:116-125 | every button gets its position and the group's id, its contents are normalised, and names, guilds and contents are otherwise kept |
| `Tree.Normalize` | src/pages/MessageButtonEditor.tsx:114-127 | the result satisfies the at-rest invariant (index = position, back-references name the parent) and has the input's shape |
| `Tree.NormalizeFixesNormalized` | src/pages/MessageButtonEditor.tsx:63-76 | a tree already at rest passes through the pass unchanged |
| `Tree.NormalizeIdempotent` | src/pages/MessageButtonEditor.tsx:114-127 | normalising twice is normalising once |
| `Tree.NormalizeIgnoresIndexFields` | src/pages/MessageButtonEditor.tsx:114-127 | the pass depends only on the tree's shape, never on the old index or back-reference values |
| `Tree.NormalizedIndicesContiguous` | src/pages/MessageButtonEditor.tsx:114-115 | after the pass the group indices are exactly 0..N-1, each used once |
| `NameField.Sanitize` | src/components/group.tsx:98 | the result is a valid name (allowed characters, at most 10) and is the longest such prefix of the input with disallowed characters deleted |
| `NameField.SanitizeIsSubsequence` | src/components/button.tsx:80 | sanitising only deletes characters; order is kept |
| `NameField.SanitizeIdentityIffValid` | src/components/button.tsx:80-86 | the input comes back unchanged exactly when it is already a valid name |
| `NameField.SanitizeIdempotent` | src/components/group.tsx:98 | sanitising a sanitised name changes nothing |
| `NameField.SanitizeExample` | src/components/button.tsx:79-80 | space and `#` are stripped from `a b#c각` and the Hangul syllable is kept |
| `NameField.Input` | src/components/group.tsx:90-107 | during an IME composition the raw text is stored; otherwise the stored value is the sanitised text, and the error message is shown exactly when sanitising altered the input |
| `NameField.CompositionStart` | src/components/group.tsx:109 | opening a composition keeps the value and error and only raises the composing flag |
| `NameField.CompositionEnd` | src/components/group.tsx:90-113 | closing a composition lowers the flag; because the handler still reads the open flag, the typed text is stored unsanitised and the error is kept; only an end outside a composition sanitises, clearing the error exactly when the text was valid |
| `NameField.ComposedNameEscapesSanitizer` | src/components/group.tsx:90-130 | after a composition, save hands the parent exactly the typed text, so an eleven-syllable name reaches the parent although it is not a valid name |
| `NameField.InputKeepsValid` | src/components/button.tsx:70-89 | outside a composition, any run of change events leaves a valid name in the field |
| `NameField.StartEditing` | src/components/group.tsx:122-125 | entering edit mode keeps the typed value |
| `NameField.SaveEditing` | src/components/group.tsx:127-130 | save hands the typed value to the parent and leaves edit mode |
| `NameField.CancelEditing` | src/components/group.tsx:132-135 | cancel discards what was typed: the field shows the stored name again and edit mode ends |
| `ContentNode.ChannelChange` | src/components/content.tsx:25-27 | a channel pick patches the channel and nothing else |
| `ContentNode.TextChange` | src/components/content.tsx:29-34 | a text edit is emitted exactly when its UTF-16 length is at most 2000, and then patches only the text |
| `ContentNode.AcceptedTextEdit` | src/components/content.tsx:29-34 | an accepted edit replaces the text, keeps id, channel, index and parent, and never yields error styling |
| `ContentNode.ChannelEditOnlyChangesChannel` | src/components/content.tsx:25-27 | merging a channel pick changes the channel and keeps every other field |
| `ContentNode.ErrorImpliesWarning` | src/components/content.tsx:97-111 | error styling implies the counter warning, and the warning shows exactly above 1800 units |
| `ContentNode.TextEditsNeverError` | src/components/content.tsx:31 | starting below the cap, no sequence of edits ever reaches error styling |
| `ButtonNode.UpdateContent` | src/components/button.tsx:143-148 | only the content with the given id is merged with the patch; order, length and every other content are kept |
| `ButtonNode.AddContent` | src/components/button.tsx:150-162 | a blank content with index = old length and the button as parent is appended; the old list is a prefix; a normalised list stays normalised |
| `ButtonNode.RemoveContent` | src/components/button.tsx:164-167 | no content with the id remains, the rest keep their order, and every other content survives with as many copies as before |
| `ButtonNode.RemoveUndoesAdd` | src/components/button.tsx:150-167 | removing the content just added with a fresh id restores the list |
| `ButtonNode.RemoveKeepsOne` | src/components/button.tsx:335 | when the remove control is offered (more than one content) and ids are unique, at least one content remains |
| `ButtonNode.ChannelLabel` | src/components/button.tsx:194 | a cached non-empty channel name is shown, otherwise the unknown-channel label |
| `ButtonNode.SummaryTextSpec` | src/components/button.tsx:195-200 | blank text shows the placeholder, trimmed text of at most 20 characters is shown whole, longer text is cut to 20 plus an ellipsis; never empty, at most 23 long |
| `ButtonNode.SummaryEntries` | src/components/button.tsx:191-193 | one entry for each of the first min(3, n) contents, in order |
| `ButtonNode.SummaryEmptyIff` | src/components/button.tsx:185-205 | the summary is the no-contents placeholder exactly when the button has no contents |
| `ButtonNode.SummaryIgnoresLaterContents` | src/components/button.tsx:188-192 | contents after the third never affect the summary |
| `ButtonNode.CacheFirst` | src/components/button.tsx:104-110 | one lookup stores the first name returned, or leaves the cache alone when nothing came back |
| `ButtonNode.LoadChannelNames` | src/components/button.tsx:96-118 | the lookups issued are exactly the distinct channel ids, in first-appearance order, that are non-empty and not already cached, and the cache is extended with their results |
| `ButtonNode.LoadedCoversContents` | src/components/button.tsx:100-110 | after loading, every looked-up channel the directory knows has its name cached, and cached names are never overwritten |
| `ButtonNode.DropTargetsAreNeighbours` | src/components/button.tsx:176-183 | at most two adjacent buttons of one group are highlighted, and never the dragged one |
| `GroupNode.UpdateButton` | src/components/group.tsx:137-142 | only the button with the given id is merged; id, index, parent and guild of every button are kept |
| `GroupNode.UpdateButtonKeepsNormalized` | src/components/group.tsx:137-142 | replacing a button's contents with a normalised list keeps the group normalised |
| `GroupNode.NewButtonNameNumbers` | src/components/group.tsx:150 | the default name is the prefix followed by the decimal count + 1, which parses back to count + 1 |
| `GroupNode.NewButtonNamesDiffer` | src/components/group.tsx:150 | different counts give different default names |
| `GroupNode.AddButton` | src/components/group.tsx:144-166 | a button with the default name, index = old length, this group and guild, and one blank normalised content is appended; the old list is a prefix |
| `GroupNode.RemoveButton` | src/components/group.tsx:168-171 | no button with the id remains, the rest keep their order, every other button survives with as many copies as before |
| `GroupNode.RemoveUndoesAdd` | src/components/group.tsx:144-171 | removing the button just added under a fresh id restores the list |
| `GroupNode.RemoveLeavesStaleIndex` | src/components/group.tsx:168-171 | removing the first of two buttons leaves the second with index 1, so the list is no longer normalised |
| `GroupNode.RenamePatch` | src/components/group.tsx:127-130 | the save patch carries the name only, and merging it renames and changes nothing else |
| `GroupNode.DropMarkersMarkOneGap` | src/components/group.tsx:312-324 | at most one before-marker shows, and never together with the after-marker |
| `GroupNode.GroupMarkersExclusive` | src/components/group.tsx:179-190 | a group never shows the group marker and the button ring at once |
| `Editor.SeedGroup` | src/pages/MessageButtonEditor.tsx:78-91 | the seed is one normalised example group with one button and one content carrying the prompt text |
| `Editor.SeedIsNormalizedDefault` | src/pages/MessageButtonEditor.tsx:24-46 | the seed is the default group with its back-references filled in, i.e. its normalisation |
| `Editor.LoadGroups` | src/pages/MessageButtonEditor.tsx:58-109 | the editor always starts non-empty and normalised; it is the seed when the server gave nothing, else the server tree with its shape kept |
| `Editor.FailedFetchShowsSeed` | src/pages/MessageButtonEditor.tsx:92-105 | when any of the three server reads fails the editor shows the seed |
| `Editor.HandleGroupChange` | src/pages/MessageButtonEditor.tsx:142-148 | only the group with the id is merged; id and index of every group are kept |
| `Editor.RenameChangesOnlyName` | src/pages/MessageButtonEditor.tsx:142-148 | a rename changes that group's name and nothing else anywhere |
| `Editor.AddGroup` | src/pages/MessageButtonEditor.tsx:150-160 | an empty group named `Group n+1` with index n is appended; a normalised list stays normalised |
| `Editor.RemoveGroup` | src/pages/MessageButtonEditor.tsx:162-165 | no group with the id remains, the rest keep their order, and every other group survives with as many copies as before |
| `Editor.RemoveUndoesAddGroup` | src/pages/MessageButtonEditor.tsx:150-165 | removing the group just added under a fresh id restores the list |
| `Editor.MoveButton` | src/pages/MessageButtonEditor.tsx:167-197 | the group count is kept, and nothing changes when the source group does not hold the button |
| `Editor.MoveButtonSpec` | src/pages/MessageButtonEditor.tsx:175-193 | the source loses the button, a different target gains it at the clamped index with its other buttons in order, and every other group is untouched |
| `Editor.MovedButtonKeepsStaleParent` | src/pages/MessageButtonEditor.tsx:183-190 | after a cross-group move the button still names its old group, and normalisation corrects it to the new one |
| `Editor.MoveWithinOneGroupLosesButton` | src/pages/MessageButtonEditor.tsx:175-190 | with source = target the button disappears from the tree |
| `Editor.ReorderButtons` | src/pages/MessageButtonEditor.tsx:199-206 | only the named group gets the new button list |
| `Editor.DragStart` | src/pages/MessageButtonEditor.tsx:208-210 | starting a drag records the item and changes nothing else |
| `Editor.DragEnd` | src/pages/MessageButtonEditor.tsx:212-244 | the drag state is always cleared, and the tree is untouched unless both item and indicator were present |
| `Editor.DropGroupReorders` | src/pages/MessageButtonEditor.tsx:214-220 | a group drop permutes the groups: the dragged group lands at the clamped gap and the others keep their order |
| `Editor.DropWithinGroupReorders` | src/pages/MessageButtonEditor.tsx:222-230 | a drop inside the parent group permutes that group's buttons and touches nothing else |
| `Editor.DropAcrossGroupsMoves` | src/pages/MessageButtonEditor.tsx:231-238 | a drop into another group is a move, with the target falling back to the old parent when the indicator names none |
| `Editor.DropInOnlyGroup` | src/pages/MessageButtonEditor.tsx:223-229 | in a one-group tree, a drop inside the group is the splice pair on its buttons |
| `Editor.GroupDragOver` | src/pages/MessageButtonEditor.tsx:246-263 | group over group proposes the hovered group's slot; button over group proposes slot 0 of that group; anything else changes nothing |
| `Editor.ButtonDragOver` | src/pages/MessageButtonEditor.tsx:265-282 | a button over a button proposes the gap above the hovered one when the cursor is in its upper half, the gap below otherwise |
| `Editor.ButtonHoverMarksGap` | src/pages/MessageButtonEditor.tsx:265-282 | the proposal lights the hovered button, and its before-marker or, on the last button, its after-marker |
| `Editor.GroupMarkerNeverShows` | src/pages/MessageButtonEditor.tsx:249-254 | after a group-over-group proposal no group shows the group marker |
| `Editor.ButtonOverGroupRings` | src/pages/MessageButtonEditor.tsx:255-261 | after a button-over-group proposal the group is a button drop target exactly when the dragged button is not already in it |
| `Editor.DownwardDropOvershoots` | src/pages/MessageButtonEditor.tsx:223-228 | dragging the first of three buttons onto the lower half of the second moves it to the end, one past the gap shown |
| `Editor.HandleSave` | src/pages/MessageButtonEditor.tsx:111-140 | the state ends normalised with its shape kept; on success the remote holds every entity in walk order, on failure exactly those before the failing one |
| `Editor.ResaveSendsSameOrder` | src/pages/MessageButtonEditor.tsx:114-128 | saving a second time sends the same entities in the same order |
| `MessageButtonService.FetchChannels` | src/api/messageButtonService.ts:9-17 | the no-channel entry comes first, followed by the remote list, or alone when the call fails |
| `MessageButtonService.FetchChannelById` | src/api/messageButtonService.ts:20-28 | one name for a known channel, none for an unknown one |
| `MessageButtonService.ContentsOf` | src/api/messageButtonService.ts:45-47 | a button's contents are exactly the content rows naming it, as a multiset, sorted by index |
| `MessageButtonService.AttachContents` | src/api/messageButtonService.ts:44-50 | the button row's fields are kept and its contents are attached |
| `MessageButtonService.ButtonsOfSpec` | src/api/messageButtonService.ts:40-50 | a group's buttons are exactly the rows naming it, sorted by index, each carrying its own contents |
| `MessageButtonService.AttachButtons` | src/api/messageButtonService.ts:39-52 | the group row's fields are kept and its buttons are attached |
| `MessageButtonService.AssembleTreeSpec` | src/api/messageButtonService.ts:39-53 | one assembled group per group row, sorted by index |
| `MessageButtonService.AssembleTreeKeepsGroups` | src/api/messageButtonService.ts:39-53 | every group row appears in the tree |
| `MessageButtonService.FetchGroupsFromServer` | src/api/messageButtonService.ts:31-60 | any failed read yields the empty list; otherwise the assembled tree |
| `MessageButtonService.AssembledTreeHasNoOrphans` | src/api/messageButtonService.ts:39-53 | every button in the tree names an existing group and comes from a row, and every content names its button |
| `MessageButtonService.AttachedGroupHasNoOrphans` | src/api/messageButtonService.ts:40-52 | in one assembled group every button names that group and every content names its button |
| `MessageButtonService.AssembledTreeKeepsOwnedButtons` | src/api/messageButtonService.ts:40-42 | a button row naming an existing group appears under that group |
| `MessageButtonService.SaveOrderAppend` | src/api/messageButtonService.ts:65-97 | the walk order of a concatenation is the concatenation of walk orders |
| `MessageButtonService.SaveOrderOfOneGroup` | src/api/messageButtonService.ts:76-95 | within a group, each button is followed by its contents and then the next button |
| `MessageButtonService.WriteAllLastWins` | src/api/messageButtonService.ts:65-97 | after a full walk each key holds the payload of the last entity written under it, and untouched keys keep their old payload |
| `MessageButtonService.UpsertSpec` | src/api/messageButtonService.ts:69-74 | GET first; PUT exactly when the GET succeeds; POST exactly when the GET or PUT throws; the step completes exactly when its last request succeeds, and then stores the payload |
| `MessageButtonService.UpsertCanUpdateAndCreate` | src/api/messageButtonService.ts:79-84 | a found entity whose PUT throws is both updated and created |
| `MessageButtonService.UpsertGetKeys` | src/api/messageButtonService.ts:89-94 | each upsert issues exactly one GET, for its own entity |
| `MessageButtonService.WalkWritesAll` | src/api/messageButtonService.ts:63-99 | a walk that completes writes every entity in order |
| `MessageButtonService.WalkFetchCount` | src/api/messageButtonService.ts:65-97 | a completed walk fetches every entity once; an aborted one fetches at least one more than it started with |
| `MessageButtonService.WalkFetchesInOrder` | src/api/messageButtonService.ts:65-97 | the GETs issued are a prefix of the walk order |
| `MessageButtonService.WalkAbortKeepsPrefix` | src/api/messageButtonService.ts:100-103 | an aborted walk leaves the remote with exactly the entities before the failing one written |
| `MessageButtonService.SaveData` | src/api/messageButtonService.ts:63-104 | true exactly after writing every entity; on false the GETs are a prefix of the walk and the remote holds all but the last one fetched |
| `Sorting.SortByKey` | src/api/messageButtonService.ts:42 | the result is sorted by key, a permutation of the input, and stable: equal keys keep their order |
| `Sorting.SortSortedIsIdentity` | src/api/messageButtonService.ts:53 | sorting an already sorted list changes nothing |
| `Seqs.Move` | src/pages/MessageButtonEditor.tsx:216-218 | remove-then-insert keeps length and multiset, puts the moved element at the clamped target, and keeps the others in order |
| `Seqs.InsertAt` | src/pages/MessageButtonEditor.tsx:185 | `splice(i, 0, x)` puts `x` at the index clamped to the length and shifts the rest |
| `Seqs.Distinct` | src/components/button.tsx:98 | each element of the input exactly once, nothing else |
| `Seqs.DistinctFirstAppearanceOrder` | src/components/CommandList.tsx:28 | `new Set` lists elements in order of first appearance |
| `Seqs.FindIndex` | src/api/commandsService.ts:142 | none when no element matches; otherwise the first matching index |
| `Text.Utf16Len` | src/components/content.tsx:31 | the length in UTF-16 units: between the code-point count and twice it, and equal to it for BMP text |
| `Text.Trim` | src/components/button.tsx:195 | JavaScript whitespace is removed at both ends and nowhere else |
| `Text.Contains` | src/components/CommandList.tsx:33-34 | true exactly when the needle occurs at some position |
| `Text.NatToStringRoundTrip` | src/api/commandsService.ts:113 | the decimal form of the creation time parses back to the number |
| `Text.SortUnique` | src/pages/Themes.tsx:96-98 | strictly increasing in code-point order, with the same members as the input |
| `Commands.Defaults` | src/api/commandsService.ts:6-45 | three system-owned commands: help, ping, ban |
| `Commands.Initialize` | src/api/commandsService.ts:48-53 | an empty slot is seeded with the defaults; a filled slot is left alone |
| `Commands.InitializeInvisible` | src/api/commandsService.ts:48-62 | seeding never changes what reads return, and seeding twice is seeding once |
| `Commands.GetCommandById` | src/api/commandsService.ts:83-97 | none exactly when no stored command has the id; otherwise the first one that does |
| `Commands.CreateCommand` | src/api/commandsService.ts:99-128 | a non-editor is refused with storage unchanged; otherwise the new command, stamped with the role and time, is appended |
| `Commands.UpdateCommand` | src/api/commandsService.ts:130-163 | refused for non-editors, not-found for a missing id; an editor naming a present id always succeeds, and then the first command with the id is merged and re-stamped in place |
| `Commands.DeleteCommand` | src/api/commandsService.ts:165-190 | refused for non-editors, not-found for a missing id; an editor naming a present id always succeeds, and then the first command with the id is removed |
| `Commands.RefusalsLeaveStorage` | src/api/commandsService.ts:99-190 | every refused create, update or delete leaves storage unchanged |
| `Commands.CreateThenReadThenDelete` | src/api/commandsService.ts:99-190 | a created command reads back by its id, and deleting it restores the stored list |
| `Commands.UpdateThenRead` | src/api/commandsService.ts:130-163 | after a successful update that keeps the id, reading that id returns the updated command |
| `Themes.FlatTags` | src/pages/Themes.tsx:97 | exactly the tags some theme carries |
| `Themes.AllTags` | src/pages/Themes.tsx:96-98 | the tags of all themes, each once, in sorted order |
| `Themes.AllTagsCanonical` | src/pages/Themes.tsx:96-98 | the tag list has no duplicates and is the only sorted list of exactly those tags |
| `Themes.FilterThemes` | src/pages/Themes.tsx:101-109 | exactly the themes matching the search and the selected tag, in order, each as often as in the input |
| `Themes.EmptyFilterKeepsAll` | src/pages/Themes.tsx:101-109 | an empty search with no tag shows every theme |
| `Themes.ClickTag` | src/pages/Themes.tsx:112-114 | clicking the selected tag clears it; clicking another selects it |
| `Themes.ClickTwiceRestores` | src/pages/Themes.tsx:112-114 | two clicks on the same tag restore the selection |
| `Themes.TagNarrowsSearch` | src/pages/Themes.tsx:106-114 | selecting a tag keeps only themes with it; clicking it again gives back the plain search |
| `CommandList.Categories` | src/components/CommandList.tsx:28 | the tabs start with All |
| `CommandList.CategoriesSpec` | src/components/CommandList.tsx:28 | after All, every command's category appears exactly once and nothing else does |
| `CommandList.CategoriesInFirstAppearanceOrder` | src/components/CommandList.tsx:28 | category tabs follow the order categories first appear in |
| `CommandList.FilteredCommands` | src/components/CommandList.tsx:31-39 | exactly the commands matching the search and tab, in order, each as often as in the input |
| `CommandList.HitListedTwice` | src/components/CommandList.tsx:31-39 | a search hit shows under All and under its own category's tab |
| `CommandList.CategoryTabWithinAll` | src/components/CommandList.tsx:35 | a category tab lists a subset of the All tab |
| `Auth.HasRoleTable` | src/contexts/AuthContext.tsx:172-183 | nobody has no role; admin has every role; regular has only regular; visitor has none |
| `Auth.RoleNeedsSignIn` | src/contexts/AuthContext.tsx:172-192 | holding a role implies being signed in and not being a visitor |
| `Auth.Logout` | src/contexts/AuthContext.tsx:153-158 | logout clears the user and leaves the loading flag |
| `Auth.LogoutRevokesEverything` | src/contexts/AuthContext.tsx:153-192 | after logout nobody is authenticated and every role check fails |
| `Dashboard.EffectiveRole` | src/layout/DashboardLayout.tsx:80 | a missing user browses as visitor, a signed-in one under its own role, never as super |
| `Dashboard.FilteredNavItems` | src/layout/DashboardLayout.tsx:79-81 | exactly the entries listing the effective role, in order, each as often as in the input |
| `Dashboard.NavByRole` | src/layout/DashboardLayout.tsx:32-81 | non-admins see Commands, Themes and Guilds; an admin sees all six entries |
| `Dashboard.UserManagementAdminOnly` | src/layout/DashboardLayout.tsx:57-62 | User Management is listed exactly for an admin |
| `Dashboard.AtMostOneActive` | src/layout/DashboardLayout.tsx:71-76 | for any location at most one entry is highlighted |

## Left out

- Rendering is not modelled: JSX, styles, icons, toasts, the collapse and edit toggles, and the `Draggable` wrapper component (`src/components/draggable.tsx`).
- Cursor geometry is integers. `ButtonDragOver` receives the hovered element's top and height and the cursor's y, and compares `2·y` with `2·top + height`. This avoids the floating-point midpoint.
- Network, Supabase and `localStorage` are replaced by values:
  - remote reads are `Option`s;
  - the remote store is a map;
  - request failures are an oracle;
  - command storage is an `Option` of the command list.
- JSON encoding and parse errors are not modelled, and neither are the `catch` branches that only log.
- Payloads are stored, not logged. The request log records each request's method and key but not its body.
- `uuidv4()`, `Date.now()` and `new Date().toISOString()` are parameters. Ids are assumed fresh only where a lemma says so. Where the source reads the clock several times in a row, one parameter stands for all the reads: the creation and update stamps of a new command (`src/api/commandsService.ts:116-117`) and the six stamps of the built-in commands (lines 17-43). In the source these may differ by a millisecond; in the model they are equal.
- `Auth.User`'s role is one of the three declared roles. The profile loader casts the stored role string without a check (`src/contexts/AuthContext.tsx:53`), so a stored `super` or unknown string is not modelled.
- `Commands.Defaults` takes the load time as a parameter. The catalogue operations take the fallback list as a parameter instead of building it.
- `Text.Lower` folds ASCII letters only; full Unicode case mapping is not modelled.
- `ButtonNode.SummaryTextSpec` counts characters (code points) for the 20-character cut, whereas JavaScript counts UTF-16 units. The two agree on Basic Multilingual Plane text, which includes all Hangul.
- `Text.SortUnique` orders by code point rather than UTF-16 unit. The two orders differ only when a string contains characters beyond the Basic Multilingual Plane.
- The `channelId ?? ""` fallbacks are not modelled because `channelId` is a plain string in the model.
- `Seqs.Move` leaves the list unchanged when `from` is past the end. JavaScript would splice `undefined` into it. Drag indices come from rendered items, so this case is not reached.
- React batching is not modelled. Each handler acts on the state it is given, and `handleDragEnd` reading `groups` from its closure is treated as the current state. The one stale closure that changes an outcome, the composition flag read by `compositionend`, is modelled in `NameField.CompositionEnd`.
- The `isSaving` flag, the success/failure toasts and `guildName` are not modelled.
- The dashboard's redirect of signed-out visitors to the login page is not modelled.
- The login flow and session lookup in `src/contexts/AuthContext.tsx` are not modelled. `Auth` takes the resulting user as a value.
- `Editor.MoveButton`: its own contract states only the length and the not-found case. The full effect of a move is stated in `Editor.MoveButtonSpec`, which needs the found indices as inputs.
- `Commands.CreateCommand`: the fallback list is an immutable parameter. In the source, an empty `commands` slot makes `getStoredCommands` return the module-level `defaultCommands` array itself (`src/api/commandsService.ts:61`), and the `push` at line 120 also appends to it. A later read of an empty slot would then see the new command. The model does not carry this aliasing; the app seeds the slot at module load (`initializeCommands`) and never empties it afterwards.
- `Commands.UpdateCommand`: the same aliasing is not modelled. On an empty slot the index assignment at line 149 also rewrites the shared `defaultCommands` entry, and the model's fallback list stays as it was.
- `Commands.DeleteCommand`: the same aliasing is not modelled. On an empty slot the `splice` at line 184 also removes the entry from the shared `defaultCommands`, and the model's fallback list stays as it was.
- `MessageButtonService.Upsert`: a request that throws is assumed not to have changed the remote. `src/lib/api.ts` aborts a request after a timeout (lines 4, 31, 56), and a timeout or dropped connection can come after the server has applied the write; the model's store never records such a landed-but-failed PUT or POST.
- `MessageButtonService.WalkAbortKeepsPrefix`: "exactly the entities before the failing one are written" holds under the same assumption. If the failing request had landed, the remote would also hold the failing entity's payload.
