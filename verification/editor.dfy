/** The macro editor page: the seed and the load pass, group-level edits,
    the drag session (start, drag-over proposals, drop), and the save. */
module Editor {
  import opened Wrappers
  import opened Tree
  import Seqs
  import Text
  import GroupNode
  import ButtonNode
  import MessageButtonService

  /** The page state the tree edits and drags act on. */
  datatype EditorState = EditorState(groups: seq<Group>, dragged: Option<DraggableItem>, indicator: Option<ItemPosition>)

  // ---------------------------------------------------------------------
  // Seed and load
  // ---------------------------------------------------------------------

  const SeedGroupName := "예제그룹"
  const SeedButtonName := "버튼예시"
  const SeedText := "여기에 채널에 보낼 메시지를 입력하세요"

  /** The three ids the page draws once when its module loads. */
  datatype SeedIds = SeedIds(groupId: string, buttonId: string, contentId: string)

  /** `defaultGroup` as declared: every index 0 and empty back-references. */
  function DefaultGroup(ids: SeedIds): Group {
    Group(ids.groupId, SeedGroupName, 0,
          [Button(ids.buttonId, SeedButtonName, 0, "", "",
                  [Content(ids.contentId, "", SeedText, 0, "")])])
  }

  /** The group used when the server has nothing or the load throws: the
      default group with its back-references filled in. */
  function SeedGroup(ids: SeedIds): (g: Group)
    ensures Normalized([g])
    ensures g.id == ids.groupId && g.name == SeedGroupName && |g.buttons| == 1
    ensures g.buttons[0].id == ids.buttonId && g.buttons[0].name == SeedButtonName
    ensures |g.buttons[0].contents| == 1
    ensures g.buttons[0].contents[0].id == ids.contentId && g.buttons[0].contents[0].text == SeedText
  {
    var d := DefaultGroup(ids);
    var b := d.buttons[0].(groupId := d.id);
    d.(buttons := [b.(contents := [b.contents[0].(buttonId := b.id)])])
  }

  /** Filling in the back-references by hand gives what the index pass would. */
  lemma SeedIsNormalizedDefault(ids: SeedIds)
    ensures [SeedGroup(ids)] == Normalize([DefaultGroup(ids)])
  {
    var n := Normalize([DefaultGroup(ids)]);
    assert n[0].buttons[0].contents == SeedGroup(ids).buttons[0].contents;
    assert n[0].buttons == SeedGroup(ids).buttons;
  }

  /** `loadData`: `None` is a thrown load; a non-empty answer is
      normalised, anything else gives the seed. */
  function LoadGroups(server: Option<seq<Group>>, ids: SeedIds): (r: seq<Group>)
    ensures |r| > 0 && Normalized(r)
    ensures server.None? || server.value == [] ==> r == [SeedGroup(ids)]
    ensures server.Some? && server.value != [] ==> SameShape(server.value, r)
  {
    if server.Some? && |server.value| > 0 then Normalize(server.value) else [SeedGroup(ids)]
  }

  /** The service turns a failed fetch into an empty list, so the page
      shows the seed. */
  lemma FailedFetchShowsSeed(groups: Option<seq<MessageButtonService.GroupRow>>,
                             buttons: Option<seq<MessageButtonService.ButtonRow>>,
                             contents: Option<seq<Content>>, ids: SeedIds)
    requires groups.None? || buttons.None? || contents.None?
    ensures LoadGroups(Some(MessageButtonService.FetchGroupsFromServer(groups, buttons, contents)), ids)
         == [SeedGroup(ids)]
  {
  }

  // ---------------------------------------------------------------------
  // Group edits
  // ---------------------------------------------------------------------

  /** `handleGroupChange`: the patch is merged into every group with the
      id; the rest are left as they are. */
  function HandleGroupChange(gs: seq<Group>, groupId: string, p: GroupPatch): (r: seq<Group>)
    ensures |r| == |gs|
    ensures forall i :: 0 <= i < |gs| ==> r[i].id == gs[i].id && r[i].index == gs[i].index
    ensures forall i :: 0 <= i < |gs| && gs[i].id != groupId ==> r[i] == gs[i]
    ensures forall i :: 0 <= i < |gs| && gs[i].id == groupId ==> r[i] == MergeGroup(gs[i], p)
  {
    seq(|gs|, i requires 0 <= i < |gs| => if gs[i].id == groupId then MergeGroup(gs[i], p) else gs[i])
  }

  /** A rename saved in a group header changes that group's name only. */
  lemma RenameChangesOnlyName(gs: seq<Group>, groupId: string, name: string)
    ensures var r := HandleGroupChange(gs, groupId, GroupNode.RenamePatch(name));
      forall i :: 0 <= i < |gs| ==>
        r[i] == if gs[i].id == groupId then gs[i].(name := name) else gs[i]
  {
  }

  const NewGroupPrefix := "Group "

  function NewGroupName(count: nat): string {
    NewGroupPrefix + Text.NatToString(count + 1)
  }

  /** `addGroup`: one empty group is appended with index the old count. */
  function AddGroup(gs: seq<Group>, groupId: string): (r: seq<Group>)
    ensures |r| == |gs| + 1 && r[..|gs|] == gs
    ensures var g := r[|gs|];
      g.id == groupId && g.name == NewGroupName(|gs|) && g.index == |gs| && g.buttons == []
    ensures Normalized(gs) ==> Normalized(r)
  {
    gs + [Group(groupId, NewGroupName(|gs|), |gs|, [])]
  }

  function GroupNotWithId(groupId: string): Group -> bool {
    (g: Group) => g.id != groupId
  }

  /** `removeGroup`: every group with the id goes, the rest keep their order. */
  function RemoveGroup(gs: seq<Group>, groupId: string): (r: seq<Group>)
    ensures forall i :: 0 <= i < |r| ==> r[i].id != groupId
    ensures Seqs.IsSubsequence(r, gs)
    ensures forall i :: 0 <= i < |gs| && gs[i].id != groupId ==> gs[i] in r
    ensures forall g :: multiset(r)[g] == if g.id != groupId then multiset(gs)[g] else 0
  {
    Seqs.FilterIsSubsequence(GroupNotWithId(groupId), gs);
    Seqs.FilterMembers(GroupNotWithId(groupId), gs);
    Seqs.Filter(GroupNotWithId(groupId), gs)
  }

  /** Removing a group just added under a fresh id gives the list back. */
  lemma RemoveUndoesAddGroup(gs: seq<Group>, groupId: string)
    requires forall i :: 0 <= i < |gs| ==> gs[i].id != groupId
    ensures RemoveGroup(AddGroup(gs, groupId), groupId) == gs
  {
    var r := AddGroup(gs, groupId);
    var added := r[|gs|];
    assert r == gs + [added];
    Seqs.FilterAppend(GroupNotWithId(groupId), gs, [added]);
    Seqs.FilterKeepsAll(GroupNotWithId(groupId), gs);
    Seqs.FilterCons(GroupNotWithId(groupId), added, []);
  }

  // ---------------------------------------------------------------------
  // Button moves
  // ---------------------------------------------------------------------

  function HasGroupId(groupId: string): Group -> bool {
    (g: Group) => g.id == groupId
  }

  function HasButtonId(buttonId: string): Button -> bool {
    (b: Button) => b.id == buttonId
  }

  /** What `moveButton` does to one group once the button has been found:
      the source loses every button with the id, the target (checked
      second) gets the found record spliced in, the rest are untouched. */
  function MoveInGroup(g: Group, buttonId: string, sourceGroupId: string, targetGroupId: string,
                       targetIndex: nat, moved: Button): Group {
    if g.id == sourceGroupId then g.(buttons := GroupNode.RemoveButton(g.buttons, buttonId))
    else if g.id == targetGroupId then g.(buttons := Seqs.InsertAt(g.buttons, targetIndex, moved))
    else g
  }

  /** `moveButton`: finds the first group with the source id and its first
      button with the id; without both nothing changes. The moved record
      keeps its old `groupId`. */
  function MoveButton(gs: seq<Group>, buttonId: string, sourceGroupId: string, targetGroupId: string,
                      targetIndex: nat): (r: seq<Group>)
    ensures |r| == |gs|
    ensures (forall i :: 0 <= i < |gs| && gs[i].id == sourceGroupId ==>
               forall j :: 0 <= j < |gs[i].buttons| ==> gs[i].buttons[j].id != buttonId) ==> r == gs
  {
    match Seqs.FindIndex(gs, HasGroupId(sourceGroupId))
    case None => gs
    case Some(si) =>
      match Seqs.FindIndex(gs[si].buttons, HasButtonId(buttonId))
      case None => gs
      case Some(bi) =>
        var moved := gs[si].buttons[bi];
        seq(|gs|, i requires 0 <= i < |gs| =>
          MoveInGroup(gs[i], buttonId, sourceGroupId, targetGroupId, targetIndex, moved))
  }

  /** `si` is the first group with id `s`, and `bi` the first button of it
      with id `b`: what `moveButton`'s two `find` calls return. */
  predicate FoundAt(gs: seq<Group>, s: string, b: string, si: nat, bi: nat) {
    && si < |gs| && gs[si].id == s && (forall i :: 0 <= i < si ==> gs[i].id != s)
    && bi < |gs[si].buttons| && gs[si].buttons[bi].id == b
    && (forall j :: 0 <= j < bi ==> gs[si].buttons[j].id != b)
  }

  /** A found button leaves every source group, appears unchanged at the
      clamped target index of every other group with the target id, and
      every other group is untouched. */
  lemma MoveButtonSpec(gs: seq<Group>, buttonId: string, s: string, t: string, k: nat, si: nat, bi: nat)
    requires FoundAt(gs, s, buttonId, si, bi)
    ensures var r := MoveButton(gs, buttonId, s, t, k);
      forall i :: 0 <= i < |gs| ==>
        && r[i].id == gs[i].id && r[i].name == gs[i].name && r[i].index == gs[i].index
        && (gs[i].id == s ==> r[i].buttons == GroupNode.RemoveButton(gs[i].buttons, buttonId))
        && (gs[i].id != s && gs[i].id == t ==>
              && r[i].buttons[Seqs.ClampIndex(k, |gs[i].buttons|)] == gs[si].buttons[bi]
              && Seqs.RemoveAt(r[i].buttons, Seqs.ClampIndex(k, |gs[i].buttons|)) == gs[i].buttons)
        && (gs[i].id != s && gs[i].id != t ==> r[i] == gs[i])
  {
    var p := HasGroupId(s);
    var q := HasButtonId(buttonId);
    assert Seqs.FindIndex(gs, p) == Some(si);
    assert Seqs.FindIndex(gs[si].buttons, q) == Some(bi);
    forall i | 0 <= i < |gs| && gs[i].id != s && gs[i].id == t
      ensures Seqs.RemoveAt(Seqs.InsertAt(gs[i].buttons, k, gs[si].buttons[bi]), Seqs.ClampIndex(k, |gs[i].buttons|))
           == gs[i].buttons
    {
      Seqs.RemoveInserted(gs[i].buttons, k, gs[si].buttons[bi]);
    }
  }

  /** A cross-group move does not rewrite the moved button's `groupId`:
      until the next index pass the target holds a button naming the
      source group. The save-time pass repairs it. */
  lemma MovedButtonKeepsStaleParent(gs: seq<Group>, buttonId: string, s: string, t: string, k: nat,
                                    si: nat, bi: nat, ti: nat)
    requires FoundAt(gs, s, buttonId, si, bi) && gs[si].buttons[bi].groupId == s
    requires ti < |gs| && gs[ti].id == t && s != t
    ensures var r := MoveButton(gs, buttonId, s, t, k);
      var c := Seqs.ClampIndex(k, |gs[ti].buttons|);
      && c < |r[ti].buttons| && r[ti].buttons[c].id == buttonId
      && r[ti].buttons[c].groupId == s
      && Normalize(r)[ti].buttons[c].groupId == t
  {
    MoveButtonSpec(gs, buttonId, s, t, k, si, bi);
  }

  /** When source and target coincide the source branch wins: a button
      that lives only in that group is gone from the whole tree. */
  lemma MoveWithinOneGroupLosesButton(gs: seq<Group>, buttonId: string, s: string, k: nat, si: nat, bi: nat)
    requires FoundAt(gs, s, buttonId, si, bi)
    requires forall i, j :: 0 <= i < |gs| && 0 <= j < |gs[i].buttons| && gs[i].buttons[j].id == buttonId ==>
      gs[i].id == s
    ensures var r := MoveButton(gs, buttonId, s, s, k);
      forall i, j :: 0 <= i < |r| && 0 <= j < |r[i].buttons| ==> r[i].buttons[j].id != buttonId
  {
    MoveButtonSpec(gs, buttonId, s, s, k, si, bi);
    var r := MoveButton(gs, buttonId, s, s, k);
    forall i, j | 0 <= i < |r| && 0 <= j < |r[i].buttons| ensures r[i].buttons[j].id != buttonId {
      if gs[i].id != s {
        assert r[i] == gs[i];
      }
    }
  }

  /** `reorderButtons`: every group with the id takes the given list. */
  function ReorderButtons(gs: seq<Group>, groupId: string, buttons: seq<Button>): (r: seq<Group>)
    ensures |r| == |gs|
    ensures forall i :: 0 <= i < |gs| && gs[i].id != groupId ==> r[i] == gs[i]
    ensures forall i :: 0 <= i < |gs| && gs[i].id == groupId ==> r[i] == gs[i].(buttons := buttons)
  {
    seq(|gs|, i requires 0 <= i < |gs| => if gs[i].id == groupId then gs[i].(buttons := buttons) else gs[i])
  }

  // ---------------------------------------------------------------------
  // Drag session
  // ---------------------------------------------------------------------

  /** `handleDragStart`. */
  function DragStart(st: EditorState, item: DraggableItem): (r: EditorState)
    ensures r.dragged == Some(item) && r.groups == st.groups && r.indicator == st.indicator
  {
    st.(dragged := Some(item))
  }

  /** The tree change of a drop: a group splice-reorder, a same-group
      button splice-reorder (on the group as it was when the drag ended),
      or a cross-group move whose target falls back to the source. */
  function ApplyDrop(gs: seq<Group>, d: DraggableItem, ind: ItemPosition): seq<Group> {
    if d.itemType == GroupItem then Seqs.Move(gs, d.index, ind.newIndex)
    else if Truthy(d.parentId) then
      var parent := d.parentId.value;
      if d.parentId == ind.newParentId then
        match Seqs.FindIndex(gs, HasGroupId(parent))
        case None => gs
        case Some(gi) => ReorderButtons(gs, parent, Seqs.Move(gs[gi].buttons, d.index, ind.newIndex))
      else
        MoveButton(gs, d.id, parent, if Truthy(ind.newParentId) then ind.newParentId.value else parent, ind.newIndex)
    else gs
  }

  /** `handleDragEnd`: applies the drop when both a dragged item and an
      indicator exist, and always clears both. */
  function DragEnd(st: EditorState): (r: EditorState)
    ensures r.dragged.None? && r.indicator.None?
    ensures st.dragged.None? || st.indicator.None? ==> r.groups == st.groups
  {
    var groups := if st.dragged.Some? && st.indicator.Some?
                  then ApplyDrop(st.groups, st.dragged.value, st.indicator.value) else st.groups;
    EditorState(groups, None, None)
  }

  /** Dropping a group is a permutation of the groups: the dragged group
      is taken out and put back at the (clamped) proposed index. */
  lemma DropGroupReorders(st: EditorState)
    requires st.dragged.Some? && st.indicator.Some? && st.dragged.value.itemType == GroupItem
    ensures var r := DragEnd(st).groups; var from := st.dragged.value.index;
      && |r| == |st.groups| && multiset(r) == multiset(st.groups)
      && (from < |st.groups| ==>
            var to := Seqs.ClampIndex(st.indicator.value.newIndex, |st.groups| - 1);
            r[to] == st.groups[from] && Seqs.RemoveAt(r, to) == Seqs.RemoveAt(st.groups, from))
  {
  }

  /** Dropping a button inside its own group permutes that group's buttons
      and leaves every other group as it was. */
  lemma DropWithinGroupReorders(st: EditorState, gi: nat)
    requires st.dragged.Some? && st.indicator.Some?
    requires st.dragged.value.itemType == ButtonItem && Truthy(st.dragged.value.parentId)
    requires st.dragged.value.parentId == st.indicator.value.newParentId
    requires gi < |st.groups| && st.groups[gi].id == st.dragged.value.parentId.value
    requires forall i :: 0 <= i < gi ==> st.groups[i].id != st.groups[gi].id
    ensures var r := DragEnd(st).groups;
      && |r| == |st.groups|
      && (forall i :: 0 <= i < |r| && st.groups[i].id != st.groups[gi].id ==> r[i] == st.groups[i])
      && |r[gi].buttons| == |st.groups[gi].buttons|
      && multiset(r[gi].buttons) == multiset(st.groups[gi].buttons)
      && r[gi].(buttons := st.groups[gi].buttons) == st.groups[gi]
  {
    assert Seqs.FindIndex(st.groups, HasGroupId(st.groups[gi].id)) == Some(gi);
  }

  /** Dropping a button on another group is `moveButton` from its parent
      to the proposed parent, or back to its parent when none is proposed. */
  lemma DropAcrossGroupsMoves(st: EditorState)
    requires st.dragged.Some? && st.indicator.Some?
    requires st.dragged.value.itemType == ButtonItem && Truthy(st.dragged.value.parentId)
    requires st.dragged.value.parentId != st.indicator.value.newParentId
    ensures var d := st.dragged.value; var ind := st.indicator.value;
      DragEnd(st).groups == MoveButton(st.groups, d.id, d.parentId.value,
                                       if Truthy(ind.newParentId) then ind.newParentId.value else d.parentId.value,
                                       ind.newIndex)
  {
  }

  /** A group drag-over: ignored without a drag or over the dragged item
      itself; a group over a group proposes the hovered group's index; a
      button over a group proposes the top of that group. */
  function GroupDragOver(st: EditorState, item: DraggableItem): (r: EditorState)
    ensures r.groups == st.groups && r.dragged == st.dragged
    ensures st.dragged.None? || st.dragged.value.id == item.id ==> r == st
    ensures st.dragged.Some? && st.dragged.value.id != item.id && item.itemType == GroupItem
            && st.dragged.value.itemType == GroupItem ==>
      r.indicator == Some(ItemPosition(item.id, GroupItem, item.index, None))
    ensures st.dragged.Some? && st.dragged.value.id != item.id && item.itemType == GroupItem
            && st.dragged.value.itemType == ButtonItem ==>
      r.indicator == Some(ItemPosition(st.dragged.value.id, ButtonItem, 0, Some(item.id)))
    ensures item.itemType != GroupItem ==> r == st
  {
    if st.dragged.None? || st.dragged.value.id == item.id then st
    else
      var d := st.dragged.value;
      if d.itemType == GroupItem && item.itemType == GroupItem then
        st.(indicator := Some(ItemPosition(item.id, GroupItem, item.index, None)))
      else if d.itemType == ButtonItem && item.itemType == GroupItem then
        st.(indicator := Some(ItemPosition(d.id, ButtonItem, 0, Some(item.id))))
      else st
  }

  /** A button drag-over: a button over another button proposes the gap
      above it when the cursor is strictly above its middle and the gap
      below otherwise, in the hovered button's group. Positions are whole
      numbers; `2 * y < 2 * top + height` is `y < top + height / 2`. */
  function ButtonDragOver(st: EditorState, item: DraggableItem, top: int, height: int, y: int): (r: EditorState)
    ensures r.groups == st.groups && r.dragged == st.dragged
    ensures st.dragged.None? || st.dragged.value.id == item.id ==> r == st
    ensures st.dragged.Some? && st.dragged.value.id != item.id
            && st.dragged.value.itemType == ButtonItem && item.itemType == ButtonItem ==>
      && r.indicator.Some? && r.indicator.value.id == st.dragged.value.id
      && r.indicator.value.itemType == ButtonItem && r.indicator.value.newParentId == item.parentId
      && (r.indicator.value.newIndex == item.index <==> 2 * y < 2 * top + height)
      && (r.indicator.value.newIndex == item.index + 1 <==> 2 * y >= 2 * top + height)
    ensures !(st.dragged.Some? && st.dragged.value.itemType == ButtonItem && item.itemType == ButtonItem) ==> r == st
  {
    if st.dragged.None? || st.dragged.value.id == item.id then st
    else
      var d := st.dragged.value;
      if d.itemType == ButtonItem && item.itemType == ButtonItem then
        var newIndex := if 2 * y < 2 * top + height then item.index else item.index + 1;
        st.(indicator := Some(ItemPosition(d.id, ButtonItem, newIndex, item.parentId)))
      else st
  }

  /** The drag item a button card hands to its handlers. */
  function ButtonItemAt(g: Group, k: nat): DraggableItem
    requires k < |g.buttons|
  {
    DraggableItem(g.buttons[k].id, ButtonItem, k, Some(g.id))
  }

  /** The drag item a group card hands to its handlers. */
  function GroupItemAt(gs: seq<Group>, k: nat): DraggableItem
    requires k < |gs|
  {
    DraggableItem(gs[k].id, GroupItem, k, None)
  }

  /** Hovering another button highlights it, and the marker drawn is the
      gap above it for the upper half and, for the last button, the gap
      below it for the lower half. */
  lemma ButtonHoverMarksGap(st: EditorState, g: Group, k: nat, top: int, height: int, y: int)
    requires k < |g.buttons| && st.dragged.Some?
    requires st.dragged.value.itemType == ButtonItem && st.dragged.value.id != g.buttons[k].id
    ensures var r := ButtonDragOver(st, ButtonItemAt(g, k), top, height, y);
      && ButtonNode.IsDropTarget(g.buttons[k].id, g.id, k, r.dragged, r.indicator)
      && (2 * y < 2 * top + height ==> GroupNode.IsDropBefore(g, k, r.dragged, r.indicator))
      && (2 * y >= 2 * top + height && k == |g.buttons| - 1 ==> GroupNode.IsDropAfter(g, k, r.dragged, r.indicator))
  {
  }

  /** As written, a group drag-over names the hovered group in the
      indicator, and the group marker excludes exactly that group: after
      any group-over-group drag-over no group shows the marker. */
  lemma GroupMarkerNeverShows(st: EditorState, k: nat)
    requires k < |st.groups| && st.dragged.Some? && st.dragged.value.itemType == GroupItem
    requires st.dragged.value.id != st.groups[k].id
    ensures var r := GroupDragOver(st, GroupItemAt(st.groups, k));
      forall j :: 0 <= j < |st.groups| ==> !GroupNode.IsGroupDropTarget(st.groups[j], j, r.dragged, r.indicator)
  {
  }

  /** A button dragged over a group rings that group exactly when the
      button is not already one of its buttons. */
  lemma ButtonOverGroupRings(st: EditorState, gs: seq<Group>, k: nat)
    requires k < |gs| && st.dragged.Some? && st.dragged.value.itemType == ButtonItem
    requires st.dragged.value.id != gs[k].id
    ensures var r := GroupDragOver(st, GroupItemAt(gs, k));
      GroupNode.IsButtonDropTarget(gs[k], r.dragged, r.indicator) <==>
        forall j :: 0 <= j < |gs[k].buttons| ==> gs[k].buttons[j].id != st.dragged.value.id
  {
  }

  /** The drop lands on the index the marker showed before the item is
      taken out, so a button dropped below a later sibling of its own group
      ends one place further down than the marked gap: with `[a, b, c]`,
      dropping `a` in the gap between `b` and `c` gives `[b, c, a]`. */
  lemma DownwardDropOvershoots(g: Group, a: Button, b: Button, c: Button, top: int, height: int, y: int)
    requires g.buttons == [a, b, c] && a.id != b.id && g.id != ""
    requires 2 * y >= 2 * top + height
    ensures var st := DragStart(EditorState([g], None, None), ButtonItemAt(g, 0));
      var over := ButtonDragOver(st, ButtonItemAt(g, 1), top, height, y);
      && over.indicator == Some(ItemPosition(a.id, ButtonItem, 2, Some(g.id)))
      && DragEnd(over).groups == [g.(buttons := [b, c, a])]
  {
    var item := ButtonItemAt(g, 0);
    var st := DragStart(EditorState([g], None, None), item);
    var over := ButtonDragOver(st, ButtonItemAt(g, 1), top, height, y);
    var ind := ItemPosition(a.id, ButtonItem, 2, Some(g.id));
    assert over == EditorState([g], Some(item), Some(ind));
    DropInOnlyGroup(g, item, ind);
    ShiftDown(a, b, c);
  }

  /** In a one-group list, a drop inside that group is the `splice` pair on its buttons. */
  lemma DropInOnlyGroup(g: Group, item: DraggableItem, ind: ItemPosition)
    requires item.itemType == ButtonItem && item.parentId == Some(g.id) && g.id != ""
    requires ind.newParentId == Some(g.id)
    ensures ApplyDrop([g], item, ind) == [g.(buttons := Seqs.Move(g.buttons, item.index, ind.newIndex))]
  {
    assert Seqs.FindIndex([g], HasGroupId(g.id)) == Some(0);
  }

  lemma ShiftDown<T>(a: T, b: T, c: T)
    ensures Seqs.Move([a, b, c], 0, 2) == [b, c, a]
  {
    Seqs.MoveFirstToLast([a, b, c]);
    assert [a, b, c][1..] == [b, c];
  }

  // ---------------------------------------------------------------------
  // Save
  // ---------------------------------------------------------------------

  /** `handleSave`: the index pass rewrites the page's own records in
      place, then the save walk runs on the result. */
  method HandleSave(st: EditorState, guildId: string, store: MessageButtonService.Store, fails: nat -> bool)
    returns (saved: EditorState, ok: bool, remote: MessageButtonService.Store,
             log: seq<MessageButtonService.Request>)
    ensures Normalized(saved.groups) && SameShape(st.groups, saved.groups)
    ensures saved.dragged == st.dragged && saved.indicator == st.indicator
    ensures var es := MessageButtonService.SaveOrder(saved.groups);
      ok ==> remote == MessageButtonService.WriteAll(store, es, guildId)
    ensures var es := MessageButtonService.SaveOrder(saved.groups);
      var n := |MessageButtonService.GetKeys(log)|;
      !ok ==> 1 <= n <= |es| && remote == MessageButtonService.WriteAll(store, es[..n - 1], guildId)
  {
    saved := st.(groups := Normalize(st.groups));
    ok, remote, log := MessageButtonService.SaveData(guildId, saved.groups, store, fails);
  }

  /** Saving again right after a save sends the same entities in the same
      order: the index pass has nothing left to change. */
  lemma ResaveSendsSameOrder(gs: seq<Group>)
    ensures MessageButtonService.SaveOrder(Normalize(Normalize(gs))) == MessageButtonService.SaveOrder(Normalize(gs))
  {
    NormalizeIdempotent(gs);
  }
}
