/** One group card: edits to its button list, the new-button naming rule,
    the rename it emits, and its drop markers. */
module GroupNode {
  import opened Wrappers
  import opened Tree
  import Seqs
  import Text

  // ---------------------------------------------------------------------
  // Button list edits
  // ---------------------------------------------------------------------

  /** `handleButtonChange`: the patch is merged into the button with the
      given id; every button keeps its id, position, index, parent and guild. */
  function UpdateButton(bs: seq<Button>, buttonId: string, p: ButtonPatch): (r: seq<Button>)
    ensures |r| == |bs|
    ensures forall i :: 0 <= i < |bs| ==>
      && r[i].id == bs[i].id && r[i].index == bs[i].index
      && r[i].groupId == bs[i].groupId && r[i].guildId == bs[i].guildId
    ensures forall i :: 0 <= i < |bs| && bs[i].id != buttonId ==> r[i] == bs[i]
    ensures forall i :: 0 <= i < |bs| && bs[i].id == buttonId ==> r[i] == MergeButton(bs[i], p)
  {
    seq(|bs|, i requires 0 <= i < |bs| => if bs[i].id == buttonId then MergeButton(bs[i], p) else bs[i])
  }

  /** A content edit inside a button that is already at rest keeps the
      group at rest: content patches never touch index or parent fields. */
  lemma UpdateButtonKeepsNormalized(bs: seq<Button>, groupId: string, buttonId: string, cs: seq<Content>)
    requires ButtonsNormalized(bs, groupId)
    requires forall i :: 0 <= i < |bs| && bs[i].id == buttonId ==> ContentsNormalized(cs, buttonId)
    ensures ButtonsNormalized(UpdateButton(bs, buttonId, ButtonPatch(None, Some(cs))), groupId)
  {
  }

  const NewButtonPrefix := "새 버튼 "

  /** `새 버튼 ${buttons.length + 1}`. */
  function NewButtonName(count: nat): string {
    NewButtonPrefix + Text.NatToString(count + 1)
  }

  /** A new button's name is the prefix followed by the decimal numeral of
      its one-based position, so different counts give different names. */
  lemma NewButtonNameNumbers(count: nat)
    ensures var name := NewButtonName(count);
      && |name| > |NewButtonPrefix| && name[..|NewButtonPrefix|] == NewButtonPrefix
      && Text.AllDigits(name[|NewButtonPrefix|..])
      && Text.ParseDigits(name[|NewButtonPrefix|..]) == count + 1
  {
    var name := NewButtonName(count);
    assert name[|NewButtonPrefix|..] == Text.NatToString(count + 1);
    Text.NatToStringRoundTrip(count + 1);
  }

  lemma NewButtonNamesDiffer(m: nat, n: nat)
    requires m != n
    ensures NewButtonName(m) != NewButtonName(n)
  {
    NewButtonNameNumbers(m);
    NewButtonNameNumbers(n);
  }

  /** `addButton`: one button is appended, named after its position, with
      index the old length, this group as parent, and one blank content. */
  function AddButton(g: Group, guildId: string, buttonId: string, contentId: string): (r: seq<Button>)
    ensures |r| == |g.buttons| + 1 && r[..|g.buttons|] == g.buttons
    ensures var b := r[|g.buttons|];
      && b.id == buttonId && b.name == NewButtonName(|g.buttons|) && b.index == |g.buttons|
      && b.groupId == g.id && b.guildId == guildId
      && |b.contents| == 1 && ContentsNormalized(b.contents, buttonId)
      && b.contents[0].id == contentId && b.contents[0].channelId == "" && b.contents[0].text == ""
    ensures ButtonsNormalized(g.buttons, g.id) ==> ButtonsNormalized(r, g.id)
  {
    var added := Button(buttonId, NewButtonName(|g.buttons|), |g.buttons|, g.id, guildId,
                        [Content(contentId, "", "", 0, buttonId)]);
    g.buttons + [added]
  }

  function NotWithId(buttonId: string): Button -> bool {
    (b: Button) => b.id != buttonId
  }

  /** `removeButton`: every button with the id goes; the rest keep their
      order and their stored index fields, which are not renumbered. */
  function RemoveButton(bs: seq<Button>, buttonId: string): (r: seq<Button>)
    ensures forall i :: 0 <= i < |r| ==> r[i].id != buttonId
    ensures Seqs.IsSubsequence(r, bs)
    ensures forall i :: 0 <= i < |bs| && bs[i].id != buttonId ==> bs[i] in r
    ensures forall b :: multiset(r)[b] == if b.id != buttonId then multiset(bs)[b] else 0
  {
    Seqs.FilterIsSubsequence(NotWithId(buttonId), bs);
    Seqs.FilterMembers(NotWithId(buttonId), bs);
    Seqs.Filter(NotWithId(buttonId), bs)
  }

  /** Removing a button just added under a fresh id gives the list back. */
  lemma RemoveUndoesAdd(g: Group, guildId: string, buttonId: string, contentId: string)
    requires forall i :: 0 <= i < |g.buttons| ==> g.buttons[i].id != buttonId
    ensures RemoveButton(AddButton(g, guildId, buttonId, contentId), buttonId) == g.buttons
  {
    var r := AddButton(g, guildId, buttonId, contentId);
    var added := r[|g.buttons|];
    assert r == g.buttons + [added];
    Seqs.FilterAppend(NotWithId(buttonId), g.buttons, [added]);
    Seqs.FilterKeepsAll(NotWithId(buttonId), g.buttons);
    Seqs.FilterCons(NotWithId(buttonId), added, []);
  }

  /** Because indices are not renumbered, removing the first of two
      buttons at rest leaves the group out of rest until the next save. */
  lemma RemoveLeavesStaleIndex(g: Group, b0: Button, b1: Button)
    requires g.buttons == [b0, b1] && ButtonsNormalized(g.buttons, g.id) && b0.id != b1.id
    ensures RemoveButton(g.buttons, b0.id) == [b1]
    ensures !ButtonsNormalized(RemoveButton(g.buttons, b0.id), g.id)
  {
    Seqs.FilterCons(NotWithId(b0.id), b0, [b1]);
    Seqs.FilterCons(NotWithId(b0.id), b1, []);
    assert [b0, b1] == [b0] + [b1];
    assert b1.index == 1;
  }

  // ---------------------------------------------------------------------
  // Rename
  // ---------------------------------------------------------------------

  /** `saveEditing`: the group emits its edited name and nothing else. */
  function RenamePatch(name: string): (p: GroupPatch)
    ensures p.name == Some(name) && p.buttons.None?
    ensures forall g: Group :: MergeGroup(g, p) == g.(name := name)
  {
    GroupPatch(Some(name), None)
  }

  // ---------------------------------------------------------------------
  // Drop markers
  // ---------------------------------------------------------------------

  /** `isGroupDropTarget`: a group is dragged, the indicator proposes a
      group position equal to this group's index, and names another group. */
  predicate IsGroupDropTarget(g: Group, index: nat, dragged: Option<DraggableItem>, indicator: Option<ItemPosition>) {
    && indicator.Some? && dragged.Some?
    && dragged.value.itemType == GroupItem
    && indicator.value.id != g.id
    && indicator.value.itemType == GroupItem
    && indicator.value.newIndex == index
  }

  /** `isButtonDropTarget`: a dragged button that this group does not hold
      is proposed for this group. The ring the header draws additionally asks
      that the dragged item's recorded parent is not this group, which adds
      nothing while group ids are unique; that rendering test is not modelled. */
  predicate IsButtonDropTarget(g: Group, dragged: Option<DraggableItem>, indicator: Option<ItemPosition>) {
    && indicator.Some? && dragged.Some?
    && dragged.value.itemType == ButtonItem
    && indicator.value.newParentId == Some(g.id)
    && !(exists i :: 0 <= i < |g.buttons| && g.buttons[i].id == dragged.value.id)
  }

  /** The marker drawn above the button at `k`. */
  predicate IsDropBefore(g: Group, k: nat, dragged: Option<DraggableItem>, indicator: Option<ItemPosition>)
    requires k < |g.buttons|
  {
    && indicator.Some? && dragged.Some?
    && dragged.value.itemType == ButtonItem
    && dragged.value.id != g.buttons[k].id
    && indicator.value.newParentId == Some(g.id)
    && indicator.value.newIndex == k
  }

  /** The marker drawn below the last button. */
  predicate IsDropAfter(g: Group, k: nat, dragged: Option<DraggableItem>, indicator: Option<ItemPosition>) {
    && k == |g.buttons| - 1
    && indicator.Some? && dragged.Some?
    && dragged.value.itemType == ButtonItem
    && indicator.value.newParentId == Some(g.id)
    && indicator.value.newIndex == |g.buttons|
  }

  /** One indicator marks at most one gap of a group: the gap above the
      button at its `newIndex`, or, exactly when `newIndex` is the button
      count, the gap below the last button. */
  lemma DropMarkersMarkOneGap(g: Group, k1: nat, k2: nat, dragged: Option<DraggableItem>, indicator: Option<ItemPosition>)
    requires k1 < |g.buttons| && k2 < |g.buttons|
    ensures IsDropBefore(g, k1, dragged, indicator) && IsDropBefore(g, k2, dragged, indicator) ==> k1 == k2
    ensures !(IsDropBefore(g, k1, dragged, indicator) && IsDropAfter(g, k2, dragged, indicator))
  {
  }

  /** A group position marker needs a group drag, and a group ring needs a
      button drag: the two never show together. */
  lemma GroupMarkersExclusive(g: Group, index: nat, dragged: Option<DraggableItem>, indicator: Option<ItemPosition>)
    ensures !(IsGroupDropTarget(g, index, dragged, indicator) && IsButtonDropTarget(g, dragged, indicator))
  {
  }
}
