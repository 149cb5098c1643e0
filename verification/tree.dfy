/** The editor's ordered three-level tree (Group → Button → Content), the
    drag descriptors, the partial-update records the components emit, and
    the index normalisation pass run on load and on save. */
module Tree {
  import opened Wrappers

  /** One "send this text to this channel" instruction of a button. */
  datatype Content = Content(id: string, channelId: string, text: string, index: int, buttonId: string)

  /** A macro button; `groupId` is a back-reference, the owning group's
      `buttons` sequence is the authoritative edge. */
  datatype Button = Button(id: string, name: string, index: int, groupId: string, guildId: string,
                           contents: seq<Content>)

  datatype Group = Group(id: string, name: string, index: int, buttons: seq<Button>)

  datatype ItemType = GroupItem | ButtonItem

  /** The item under drag, captured at drag start; `parentId` is the owning
      group for a button and absent for a group. */
  datatype DraggableItem = DraggableItem(id: string, itemType: ItemType, index: nat, parentId: Option<string>)

  /** The drop proposal computed during drag-over. */
  datatype ItemPosition = ItemPosition(id: string, itemType: ItemType, newIndex: nat, newParentId: Option<string>)

  /** `Partial<GroupData>` as the components emit it: a new name or a new button list. */
  datatype GroupPatch = GroupPatch(name: Option<string>, buttons: Option<seq<Button>>)

  /** `Partial<ButtonData>`: a new name or a new content list. */
  datatype ButtonPatch = ButtonPatch(name: Option<string>, contents: Option<seq<Content>>)

  /** `Partial<ContentData>`: a new channel or a new text. */
  datatype ContentPatch = ContentPatch(channelId: Option<string>, text: Option<string>)

  /** `{ ...group, ...patch }`. */
  function MergeGroup(g: Group, p: GroupPatch): Group {
    g.(name := p.name.GetOr(g.name), buttons := p.buttons.GetOr(g.buttons))
  }

  /** `{ ...button, ...patch }`. */
  function MergeButton(b: Button, p: ButtonPatch): Button {
    b.(name := p.name.GetOr(b.name), contents := p.contents.GetOr(b.contents))
  }

  /** `{ ...content, ...patch }`. */
  function MergeContent(c: Content, p: ContentPatch): Content {
    c.(channelId := p.channelId.GetOr(c.channelId), text := p.text.GetOr(c.text))
  }

  // ---------------------------------------------------------------------
  // Index normalisation
  // ---------------------------------------------------------------------

  /** Every content's index is its position and its parent is `buttonId`. */
  predicate ContentsNormalized(cs: seq<Content>, buttonId: string) {
    forall i :: 0 <= i < |cs| ==> cs[i].index == i && cs[i].buttonId == buttonId
  }

  predicate ButtonsNormalized(bs: seq<Button>, groupId: string) {
    forall i :: 0 <= i < |bs| ==>
      bs[i].index == i && bs[i].groupId == groupId && ContentsNormalized(bs[i].contents, bs[i].id)
  }

  /** The at-rest invariant: every index equals array position and every
      back-reference names the owning parent. */
  predicate Normalized(gs: seq<Group>) {
    forall i :: 0 <= i < |gs| ==> gs[i].index == i && ButtonsNormalized(gs[i].buttons, gs[i].id)
  }

  /** Two trees agree on everything except the index and back-reference fields. */
  predicate SameContents(a: seq<Content>, b: seq<Content>) {
    |a| == |b| &&
    forall i :: 0 <= i < |a| ==> a[i].id == b[i].id && a[i].channelId == b[i].channelId && a[i].text == b[i].text
  }

  predicate SameButtons(a: seq<Button>, b: seq<Button>) {
    |a| == |b| &&
    forall i :: 0 <= i < |a| ==>
      && a[i].id == b[i].id && a[i].name == b[i].name && a[i].guildId == b[i].guildId
      && SameContents(a[i].contents, b[i].contents)
  }

  predicate SameShape(a: seq<Group>, b: seq<Group>) {
    |a| == |b| &&
    forall i :: 0 <= i < |a| ==> a[i].id == b[i].id && a[i].name == b[i].name && SameButtons(a[i].buttons, b[i].buttons)
  }

  function NormalizeContents(cs: seq<Content>, buttonId: string): (r: seq<Content>)
    ensures ContentsNormalized(r, buttonId)
    ensures SameContents(cs, r)
  {
    seq(|cs|, i requires 0 <= i < |cs| => cs[i].(index := i, buttonId := buttonId))
  }

  function NormalizeButtons(bs: seq<Button>, groupId: string): (r: seq<Button>)
    ensures ButtonsNormalized(r, groupId)
    ensures SameButtons(bs, r)
  {
    seq(|bs|, i requires 0 <= i < |bs| =>
      bs[i].(index := i, groupId := groupId, contents := NormalizeContents(bs[i].contents, bs[i].id)))
  }

  /** The pass run on load and on save: rewrites every `index`, `groupId`
      and `buttonId` from array position and parent, changing nothing else. */
  function Normalize(gs: seq<Group>): (r: seq<Group>)
    ensures Normalized(r)
    ensures SameShape(gs, r)
  {
    seq(|gs|, i requires 0 <= i < |gs| =>
      gs[i].(index := i, buttons := NormalizeButtons(gs[i].buttons, gs[i].id)))
  }

  lemma ContentsFixpoint(cs: seq<Content>, buttonId: string)
    requires ContentsNormalized(cs, buttonId)
    ensures NormalizeContents(cs, buttonId) == cs
  {
  }

  lemma ButtonsFixpoint(bs: seq<Button>, groupId: string)
    requires ButtonsNormalized(bs, groupId)
    ensures NormalizeButtons(bs, groupId) == bs
  {
    forall i | 0 <= i < |bs| ensures NormalizeButtons(bs, groupId)[i] == bs[i] {
      ContentsFixpoint(bs[i].contents, bs[i].id);
    }
  }

  /** A tree already at rest is left exactly as it is. */
  lemma NormalizeFixesNormalized(gs: seq<Group>)
    requires Normalized(gs)
    ensures Normalize(gs) == gs
  {
    forall i | 0 <= i < |gs| ensures Normalize(gs)[i] == gs[i] {
      ButtonsFixpoint(gs[i].buttons, gs[i].id);
    }
  }

  /** Normalising twice is normalising once. */
  lemma NormalizeIdempotent(gs: seq<Group>)
    ensures Normalize(Normalize(gs)) == Normalize(gs)
  {
    NormalizeFixesNormalized(Normalize(gs));
  }

  /** Stored index and parent fields are advisory: trees that differ only in
      them normalise to the same tree. */
  lemma NormalizeIgnoresIndexFields(a: seq<Group>, b: seq<Group>)
    requires SameShape(a, b)
    ensures Normalize(a) == Normalize(b)
  {
    forall i | 0 <= i < |a| ensures Normalize(a)[i] == Normalize(b)[i] {
      var x := a[i].buttons;
      var y := b[i].buttons;
      forall j | 0 <= j < |x|
        ensures NormalizeButtons(x, a[i].id)[j] == NormalizeButtons(y, b[i].id)[j]
      {
        assert NormalizeContents(x[j].contents, x[j].id) == NormalizeContents(y[j].contents, y[j].id);
      }
      assert NormalizeButtons(x, a[i].id) == NormalizeButtons(y, b[i].id);
    }
  }

  /** Some group carries index `k`. */
  ghost predicate IndexTaken(gs: seq<Group>, k: int) {
    exists i :: 0 <= i < |gs| && gs[i].index == k
  }

  /** After normalisation the group indices are exactly 0..N-1, each once. */
  lemma NormalizedIndicesContiguous(gs: seq<Group>)
    requires Normalized(gs)
    ensures forall i :: 0 <= i < |gs| ==> 0 <= gs[i].index < |gs|
    ensures forall i, j :: 0 <= i < j < |gs| ==> gs[i].index != gs[j].index
    ensures forall k :: 0 <= k < |gs| ==> IndexTaken(gs, k)
  {
    forall k | 0 <= k < |gs| ensures IndexTaken(gs, k) {
      assert gs[k].index == k;
    }
  }
}
