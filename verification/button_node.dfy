/** One button card: edits to its content list, the collapsed-header
    summary, the channel-name cache it fills from the remote directory, and
    its drop-target highlight. */
module ButtonNode {
  import opened Wrappers
  import opened Tree
  import Seqs
  import Text
  import MessageButtonService

  // ---------------------------------------------------------------------
  // Content list edits
  // ---------------------------------------------------------------------

  /** `handleContentChange`: the patch is merged into the content with the
      given id; every content keeps its id, position, index and parent. */
  function UpdateContent(cs: seq<Content>, contentId: string, p: ContentPatch): (r: seq<Content>)
    ensures |r| == |cs|
    ensures forall i :: 0 <= i < |cs| ==>
      r[i].id == cs[i].id && r[i].index == cs[i].index && r[i].buttonId == cs[i].buttonId
    ensures forall i :: 0 <= i < |cs| && cs[i].id != contentId ==> r[i] == cs[i]
    ensures forall i :: 0 <= i < |cs| && cs[i].id == contentId ==> r[i] == MergeContent(cs[i], p)
  {
    seq(|cs|, i requires 0 <= i < |cs| => if cs[i].id == contentId then MergeContent(cs[i], p) else cs[i])
  }

  /** `addContent`: a blank content with a fresh id is appended, its index
      the old length and its parent this button. */
  function AddContent(b: Button, freshId: string): (r: seq<Content>)
    ensures |r| == |b.contents| + 1 && r[..|b.contents|] == b.contents
    ensures var c := r[|b.contents|];
      c.id == freshId && c.channelId == "" && c.text == "" && c.index == |b.contents| && c.buttonId == b.id
    ensures ContentsNormalized(b.contents, b.id) ==> ContentsNormalized(r, b.id)
  {
    b.contents + [Content(freshId, "", "", |b.contents|, b.id)]
  }

  function NotWithId(contentId: string): Content -> bool {
    (c: Content) => c.id != contentId
  }

  /** `removeContent`: every content with the id goes, the rest stay in order. */
  function RemoveContent(cs: seq<Content>, contentId: string): (r: seq<Content>)
    ensures forall i :: 0 <= i < |r| ==> r[i].id != contentId
    ensures Seqs.IsSubsequence(r, cs)
    ensures forall i :: 0 <= i < |cs| && cs[i].id != contentId ==> cs[i] in r
    ensures forall c :: multiset(r)[c] == if c.id != contentId then multiset(cs)[c] else 0
  {
    Seqs.FilterIsSubsequence(NotWithId(contentId), cs);
    Seqs.FilterMembers(NotWithId(contentId), cs);
    Seqs.Filter(NotWithId(contentId), cs)
  }

  /** The remove control is offered only while the button has more than one content. */
  predicate CanRemoveContent(b: Button) {
    |b.contents| > 1
  }

  predicate UniqueIds(cs: seq<Content>) {
    forall i, j :: 0 <= i < j < |cs| ==> cs[i].id != cs[j].id
  }

  /** Removing a content just added with a fresh id gives the list back. */
  lemma RemoveUndoesAdd(b: Button, freshId: string)
    requires forall i :: 0 <= i < |b.contents| ==> b.contents[i].id != freshId
    ensures RemoveContent(AddContent(b, freshId), freshId) == b.contents
  {
    var added := Content(freshId, "", "", |b.contents|, b.id);
    Seqs.FilterAppend(NotWithId(freshId), b.contents, [added]);
    Seqs.FilterKeepsAll(NotWithId(freshId), b.contents);
    Seqs.FilterCons(NotWithId(freshId), added, []);
  }

  /** With unique ids, a removal offered by the UI leaves at least one
      content: a button cannot lose its last content. */
  lemma RemoveKeepsOne(b: Button, contentId: string)
    requires CanRemoveContent(b) && UniqueIds(b.contents)
    ensures |RemoveContent(b.contents, contentId)| >= 1
  {
    RemoveDropsAtMostOne(b.contents, contentId);
  }

  lemma {:induction false} RemoveDropsAtMostOne(cs: seq<Content>, contentId: string)
    requires UniqueIds(cs)
    ensures |Seqs.Filter(NotWithId(contentId), cs)| + 1 >= |cs|
    decreases |cs|
  {
    if |cs| > 0 {
      var t := cs[1..];
      assert cs == [cs[0]] + t;
      Seqs.FilterCons(NotWithId(contentId), cs[0], t);
      if cs[0].id == contentId {
        assert forall i :: 0 <= i < |t| ==> t[i].id != contentId by {
          forall i | 0 <= i < |t| ensures t[i].id != contentId {
            assert cs[i + 1] == t[i];
          }
        }
        Seqs.FilterKeepsAll(NotWithId(contentId), t);
      } else {
        RemoveDropsAtMostOne(t, contentId);
      }
    }
  }

  // ---------------------------------------------------------------------
  // Summary line
  // ---------------------------------------------------------------------

  /** Channel names fetched so far, by channel id. */
  type ChannelCache = map<string, string>

  const UnknownChannel := "알 수 없음"
  const EmptyText := "내용 없음"
  const NoContents := "컨텐츠 없음"
  const MaxSummaryContents: nat := 3
  const MaxSummaryText: nat := 20

  /** `channelNames[id] || "알 수 없음"`: a missing or empty name shows the placeholder. */
  function ChannelLabel(cache: ChannelCache, channelId: string): (r: string)
    ensures channelId in cache && cache[channelId] != "" ==> r == cache[channelId]
    ensures !(channelId in cache && cache[channelId] != "") ==> r == UnknownChannel
  {
    if channelId in cache && cache[channelId] != "" then cache[channelId] else UnknownChannel
  }

  /** The message part of a summary entry: trimmed, a placeholder when
      blank, and cut to 20 characters plus an ellipsis when longer. */
  function SummaryText(text: string): string {
    var t := Text.Trim(text);
    var shown := if t == "" then EmptyText else t;
    if |shown| > MaxSummaryText then shown[..MaxSummaryText] + "..." else shown
  }

  /** The message part is never empty and at most 23 characters; a blank
      message shows the placeholder; otherwise it is the trimmed text when
      that fits and the trimmed text's first 20 characters followed by an
      ellipsis when it does not. */
  lemma SummaryTextSpec(text: string)
    ensures 0 < |SummaryText(text)| <= MaxSummaryText + 3
    ensures Text.Trim(text) == "" ==> SummaryText(text) == EmptyText
    ensures 0 < |Text.Trim(text)| <= MaxSummaryText ==> SummaryText(text) == Text.Trim(text)
    ensures |Text.Trim(text)| > MaxSummaryText ==>
      && |SummaryText(text)| == MaxSummaryText + 3
      && SummaryText(text)[..MaxSummaryText] == Text.Trim(text)[..MaxSummaryText]
      && SummaryText(text)[MaxSummaryText..] == "..."
  {
  }

  function SummaryEntry(cache: ChannelCache, c: Content): string {
    ChannelLabel(cache, c.channelId) + " : " + SummaryText(c.text)
  }

  /** One entry for each of the first three contents, in order. */
  function SummaryEntries(cache: ChannelCache, cs: seq<Content>): (r: seq<string>)
    ensures |r| == if |cs| < MaxSummaryContents then |cs| else MaxSummaryContents
    ensures forall i :: 0 <= i < |r| ==> r[i] == SummaryEntry(cache, cs[i])
  {
    var n := if |cs| < MaxSummaryContents then |cs| else MaxSummaryContents;
    seq(n, i requires 0 <= i < n => SummaryEntry(cache, cs[i]))
  }

  /** `getSummary`. */
  function Summary(cache: ChannelCache, cs: seq<Content>): string {
    if |cs| == 0 then NoContents else Text.Join(SummaryEntries(cache, cs), " | ")
  }

  lemma {:induction false} JoinStartsWithFirst(parts: seq<string>, sep: string)
    requires |parts| > 0
    ensures |parts[0]| <= |Text.Join(parts, sep)| && Text.Join(parts, sep)[..|parts[0]|] == parts[0]
  {
    if |parts| > 1 {
      assert Text.Join(parts, sep) == parts[0] + (sep + Text.Join(parts[1..], sep));
    }
  }

  /** The summary shows the placeholder exactly when there are no contents:
      any entry carries the " : " separator, which the placeholder lacks. */
  lemma SummaryEmptyIff(cache: ChannelCache, cs: seq<Content>)
    ensures Summary(cache, cs) == NoContents <==> |cs| == 0
  {
    if |cs| > 0 {
      var entries := SummaryEntries(cache, cs);
      var k := EntryColon(cache, cs[0]);
      JoinStartsWithFirst(entries, " | ");
      assert Summary(cache, cs)[k] == ':';
      PlaceholderHasNoColon();
    }
  }

  lemma EntryColon(cache: ChannelCache, c: Content) returns (k: nat)
    ensures k < |SummaryEntry(cache, c)| && SummaryEntry(cache, c)[k] == ':'
  {
    k := |ChannelLabel(cache, c.channelId)| + 1;
  }

  lemma PlaceholderHasNoColon()
    ensures forall i :: 0 <= i < |NoContents| ==> NoContents[i] != ':'
  {
  }

  /** Only the first three contents matter to the summary. */
  lemma SummaryIgnoresLaterContents(cache: ChannelCache, a: seq<Content>, b: seq<Content>)
    requires |a| >= MaxSummaryContents && |b| >= MaxSummaryContents
    requires a[..MaxSummaryContents] == b[..MaxSummaryContents]
    ensures Summary(cache, a) == Summary(cache, b)
  {
    assert forall i :: 0 <= i < MaxSummaryContents ==> a[i] == a[..MaxSummaryContents][i];
    assert SummaryEntries(cache, a) == SummaryEntries(cache, b);
  }

  // ---------------------------------------------------------------------
  // Channel-name cache
  // ---------------------------------------------------------------------

  /** A channel id is looked up when it is non-empty and the cache has no
      non-empty name for it. */
  predicate NeedsLookup(cache: ChannelCache, channelId: string) {
    channelId != "" && !(channelId in cache && cache[channelId] != "")
  }

  function NeedsLookupIn(cache: ChannelCache): string -> bool {
    (channelId: string) => NeedsLookup(cache, channelId)
  }

  function ChannelIds(cs: seq<Content>): (r: seq<string>)
    ensures |r| == |cs| && forall i :: 0 <= i < |cs| ==> r[i] == cs[i].channelId
  {
    seq(|cs|, i requires 0 <= i < |cs| => cs[i].channelId)
  }

  /** `loaded` is `cache` with the directory's name stored for every
      looked-up id the directory knows. */
  ghost predicate LoadedFrom(loaded: ChannelCache, cache: ChannelCache, lookups: seq<string>, directory: map<string, string>) {
    && (forall id :: id in loaded <==> id in cache || (id in lookups && id in directory))
    && (forall id :: id in loaded ==>
          loaded[id] == if id in lookups && id in directory then directory[id] else cache[id])
  }

  /** Stores the first name of a non-empty lookup answer. */
  function CacheFirst(loaded: ChannelCache, ghost cache: ChannelCache, ghost lookups: seq<string>,
                      ghost directory: map<string, string>, id: string, names: seq<string>): (r: ChannelCache)
    requires LoadedFrom(loaded, cache, lookups, directory)
    requires names == MessageButtonService.FetchChannelById(directory, id)
    ensures LoadedFrom(r, cache, lookups + [id], directory)
  {
    if |names| > 0 then loaded[id := names[0]] else loaded
  }

  lemma LookupsStep(cache: ChannelCache, ids: seq<string>, i: nat)
    requires i < |ids|
    ensures Seqs.Filter(NeedsLookupIn(cache), ids[..i + 1])
         == Seqs.Filter(NeedsLookupIn(cache), ids[..i]) + (if NeedsLookup(cache, ids[i]) then [ids[i]] else [])
  {
    assert ids[..i + 1] == ids[..i] + [ids[i]];
    Seqs.FilterAppend(NeedsLookupIn(cache), ids[..i], [ids[i]]);
    Seqs.FilterCons(NeedsLookupIn(cache), ids[i], []);
  }

  /** The effect run when the contents change: each distinct channel id
      that needs a lookup is fetched once, in first-appearance order, and a
      non-empty answer's first name is cached. The cache test reads the
      cache as it was when the effect started. */
  method LoadChannelNames(cs: seq<Content>, cache: ChannelCache, directory: map<string, string>)
    returns (loaded: ChannelCache, lookups: seq<string>)
    ensures lookups == Seqs.Filter(NeedsLookupIn(cache), Seqs.Distinct(ChannelIds(cs)))
    ensures LoadedFrom(loaded, cache, lookups, directory)
  {
    var ids := Seqs.Distinct(ChannelIds(cs));
    loaded := cache;
    lookups := [];
    var i := 0;
    while i < |ids|
      invariant 0 <= i <= |ids|
      invariant lookups == Seqs.Filter(NeedsLookupIn(cache), ids[..i])
      invariant LoadedFrom(loaded, cache, lookups, directory)
    {
      var id := ids[i];
      LookupsStep(cache, ids, i);
      if NeedsLookup(cache, id) {
        var names := MessageButtonService.FetchChannelById(directory, id);
        loaded := CacheFirst(loaded, cache, lookups, directory, id, names);
        lookups := lookups + [id];
      }
      i := i + 1;
    }
    assert ids[..|ids|] == ids;
  }

  /** Every content whose channel needed a lookup shows the directory's
      name afterwards, and names already cached are not replaced. */
  lemma LoadedCoversContents(cs: seq<Content>, cache: ChannelCache, directory: map<string, string>,
                             loaded: ChannelCache, lookups: seq<string>)
    requires lookups == Seqs.Filter(NeedsLookupIn(cache), Seqs.Distinct(ChannelIds(cs)))
    requires LoadedFrom(loaded, cache, lookups, directory)
    ensures forall k :: 0 <= k < |cs| && NeedsLookup(cache, cs[k].channelId) && cs[k].channelId in directory ==>
      cs[k].channelId in loaded && loaded[cs[k].channelId] == directory[cs[k].channelId]
    ensures forall id :: id in cache && cache[id] != "" ==> id in loaded && loaded[id] == cache[id]
  {
    var ids := Seqs.Distinct(ChannelIds(cs));
    Seqs.FilterMembers(NeedsLookupIn(cache), ids);
    forall k | 0 <= k < |cs| && NeedsLookup(cache, cs[k].channelId) && cs[k].channelId in directory
      ensures cs[k].channelId in lookups
    {
      assert ChannelIds(cs)[k] == cs[k].channelId;
      assert NeedsLookupIn(cache)(cs[k].channelId);
    }
    forall id | id in lookups ensures NeedsLookup(cache, id) {
      assert NeedsLookupIn(cache)(id);
    }
  }

  // ---------------------------------------------------------------------
  // Drop-target highlight
  // ---------------------------------------------------------------------

  /** A button at position `index` of group `groupId` is highlighted while
      another button is dragged and the indicator points into this group
      just before or just after it. */
  predicate IsDropTarget(buttonId: string, groupId: string, index: nat,
                         dragged: Option<DraggableItem>, indicator: Option<ItemPosition>) {
    && !(dragged.Some? && dragged.value.id == buttonId)
    && indicator.Some? && dragged.Some?
    && dragged.value.itemType == ButtonItem
    && indicator.value.newParentId == Some(groupId)
    && (indicator.value.newIndex == index || indicator.value.newIndex == index + 1)
  }

  /** The dragged button never highlights itself, and the buttons a single
      indicator highlights in one group are at most two neighbours. */
  lemma DropTargetsAreNeighbours(groupId: string, id1: string, k1: nat, id2: string, k2: nat,
                                 dragged: Option<DraggableItem>, indicator: Option<ItemPosition>)
    requires IsDropTarget(id1, groupId, k1, dragged, indicator)
    requires IsDropTarget(id2, groupId, k2, dragged, indicator)
    ensures dragged.value.id != id1
    ensures -1 <= k1 - k2 <= 1
  {
  }
}
