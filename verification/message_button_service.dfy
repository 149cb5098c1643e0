/** The server side of the macro tree: channel lookups, assembly of the flat
    group/button/content rows into a sorted tree, and the depth-first
    "GET, then PUT, or else POST" save walk against an abstract remote store. */
module MessageButtonService {
  import opened Wrappers
  import opened Tree
  import Seqs
  import Sorting

  // ---------------------------------------------------------------------
  // Channels
  // ---------------------------------------------------------------------

  datatype Channel = Channel(id: string, name: string)

  /** The "no channel" entry every channel list starts with. */
  const NoChannel := Channel("", "채널없음")

  /** `fetchChannels`: `remote` is the directory's answer, `None` when the
      request throws. */
  function FetchChannels(remote: Option<seq<Channel>>): (r: seq<Channel>)
    ensures |r| >= 1 && r[0] == NoChannel
    ensures remote.None? ==> r == [NoChannel]
    ensures remote.Some? ==> r[1..] == remote.value
  {
    match remote
    case Some(cs) => [NoChannel] + cs
    case None => [NoChannel]
  }

  /** `fetchChannelById`: the remote directory maps channel ids to names; an
      id it does not hold makes the request fail. */
  function FetchChannelById(directory: map<string, string>, id: string): (r: seq<string>)
    ensures |r| <= 1
    ensures |r| == 1 <==> id in directory
    ensures |r| == 1 ==> r[0] == directory[id]
  {
    if id in directory then [directory[id]] else []
  }

  // ---------------------------------------------------------------------
  // Tree assembly
  // ---------------------------------------------------------------------

  /** A group row as the server returns it, without buttons. */
  datatype GroupRow = GroupRow(id: string, name: string, index: int)

  /** A button row as the server returns it, without contents. */
  datatype ButtonRow = ButtonRow(id: string, name: string, index: int, groupId: string, guildId: string)

  function ContentIndex(c: Content): int { c.index }
  function ButtonRowIndex(b: ButtonRow): int { b.index }
  function GroupIndex(g: Group): int { g.index }

  function OfButton(buttonId: string): Content -> bool {
    (c: Content) => c.buttonId == buttonId
  }

  function OfGroup(groupId: string): ButtonRow -> bool {
    (b: ButtonRow) => b.groupId == groupId
  }

  function ButtonRowOf(b: Button): ButtonRow {
    ButtonRow(b.id, b.name, b.index, b.groupId, b.guildId)
  }

  /** A button's contents: exactly the content rows naming it, by index. */
  function ContentsOf(buttonId: string, contents: seq<Content>): (r: seq<Content>)
    ensures Sorting.SortedByKey(r, ContentIndex)
    ensures multiset(r) == multiset(Seqs.Filter(OfButton(buttonId), contents))
    ensures forall i :: 0 <= i < |r| ==> r[i].buttonId == buttonId && r[i] in contents
  {
    var mine := Seqs.Filter(OfButton(buttonId), contents);
    Seqs.FilterMembers(OfButton(buttonId), contents);
    var r := Sorting.SortByKey(mine, ContentIndex);
    assert forall i :: 0 <= i < |r| ==> r[i] in multiset(mine);
    r
  }

  function AttachContents(b: ButtonRow, contents: seq<Content>): (r: Button)
    ensures ButtonRowOf(r) == b
    ensures r.contents == ContentsOf(b.id, contents)
  {
    Button(b.id, b.name, b.index, b.groupId, b.guildId, ContentsOf(b.id, contents))
  }

  function ButtonIndex(b: Button): int { b.index }

  function RowsOf(bs: seq<Button>): (r: seq<ButtonRow>)
    ensures |r| == |bs| && forall i :: 0 <= i < |bs| ==> r[i] == ButtonRowOf(bs[i])
  {
    seq(|bs|, i requires 0 <= i < |bs| => ButtonRowOf(bs[i]))
  }

  function AttachAll(rows: seq<ButtonRow>, contents: seq<Content>): (r: seq<Button>)
    ensures |r| == |rows| && forall i :: 0 <= i < |rows| ==> r[i] == AttachContents(rows[i], contents)
  {
    seq(|rows|, i requires 0 <= i < |rows| => AttachContents(rows[i], contents))
  }

  /** A group's buttons: the button rows naming it, stably sorted by index,
      each with its contents attached. */
  function ButtonsOf(groupId: string, buttons: seq<ButtonRow>, contents: seq<Content>): seq<Button> {
    AttachAll(Sorting.SortByKey(Seqs.Filter(OfGroup(groupId), buttons), ButtonRowIndex), contents)
  }

  /** The buttons of a group are exactly the rows that name it (as a
      multiset), in index order, each carrying its own contents. */
  lemma ButtonsOfSpec(groupId: string, buttons: seq<ButtonRow>, contents: seq<Content>)
    ensures var r := ButtonsOf(groupId, buttons, contents);
      && Sorting.SortedByKey(r, ButtonIndex)
      && multiset(RowsOf(r)) == multiset(Seqs.Filter(OfGroup(groupId), buttons))
      && forall i :: 0 <= i < |r| ==>
           && r[i].groupId == groupId
           && ButtonRowOf(r[i]) in buttons
           && r[i].contents == ContentsOf(r[i].id, contents)
  {
    var mine := Seqs.Filter(OfGroup(groupId), buttons);
    Seqs.FilterMembers(OfGroup(groupId), buttons);
    var sorted := Sorting.SortByKey(mine, ButtonRowIndex);
    var r := AttachAll(sorted, contents);
    assert RowsOf(r) == sorted;
    forall i | 0 <= i < |r| ensures ButtonRowOf(r[i]) in buttons && r[i].groupId == groupId {
      assert sorted[i] in multiset(mine);
      assert sorted[i] in mine;
    }
    forall i, j | 0 <= i < j < |r| ensures ButtonIndex(r[i]) <= ButtonIndex(r[j]) {
      assert ButtonRowIndex(sorted[i]) <= ButtonRowIndex(sorted[j]);
    }
  }

  function AttachButtons(g: GroupRow, buttons: seq<ButtonRow>, contents: seq<Content>): (r: Group)
    ensures r.id == g.id && r.name == g.name && r.index == g.index
    ensures r.buttons == ButtonsOf(g.id, buttons, contents)
  {
    Group(g.id, g.name, g.index, ButtonsOf(g.id, buttons, contents))
  }

  /** The groups, each holding its own buttons, stably sorted by index. */
  function AssembleTree(groups: seq<GroupRow>, buttons: seq<ButtonRow>, contents: seq<Content>): seq<Group> {
    Sorting.SortByKey(seq(|groups|, j requires 0 <= j < |groups| => AttachButtons(groups[j], buttons, contents)),
                      GroupIndex)
  }

  /** One assembled group per group row, in index order: each group in the
      tree comes from a row ... */
  lemma AssembleTreeSpec(groups: seq<GroupRow>, buttons: seq<ButtonRow>, contents: seq<Content>)
    ensures var r := AssembleTree(groups, buttons, contents);
      && |r| == |groups|
      && Sorting.SortedByKey(r, GroupIndex)
      && (forall i :: 0 <= i < |r| ==> exists j :: 0 <= j < |groups| && r[i] == AttachButtons(groups[j], buttons, contents))
  {
    var attached := seq(|groups|, j requires 0 <= j < |groups| => AttachButtons(groups[j], buttons, contents));
    var r := AssembleTree(groups, buttons, contents);
    forall i | 0 <= i < |r| ensures exists j :: 0 <= j < |groups| && r[i] == AttachButtons(groups[j], buttons, contents) {
      assert r[i] in multiset(attached);
      var j :| 0 <= j < |attached| && attached[j] == r[i];
    }
  }

  /** ... and each row yields a group in the tree. */
  lemma AssembleTreeKeepsGroups(groups: seq<GroupRow>, buttons: seq<ButtonRow>, contents: seq<Content>)
    ensures forall j :: 0 <= j < |groups| ==> AttachButtons(groups[j], buttons, contents) in AssembleTree(groups, buttons, contents)
  {
    var attached := seq(|groups|, j requires 0 <= j < |groups| => AttachButtons(groups[j], buttons, contents));
    var r := AssembleTree(groups, buttons, contents);
    forall j | 0 <= j < |groups| ensures AttachButtons(groups[j], buttons, contents) in r {
      assert attached[j] in multiset(r);
    }
  }

  /** `fetchGroupsFromServer`: the three list requests (`None` when one
      throws) assembled into a tree, or `[]` on any failure. */
  function FetchGroupsFromServer(groups: Option<seq<GroupRow>>, buttons: Option<seq<ButtonRow>>,
                                 contents: Option<seq<Content>>): (r: seq<Group>)
    ensures groups.None? || buttons.None? || contents.None? ==> r == []
    ensures groups.Some? && buttons.Some? && contents.Some? ==>
      r == AssembleTree(groups.value, buttons.value, contents.value)
  {
    if groups.Some? && buttons.Some? && contents.Some? then
      AssembleTree(groups.value, buttons.value, contents.value)
    else []
  }

  /** Buttons whose group is absent, and the contents of such buttons, never
      appear: everything in the tree hangs off a group row the server sent. */
  lemma AssembledTreeHasNoOrphans(groups: seq<GroupRow>, buttons: seq<ButtonRow>, contents: seq<Content>)
    ensures var r := AssembleTree(groups, buttons, contents);
      forall i, k :: 0 <= i < |r| && 0 <= k < |r[i].buttons| ==>
        && (exists j :: 0 <= j < |groups| && groups[j].id == r[i].buttons[k].groupId)
        && ButtonRowOf(r[i].buttons[k]) in buttons
        && (forall m :: 0 <= m < |r[i].buttons[k].contents| ==>
              r[i].buttons[k].contents[m].buttonId == r[i].buttons[k].id)
  {
    var r := AssembleTree(groups, buttons, contents);
    AssembleTreeSpec(groups, buttons, contents);
    forall i | 0 <= i < |r|
      ensures forall k :: 0 <= k < |r[i].buttons| ==>
        && (exists j :: 0 <= j < |groups| && groups[j].id == r[i].buttons[k].groupId)
        && ButtonRowOf(r[i].buttons[k]) in buttons
        && (forall m :: 0 <= m < |r[i].buttons[k].contents| ==>
              r[i].buttons[k].contents[m].buttonId == r[i].buttons[k].id)
    {
      var j :| 0 <= j < |groups| && r[i] == AttachButtons(groups[j], buttons, contents);
      AttachedGroupHasNoOrphans(groups, j, buttons, contents);
    }
  }

  lemma AttachedGroupHasNoOrphans(groups: seq<GroupRow>, j: nat, buttons: seq<ButtonRow>, contents: seq<Content>)
    requires j < |groups|
    ensures var g := AttachButtons(groups[j], buttons, contents);
      forall k :: 0 <= k < |g.buttons| ==>
        && g.buttons[k].groupId == groups[j].id
        && ButtonRowOf(g.buttons[k]) in buttons
        && (forall m :: 0 <= m < |g.buttons[k].contents| ==> g.buttons[k].contents[m].buttonId == g.buttons[k].id)
  {
    ButtonsOfSpec(groups[j].id, buttons, contents);
  }

  /** Every button row that names a group row appears, under that group. */
  lemma AssembledTreeKeepsOwnedButtons(groups: seq<GroupRow>, buttons: seq<ButtonRow>, contents: seq<Content>,
                                       j: nat, b: nat)
    requires j < |groups| && b < |buttons| && buttons[b].groupId == groups[j].id
    ensures exists i, k ::
      (&& 0 <= i < |AssembleTree(groups, buttons, contents)|
       && AssembleTree(groups, buttons, contents)[i].id == groups[j].id
       && 0 <= k < |AssembleTree(groups, buttons, contents)[i].buttons|
       && ButtonRowOf(AssembleTree(groups, buttons, contents)[i].buttons[k]) == buttons[b])
  {
    var r := AssembleTree(groups, buttons, contents);
    AssembleTreeKeepsGroups(groups, buttons, contents);
    ButtonsOfSpec(groups[j].id, buttons, contents);
    var g := AttachButtons(groups[j], buttons, contents);
    assert g in r;
    var i :| 0 <= i < |r| && r[i] == g;
    var bs := g.buttons;
    Seqs.FilterMembers(OfGroup(groups[j].id), buttons);
    var rows := RowsOf(bs);
    assert buttons[b] in Seqs.Filter(OfGroup(groups[j].id), buttons);
    assert buttons[b] in multiset(rows);
    var k :| 0 <= k < |rows| && rows[k] == buttons[b];
    assert ButtonRowOf(r[i].buttons[k]) == buttons[b];
  }

  // ---------------------------------------------------------------------
  // Save walk
  // ---------------------------------------------------------------------

  datatype Kind = GroupKind | ButtonKind | ContentKind

  /** One record the save walk writes. */
  datatype Entity = GroupEntity(group: Group) | ButtonEntity(button: Button) | ContentEntity(content: Content) {
    function Kind(): Kind {
      match this
      case GroupEntity(_) => GroupKind
      case ButtonEntity(_) => ButtonKind
      case ContentEntity(_) => ContentKind
    }

    function Id(): string {
      match this
      case GroupEntity(g) => g.id
      case ButtonEntity(b) => b.id
      case ContentEntity(c) => c.id
    }
  }

  /** A remote record is addressed by its collection and id (`/groups/{id}`). */
  datatype Key = Key(kind: Kind, id: string)

  /** The request body: the entity spread with the guild id. */
  datatype Payload = Payload(entity: Entity, guildId: string)

  type Store = map<Key, Payload>

  /** A request to the remote, by the record it addresses: `GET` and `PUT`
      go to `/kind/{id}`, `POST` to `/kind` with the id in the body. */
  datatype Request = Get(key: Key) | Put(key: Key) | Post(key: Key)

  function KeyOf(e: Entity): Key {
    Key(e.Kind(), e.Id())
  }

  function ContentEntities(cs: seq<Content>): (r: seq<Entity>)
    ensures |r| == |cs|
    ensures forall i :: 0 <= i < |cs| ==> r[i] == ContentEntity(cs[i])
  {
    seq(|cs|, i requires 0 <= i < |cs| => ContentEntity(cs[i]))
  }

  /** Each button followed immediately by its contents. */
  function ButtonEntities(bs: seq<Button>): seq<Entity> {
    if |bs| == 0 then [] else [ButtonEntity(bs[0])] + ContentEntities(bs[0].contents) + ButtonEntities(bs[1..])
  }

  /** The order `saveData`'s nested loops visit entities: each group, then
      each of its buttons, each followed by that button's contents. */
  function SaveOrder(gs: seq<Group>): seq<Entity> {
    if |gs| == 0 then [] else [GroupEntity(gs[0])] + ButtonEntities(gs[0].buttons) + SaveOrder(gs[1..])
  }

  lemma {:induction false} ButtonEntitiesAppend(a: seq<Button>, b: seq<Button>)
    ensures ButtonEntities(a + b) == ButtonEntities(a) + ButtonEntities(b)
    decreases |a|
  {
    if |a| == 0 {
      assert a + b == b;
    } else {
      assert (a + b)[1..] == a[1..] + b;
      ButtonEntitiesAppend(a[1..], b);
    }
  }

  /** The walk is depth-first: it handles the groups one after another, each
      group entirely before the next, ... */
  lemma {:induction false} SaveOrderAppend(a: seq<Group>, b: seq<Group>)
    ensures SaveOrder(a + b) == SaveOrder(a) + SaveOrder(b)
    decreases |a|
  {
    if |a| == 0 {
      assert a + b == b;
    } else {
      assert (a + b)[1..] == a[1..] + b;
      SaveOrderAppend(a[1..], b);
    }
  }

  /** ... a group comes before its buttons, and each button directly before
      its own contents. */
  lemma SaveOrderOfOneGroup(g: Group, k: nat)
    requires k < |g.buttons|
    ensures SaveOrder([g]) == [GroupEntity(g)] + ButtonEntities(g.buttons[..k])
                              + [ButtonEntity(g.buttons[k])] + ContentEntities(g.buttons[k].contents)
                              + ButtonEntities(g.buttons[k + 1..])
  {
    var bs := g.buttons;
    var before, tail := ButtonEntities(bs[..k]), ButtonEntities(bs[k + 1..]);
    var here := [ButtonEntity(bs[k])] + ContentEntities(bs[k].contents);
    assert bs == bs[..k] + bs[k..];
    ButtonEntitiesAppend(bs[..k], bs[k..]);
    assert bs[k..][1..] == bs[k + 1..];
    assert ButtonEntities(bs[k..]) == here + tail;
    assert ButtonEntities(bs) == before + (here + tail);
    assert SaveOrder([g]) == [GroupEntity(g)] + ButtonEntities(bs) by {
      assert [g][1..] == [];
    }
  }

  /** What the remote holds after each payload in `es` has been written in turn. */
  function WriteAll(store: Store, es: seq<Entity>, guildId: string): Store
    decreases |es|
  {
    if |es| == 0 then store else WriteAll(store[KeyOf(es[0]) := Payload(es[0], guildId)], es[1..], guildId)
  }

  /** Last write wins: a key written by the walk holds the payload of the last
      entity with that key; other keys keep what they held. */
  lemma {:induction false} WriteAllLastWins(store: Store, es: seq<Entity>, guildId: string, key: Key)
    ensures (exists i :: 0 <= i < |es| && KeyOf(es[i]) == key) ==>
      key in WriteAll(store, es, guildId) && WriteAll(store, es, guildId)[key] == Payload(es[LastWith(es, key)], guildId)
    ensures (forall i :: 0 <= i < |es| ==> KeyOf(es[i]) != key) ==>
      (key in WriteAll(store, es, guildId) <==> key in store)
      && (key in store ==> WriteAll(store, es, guildId)[key] == store[key])
    decreases |es|
  {
    if |es| > 0 {
      var s1 := store[KeyOf(es[0]) := Payload(es[0], guildId)];
      WriteAllLastWins(s1, es[1..], guildId, key);
      if exists i :: 0 <= i < |es| && KeyOf(es[i]) == key {
        if exists i :: 0 <= i < |es[1..]| && KeyOf(es[1..][i]) == key {
          assert LastWith(es, key) == 1 + LastWith(es[1..], key);
        } else {
          assert KeyOf(es[0]) == key;
          assert LastWith(es, key) == 0;
        }
      } else {
        assert forall i :: 0 <= i < |es[1..]| ==> KeyOf(es[1..][i]) != key;
      }
    }
  }

  /** Position of the last entity in `es` with key `key`. */
  function LastWith(es: seq<Entity>, key: Key): (k: nat)
    requires exists i :: 0 <= i < |es| && KeyOf(es[i]) == key
    ensures k < |es| && KeyOf(es[k]) == key
    ensures forall j :: k < j < |es| ==> KeyOf(es[j]) != key
    decreases |es|
  {
    if exists i :: 0 <= i < |es[1..]| && KeyOf(es[1..][i]) == key then 1 + LastWith(es[1..], key)
    else 0
  }

  /** The outcome of one entity's upsert. */
  datatype UpsertResult = UpsertResult(done: bool, store: Store, requests: seq<Request>)

  /** `fails(n)` says the n-th request of the save throws for a reason other
      than a missing record (network error, rejected body). A GET also throws
      when the record is absent. */
  predicate GetSucceeds(store: Store, e: Entity, fails: nat -> bool, n: nat) {
    KeyOf(e) in store && !fails(n)
  }

  /** One entity: GET by id and, if that succeeds, PUT; if either throws,
      POST. A throwing POST is not caught here. A request that throws is
      taken to have left the remote unchanged. */
  function Upsert(e: Entity, guildId: string, store: Store, fails: nat -> bool, n: nat): UpsertResult {
    var key := KeyOf(e);
    var after := UpsertTail(key, GetSucceeds(store, e, fails, n), fails(n + 1));
    var done := !fails(n + |after|);
    UpsertResult(done, if done then store[key := Payload(e, guildId)] else store, [Get(key)] + after)
  }

  /** The requests after the GET: a PUT when the GET succeeded, and a POST
      when the GET or that PUT threw. */
  function UpsertTail(key: Key, gotIt: bool, putFails: bool): seq<Request> {
    if gotIt && !putFails then [Put(key)]
    else if gotIt then [Put(key), Post(key)]
    else [Post(key)]
  }

  /** An entity is fetched first; it is updated exactly when the fetch
      succeeds, created exactly when the fetch or the update throws, and the
      step completes exactly when its last request succeeds, in which case
      the remote holds the new payload under the entity's key. */
  lemma UpsertSpec(e: Entity, guildId: string, store: Store, fails: nat -> bool, n: nat)
    ensures var r := Upsert(e, guildId, store, fails, n);
      && 2 <= |r.requests| <= 3 && r.requests[0] == Get(KeyOf(e))
      && (GetSucceeds(store, e, fails, n) <==> r.requests[1] == Put(KeyOf(e)))
      && ((!GetSucceeds(store, e, fails, n) || fails(n + 1))
            <==> r.requests[|r.requests| - 1] == Post(KeyOf(e)))
      && (r.done <==> !fails(n + |r.requests| - 1))
      && (r.done ==> r.store == store[KeyOf(e) := Payload(e, guildId)])
      && (!r.done ==> r.store == store)
  {
  }

  /** Unlike a "create or update, never both" upsert, one id can see both an
      update attempt and a create: the PUT throws, so the POST follows. */
  lemma UpsertCanUpdateAndCreate(e: Entity, guildId: string, store: Store, fails: nat -> bool, n: nat)
    requires KeyOf(e) in store && !fails(n) && fails(n + 1)
    ensures var r := Upsert(e, guildId, store, fails, n);
      Put(KeyOf(e)) in r.requests && Post(KeyOf(e)) in r.requests
  {
  }

  /** The result of a save: whether it completed, the remote afterwards, and
      every request issued, in order. */
  datatype SaveResult = SaveResult(ok: bool, store: Store, log: seq<Request>)

  /** Keys of the GET requests in `log`, in order: one per entity attempted. */
  function GetKeys(log: seq<Request>): seq<Key> {
    if |log| == 0 then [] else (if log[0].Get? then [log[0].key] else []) + GetKeys(log[1..])
  }

  function KeysOf(es: seq<Entity>): (r: seq<Key>)
    ensures |r| == |es| && forall i :: 0 <= i < |es| ==> r[i] == KeyOf(es[i])
  {
    seq(|es|, i requires 0 <= i < |es| => KeyOf(es[i]))
  }

  lemma KeysOfCons(es: seq<Entity>, i: nat, j: nat)
    requires i < j <= |es|
    ensures KeysOf(es[i..j]) == [KeyOf(es[i])] + KeysOf(es[i + 1..j])
  {
    var a := KeysOf(es[i..j]);
    var b := [KeyOf(es[i])] + KeysOf(es[i + 1..j]);
    assert |a| == |b|;
    forall x | 0 <= x < |a| ensures a[x] == b[x] {
      if x > 0 {
        assert es[i..j][x] == es[i + 1..j][x - 1];
      }
    }
  }

  lemma {:induction false} GetKeysAppend(a: seq<Request>, b: seq<Request>)
    ensures GetKeys(a + b) == GetKeys(a) + GetKeys(b)
    decreases |a|
  {
    if |a| > 0 {
      assert (a + b)[0] == a[0] && (a + b)[1..] == a[1..] + b;
      GetKeysAppend(a[1..], b);
      var head := if a[0].Get? then [a[0].key] else [];
      assert GetKeys(a + b) == head + GetKeys(a[1..] + b);
      assert GetKeys(a) == head + GetKeys(a[1..]);
      assert head + (GetKeys(a[1..]) + GetKeys(b)) == (head + GetKeys(a[1..])) + GetKeys(b);
    } else {
      assert a + b == b;
    }
  }

  lemma {:induction false} NoGetKeys(log: seq<Request>)
    requires forall i :: 0 <= i < |log| ==> !log[i].Get?
    ensures GetKeys(log) == []
    decreases |log|
  {
    if |log| > 0 {
      NoGetKeys(log[1..]);
    }
  }

  lemma UpsertGetKeys(e: Entity, guildId: string, store: Store, fails: nat -> bool, n: nat)
    ensures GetKeys(Upsert(e, guildId, store, fails, n).requests) == [KeyOf(e)]
  {
    var rs := Upsert(e, guildId, store, fails, n).requests;
    UpsertSpec(e, guildId, store, fails, n);
    assert forall i :: 1 <= i < |rs| ==> rs[i].Put? || rs[i].Post?;
    NoGetKeys(rs[1..]);
    assert rs[0] == Get(KeyOf(e));
    assert GetKeys(rs) == [rs[0].key] + GetKeys(rs[1..]);
  }

  /** The save from position `i` of `es` on, `log` holding the requests
      already issued: each entity is upserted in turn until one's POST
      throws. */
  function Walk(es: seq<Entity>, i: nat, guildId: string, store: Store, fails: nat -> bool, log: seq<Request>): SaveResult
    requires i <= |es|
    decreases |es| - i
  {
    if i == |es| then SaveResult(true, store, log)
    else
      var u := Upsert(es[i], guildId, store, fails, |log|);
      if !u.done then SaveResult(false, u.store, log + u.requests)
      else Walk(es, i + 1, guildId, u.store, fails, log + u.requests)
  }

  /** A completed walk leaves the remote holding every entity's payload,
      written in walk order. */
  lemma {:induction false} WalkWritesAll(es: seq<Entity>, i: nat, guildId: string, store: Store, fails: nat -> bool,
                                         log: seq<Request>)
    requires i <= |es|
    ensures var r := Walk(es, i, guildId, store, fails, log);
      r.ok ==> r.store == WriteAll(store, es[i..], guildId)
    decreases |es| - i
  {
    if i < |es| {
      var u := Upsert(es[i], guildId, store, fails, |log|);
      UpsertSpec(es[i], guildId, store, fails, |log|);
      if u.done {
        WalkWritesAll(es, i + 1, guildId, u.store, fails, log + u.requests);
        assert es[i..][1..] == es[i + 1..];
      }
    }
  }

  /** The walk issues one GET per entity it attempts: all of them when it
      completes, at least one more than before when it stops. */
  lemma {:induction false} WalkFetchCount(es: seq<Entity>, i: nat, guildId: string, store: Store, fails: nat -> bool,
                                          log: seq<Request>)
    requires i <= |es|
    ensures var r := Walk(es, i, guildId, store, fails, log);
      |GetKeys(log)| <= |GetKeys(r.log)| <= |GetKeys(log)| + |es| - i
    ensures var r := Walk(es, i, guildId, store, fails, log);
      r.ok ==> |GetKeys(r.log)| == |GetKeys(log)| + |es| - i
    ensures var r := Walk(es, i, guildId, store, fails, log);
      !r.ok ==> |GetKeys(r.log)| > |GetKeys(log)|
    decreases |es| - i
  {
    if i < |es| {
      var u := Upsert(es[i], guildId, store, fails, |log|);
      UpsertGetKeys(es[i], guildId, store, fails, |log|);
      GetKeysAppend(log, u.requests);
      if u.done {
        WalkFetchCount(es, i + 1, guildId, u.store, fails, log + u.requests);
      }
    }
  }

  /** What one step of the walk does: the entity at `i` is fetched, and the
      walk either goes on from `i + 1` with that entity written, or stops
      with the remote as it was. */
  lemma WalkStepFacts(es: seq<Entity>, i: nat, guildId: string, store: Store, fails: nat -> bool, log: seq<Request>)
    requires i < |es|
    ensures var u := Upsert(es[i], guildId, store, fails, |log|);
      && GetKeys(log + u.requests) == GetKeys(log) + [KeyOf(es[i])]
      && (u.done ==> u.store == store[KeyOf(es[i]) := Payload(es[i], guildId)]
                     && Walk(es, i, guildId, store, fails, log) == Walk(es, i + 1, guildId, u.store, fails, log + u.requests))
      && (!u.done ==> Walk(es, i, guildId, store, fails, log) == SaveResult(false, store, log + u.requests))
  {
    var u := Upsert(es[i], guildId, store, fails, |log|);
    UpsertSpec(es[i], guildId, store, fails, |log|);
    UpsertGetKeys(es[i], guildId, store, fails, |log|);
    GetKeysAppend(log, u.requests);
  }

  /** Every entity is fetched exactly once, in walk order, until the walk
      stops: the new fetches name the entities from `i` up to and including
      the one whose POST threw, or all of them when the walk completes. */
  lemma {:induction false} WalkFetchesInOrder(es: seq<Entity>, i: nat, guildId: string, store: Store, fails: nat -> bool,
                                              log: seq<Request>)
    requires i <= |es|
    ensures var r := Walk(es, i, guildId, store, fails, log);
      && |GetKeys(log)| <= |GetKeys(r.log)| <= |GetKeys(log)| + |es| - i
      && GetKeys(r.log) == GetKeys(log) + KeysOf(es)[i..i + |GetKeys(r.log)| - |GetKeys(log)|]
    decreases |es| - i
  {
    var keys := KeysOf(es);
    if i == |es| {
    } else {
      var u := Upsert(es[i], guildId, store, fails, |log|);
      WalkStepFacts(es, i, guildId, store, fails, log);
      if u.done {
        WalkFetchesInOrder(es, i + 1, guildId, u.store, fails, log + u.requests);
        ExtendFetched(GetKeys(log), GetKeys(log + u.requests),
                      GetKeys(Walk(es, i + 1, guildId, u.store, fails, log + u.requests).log), keys, i);
      } else {
        var r := Walk(es, i, guildId, store, fails, log);
        assert GetKeys(r.log) == GetKeys(log) + [keys[i]];
        assert keys[i..i + 1] == [keys[i]];
      }
    }
  }

  lemma ExtendFetched<K>(before: seq<K>, mid: seq<K>, after: seq<K>, keys: seq<K>, i: nat)
    requires i < |keys| && mid == before + [keys[i]]
    requires |mid| <= |after| <= |mid| + |keys| - (i + 1)
    requires after == mid + keys[i + 1..i + 1 + |after| - |mid|]
    ensures |before| <= |after| <= |before| + |keys| - i
    ensures after == before + keys[i..i + |after| - |before|]
  {
    var tail := keys[i + 1..i + 1 + |after| - |mid|];
    assert keys[i..i + |after| - |before|] == [keys[i]] + tail;
  }

  /** A walk that stops early has written exactly the entities it fetched
      before the one whose POST threw. */
  lemma {:induction false} WalkAbortKeepsPrefix(es: seq<Entity>, i: nat, guildId: string, store: Store, fails: nat -> bool,
                                                log: seq<Request>)
    requires i <= |es|
    ensures var r := Walk(es, i, guildId, store, fails, log);
      !r.ok ==> && |GetKeys(log)| < |GetKeys(r.log)| <= |GetKeys(log)| + |es| - i
                && r.store == WriteAll(store, es[i..i + |GetKeys(r.log)| - |GetKeys(log)| - 1], guildId)
    decreases |es| - i
  {
    WalkFetchCount(es, i, guildId, store, fails, log);
    if i < |es| {
      var u := Upsert(es[i], guildId, store, fails, |log|);
      WalkStepFacts(es, i, guildId, store, fails, log);
      if u.done {
        var log' := log + u.requests;
        var r := Walk(es, i + 1, guildId, u.store, fails, log');
        WalkAbortKeepsPrefix(es, i + 1, guildId, u.store, fails, log');
        var k := |GetKeys(r.log)| - |GetKeys(log)|;
        if !r.ok {
          assert es[i..i + k - 1][1..] == es[i + 1..i + k - 1];
        }
      } else {
        assert es[i..i] == [];
      }
    }
  }

  /** `saveData`: walks the tree depth-first, upserting each entity, and
      reports failure as soon as a POST throws; writes already made stay. */
  method SaveData(guildId: string, groups: seq<Group>, store: Store, fails: nat -> bool)
    returns (ok: bool, remote: Store, log: seq<Request>)
    ensures SaveResult(ok, remote, log) == Walk(SaveOrder(groups), 0, guildId, store, fails, [])
    ensures |GetKeys(log)| <= |SaveOrder(groups)| && GetKeys(log) == KeysOf(SaveOrder(groups))[..|GetKeys(log)|]
    ensures ok ==> |GetKeys(log)| == |SaveOrder(groups)|
    ensures ok ==> remote == WriteAll(store, SaveOrder(groups), guildId)
    ensures !ok ==> 1 <= |GetKeys(log)| <= |SaveOrder(groups)|
                    && remote == WriteAll(store, SaveOrder(groups)[..|GetKeys(log)| - 1], guildId)
  {
    var es := SaveOrder(groups);
    ok, remote, log := RunWalk(es, guildId, store, fails);
    WalkWritesAll(es, 0, guildId, store, fails, []);
    WalkFetchCount(es, 0, guildId, store, fails, []);
    WalkFetchesInOrder(es, 0, guildId, store, fails, []);
    WalkAbortKeepsPrefix(es, 0, guildId, store, fails, []);
    assert GetKeys([]) == [];
    assert es[0..] == es;
  }

  /** The loop of the save: upserts the entities of `es` in order. */
  method RunWalk(es: seq<Entity>, guildId: string, store: Store, fails: nat -> bool)
    returns (ok: bool, remote: Store, log: seq<Request>)
    ensures SaveResult(ok, remote, log) == Walk(es, 0, guildId, store, fails, [])
  {
    remote := store;
    log := [];
    var i := 0;
    while i < |es|
      invariant 0 <= i <= |es|
      invariant Walk(es, 0, guildId, store, fails, []) == Walk(es, i, guildId, remote, fails, log)
    {
      var u := Upsert(es[i], guildId, remote, fails, |log|);
      log := log + u.requests;
      remote := u.store;
      if !u.done {
        ok := false;
        return;
      }
      i := i + 1;
    }
    ok := true;
  }
}
