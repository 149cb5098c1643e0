/** The command catalogue kept in browser storage: seeding, reads, and the
    role-gated create, update and delete. The storage slot is a value that
    every operation takes and returns; clocks and the fallback list are
    parameters. */
module Commands {
  import opened Wrappers
  import Seqs
  import Text

  datatype Command = Command(id: string, name: string, description: string, usage: string, category: string,
                             requiredPermissions: seq<string>, content: Option<string>,
                             createdBy: string, updatedBy: string, createdAt: string, updatedAt: string)

  /** The fields a caller supplies to `createCommand`. */
  datatype CommandData = CommandData(name: string, description: string, usage: string, category: string,
                                     requiredPermissions: seq<string>, content: Option<string>)

  /** `Partial<Command>` for `updateCommand`; `updatedBy` and `updatedAt`
      are left out because the update overwrites them anyway. */
  datatype CommandPatch = CommandPatch(id: Option<string>, name: Option<string>, description: Option<string>,
                                       usage: Option<string>, category: Option<string>,
                                       requiredPermissions: Option<seq<string>>, content: Option<Option<string>>,
                                       createdBy: Option<string>, createdAt: Option<string>)

  datatype CommandError = InsufficientPermissions(action: string) | NotFound

  function Message(e: CommandError): string {
    match e
    case InsufficientPermissions(action) => "Insufficient permissions to " + action + " commands"
    case NotFound => "Command not found"
  }

  /** The `commands` storage slot: absent, or the stored list. */
  type Storage = Option<seq<Command>>

  /** A call's outcome together with the storage it leaves behind. */
  datatype Reply<T> = Reply(storage: Storage, result: Result<T, CommandError>)

  const HelpContent := "The help command displays information about available commands. Use `/help [command]` to get detailed information about a specific command."
  const BanContent := "The ban command allows moderators to remove users from the server. Banned users cannot rejoin unless unbanned."

  /** The three built-in commands, stamped with the time the service
      loaded. Every operation below takes the fallback list as `defaults`;
      the service passes this one. */
  function Defaults(loadedAt: string): (r: seq<Command>)
    ensures |r| == 3 && r[0].name == "help" && r[1].name == "ping" && r[2].name == "ban"
    ensures forall i :: 0 <= i < |r| ==> r[i].createdBy == "system" && r[i].updatedBy == "system"
  {
    [ Command("1", "help", "Shows a list of available commands", "/help [command]", "General", [],
              Some(HelpContent), "system", "system", loadedAt, loadedAt),
      Command("2", "ping", "Checks the bot's response time", "/ping", "General", [], None,
              "system", "system", loadedAt, loadedAt),
      Command("3", "ban", "Bans a user from the server", "/ban @user [reason]", "Moderation", ["BAN_MEMBERS"],
              Some(BanContent), "system", "system", loadedAt, loadedAt) ]
  }

  /** `initializeCommands`: writes the defaults only into an empty slot. */
  function Initialize(storage: Storage, defaults: seq<Command>): (r: Storage)
    ensures r.Some?
    ensures storage.Some? ==> r == storage
    ensures storage.None? ==> r == Some(defaults)
  {
    if storage.None? then Some(defaults) else storage
  }

  /** `getStoredCommands` (and `getCommands`): the stored list, or the
      defaults when the slot is empty. */
  function Stored(storage: Storage, defaults: seq<Command>): seq<Command> {
    storage.GetOr(defaults)
  }

  /** Seeding changes nothing a reader sees, and seeding twice is seeding once. */
  lemma InitializeInvisible(storage: Storage, defaults: seq<Command>)
    ensures Stored(Initialize(storage, defaults), defaults) == Stored(storage, defaults)
    ensures Initialize(Initialize(storage, defaults), defaults) == Initialize(storage, defaults)
  {
  }

  function HasId(id: string): Command -> bool {
    (c: Command) => c.id == id
  }

  /** `getCommandById`: the first stored command with the id, or nothing. */
  function GetCommandById(storage: Storage, defaults: seq<Command>, id: string): (r: Option<Command>)
    ensures var cs := Stored(storage, defaults);
      r.None? <==> forall i :: 0 <= i < |cs| ==> cs[i].id != id
    ensures var cs := Stored(storage, defaults);
      r.Some? ==> exists k :: 0 <= k < |cs| && cs[k] == r.value && r.value.id == id
                              && forall j :: 0 <= j < k ==> cs[j].id != id
  {
    var cs := Stored(storage, defaults);
    match Seqs.FindIndex(cs, HasId(id))
    case None => None
    case Some(k) => Some(cs[k])
  }

  /** Only the `admin` and `super` roles may change the catalogue. */
  predicate CanEdit(role: string) {
    role == "admin" || role == "super"
  }

  /** `createCommand`: a permitted caller gets a new command, id from the
      clock in milliseconds, stamped with the role and the time, appended
      to the stored list. */
  function CreateCommand(storage: Storage, defaults: seq<Command>, data: CommandData, role: string,
                         nowMillis: nat, now: string): (r: Reply<Command>)
    ensures !CanEdit(role) ==> r == Reply(storage, Failure(InsufficientPermissions("create")))
    ensures CanEdit(role) ==> r.result.Success? && r.storage.Some?
    ensures CanEdit(role) ==>
      var before := Stored(storage, defaults); var c := r.result.value; var cs := r.storage.value;
      && |cs| == |before| + 1 && cs[..|before|] == before && cs[|before|] == c
      && c.id == Text.NatToString(nowMillis) && c.createdBy == role && c.updatedBy == role
      && c.createdAt == now && c.updatedAt == now
      && c.name == data.name && c.description == data.description && c.usage == data.usage
      && c.category == data.category && c.requiredPermissions == data.requiredPermissions
      && c.content == data.content
  {
    if !CanEdit(role) then Reply(storage, Failure(InsufficientPermissions("create")))
    else
      var c := Command(Text.NatToString(nowMillis), data.name, data.description, data.usage, data.category,
                       data.requiredPermissions, data.content, role, role, now, now);
      Reply(Some(Stored(storage, defaults) + [c]), Success(c))
  }

  /** `{ ...command, ...data }`. */
  function MergeCommand(c: Command, p: CommandPatch): Command {
    c.(id := p.id.GetOr(c.id), name := p.name.GetOr(c.name), description := p.description.GetOr(c.description),
       usage := p.usage.GetOr(c.usage), category := p.category.GetOr(c.category),
       requiredPermissions := p.requiredPermissions.GetOr(c.requiredPermissions),
       content := p.content.GetOr(c.content), createdBy := p.createdBy.GetOr(c.createdBy),
       createdAt := p.createdAt.GetOr(c.createdAt))
  }

  /** `updateCommand`: a permitted caller's patch is merged into the first
      command with the id, which is then stamped with the role and time. */
  function UpdateCommand(storage: Storage, defaults: seq<Command>, id: string, p: CommandPatch, role: string,
                         now: string): (r: Reply<Command>)
    ensures !CanEdit(role) ==> r == Reply(storage, Failure(InsufficientPermissions("update")))
    ensures var before := Stored(storage, defaults);
      CanEdit(role) && (forall i :: 0 <= i < |before| ==> before[i].id != id) ==> r == Reply(storage, Failure(NotFound))
    ensures var before := Stored(storage, defaults);
      CanEdit(role) && (exists i :: 0 <= i < |before| && before[i].id == id) ==> r.result.Success?
    ensures r.result.Success? ==>
      var before := Stored(storage, defaults); var c := r.result.value;
      && CanEdit(role) && r.storage.Some? && |r.storage.value| == |before|
      && exists k :: (0 <= k < |before| && before[k].id == id && (forall j :: 0 <= j < k ==> before[j].id != id)
                      && r.storage.value == before[k := c]
                      && c == MergeCommand(before[k], p).(updatedBy := role, updatedAt := now))
  {
    if !CanEdit(role) then Reply(storage, Failure(InsufficientPermissions("update")))
    else
      var cs := Stored(storage, defaults);
      match Seqs.FindIndex(cs, HasId(id))
      case None => Reply(storage, Failure(NotFound))
      case Some(k) =>
        var c := MergeCommand(cs[k], p).(updatedBy := role, updatedAt := now);
        Reply(Some(cs[k := c]), Success(c))
  }

  /** `deleteCommand`: a permitted caller removes the first command with the id. */
  function DeleteCommand(storage: Storage, defaults: seq<Command>, id: string, role: string): (r: Reply<()>)
    ensures !CanEdit(role) ==> r == Reply(storage, Failure(InsufficientPermissions("delete")))
    ensures var before := Stored(storage, defaults);
      CanEdit(role) && (forall i :: 0 <= i < |before| ==> before[i].id != id) ==> r == Reply(storage, Failure(NotFound))
    ensures var before := Stored(storage, defaults);
      CanEdit(role) && (exists i :: 0 <= i < |before| && before[i].id == id) ==> r.result.Success?
    ensures r.result.Success? ==>
      var before := Stored(storage, defaults);
      && CanEdit(role) && r.storage.Some? && |r.storage.value| == |before| - 1
      && exists k :: (0 <= k < |before| && before[k].id == id && (forall j :: 0 <= j < k ==> before[j].id != id)
                      && r.storage.value == Seqs.RemoveAt(before, k))
  {
    if !CanEdit(role) then Reply(storage, Failure(InsufficientPermissions("delete")))
    else
      var cs := Stored(storage, defaults);
      match Seqs.FindIndex(cs, HasId(id))
      case None => Reply(storage, Failure(NotFound))
      case Some(k) => Reply(Some(Seqs.RemoveAt(cs, k)), Success(()))
  }

  /** Every refused call, whatever the reason, leaves storage as it was. */
  lemma RefusalsLeaveStorage(storage: Storage, defaults: seq<Command>, id: string, data: CommandData, p: CommandPatch,
                             role: string, nowMillis: nat, now: string)
    ensures CreateCommand(storage, defaults, data, role, nowMillis, now).result.Failure? ==>
      CreateCommand(storage, defaults, data, role, nowMillis, now).storage == storage
    ensures UpdateCommand(storage, defaults, id, p, role, now).result.Failure? ==>
      UpdateCommand(storage, defaults, id, p, role, now).storage == storage
    ensures DeleteCommand(storage, defaults, id, role).result.Failure? ==>
      DeleteCommand(storage, defaults, id, role).storage == storage
  {
  }

  /** A created command can be read back by its id when the id is new, and
      deleting it restores the list that was stored before. */
  lemma CreateThenReadThenDelete(storage: Storage, defaults: seq<Command>, data: CommandData, role: string,
                                 nowMillis: nat, now: string)
    requires CanEdit(role)
    requires var before := Stored(storage, defaults);
      forall i :: 0 <= i < |before| ==> before[i].id != Text.NatToString(nowMillis)
    ensures var r := CreateCommand(storage, defaults, data, role, nowMillis, now);
      && GetCommandById(r.storage, defaults, r.result.value.id) == Some(r.result.value)
      && DeleteCommand(r.storage, defaults, r.result.value.id, role)
         == Reply(Some(Stored(storage, defaults)), Success(()))
  {
    var before := Stored(storage, defaults);
    var r := CreateCommand(storage, defaults, data, role, nowMillis, now);
    var cs := r.storage.value;
    var id := r.result.value.id;
    assert forall i :: 0 <= i < |before| ==> cs[i] == before[i];
    assert Seqs.FindIndex(cs, HasId(id)) == Some(|before|);
    assert Seqs.RemoveAt(cs, |before|) == before;
  }

  /** After an update, reading the id back gives the updated command when
      the patch keeps the id. */
  lemma UpdateThenRead(storage: Storage, defaults: seq<Command>, id: string, p: CommandPatch, role: string, now: string)
    requires p.id.None? || p.id == Some(id)
    ensures var r := UpdateCommand(storage, defaults, id, p, role, now);
      r.result.Success? ==> GetCommandById(r.storage, defaults, id) == Some(r.result.value)
  {
    var r := UpdateCommand(storage, defaults, id, p, role, now);
    if r.result.Success? {
      var before := Stored(storage, defaults);
      var k := Seqs.FindIndex(before, HasId(id)).value;
      var c := r.result.value;
      var after := before[k := c];
      assert r.storage == Some(after);
      assert c.id == id;
      FirstWithId(after, id, k);
    }
  }

  lemma FirstWithId(cs: seq<Command>, id: string, k: nat)
    requires k < |cs| && cs[k].id == id && forall j :: 0 <= j < k ==> cs[j].id != id
    ensures Seqs.FindIndex(cs, HasId(id)) == Some(k)
  {
    assert HasId(id)(cs[k]);
  }
}
