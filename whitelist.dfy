/** The `whitelist` command (src/commands/whitelist.rs): read `whitelist.json`,
    sort its entries by name, then `add`, `remove` or `list` players. A change is
    written back to the file and followed by a `whitelist reload` on the console.
    Reading, parsing and writing the file and deriving a UUID from a username are
    outside the model: their outcomes are parameters. */
module Whitelist {

  import opened Wrappers
  import opened Text
  import opened Ids
  import opened Console
  import opened Sorting

  /** One record of `whitelist.json`. */
  datatype Entry = Entry(name: string, uuid: Uuid)

  function EntryName(e: Entry): string { e.name }

  /** The kinds of Discord command option the command tells apart. */
  datatype OptionKind = SubCommand | StringOption | OtherKind

  datatype OptionValue = StringValue(s: string) | OtherValue

  /** A Discord `CommandDataOption`: a subcommand carries its own options. */
  datatype CommandOption = CommandOption(name: string, kind: OptionKind, resolved: Option<OptionValue>,
                                         options: seq<CommandOption>)

  /** What reading and parsing `whitelist.json` gave. */
  datatype LoadResult = ReadFailed | ParseFailed | Loaded(entries: seq<Entry>)

  /** What opening (with truncation) and writing `whitelist.json` gave. */
  datatype WriteResult = OpenFailed | WriteFailed | Written

  /** What happened to the file: left alone, truncated by an open whose write then
      failed, or replaced by the new list. */
  datatype FileEffect = Untouched | Truncated | Saved(entries: seq<Entry>)

  /** A subcommand's decision: reply at once, or reply after saving a new list. */
  datatype Action = Done(reply: string) | Change(reply: string, newList: seq<Entry>)

  datatype Response = Response(reply: string, effect: FileEffect)

  const NO: string := "no"
  const NOT_OP: string := "You're not an op!"
  const LOOKUP_FAILED: string :=
    "Error in adding user (perhaps this username doesn't exist, or the mojang authentication servers are down)"
  const READ_FAILED: string := "Couldn't read whitelist file."
  const PARSE_FAILED: string := "Couldn't parse whitelist file"
  const OPEN_FAILED: string := "Couldn't open whitelist file for writing"
  const WRITE_FAILED: string := "Couldn't write to whitelist file."
  const RELOAD: string := "whitelist reload"

  function AlreadyReply(u: string): string { "The user " + u + " is already in the whitelist." }
  function AddedReply(u: string): string { "Player " + u + " added to the whitelist." }
  function RemovedReply(u: string): string { "Player " + u + " removed from the whitelist." }
  function NotInReply(u: string): string { "The player " + u + " is not in the whitelist." }

  // ---------------------------------------------------------------------------
  // options

  /** The string value of option `i`, provided it is named `name` and resolved to a
      string; the option's declared kind is not looked at. */
  function StringArg(opts: seq<CommandOption>, i: nat, name: string): (r: Option<string>)
    ensures r.Some? <==>
      i < |opts| && opts[i].name == name && opts[i].resolved.Some? && opts[i].resolved.value.StringValue?
    ensures r.Some? ==> opts[i].resolved == Some(StringValue(r.value))
  {
    if i < |opts| && opts[i].name == name && opts[i].resolved.Some? && opts[i].resolved.value.StringValue? then
      Some(opts[i].resolved.value.s)
    else None
  }

  /** The `mode` option of `add`: `Some(true)` for online, `Some(false)` for offline. */
  function ModeArg(opts: seq<CommandOption>): (r: Option<bool>)
    ensures r == Some(true) <==> StringArg(opts, 1, "mode") == Some("online")
    ensures r == Some(false) <==> StringArg(opts, 1, "mode") == Some("offline")
  {
    match StringArg(opts, 1, "mode")
    case None => None
    case Some(m) => if m == "online" then Some(true) else if m == "offline" then Some(false) else None
  }

  // ---------------------------------------------------------------------------
  // the list

  predicate HasName(s: seq<Entry>, u: string) {
    exists i :: 0 <= i < |s| && s[i].name == u
  }

  /** `retain(|entry| entry.name != u)`: the entries not named `u`, in their order. */
  function Without(s: seq<Entry>, u: string): (r: seq<Entry>)
    ensures |r| <= |s|
    ensures forall i :: 0 <= i < |r| ==> r[i].name != u
  {
    if s == [] then []
    else Without(s[..|s| - 1], u) + (if s[|s| - 1].name == u then [] else [s[|s| - 1]])
  }

  /** Removing keeps every entry with another name, as often as it occurred, and no
      entry named `u`. */
  lemma {:induction false} WithoutCount(s: seq<Entry>, u: string, e: Entry)
    ensures multiset(Without(s, u))[e] == if e.name == u then 0 else multiset(s)[e]
  {
    if s != [] {
      var init := s[..|s| - 1];
      WithoutCount(init, u, e);
      assert s == init + [s[|s| - 1]];
    }
  }

  /** Removing keeps the order: it acts on each part of a list separately. */
  lemma {:induction false} WithoutConcat(s: seq<Entry>, t: seq<Entry>, u: string)
    ensures Without(s + t, u) == Without(s, u) + Without(t, u)
  {
    if t == [] {
      assert s + t == s;
    } else {
      var init := t[..|t| - 1];
      WithoutConcat(s, init, u);
      assert (s + t)[..|s + t| - 1] == s + init;
    }
  }

  /** Removing shrinks the list exactly when some entry has the name. */
  lemma {:induction false} WithoutShrinks(s: seq<Entry>, u: string)
    ensures |Without(s, u)| < |s| <==> HasName(s, u)
  {
    if s != [] {
      var init := s[..|s| - 1];
      WithoutShrinks(init, u);
      if HasName(init, u) {
        var i :| 0 <= i < |init| && init[i].name == u;
        assert s[i].name == u;
      }
      if HasName(s, u) && s[|s| - 1].name != u {
        var i :| 0 <= i < |s| && s[i].name == u;
        assert init[i].name == u;
      }
    }
  }

  /** The names of the entries, in order. */
  function Names(s: seq<Entry>): seq<string> {
    seq(|s|, i requires 0 <= i < |s| => s[i].name)
  }

  /** The reply to `list`. */
  function ListText(s: seq<Entry>): string {
    "There are " + NatToString(|s|) + " whitelisted players"
      + (if |s| == 0 then "." else ":\n```\n" + Join(Names(s), ", ") + "\n```")
  }

  /** The `list` reply names every whitelisted player. */
  lemma ListShowsEveryName(s: seq<Entry>, i: nat)
    requires i < |s|
    ensures Contains(ListText(s), s[i].name)
  {
    var names := Names(s);
    JoinContains(names, ", ", i);
    var pre := "There are " + NatToString(|s|) + " whitelisted players" + ":\n```\n";
    assert ListText(s) == pre + Join(names, ", ") + "\n```";
    ContainsInside(pre, Join(names, ", "), "\n```", names[i]);
  }

  /** An empty whitelist is reported in one sentence. */
  lemma ListEmpty()
    ensures ListText([]) == "There are 0 whitelisted players."
  {
    assert NatToString(0) == "0";
  }

  // ---------------------------------------------------------------------------
  // the decision

  /** What the command decides on the sorted list. `onlineUuid` is the Mojang lookup
      (None when it fails) and `offlineUuid` the offline-mode derivation. */
  function Decide(isOp: bool, options: seq<CommandOption>, list: seq<Entry>,
                  onlineUuid: string -> Option<Uuid>, offlineUuid: string -> Uuid): Action
  {
    if |options| == 0 || options[0].kind != SubCommand then Done(NO)
    else
      var args := options[0].options;
      if options[0].name == "add" then
        if !isOp then Done(NOT_OP)
        else match StringArg(args, 0, "username")
          case None => Done(NO)
          case Some(u) =>
            if HasName(list, u) then Done(AlreadyReply(u))
            else match ModeArg(args)
              case None => Done(NO)
              case Some(online) =>
                match (if online then onlineUuid(u) else Some(offlineUuid(u)))
                case None => Done(LOOKUP_FAILED)
                case Some(id) => Change(AddedReply(u), list + [Entry(u, id)])
      else if options[0].name == "remove" then
        if !isOp then Done(NOT_OP)
        else match StringArg(args, 0, "username")
          case None => Done(NO)
          case Some(u) =>
            var kept := Without(list, u);
            if |kept| < |list| then Change(RemovedReply(u), kept) else Done(NotInReply(u))
      else if options[0].name == "list" then Done(ListText(list))
      else Done(NO)
  }

  /** The subcommand named by well-formed options, if any. */
  function SubName(options: seq<CommandOption>): (r: Option<string>)
    ensures r.Some? <==> |options| > 0 && options[0].kind == SubCommand
    ensures r.Some? ==> r.value == options[0].name
  {
    if |options| > 0 && options[0].kind == SubCommand then Some(options[0].name) else None
  }

  /** Only an operator's `add` or `remove` changes the list; a non-operator asking for
      either is told so. */
  lemma ChangeNeedsOp(isOp: bool, options: seq<CommandOption>, list: seq<Entry>,
                      onlineUuid: string -> Option<Uuid>, offlineUuid: string -> Uuid)
    ensures Decide(isOp, options, list, onlineUuid, offlineUuid).Change? ==>
      isOp && SubName(options) in {Some("add"), Some("remove")}
    ensures !isOp && SubName(options) in {Some("add"), Some("remove")} ==>
      Decide(isOp, options, list, onlineUuid, offlineUuid) == Done(NOT_OP)
  {
  }

  /** Malformed options and unknown subcommands are answered "no". */
  lemma Malformed(isOp: bool, options: seq<CommandOption>, list: seq<Entry>,
                  onlineUuid: string -> Option<Uuid>, offlineUuid: string -> Uuid)
    ensures SubName(options) !in {Some("add"), Some("remove"), Some("list")} ==>
      Decide(isOp, options, list, onlineUuid, offlineUuid) == Done(NO)
  {
  }

  /** `list` never changes anything and needs no operator. */
  lemma ListCommand(isOp: bool, options: seq<CommandOption>, list: seq<Entry>,
                    onlineUuid: string -> Option<Uuid>, offlineUuid: string -> Uuid)
    requires SubName(options) == Some("list")
    ensures Decide(isOp, options, list, onlineUuid, offlineUuid) == Done(ListText(list))
  {
  }

  /** An operator's `add` of user `u` in a valid mode changes the list exactly when no
      entry has that name and the UUID is found; the change appends one entry for `u`
      and leaves the others as they were. */
  lemma AddExactlyOne(options: seq<CommandOption>, list: seq<Entry>,
                      onlineUuid: string -> Option<Uuid>, offlineUuid: string -> Uuid, u: string, online: bool)
    requires SubName(options) == Some("add")
    requires StringArg(options[0].options, 0, "username") == Some(u)
    requires ModeArg(options[0].options) == Some(online)
    ensures Decide(true, options, list, onlineUuid, offlineUuid).Change? <==>
      !HasName(list, u) && (online ==> onlineUuid(u).Some?)
    ensures HasName(list, u) ==> Decide(true, options, list, onlineUuid, offlineUuid) == Done(AlreadyReply(u))
    ensures Decide(true, options, list, onlineUuid, offlineUuid).Change? ==>
      var nl := Decide(true, options, list, onlineUuid, offlineUuid).newList;
      |nl| == |list| + 1 && nl[..|list|] == list && nl[|list|].name == u
        && (!online ==> nl[|list|].uuid == offlineUuid(u))
        && (online ==> Some(nl[|list|].uuid) == onlineUuid(u))
  {
    var r := Decide(true, options, list, onlineUuid, offlineUuid);
    if r.Change? {
      assert r.newList[..|list|] == list;
    }
  }

  /** An `add` whose mode is neither "online" nor "offline" is answered "no" once the
      name is known to be new. */
  lemma AddBadMode(options: seq<CommandOption>, list: seq<Entry>,
                   onlineUuid: string -> Option<Uuid>, offlineUuid: string -> Uuid, u: string)
    requires SubName(options) == Some("add")
    requires StringArg(options[0].options, 0, "username") == Some(u)
    requires !HasName(list, u)
    requires StringArg(options[0].options, 1, "mode") !in {Some("online"), Some("offline")}
    ensures Decide(true, options, list, onlineUuid, offlineUuid) == Done(NO)
  {
  }

  /** An operator's `remove` of user `u` changes the list exactly when some entry has
      that name; the new list drops every such entry and keeps the rest in order. */
  lemma RemoveIff(options: seq<CommandOption>, list: seq<Entry>,
                  onlineUuid: string -> Option<Uuid>, offlineUuid: string -> Uuid, u: string)
    requires SubName(options) == Some("remove")
    requires StringArg(options[0].options, 0, "username") == Some(u)
    ensures Decide(true, options, list, onlineUuid, offlineUuid).Change? <==> HasName(list, u)
    ensures !HasName(list, u) ==> Decide(true, options, list, onlineUuid, offlineUuid) == Done(NotInReply(u))
    ensures HasName(list, u) ==>
      Decide(true, options, list, onlineUuid, offlineUuid) == Change(RemovedReply(u), Without(list, u))
  {
    WithoutShrinks(list, u);
  }

  // ---------------------------------------------------------------------------
  // writing back

  /** After a change the file is opened with truncation and written; the reply becomes
      an error when either step fails. A decision without change touches nothing. */
  function Finish(action: Action, write: WriteResult): Response {
    match action
    case Done(reply) => Response(reply, Untouched)
    case Change(reply, newList) =>
      match write
      case OpenFailed => Response(OPEN_FAILED, Untouched)
      case WriteFailed => Response(WRITE_FAILED, Truncated)
      case Written => Response(reply, Saved(newList))
  }

  /** The file receives the new list exactly when a change was decided and the write
      succeeded, and then the change's own reply is given. */
  lemma SavedIff(action: Action, write: WriteResult)
    ensures Finish(action, write).effect.Saved? <==> action.Change? && write.Written?
    ensures Finish(action, write).effect.Saved? ==>
      Finish(action, write) == Response(action.reply, Saved(action.newList))
    ensures action.Done? ==> Finish(action, write) == Response(action.reply, Untouched)
  {
  }

  /** The whole command, given what loading the file gave and the sorted entries. */
  function Respond(load: LoadResult, isOp: bool, options: seq<CommandOption>, sorted: seq<Entry>,
                   onlineUuid: string -> Option<Uuid>, offlineUuid: string -> Uuid,
                   write: WriteResult): Response
  {
    match load
    case ReadFailed => Response(READ_FAILED, Untouched)
    case ParseFailed => Response(PARSE_FAILED, Untouched)
    case Loaded(_) => Finish(Decide(isOp, options, sorted, onlineUuid, offlineUuid), write)
  }

  // ---------------------------------------------------------------------------
  // the command

  /** `Vec::retain`: keep, in order and at the front of `a`, the entries not named `u`;
      `n` is the new length. */
  method RetainOthers(a: array<Entry>, u: string) returns (n: nat)
    modifies a
    ensures n <= a.Length
    ensures a[..n] == Without(old(a[..]), u)
  {
    ghost var orig := a[..];
    n := 0;
    var i := 0;
    while i < a.Length
      invariant 0 <= n <= i <= a.Length
      invariant a[..n] == Without(orig[..i], u)
      invariant a[i..] == orig[i..]
    {
      assert orig[..i + 1][..i] == orig[..i];
      var e := a[i];
      assert e == orig[i];
      if e.name != u {
        a[n] := e;
        n := n + 1;
      }
      i := i + 1;
    }
    assert orig[..a.Length] == orig;
  }

  /** `whitelist::run`. The entries are sorted by name in place (their order among equal
      names is left open, as `sort_unstable_by` leaves it), and after a saved change
      the console is asked to reload the whitelist, whatever it answers. */
  method Run(console: Interface, isOp: bool, load: LoadResult, options: seq<CommandOption>,
             onlineUuid: string -> Option<Uuid>, offlineUuid: string -> Uuid, write: WriteResult)
    returns (reply: string, sorted: seq<Entry>, effect: FileEffect)
    modifies console
    ensures load.Loaded? ==> SortedBy(sorted, EntryName) && multiset(sorted) == multiset(load.entries)
    ensures Response(reply, effect) == Respond(load, isOp, options, sorted, onlineUuid, offlineUuid, write)
    ensures console.sent == old(console.sent) + (if effect.Saved? then [RELOAD] else [])
  {
    sorted := [];
    effect := Untouched;
    if load.ReadFailed? {
      reply := READ_FAILED;
      return;
    }
    if load.ParseFailed? {
      reply := PARSE_FAILED;
      return;
    }
    var entries := load.entries;
    var a := new Entry[|entries|](i requires 0 <= i < |entries| => entries[i]);
    assert a[..] == entries;
    SortInPlace(a, EntryName);
    sorted := a[..];

    var action: Action;
    if |options| == 0 || options[0].kind != SubCommand {
      reply := NO;
      return;
    }
    var args := options[0].options;
    if options[0].name == "add" {
      if !isOp {
        reply := NOT_OP;
        return;
      }
      var username := StringArg(args, 0, "username");
      if username.None? {
        reply := NO;
        return;
      }
      var u := username.value;
      if HasName(sorted, u) {
        reply := AlreadyReply(u);
        return;
      }
      var mode := ModeArg(args);
      if mode.None? {
        reply := NO;
        return;
      }
      var uuid: Uuid;
      if mode.value {
        var found := onlineUuid(u);
        if found.None? {
          reply := LOOKUP_FAILED;
          return;
        }
        uuid := found.value;
      } else {
        uuid := offlineUuid(u);
      }
      action := Change(AddedReply(u), sorted + [Entry(u, uuid)]);
    } else if options[0].name == "remove" {
      if !isOp {
        reply := NOT_OP;
        return;
      }
      var username := StringArg(args, 0, "username");
      if username.None? {
        reply := NO;
        return;
      }
      var u := username.value;
      var len := a.Length;
      var n := RetainOthers(a, u);
      if n < len {
        action := Change(RemovedReply(u), a[..n]);
      } else {
        reply := NotInReply(u);
        return;
      }
    } else if options[0].name == "list" {
      reply := ListText(sorted);
      return;
    } else {
      reply := NO;
      return;
    }

    match write {
      case OpenFailed =>
        reply := OPEN_FAILED;
      case WriteFailed =>
        reply := WRITE_FAILED;
        effect := Truncated;
      case Written =>
        reply := action.reply;
        effect := Saved(action.newList);
        var ignored := console.Exec(RELOAD);
    }
  }
}
