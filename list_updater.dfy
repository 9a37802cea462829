/** The list updater: every few seconds the bot asks the server for its status,
    renders it into the pinned list message of the list channel, renames and
    kicks players whose nickname is flagged, and stops an empty server when a
    restart is scheduled. One tick of that loop is modelled as a method of the
    bot's shared state. */
module ListUpdater {

  import opened Wrappers
  import opened Text
  import opened Ids
  import opened Console
  import opened ServerStatus
  import opened Moderation

  /** Where the list message lives (`Cache` in src/main.rs, saved as TOML). */
  datatype Cache = Cache(listChannel: ChannelId, listMessage: MessageId)

  /** A message the bot posts to Discord: an edit of the cached message, or a new one. */
  datatype Post = Edit(channel: ChannelId, message: MessageId, text: string) | Send(channel: ChannelId, text: string)

  const OFFLINE_TEXT: string := "The server is offline."

  // ---------------------------------------------------------------------------
  // Startup

  /** The cache read at startup is kept only when it is for the configured channel. */
  function StartupCache(loaded: Option<Cache>, listChannel: ChannelId): (r: Option<Cache>)
    ensures r.Some? ==> r == loaded && r.value.listChannel == listChannel
    ensures loaded.Some? && loaded.value.listChannel == listChannel ==> r == loaded
  {
    match loaded
    case Some(c) => if c.listChannel != listChannel then None else loaded
    case None => None
  }

  // ---------------------------------------------------------------------------
  // set_list_text

  /** The footer appended to every list text, with the time in seconds since the epoch. */
  function Footer(now: nat): string {
    "\n\nLast update: <t:" + NatToString(now) + ":T>"
  }

  /** Removing the footer gives the text back. */
  lemma FooterStrips(text: string, now: nat)
    ensures StripSuffix(text + Footer(now), Footer(now)) == Some(text)
  {
    var s := text + Footer(now);
    assert s[|s| - |Footer(now)|..] == Footer(now);
    assert s[..|s| - |Footer(now)|] == text;
  }

  /** The message `set_list_text` posts: an edit when the message is cached, else a send. */
  function PostFor(cache: Option<Cache>, listChannel: ChannelId, text: string): Post {
    match cache
    case Some(c) => Edit(c.listChannel, c.listMessage, text)
    case None => Send(listChannel, text)
  }

  /** With the cache in the list channel, the post goes to the list channel and
      carries the text: an edit of the cached message, or a new message. */
  lemma PostForChannel(cache: Option<Cache>, listChannel: ChannelId, text: string)
    requires cache.Some? ==> cache.value.listChannel == listChannel
    ensures PostFor(cache, listChannel, text).channel == listChannel
    ensures PostFor(cache, listChannel, text).text == text
    ensures PostFor(cache, listChannel, text).Edit? <==> cache.Some?
  {
  }

  /** The cache after posting, given the id of the message a send created (None when
      the send failed). */
  function NextCache(cache: Option<Cache>, listChannel: ChannelId, sent: Option<MessageId>): (r: Option<Cache>)
    ensures cache.Some? ==> r == cache
    ensures cache.None? ==> (r.Some? <==> sent.Some?)
    ensures cache.None? && sent.Some? ==> r == Some(Cache(listChannel, sent.value))
  {
    if cache.Some? then cache
    else if sent.Some? then Some(Cache(listChannel, sent.value))
    else None
  }

  /** The cache after a run of posts, given the outcome of each send. */
  function CacheAfter(cache: Option<Cache>, listChannel: ChannelId, sends: seq<Option<MessageId>>): Option<Cache>
    decreases |sends|
  {
    if sends == [] then cache else CacheAfter(NextCache(cache, listChannel, sends[0]), listChannel, sends[1..])
  }

  /** The message created by the first successful send, if any. */
  function FirstSent(sends: seq<Option<MessageId>>): Option<MessageId>
    decreases |sends|
  {
    if sends == [] then None
    else if sends[0].Some? then sends[0]
    else FirstSent(sends[1..])
  }

  /** `FirstSent` is the first successful send, and there is one unless every send failed. */
  lemma {:induction false} FirstSentIsFirst(sends: seq<Option<MessageId>>)
    ensures FirstSent(sends).Some? <==> exists i :: 0 <= i < |sends| && sends[i].Some?
    ensures FirstSent(sends).Some? ==>
      exists i :: 0 <= i < |sends| && sends[i] == FirstSent(sends) && forall j :: 0 <= j < i ==> sends[j].None?
    decreases |sends|
  {
    if sends != [] {
      if sends[0].Some? {
        assert sends[0] == FirstSent(sends);
      } else {
        FirstSentIsFirst(sends[1..]);
        var r := FirstSent(sends[1..]);
        if r.Some? {
          var i :| 0 <= i < |sends[1..]| && sends[1..][i] == r && forall j :: 0 <= j < i ==> sends[1..][j].None?;
          assert sends[i + 1] == r;
          forall j | 0 <= j < i + 1 ensures sends[j].None? {
            if j > 0 { assert sends[j] == sends[1..][j - 1]; }
          }
        } else {
          forall i | 0 <= i < |sends| ensures sends[i].None? {
            if i > 0 { assert sends[i] == sends[1..][i - 1]; }
          }
        }
      }
    }
  }

  /** Once the message is cached, the cache never changes. */
  lemma {:induction false} CacheSettled(cache: Option<Cache>, listChannel: ChannelId, sends: seq<Option<MessageId>>)
    requires cache.Some?
    ensures CacheAfter(cache, listChannel, sends) == cache
    decreases |sends|
  {
    if sends != [] {
      CacheSettled(cache, listChannel, sends[1..]);
    }
  }

  /** Without a cache, the first successful send fixes the cache for good. */
  lemma {:induction false} CacheFromFirstSend(listChannel: ChannelId, sends: seq<Option<MessageId>>)
    ensures CacheAfter(None, listChannel, sends)
         == if FirstSent(sends).Some? then Some(Cache(listChannel, FirstSent(sends).value)) else None
    decreases |sends|
  {
    if sends != [] {
      if sends[0].Some? {
        CacheSettled(Some(Cache(listChannel, sends[0].value)), listChannel, sends[1..]);
      } else {
        CacheFromFirstSend(listChannel, sends[1..]);
      }
    }
  }

  // ---------------------------------------------------------------------------
  // Rendering the players

  /** The nickname is flagged once its tags are stripped. */
  predicate Flagged(p: PlayerData) {
    p.nickname.Some? && Naughty(StripTags(p.nickname.value))
  }

  /** The nickname shown for a player with one: the stripped nickname, or the
      replacement when it is flagged. Whatever is shown is never flagged itself. */
  function ShownNickname(nick: string): (r: string)
    ensures !Naughty(r)
    ensures Naughty(StripTags(nick)) ==> r == NAUGHTY_NICKNAME
    ensures !Naughty(StripTags(nick)) ==> r == StripTags(nick)
  {
    var stripped := StripTags(nick);
    if Naughty(stripped) then
      ReplacementNotNaughty();
      NAUGHTY_NICKNAME
    else stripped
  }

  lemma ReplacementNoBackticks()
    ensures !Occurs("I MADE BOOL SAD", "```")
  {
    NotOccurs("I MADE BOOL SAD", "```");
  }

  lemma ReplacementNoLinks()
    ensures !Occurs("I MADE BOOL SAD", "http://") && !Occurs("I MADE BOOL SAD", "https://")
  {
    NotOccurs("I MADE BOOL SAD", "http://");
    NotOccurs("I MADE BOOL SAD", "https://");
  }

  lemma ReplacementNoInvites()
    ensures !Occurs("I MADE BOOL SAD", "discord.gg")
  {
    NotOccurs("I MADE BOOL SAD", "discord.gg");
  }

  /** The replacement nickname is not flagged. */
  lemma ReplacementNotNaughty()
    ensures !Naughty(NAUGHTY_NICKNAME)
  {
    ReplacementNoBackticks();
    ReplacementNoLinks();
    ReplacementNoInvites();
  }

  /** The line of the player list for one player: the name, followed by the shown
      nickname in parentheses when there is one. */
  function DisplayLine(p: PlayerData): (r: string)
    ensures StartsWith(r, p.name)
  {
    match p.nickname
    case None => p.name
    case Some(nick) =>
      var r := p.name + " (" + ShownNickname(nick) + ")";
      assert r[..|p.name|] == p.name;
      r
  }

  /** A flagged player is listed under the replacement nickname. */
  lemma FlaggedDisplay(p: PlayerData)
    requires Flagged(p)
    ensures DisplayLine(p) == p.name + " (" + NAUGHTY_NICKNAME + ")"
  {
    var nick := p.nickname.value;
    assert Naughty(StripTags(nick));
    assert ShownNickname(nick) == NAUGHTY_NICKNAME;
  }

  /** The list lines, one per player, in list order. */
  function Lines(list: seq<PlayerData>): (r: seq<string>)
    ensures |r| == |list|
    ensures forall i :: 0 <= i < |list| ==> r[i] == DisplayLine(list[i])
  {
    seq(|list|, i requires 0 <= i < |list| => DisplayLine(list[i]))
  }

  /** The names of the flagged players, in list order. */
  function NaughtyNames(list: seq<PlayerData>): (r: seq<string>)
    ensures |r| <= |list|
    decreases |list|
  {
    if list == [] then []
    else
      var last := list[|list| - 1];
      NaughtyNames(list[..|list| - 1]) + (if Flagged(last) then [last.name] else [])
  }

  /** A name is listed as naughty exactly when it is the name of a flagged player. */
  lemma {:induction false} NaughtyNamesIff(list: seq<PlayerData>, name: string)
    ensures name in NaughtyNames(list) <==> exists i :: 0 <= i < |list| && Flagged(list[i]) && list[i].name == name
    decreases |list|
  {
    if list != [] {
      var init := list[..|list| - 1];
      NaughtyNamesIff(init, name);
      if exists i :: 0 <= i < |init| && Flagged(init[i]) && init[i].name == name {
        var i :| 0 <= i < |init| && Flagged(init[i]) && init[i].name == name;
        assert list[i] == init[i];
      }
      if exists i :: 0 <= i < |list| && Flagged(list[i]) && list[i].name == name {
        var i :| 0 <= i < |list| && Flagged(list[i]) && list[i].name == name;
        if i < |init| { assert init[i] == list[i]; }
      }
    }
  }

  /** Extending the list by one player extends the lines and the flagged names. */
  lemma RenderStep(list: seq<PlayerData>, i: nat)
    requires i < |list|
    ensures Lines(list[..i + 1]) == Lines(list[..i]) + [DisplayLine(list[i])]
    ensures NaughtyNames(list[..i + 1]) == NaughtyNames(list[..i]) + (if Flagged(list[i]) then [list[i].name] else [])
  {
    assert list[..i + 1][..i] == list[..i];
  }

  /** The player part of the list text. */
  function OnlineText(st: OnlineServerStatus): string {
    "The server is online. There are " + IntToString(st.currentPlayers) + "/" + IntToString(st.maxPlayers)
      + " connected players"
      + (if st.currentPlayers > 0 then ": ```\n" + Join(Lines(st.list), "\n") + "```" else ".\n")
  }

  /** With players online, the text shows every player's line. */
  lemma OnlineTextShowsPlayer(st: OnlineServerStatus, i: nat)
    requires st.currentPlayers > 0 && i < |st.list|
    ensures Contains(OnlineText(st), DisplayLine(st.list[i]))
  {
    var head := "The server is online. There are " + IntToString(st.currentPlayers) + "/" + IntToString(st.maxPlayers);
    var lines := Lines(st.list);
    var body := Join(lines, "\n");
    JoinContains(lines, "\n", i);
    var pre := head + " connected players" + ": ```\n";
    assert OnlineText(st) == pre + body + "```";
    ContainsInside(pre, body, "```", lines[i]);
  }

  /** With no player online, the text ends right after the counts. */
  lemma OnlineTextEmpty(st: OnlineServerStatus)
    requires st.currentPlayers <= 0
    ensures EndsWith(OnlineText(st), " connected players.\n")
  {
    var head := "The server is online. There are " + IntToString(st.currentPlayers) + "/" + IntToString(st.maxPlayers);
    assert OnlineText(st) == head + " connected players.\n";
  }

  // ---------------------------------------------------------------------------
  // One tick, as functions of the status

  /** The text the tick renders for a status result. */
  function TickText(status: Result<ServerStatus, string>): string {
    match status
    case Err(why) => why
    case Ok(Offline) => OFFLINE_TEXT
    case Ok(Online(st)) => OnlineText(st)
  }

  /** The two commands that rename and kick one flagged player. */
  function EnforceCommands(name: string): seq<string> {
    ["styled-nicknames set " + name + " " + NAUGHTY_NICKNAME, "kick " + name + " nice try"]
  }

  /** Enforcing one more flagged player appends that player's two commands. */
  lemma EnforcementStep(names: seq<string>, k: nat)
    requires k < |names|
    ensures Enforcement(names[..k + 1]) == Enforcement(names[..k]) + EnforceCommands(names[k])
  {
    assert names[..k + 1][..k] == names[..k];
  }

  /** The enforcement commands for the flagged players, a rename and a kick each, in order. */
  function Enforcement(names: seq<string>): (r: seq<string>)
    ensures |r| == 2 * |names|
    ensures forall k :: 0 <= k < |names| ==>
      r[2 * k] == "styled-nicknames set " + names[k] + " I MADE BOOL SAD" && r[2 * k + 1] == "kick " + names[k] + " nice try"
    decreases |names|
  {
    if names == [] then []
    else
      var init := names[..|names| - 1];
      var r := Enforcement(init) + EnforceCommands(names[|names| - 1]);
      assert forall k :: 0 <= k < |init| ==> names[k] == init[k];
      r
  }

  /** The console commands a tick sends after the status command. */
  function TickCommands(status: Result<ServerStatus, string>, flag: bool): seq<string> {
    match status
    case Ok(Online(st)) =>
      Enforcement(NaughtyNames(st.list)) + (if st.currentPlayers == 0 && flag then ["stop"] else [])
    case _ => []
  }

  /** The restart flag after a tick. */
  function NextFlag(status: Result<ServerStatus, string>, flag: bool): (r: bool)
    ensures r ==> flag
  {
    if status == Ok(Offline) then false else flag
  }

  /** Only the offline status clears the flag; errors and online statuses keep it. */
  lemma NextFlagIff(status: Result<ServerStatus, string>, flag: bool)
    ensures NextFlag(status, flag) <==> flag && status != Ok(Offline)
  {
  }

  /** No enforcement command is "stop". */
  lemma {:induction false} StopNotEnforcement(names: seq<string>)
    ensures "stop" !in Enforcement(names)
  {
    var r := Enforcement(names);
    forall i | 0 <= i < |r| ensures r[i] != "stop" {
      var k := i / 2;
      CommandsNotStop(names[k]);
      if i % 2 == 0 {
        assert i == 2 * k;
      } else {
        assert i == 2 * k + 1;
      }
    }
  }

  /** Neither enforcement command is "stop". */
  lemma CommandsNotStop(name: string)
    ensures "stop" !in EnforceCommands(name)
    ensures "styled-nicknames set " + name + " I MADE BOOL SAD" != "stop"
    ensures "kick " + name + " nice try" != "stop"
  {
    assert ("styled-nicknames set " + name + " I MADE BOOL SAD")[2] == 'y';
    assert ("kick " + name + " nice try")[0] == 'k';
  }

  /** "stop" is sent exactly when the server is online and empty and a restart is scheduled;
      offline and error statuses send nothing. */
  lemma StopIff(status: Result<ServerStatus, string>, flag: bool)
    ensures "stop" in TickCommands(status, flag)
        <==> flag && status.Ok? && status.value.Online? && status.value.online.currentPlayers == 0
    ensures !(status.Ok? && status.value.Online?) ==> TickCommands(status, flag) == []
  {
    if status.Ok? && status.value.Online? {
      StopNotEnforcement(NaughtyNames(status.value.online.list));
    }
  }

  /** The flag after a run of ticks. */
  function FlagAfter(statuses: seq<Result<ServerStatus, string>>, flag: bool): bool
    decreases |statuses|
  {
    if statuses == [] then flag else FlagAfter(statuses[1..], NextFlag(statuses[0], flag))
  }

  /** Ticks never schedule a restart: after a run of ticks the flag is still set exactly
      when it was set before and no tick saw the server offline. */
  lemma {:induction false} FlagAfterIff(statuses: seq<Result<ServerStatus, string>>, flag: bool)
    ensures FlagAfter(statuses, flag) <==> flag && forall i :: 0 <= i < |statuses| ==> statuses[i] != Ok(Offline)
    decreases |statuses|
  {
    if statuses != [] {
      FlagAfterIff(statuses[1..], NextFlag(statuses[0], flag));
      assert forall i :: 1 <= i < |statuses| ==> statuses[i] == statuses[1..][i - 1];
    }
  }

  // ---------------------------------------------------------------------------
  // The shared state and the tick itself

  /** The parts of the bot's `Data` the list updater uses. */
  class Data {
    const console: Interface
    const listChannel: ChannelId
    const hasListJson: bool
    var restartScheduled: bool
    var cache: Option<Cache>
    /** Every message posted to the list channel, oldest first. */
    var posts: seq<Post>

    /** The cached message is always in the configured list channel, and so is
        every post. */
    ghost predicate Valid()
      reads this
    {
      && (cache.Some? ==> cache.value.listChannel == listChannel)
      && forall i :: 0 <= i < |posts| ==> posts[i].channel == listChannel
    }

    /** Startup: the cache read from disk is kept only for the configured channel; no
        restart is scheduled. */
    constructor (console: Interface, listChannel: ChannelId, hasListJson: bool, loaded: Option<Cache>)
      ensures this.console == console && this.listChannel == listChannel && this.hasListJson == hasListJson
      ensures cache == StartupCache(loaded, listChannel)
      ensures !restartScheduled && posts == []
      ensures Valid()
    {
      this.console := console;
      this.listChannel := listChannel;
      this.hasListJson := hasListJson;
      cache := StartupCache(loaded, listChannel);
      restartScheduled := false;
      posts := [];
    }

    /** `set_list_text`: append the footer, then edit the cached message or send a new one
        and cache it when the send succeeds. `sent` is the id of the new message, None
        when the send fails. */
    method SetListText(text: string, now: nat, sent: Option<MessageId>)
      requires Valid()
      modifies this`cache, this`posts
      ensures posts == old(posts) + [PostFor(old(cache), listChannel, text + Footer(now))]
      ensures cache == NextCache(old(cache), listChannel, sent)
      ensures Valid()
    {
      var full := text + Footer(now);
      match cache {
        case Some(c) =>
          posts := posts + [Edit(c.listChannel, c.listMessage, full)];
        case None =>
          posts := posts + [Send(listChannel, full)];
          if sent.Some? {
            cache := Some(Cache(listChannel, sent.value));
          }
      }
    }

    /** The list lines and the flagged names, built in one pass over the players. */
    static method RenderPlayers(list: seq<PlayerData>) returns (lines: seq<string>, naughty: seq<string>)
      ensures lines == Lines(list)
      ensures naughty == NaughtyNames(list)
    {
      lines := [];
      naughty := [];
      var i := 0;
      while i < |list|
        invariant 0 <= i <= |list|
        invariant lines == Lines(list[..i])
        invariant naughty == NaughtyNames(list[..i])
      {
        var p := list[i];
        RenderStep(list, i);
        if Flagged(p) {
          naughty := naughty + [p.name];
        }
        lines := lines + [DisplayLine(p)];
        i := i + 1;
      }
      assert list[..i] == list;
    }

    /** The summary text for an online server, built piece by piece. */
    static method RenderOnline(st: OnlineServerStatus, lines: seq<string>) returns (text: string)
      requires lines == Lines(st.list)
      ensures text == OnlineText(st)
    {
      text := "The server is online. There are " + IntToString(st.currentPlayers) + "/" + IntToString(st.maxPlayers)
        + " connected players";
      if st.currentPlayers > 0 {
        text := text + (": ```\n" + Join(lines, "\n") + "```");
      } else {
        text := text + ".\n";
      }
    }

    /** Rename and kick every flagged player, in order; the answers are ignored. */
    method Enforce(naughty: seq<string>)
      modifies console
      ensures console.sent == old(console.sent) + Enforcement(naughty)
    {
      var k := 0;
      while k < |naughty|
        invariant 0 <= k <= |naughty|
        invariant console.sent == old(console.sent) + Enforcement(naughty[..k])
      {
        EnforcementStep(naughty, k);
        var _ := console.Exec("styled-nicknames set " + naughty[k] + " " + NAUGHTY_NICKNAME);
        var _ := console.Exec("kick " + naughty[k] + " nice try");
        k := k + 1;
      }
      assert naughty[..k] == naughty;
    }

    /** The online branch of a tick: render, post, enforce, and stop an empty server
        when a restart is scheduled. */
    method ShowOnline(st: OnlineServerStatus, now: nat, sent: Option<MessageId>)
      requires Valid()
      modifies this`cache, this`posts, console
      ensures Valid()
      ensures console.sent == old(console.sent) + TickCommands(Ok(Online(st)), restartScheduled)
      ensures posts == old(posts) + [PostFor(old(cache), listChannel, OnlineText(st) + Footer(now))]
      ensures cache == NextCache(old(cache), listChannel, sent)
    {
      var lines, naughty := RenderPlayers(st.list);
      var text := RenderOnline(st, lines);
      SetListText(text, now, sent);
      ghost var before := console.sent;
      Enforce(naughty);
      var stops := st.currentPlayers == 0 && restartScheduled;
      if stops {
        var _ := console.Exec("stop");
      }
      assert console.sent == before + (Enforcement(naughty) + (if stops then ["stop"] else []));
    }

    /** What a tick does with the status it got. */
    method Show(status: Result<ServerStatus, string>, now: nat, sent: Option<MessageId>)
      requires Valid()
      modifies this`cache, this`posts, this`restartScheduled, console
      ensures Valid()
      ensures console.sent == old(console.sent) + TickCommands(status, old(restartScheduled))
      ensures restartScheduled == NextFlag(status, old(restartScheduled))
      ensures posts == old(posts) + [PostFor(old(cache), listChannel, TickText(status) + Footer(now))]
      ensures cache == NextCache(old(cache), listChannel, sent)
    {
      match status {
        case Err(why) =>
          SetListText(why, now, sent);
        case Ok(Offline) =>
          SetListText(OFFLINE_TEXT, now, sent);
          restartScheduled := false;
        case Ok(Online(st)) =>
          ShowOnline(st, now, sent);
      }
    }

    /** One iteration of `list_updater`. The clock reading and the outcome of a send are
        parameters; `alive` is false when getting the status panicked, which ends the
        updater task. */
    method Tick(decode: Decoder, now: nat, sent: Option<MessageId>) returns (alive: bool)
      requires Valid()
      modifies this, console
      ensures Valid()
      ensures var cmd := StatusCommand(hasListJson);
        var status := StatusOf(hasListJson, console.respond(old(console.sent), cmd), decode);
        && (alive <==> status.Returned?)
        && (status.Panicked? ==>
              console.sent == old(console.sent) + [cmd]
              && restartScheduled == old(restartScheduled) && cache == old(cache) && posts == old(posts))
        && (status.Returned? ==>
              console.sent == old(console.sent) + [cmd] + TickCommands(status.value, old(restartScheduled))
              && restartScheduled == NextFlag(status.value, old(restartScheduled))
              && posts == old(posts) + [PostFor(old(cache), listChannel, TickText(status.value) + Footer(now))]
              && cache == NextCache(old(cache), listChannel, sent))
    {
      var r := GetServerStatus(console, hasListJson, decode);
      if r.Panicked? {
        return false;
      }
      Show(r.value, now, sent);
      alive := true;
    }
  }
}
