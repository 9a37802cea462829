# ferrisquery, modelled in Dafny

ferrisquery is a Discord bot that runs a Minecraft server for a community. It talks to the server's
RCON console. Every few seconds it posts the list of connected players to a Discord channel. It
renames and kicks players whose nickname carries a link, an invite or a code block. It also answers
a few operator commands:

- `schedule_restart` stops the server once it is empty.
- `run` passes a console command through.
- `whitelist` adds, removes or lists players.
- `crash` hands out the newest crash report.
- `tp_offline` moves a player who is not online.

This project models that logic in Dafny and proves what it promises. The files are:

| file | module | models |
|---|---|---|
| `wrappers.dfy` | `Wrappers` | `Option`, `Result`, and `Outcome` (returned or panicked) |
| `ids.dfy` | `Ids` | player UUIDs and Discord ids, as opaque values |
| `console.dfy` | `Console` | the RCON `Interface`: a log of the commands sent, answered by an oracle |
| `text.dfy` | `Text` | the parts of Rust's `str` the bot uses: `trim`, `split(", ")`, `join`, `contains`, `strip_suffix`, `Ord`; decimal formatting |
| `sorting.dfy` | `Sorting` | `sort_unstable` / `sort_unstable_by`: insertion sort over an array, specified as a sorted permutation |
| `server_status.dfy` | `ServerStatus` | `get_server_status`: the text-mode `list` grammar and its parser, the JSON mode, the Offline rule |
| `moderation.dfy` | `Moderation` | the tag-stripping pattern and the "naughty" pattern of `src/main.rs`, as recursive predicates over characters |
| `list_updater.dfy` | `ListUpdater` | one tick of `list_updater`, `set_list_text` and its message cache, the startup cache check |
| `schedule_restart.dfy` | `ScheduleRestart` | the restart flag and its four replies |
| `run.dfy` | `RunCommand` | truncating the console's answer to one Discord message; the error replies |
| `whitelist.dfy` | `Whitelist` | `whitelist::run`: sort, add, remove, list, write back, reload |
| `crash.dfy` | `Crash` | the 30-second rate limit and the choice of the newest regular file |
| `tp_offline.dfy` | `TpOffline` | the player-record patch and the two autocompletions |

State that the source changes in place is modelled with classes:

- `Console.Interface` holds the command log.
- `ListUpdater.Data` holds the restart flag, the message cache and the posts.
- `Crash.RateLimiter` holds `LAST_USED`.

Loops that build or reorder vectors are methods with loop invariants:

- sorting in place;
- `retain`;
- the directory scan;
- the enforcement loop.

Each of these methods is proved against a specification function. The lemmas about those functions
carry the properties.

## Model

| member | source | states |
|---|---|---|
| `Console.Interface.constructor` | src/interface.rs:6-12 | a new connection keeps its address and password and has sent nothing |
| `Console.Interface.Exec` | src/commands/run.rs:14-36 | `exec` sends exactly the given command, appends it to the log and returns the server's answer or one of the three error kinds |
| `Text.LeadingWhitespace` | src/server_status.rs:49 | counts the leading whitespace: all of it is whitespace and the next character is not |
| `Text.TrailingWhitespace` | src/server_status.rs:49 | counts the trailing whitespace, likewise |
| `Text.Trim` | src/server_status.rs:49 | `trim` gives a piece of the input surrounded only by whitespace, which neither starts nor ends with whitespace |
| `Text.TrimNoEdgeWhitespace` | src/server_status.rs:49 | a text with no whitespace at either end is its own trim |
| `Text.StripSuffix` | src/commands/tp_offline.rs:47 | `strip_suffix` succeeds exactly when the text ends with the suffix, and the result plus the suffix is the text |
| `Text.ContainsIff` | src/commands/tp_offline.rs:33 | `contains` holds exactly when the pattern occurs at some position |
| `Text.ContainsEmpty` | src/commands/tp_offline.rs:33 | every text contains the empty pattern |
| `Text.SplitComma` | src/server_status.rs:62 | `split(", ")` always yields at least one piece |
| `Text.SplitCommaFreePrefix` | src/server_status.rs:62 | a comma-free prefix is glued to the first piece of what follows |
| `Text.SplitJoin` | src/server_status.rs:62 | splitting a `", "`-join of comma-free words gives the words back |
| `Text.JoinContains` | src/main.rs:82 | every word of a join occurs in the joined text |
| `Text.ContainsInside` | src/main.rs:82 | whatever a piece contains, a text built around that piece contains too |
| `Text.NatToString` | src/main.rs:120 | decimal formatting gives at least one digit, with no leading zero |
| `Text.IntToString` | src/main.rs:78 | formatting an `i32` gives a leading `-` exactly for negative values |
| `Text.DigitsOfNat` | src/server_status.rs:59-60 | parsing a formatted number gives the number back |
| `Text.LessEqReflexive` | src/server_status.rs:63 | the `str` order is reflexive |
| `Text.LessEqTotal` | src/server_status.rs:63 | the `str` order is total |
| `Text.LessEqAntisymmetric` | src/server_status.rs:63 | the `str` order is antisymmetric |
| `Text.LessEqTransitive` | src/server_status.rs:63 | the `str` order is transitive |
| `Sorting.Insert` | src/server_status.rs:63 | inserting into a sorted list keeps it sorted and adds exactly the one element |
| `Sorting.SortBy` | src/commands/whitelist.rs:45 | sorting by a key gives a permutation ordered by that key |
| `Sorting.Sort` | src/server_status.rs:63 | sorting strings gives an ordered permutation |
| `Sorting.SortSingleton` | src/server_status.rs:63 | a one-element list is already sorted |
| `Sorting.SortedUnique` | src/server_status.rs:63 | two sorted permutations of the same strings are equal, so `sort_unstable` on strings has one result |
| `Sorting.SortInPlace` | src/server_status.rs:63 | sorting a vector in place leaves it ordered by the key and a permutation of what it held |
| `ServerStatus.LeadingDigits` | src/main.rs:213 | `\d+` takes the longest run of digits |
| `ServerStatus.ParseListLine` | src/main.rs:213 | the anchored match of the `list` pattern: the two digit groups and the optional name group, or no match |
| `ServerStatus.ParseListed` | src/main.rs:213 | the parser recovers the groups of every line of the `list` grammar |
| `ServerStatus.ParsedIsListed` | src/main.rs:213 | whatever the parser accepts is a line of the grammar, rebuilt exactly from its groups |
| `ServerStatus.ParseListLineIff` | src/main.rs:213 | the parser answers with given groups exactly for the line built from them |
| `Text.JoinSplit` | src/server_status.rs:62 | joining the pieces of `split(", ")` with `", "` gives the text back |
| `ServerStatus.NameListOfWords` | src/main.rs:213 | a `", "`-join of non-empty words is a name group of the grammar and splits back into those words |
| `ServerStatus.ParseI32` | src/server_status.rs:59-60 | `parse::<i32>` of digits succeeds exactly below 2^31, with the digits' decimal value |
| `ServerStatus.Entries` | src/server_status.rs:68-76 | text mode builds one entry per sorted name |
| `ServerStatus.JsonModeStatus` | src/server_status.rs:32-40 | in JSON mode an answer that decodes is Online with the decoded status, and any other answer is the deserialisation error |
| `ServerStatus.TextModeStatus` | src/server_status.rs:49-77 | in text mode the trimmed answer is matched; no match is the regex error, an out-of-range count panics, and otherwise the status is Online with the counts and the sorted names, without nicknames or UUIDs |
| `ServerStatus.StatusOf` | src/server_status.rs:26-83 | a failed `exec` is Offline in both modes; a successful one is classified by the JSON or the text mode |
| `ServerStatus.OfflineIffExecFailed` | src/server_status.rs:41-44 | the status is Offline exactly when `exec` failed, whatever the error kind; a failure is never an error text |
| `ServerStatus.JsonUndecodable` | src/server_status.rs:33-39 | in JSON mode an answer that does not decode is the deserialisation error, not Offline |
| `ServerStatus.TextUnmatched` | src/server_status.rs:49-53 | in text mode a trimmed answer outside the grammar is the regex error, not Offline |
| `ServerStatus.TextModeUnfold` | src/server_status.rs:49-77 | on a matching answer, text mode panics on an out-of-range count and is otherwise Online with the counts and the sorted, split names |
| `ServerStatus.TextModeInRange` | src/server_status.rs:59-77 | a matching answer with counts below 2^31 is Online with those counts and the sorted names |
| `ServerStatus.TextMatchedPanics` | src/server_status.rs:59-60 | text mode panics exactly when a count does not fit in an `i32` |
| `ServerStatus.TextMatchedCounts` | src/server_status.rs:59-60 | the counts are the decimal values of the two digit groups; nothing compares them with each other or with the list |
| `ServerStatus.TextMatchedNames` | src/server_status.rs:62-63 | the entries' names are a sorted permutation of the name group split on `", "` |
| `ServerStatus.TextMatchedNameOnly` | src/server_status.rs:68-76 | every text-mode entry has no nickname, styled nickname or UUID |
| `ServerStatus.TextWithoutNames` | src/server_status.rs:62 | without a name group the list holds one entry with an empty name |
| `ServerStatus.ServerLineMatches` | src/main.rs:213 | the line a server prints for given counts and players is already trimmed and matches the grammar |
| `ServerStatus.ServerNamesSplit` | src/server_status.rs:62 | the name group of such a line splits back into its players, or into `[""]` when there are none |
| `ServerStatus.ServerLineStatus` | src/server_status.rs:49-77 | such a line reads back as its counts and its split, sorted name group |
| `ServerStatus.TextModeOfServerLine` | src/server_status.rs:49-77 | end to end: a server's line reads back as its counts and its sorted players, except that no players reads back as one empty name |
| `ServerStatus.SortNames` | src/server_status.rs:62-63 | collecting the names into a vector and sorting it with `sort_unstable` gives the sorted names, however ties are broken |
| `ServerStatus.SortedEntries` | src/server_status.rs:62-76 | collecting, sorting in place and wrapping the names gives the entries of the sorted names |
| `ServerStatus.ParseTextReply` | src/server_status.rs:46-77 | the text-mode steps compute the text-mode classification |
| `ServerStatus.GetServerStatus` | src/server_status.rs:26-83 | exactly one command is sent, `list json` or `list`, and the result is the classification of its answer |
| `Moderation.FirstFrom` | src/main.rs:219 | finds the first occurrence of a character at or after a position |
| `Moderation.TagEnd` | src/main.rs:219 | after a tag word ending at a position, the end it finds is the one place a tag can end there (`(?::[^>]*)?>`): right after a `>` at that position, or right after the first `>` following a `:` there; no end when neither exists |
| `Moderation.TagWordFrom` | src/main.rs:219 | a tag word found at a position is followed by a tag end within the text, right after a `>` |
| `Moderation.TagAt` | src/main.rs:219 | a tag starts with `<`, ends with `>`, is at least three characters long and lies within the text; a text not starting with `<` starts no tag |
| `Moderation.TagAfterAngle` | src/main.rs:219 | the tag after a leading `<` (with or without `/`) ends with `>` and is at least three characters long, because no tag word is empty |
| `Moderation.WordStart` | src/main.rs:219 | the tag word starts after the optional `/` exactly when a `/` follows the `<` |
| `Moderation.TagWordWitness` | src/main.rs:219 | whatever the alternation finds is the tag end of one of its words that appears at the position and is followed by a valid tag end |
| `Moderation.TagWordNone` | src/main.rs:219 | the alternation finds nothing only when none of its words appears at the position followed by a valid tag end |
| `Moderation.FoundPastWord` | src/main.rs:219 | a match over non-empty words ends at least a word and a `>` past where the word starts |
| `Moderation.TagWordsStartLower` | src/main.rs:219 | every alternative of the tag pattern is non-empty and starts with a lower-case letter |
| `Moderation.TagWordsChars` | src/main.rs:219 | every alternative of the tag pattern is made of lower-case letters and `_` |
| `Moderation.TagSpan` | src/main.rs:219 | the tag language, stated declaratively: `<`, an optional `/`, one of the tag words, then `>` or `:` and a run of non-`>` characters and `>` |
| `Moderation.FitsSameLength` | src/main.rs:219 | two tag words followed by a valid tag end at the same place have the same length, so at most one tag starts at a place |
| `Moderation.NoWordAtSlash` | src/main.rs:219 | no tag word starts at a `/`, so leaving out the optional `/` never helps |
| `Moderation.TagAtSpan` | src/main.rs:219 | every tag the search finds is a tag of the tag language (soundness) |
| `Moderation.FitsFound` | src/main.rs:219 | when a word of the alternation fits with its tag ending at some place, the alternation ends there too, whichever word it takes |
| `Moderation.SpanTagAt` | src/main.rs:219 | every tag of the tag language at the start of a text is found, with its length (completeness) |
| `Moderation.TagAtIff` | src/main.rs:219 | the search finds a tag of length n exactly when the text starts with a tag of the tag language of length n |
| `Moderation.TagFree` | src/main.rs:64 | a nickname in which the search finds a tag at no position |
| `Moderation.TagFreeIff` | src/main.rs:219 | a nickname is tag-free exactly when no tag of the tag language starts anywhere in it |
| `Moderation.StripTags` | src/main.rs:64 | `replace_all` with the tag pattern never lengthens a nickname |
| `Moderation.StripTagFree` | src/main.rs:64 | a nickname without tags is unchanged |
| `Moderation.StripShortens` | src/main.rs:64 | a nickname holding a tag gets strictly shorter |
| `Moderation.StripUnchangedIff` | src/main.rs:64 | stripping changes a nickname exactly when a tag occurs in it |
| `Moderation.NoAngleTagFree` | src/main.rs:219 | a nickname without `<` holds no tag |
| `Moderation.StripWithoutAngle` | src/main.rs:64 | a nickname without `<` is unchanged |
| `Moderation.StripAfterTag` | src/main.rs:64 | a tag at the start is deleted and the scan resumes right after it |
| `Moderation.RainbowTag` | src/main.rs:219 | `<rainbow>` at the start of a nickname is a tag of length 9 |
| `Moderation.StripRainbow` | src/server_status.rs:87 | the bundled example nickname `<rainbow>test` strips to `test` |
| `Moderation.DoubleAngleNoTag` | src/main.rs:219 | a `<` followed by another `<` starts no tag |
| `Moderation.StripKeepsAngle` | src/main.rs:64 | a `<` right before another `<` is kept and the scan goes on from the second |
| `Moderation.RedTag` | src/main.rs:219 | `<red>` at the start is a tag of length 5 |
| `Moderation.StripNested` | src/main.rs:64 | `<<red>red>` strips to `<red>` |
| `Moderation.StripRed` | src/main.rs:64 | `<red>` strips to nothing |
| `Moderation.StripNotIdempotent` | src/main.rs:64 | a single pass can leave a tag behind, so stripping twice can differ from stripping once |
| `Moderation.MatchHere` | src/main.rs:226-227 | a match of one alternative of the naughty pattern starts here: its characters in order, each pair separated by a run of filler (characters outside `\w` and `!`-`_` and `a`-`~`) |
| `Moderation.Occurs` | src/main.rs:226-227 | `is_match` of one alternative: a match starts at some position of the text |
| `Moderation.Naughty` | src/main.rs:226-227 | `is_match` of the naughty pattern: one of the four alternatives (three backticks, `http://`, `https://`, `discord.gg`) occurs |
| `Moderation.SpreadMatches` | src/main.rs:226-227 | the pattern's characters with filler runs between them always match |
| `Moderation.MatchIsSpread` | src/main.rs:226-227 | every match is the pattern's characters with filler runs between them |
| `Moderation.OccursIff` | src/main.rs:226-227 | the pattern occurs exactly when a match starts at some position |
| `Moderation.SpreadOccurs` | src/main.rs:226-227 | a pattern spread out by filler anywhere in a text is matched |
| `Moderation.OccursNaughty` | src/main.rs:226-227 | a match of any one forbidden word flags the nickname |
| `Moderation.SpreadFlagged` | src/main.rs:226-227 | a forbidden word spread out by filler anywhere in a nickname gets it flagged |
| `Moderation.FlaggedIsSpread` | src/main.rs:226-227 | a flagged nickname holds a forbidden word spread out by filler |
| `Moderation.PlainOccurs` | src/main.rs:226-227 | a pattern written out plainly is matched |
| `Moderation.PlainFlagged` | src/main.rs:226-227 | a forbidden word written plainly is flagged |
| `Moderation.NotOccurs` | src/main.rs:226-227 | a word cannot match where its first character is followed by something that is neither its second character nor filler |
| `Moderation.UpperCaseNotFlagged` | src/main.rs:226 | the match is case-sensitive |
| `Moderation.DottedInviteNotFlagged` | src/main.rs:227 | `.` is not filler, so `d.i.s.c.o.r.d.gg` is not flagged |
| `Moderation.SpacedFlagged` | src/main.rs:226-227 | spaces are filler: every forbidden word spelled out with spaces is flagged |
| `ListUpdater.StartupCache` | src/main.rs:237-245 | a cached message is kept at startup exactly when it is in the configured channel |
| `ListUpdater.FooterStrips` | src/main.rs:120 | the footer is appended after the text and nothing else changes |
| `ListUpdater.NextCache` | src/main.rs:122-149 | a cached message stays cached even when the edit fails; with no cache, a successful send is cached and a failed one leaves the cache empty |
| `ListUpdater.PostFor` | src/main.rs:122-144 | with a cached message the text edits it in its channel; otherwise it is sent to the configured list channel |
| `ListUpdater.PostForChannel` | src/main.rs:122-144 | with the cache in the list channel, every post goes to the list channel, carries the text, and is an edit exactly when a message is cached |
| `ListUpdater.CacheAfter` | src/main.rs:122-149 | the cache after a run of posts, each with the outcome of its send |
| `ListUpdater.FirstSentIsFirst` | src/main.rs:133-149 | the first successful send is found, and there is one unless every send failed |
| `ListUpdater.CacheSettled` | src/main.rs:122-132 | once set, the cache never changes |
| `ListUpdater.CacheFromFirstSend` | src/main.rs:133-149 | without a cache, the first successful send fixes the cache for good |
| `ListUpdater.Flagged` | src/main.rs:63-65 | a player is flagged when it has a nickname and the nickname, with its tags stripped, matches the naughty pattern |
| `ListUpdater.ShownNickname` | src/main.rs:63-70 | the shown nickname is the stripped nickname, or the replacement when that is flagged; it is never flagged itself |
| `ListUpdater.ReplacementNotNaughty` | src/main.rs:174 | `I MADE BOOL SAD` is not flagged |
| `ListUpdater.DisplayLine` | src/main.rs:62-74 | a player's line starts with the player's name |
| `ListUpdater.FlaggedDisplay` | src/main.rs:65-67 | a flagged player is shown as `name (I MADE BOOL SAD)` |
| `ListUpdater.Lines` | src/main.rs:60-75 | one line per player, in list order |
| `ListUpdater.NaughtyNames` | src/main.rs:63-67 | at most one flagged name per player |
| `ListUpdater.NaughtyNamesIff` | src/main.rs:63-67 | a name is collected exactly when it belongs to a flagged player |
| `ListUpdater.RenderStep` | src/main.rs:60-75 | each player adds one line, and adds its name to the flagged names when flagged |
| `ListUpdater.OnlineText` | src/main.rs:77-85 | the online text: the counts, then either a colon and the player lines joined by newlines in a code block, or a full stop and a newline when the current count is not positive |
| `ListUpdater.OnlineTextShowsPlayer` | src/main.rs:77-82 | with players online, the text shows every player's line |
| `ListUpdater.OnlineTextEmpty` | src/main.rs:83-85 | with nobody online, the text ends right after the counts |
| `ListUpdater.TickText` | src/main.rs:47-110 | an error posts its text, Offline posts `The server is offline.`, and Online posts the online text |
| `ListUpdater.EnforceCommands` | src/main.rs:96-98 | a flagged player gets `styled-nicknames set <name> I MADE BOOL SAD` and then `kick <name> nice try` |
| `ListUpdater.CommandsNotStop` | src/main.rs:96-98 | neither enforcement command is `stop` |
| `ListUpdater.EnforcementStep` | src/main.rs:94-99 | enforcing one more flagged player appends that player's two commands |
| `ListUpdater.TickCommands` | src/main.rs:92-105 | after the status command an Online tick sends the enforcement commands and then `stop` when nobody is online and a restart is scheduled; other ticks send nothing |
| `ListUpdater.Enforcement` | src/main.rs:94-99 | each flagged player gets a rename to `I MADE BOOL SAD` and then a kick, in list order |
| `ListUpdater.NextFlag` | src/main.rs:49-55 | a tick never sets the restart flag |
| `ListUpdater.NextFlagIff` | src/main.rs:47-110 | only the Offline status clears the flag; an error or an Online status keeps it |
| `ListUpdater.StopNotEnforcement` | src/main.rs:94-99 | no enforcement command is `stop` |
| `ListUpdater.StopIff` | src/main.rs:102-105 | `stop` is sent exactly when the server is online and empty and a restart is scheduled; Offline and errors send nothing |
| `ListUpdater.FlagAfter` | src/main.rs:38-111 | the restart flag after a run of ticks, one status each |
| `ListUpdater.FlagAfterIff` | src/main.rs:38-111 | after any run of ticks, the flag is set exactly when it was set before and no tick saw the server offline |
| `ListUpdater.Data.constructor` | src/main.rs:237-245 | at startup the loaded cache is kept only for the configured channel, and no restart is scheduled |
| `ListUpdater.Data.SetListText` | src/main.rs:114-149 | the footed text edits the cached message, or is sent as a new message that is then cached on success; the cached message and every post stay in the configured list channel |
| `ListUpdater.Data.RenderPlayers` | src/main.rs:57-75 | one pass over the players gives the lines and the flagged names |
| `ListUpdater.Data.RenderOnline` | src/main.rs:77-85 | the online summary is built piece by piece |
| `ListUpdater.Data.Enforce` | src/main.rs:92-100 | the enforcement commands are sent in order, and their answers are ignored |
| `ListUpdater.Data.ShowOnline` | src/main.rs:56-105 | the online branch renders, posts, enforces, and stops an empty server when a restart is scheduled |
| `ListUpdater.Data.Show` | src/main.rs:47-110 | each status gives its text, its commands and its flag update |
| `ListUpdater.Data.Tick` | src/main.rs:40-111 | one tick sends the status command, then posts and acts on the result; a panic while getting the status ends the task |
| `ScheduleRestart.Reply` | src/commands/schedule_restart.rs:12-23 | cancelling a scheduled restart, cancelling none, scheduling again and scheduling a first time each get their own reply |
| `ScheduleRestart.ReplyDetermines` | src/commands/schedule_restart.rs:12-22 | the four replies are distinct, so a reply tells both the request and the old state |
| `ScheduleRestart.NextScheduled` | src/commands/schedule_restart.rs:9-23 | afterwards the flag is the opposite of `cancel` |
| `ScheduleRestart.Idempotent` | src/commands/schedule_restart.rs:15-18 | repeating a command changes nothing more, and the repeat gets the "no restart" or "already scheduled" reply |
| `ScheduleRestart.Run` | src/commands/schedule_restart.rs:8-25 | `cancel` defaults to false, the flag becomes its opposite, and the reply depends on the request and the old flag |
| `RunCommand.MaxLenValue` | src/commands/run.rs:3 | `MAXLEN` is 1983 |
| `RunCommand.Truncate` | src/commands/run.rs:16-24 | an answer of at most `MAXLEN` characters is kept; a longer one becomes its first `MAXLEN - 3` characters plus `...`, exactly `MAXLEN` long |
| `RunCommand.TruncateIdempotent` | src/commands/run.rs:16-24 | truncating twice is truncating once |
| `RunCommand.ReplyFits` | src/commands/run.rs:3-25 | every reply fits in 2000 characters, and an answer that fits is shown whole |
| `RunCommand.SuccessReply` | src/commands/run.rs:25 | a console answer is shown as `Success:` and the answer in a code block |
| `RunCommand.ErrorReply` | src/commands/run.rs:27-36 | each console error kind has its fixed reply |
| `RunCommand.RunReply` | src/commands/run.rs:14-37 | a successful answer is truncated and shown in the success reply; a failure gets its error reply |
| `RunCommand.ErrorReplyInitial` | src/commands/run.rs:27-36 | no error reply starts like a success reply |
| `RunCommand.ErrorRepliesDistinct` | src/commands/run.rs:27-36 | each error kind has its own reply, and none equals a success reply |
| `RunCommand.Run` | src/commands/run.rs:14-37 | the command is sent once, and the reply is the truncated answer or the error's reply |
| `Whitelist.StringArg` | src/commands/whitelist.rs:62-72 | an option counts only when it is at its position, has the expected name and resolved to a string |
| `Whitelist.ModeArg` | src/commands/whitelist.rs:78-92 | the mode is online for `"online"`, offline for `"offline"`, and missing otherwise |
| `Whitelist.Without` | src/commands/whitelist.rs:129 | `retain` never grows the list and keeps no entry with the removed name |
| `Whitelist.WithoutCount` | src/commands/whitelist.rs:129 | removing keeps every entry with another name, as often as it occurred |
| `Whitelist.WithoutConcat` | src/commands/whitelist.rs:129 | removing keeps the order of what stays |
| `Whitelist.WithoutShrinks` | src/commands/whitelist.rs:128-134 | the list shrinks exactly when some entry has the name |
| `Whitelist.HasName` | src/commands/whitelist.rs:74 | some entry of the whitelist has the name |
| `Whitelist.ListText` | src/commands/whitelist.rs:137-152 | the `list` reply: the number of entries, then a full stop when there are none, or the names joined by `", "` in a code block |
| `Whitelist.ListShowsEveryName` | src/commands/whitelist.rs:137-154 | the `list` reply names every whitelisted player |
| `Whitelist.ListEmpty` | src/commands/whitelist.rs:137-139 | an empty whitelist is reported as `There are 0 whitelisted players.` |
| `Whitelist.Decide` | src/commands/whitelist.rs:47-157 | the decision on the sorted list: a reply alone, or a reply and a new list, for each subcommand, option shape and operator status |
| `Whitelist.Finish` | src/commands/whitelist.rs:159-181 | a reply alone touches no file; a change truncates and writes the file, and the reply becomes the open or write error when one of them fails |
| `Whitelist.Respond` | src/commands/whitelist.rs:29-181 | an unreadable or unparsable file gets its error reply; otherwise the decision on the sorted entries, finished |
| `Whitelist.SubName` | src/commands/whitelist.rs:47-54 | a subcommand is read only from a first option of the subcommand kind |
| `Whitelist.ChangeNeedsOp` | src/commands/whitelist.rs:56-135 | only an operator's add or remove changes the list; a non-operator's add or remove gets "You're not an op!" |
| `Whitelist.Malformed` | src/commands/whitelist.rs:47-54 | malformed options and unknown subcommands get "no" |
| `Whitelist.ListCommand` | src/commands/whitelist.rs:136-155 | `list` needs no operator and never changes the list |
| `Whitelist.AddExactlyOne` | src/commands/whitelist.rs:74-109 | an add changes the list exactly when the name is new and the UUID is found; it appends one entry for that name and keeps the rest as they were |
| `Whitelist.AddBadMode` | src/commands/whitelist.rs:78-92 | an add whose mode is neither online nor offline gets "no" |
| `Whitelist.RemoveIff` | src/commands/whitelist.rs:128-134 | a remove changes the list exactly when some entry has the name; otherwise it replies "not in the whitelist" and writes nothing |
| `Whitelist.SavedIff` | src/commands/whitelist.rs:159-181 | the file receives the new list exactly when a change was made and the write succeeded |
| `Whitelist.RetainOthers` | src/commands/whitelist.rs:129 | the in-place `retain` leaves exactly the entries with other names, in order, at the front |
| `Whitelist.Run` | src/commands/whitelist.rs:23-182 | the loaded entries are sorted by name first; reply and file follow the decision; `whitelist reload` is sent exactly after a saved change |
| `Crash.Scan` | src/commands/crash.rs:46-55 | an unreadable directory fails the scan; otherwise the scan of its entries |
| `Crash.RegularFiles` | src/commands/crash.rs:46-55 | the scan fails when any step fails, and otherwise yields exactly the regular files |
| `Crash.IsNewest` | src/commands/crash.rs:57-59 | a scanned file no other scanned file is newer than, which is what the first entry after sorting by `Reverse(created)` is |
| `Crash.NewestExists` | src/commands/crash.rs:57-59 | a non-empty scan has a newest file |
| `Crash.NewestTies` | src/commands/crash.rs:57 | two newest files have the same creation time: only ties are left open |
| `Crash.GetLatestFile` | src/commands/crash.rs:43-60 | a failed scan is an error; no regular file panics; otherwise the newest regular file is returned |
| `Crash.Elapsed` | src/commands/crash.rs:19 | `elapsed` is the time since the last use, zero if that lies in the future |
| `Crash.Admitted` | src/commands/crash.rs:19-20 | a call goes ahead unless the time since the last use is below `RATELIMIT` |
| `Crash.AdmittedIff` | src/commands/crash.rs:11-20 | a call goes ahead exactly 30 seconds or more after the last use |
| `Crash.FirstUseAdmitted` | src/commands/crash.rs:15 | the first call always goes ahead |
| `Crash.RateLimiter.constructor` | src/commands/crash.rs:10 | no last use is recorded before the first call |
| `Crash.RateLimiter.Run` | src/commands/crash.rs:13-41 | a refusal for being too soon leaves the last use as it was; only a successful lookup moves it, to the time the lookup finished |
| `TpOffline.Patched` | src/commands/tp_offline.rs:129-147 | the player record after the teleport: its `Pos` checked for three elements, then moved to (x, y, z) with the dimension replaced when one is given, and the same for the vehicle the player rides, whose `Pos` is checked too |
| `TpOffline.PatchErrors` | src/commands/tp_offline.rs:129-141 | the patch fails exactly when a `Pos` does not have three elements, the player's own being checked first |
| `TpOffline.PatchMoves` | src/commands/tp_offline.rs:133-147 | the player and the vehicle are put at (x, y, z); each dimension is replaced only when one is given; every other field is untouched |
| `TpOffline.PatchIdempotent` | src/commands/tp_offline.rs:127-147 | teleporting to the same place twice is teleporting once |
| `TpOffline.Patch` | src/commands/tp_offline.rs:127-147 | assigning the fields one after another gives the specified patch |
| `TpOffline.KeepContaining` | src/commands/tp_offline.rs:31-33 | the filter keeps at most as many strings as it is given |
| `TpOffline.KeepContainingMembers` | src/commands/tp_offline.rs:31-33 | the filter keeps exactly the strings that contain the typed text |
| `TpOffline.KeepContainingConcat` | src/commands/tp_offline.rs:31-33 | filtering keeps the order: filtering two lists one after the other is filtering their concatenation |
| `TpOffline.KeepContainingOne` | src/commands/tp_offline.rs:31-33 | a single string is kept exactly when it contains the typed text |
| `TpOffline.KeepContainingThree` | src/commands/tp_offline.rs:31-33 | three strings are each kept, in place, exactly when they contain the typed text |
| `TpOffline.KeepContainingEmpty` | src/commands/tp_offline.rs:33 | with nothing typed, the filter keeps everything |
| `TpOffline.AutocompleteDimension` | src/commands/tp_offline.rs:21-34 | the dimensions offered are exactly the known ones that contain the typed text |
| `TpOffline.DimensionsForEmpty` | src/commands/tp_offline.rs:25-33 | with nothing typed, all three dimensions are offered in their fixed order |
| `TpOffline.DimensionsInOrder` | src/commands/tp_offline.rs:25-33 | the dimensions are offered in the order overworld, nether, end, each one exactly when it contains the typed text |
| `TpOffline.DataFileName` | src/commands/tp_offline.rs:88-89 | a player's data file name ends in `.dat` |
| `TpOffline.DataFileNameRoundTrip` | src/commands/tp_offline.rs:47 | stripping `.dat` from a data file name gives back the UUID text |
| `TpOffline.Offer` | src/commands/tp_offline.rs:44-67 | a file is offered exactly when its name ends in `.dat`, contains the typed text, parses as a UUID and belongs to no online player |
| `TpOffline.Offers` | src/commands/tp_offline.rs:62-68 | the offers are exactly those of the directory's entries |
| `TpOffline.OfflineCompletions` | src/commands/tp_offline.rs:36-69 | nothing is offered when the server directory or the player list cannot be read; otherwise the offers of the entries of the server directory itself (lines 37-41), not of `world/playerdata` below it |
| `TpOffline.OfflinePlayerOffered` | src/commands/tp_offline.rs:44-68 | an entry of the listed directory (the server directory) named after an offline player's UUID plus `.dat` is offered, under that UUID, whenever the UUID text contains the typed text |
| `TpOffline.OnlinePlayerNotOffered` | src/commands/tp_offline.rs:66 | no online player is ever offered |

## Left out

- RCON transport: the bodies of `Interface::exec` and `player_list` are not part of this model (src/interface.rs holds only the two fields). The server's answers come from an oracle function of the commands sent before. No reconnection or retry is modelled.
- Concurrency: the tokio mutexes, the 5-second interval and the spawned tasks are left out. One tick or one command is one sequential step over explicit state.
- Discord: sending and editing messages, replies and attachments are outside the model. Their outcomes are parameters: the id of a sent message, or None.
- Wall-clock and monotonic time are parameters: seconds since the epoch for the footer, and nanoseconds for the rate limit.
- Foreign decoders and encoders: the JSON decoding of `list json` is an abstract partial function. serde_json, toml, fastnbt, gzip, and the whitelist and cache files are also outside the model; their success or failure is a parameter.
- UUIDs: the online lookup and the offline derivation of a player's UUID are opaque functions, and so are parsing and hyphenating UUID text.
- TPS: the optional TPS block of the list text (floating-point formatting) is not modelled. `OnlineServerStatus` has no `tps` field in src/server_status.rs, although src/main.rs:49 reads one.
- Crash.RateLimiter.Run: the "please wait" message formats the remaining time as a float. The model returns the remaining nanoseconds instead of that text. The `checked_sub(...).unwrap()` that initialises `LAST_USED` is taken to succeed.
- Crash.GetLatestFile: sorting by `Reverse(created)` is modelled as a scan for a newest file. Only the first element after the sort is used. Among files created at the same instant, the model picks the first, while the source leaves the choice open.
- Whitelist.Run: the order among whitelist entries with equal names after `sort_unstable_by` is left open. The contract states only that the result is sorted by name and a permutation of what was loaded.
- Whitelist.Run: the whitelist file's contents after a failed write are not modelled. After a successful open and a failed write the file is only known to be truncated.
- ListUpdater.Data.SetListText: writing the cache to `ferrisquery_cache.toml` after a successful send is not modelled, and neither is the panic of its `unwrap` when that write fails.
- TpOffline.OfflineCompletions: the completion lists the server directory itself (src/commands/tp_offline.rs:37-41), while the command reads and writes `world/playerdata/<uuid>.dat` below it (src/commands/tp_offline.rs:87-93). The listing is a parameter of the model, which follows the code and does not relate the two directories; in the usual server layout the completion therefore finds no player data files.
- The `tp_offline` command itself, apart from the patch, is outside the model. That covers:
  - parsing the player argument as a UUID, even though it is described as "Name or UUID";
  - the existence check and the file lock;
  - decompression, decoding, encoding and the temporary-file rename;
  - the reply with its attachment.
- `\w` and `\d` are taken as ASCII. The regex crate gives them their Unicode meaning. As a result:
  - names with non-ASCII letters do not match the model's `list` grammar;
  - non-ASCII decimal digits, which the source accepts and then fails to `parse`, are a regex error in the model;
  - in the filler class, non-ASCII letters and digits count as filler in the model, although they are not.
- `register` (the slash-command declarations), `source`, `user_db`, `operator_only`, `get_uuid`, the database API and the environment variables are outside the modelled core.
