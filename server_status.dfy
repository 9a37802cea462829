/** `get_server_status` (src/server_status.rs): one console command, and the
    classification of its answer as Online, Offline or an error text. In text mode
    the answer is matched against the fixed grammar of the `list` command
    (LIST_REGEX in src/main.rs); in JSON mode it is handed to a decoder that is
    not part of this model. */
module ServerStatus {

  import opened Wrappers
  import opened Text
  import opened Sorting
  import opened Ids
  import opened Console

  /** Rust's `i32`. */
  type I32 = x: int | -0x8000_0000 <= x < 0x8000_0000

  /** `azalea_chat::Component`, carried along but never inspected. */
  datatype StyledText = StyledText(raw: string)

  datatype PlayerData = PlayerData(
    name: string,
    nickname: Option<string>,
    nicknameStyled: Option<StyledText>,
    uuid: Option<Uuid>)

  datatype OnlineServerStatus = OnlineServerStatus(currentPlayers: I32, maxPlayers: I32, list: seq<PlayerData>)

  datatype ServerStatus = Offline | Online(online: OnlineServerStatus)

  /** The JSON decoder (`serde_json::from_str::<OnlineServerStatus>`): None when the text does not decode. */
  type Decoder = string -> Option<OnlineServerStatus>

  const DESERIALIZATION_ERROR: string := "Deserialization error (this is a bug)"
  const REGEX_ERROR: string := "Regex error (this is a bug)"

  function StatusCommand(usesListJson: bool): string {
    if usesListJson then "list json" else "list"
  }

  // ---------------------------------------------------------------------------
  // The grammar `^There are (\d+) of a max of (\d+) players online:(?: ((?:\w+, )*\w+))?$`

  const HEAD: string := "There are "
  const MID: string := " of a max of "
  const TAIL: string := " players online:"

  /** The three capture groups of the grammar, as text. */
  datatype ListCaptures = ListCaptures(current: string, max: string, names: Option<string>)

  /** `(?:\w+, )*\w+`: one or more words separated by ", ". */
  predicate IsNameList(n: string) {
    var pieces := SplitComma(n);
    forall i :: 0 <= i < |pieces| ==> pieces[i] != [] && AllWordChars(pieces[i])
  }

  predicate ValidNames(names: Option<string>) {
    names.Some? ==> IsNameList(names.value)
  }

  predicate ValidCaptures(c: ListCaptures) {
    && c.current != [] && AllDigits(c.current)
    && c.max != [] && AllDigits(c.max)
    && ValidNames(c.names)
  }

  function NamesSuffix(names: Option<string>): string {
    if names.Some? then " " + names.value else ""
  }

  /** The line the grammar describes, given what its groups hold. */
  function ListLine(c: ListCaptures): string {
    HEAD + (c.current + (MID + (c.max + (TAIL + NamesSuffix(c.names)))))
  }

  /** Length of the longest all-digit prefix. */
  function LeadingDigits(s: string): (k: nat)
    ensures k <= |s| && AllDigits(s[..k])
    ensures k < |s| ==> !IsDigit(s[k])
  {
    if s == [] || !IsDigit(s[0]) then 0
    else
      var k := LeadingDigits(s[1..]);
      assert s[..k + 1] == [s[0]] + s[1..][..k];
      k + 1
  }

  /** What follows the literal `p` at the start of `s`. */
  function AfterPrefix(s: string, p: string): Option<string> {
    if StartsWith(s, p) then Some(s[|p|..]) else None
  }

  /** `(\d+)` followed by a non-digit: the digits and what follows them. */
  function SplitDigits(s: string): Option<(string, string)> {
    var k := LeadingDigits(s);
    if k == 0 then None else Some((s[..k], s[k..]))
  }

  /** `(?: ((?:\w+, )*\w+))?$` on what follows "online:". */
  function ParseNamesSuffix(tail: string): Option<Option<string>> {
    if tail == [] then Some(None)
    else if tail[0] == ' ' && IsNameList(tail[1..]) then Some(Some(tail[1..]))
    else None
  }

  /** `" players online:"` and the optional name group, up to the end. */
  function ParseTail(s4: string): Option<Option<string>> {
    match AfterPrefix(s4, TAIL)
    case None => None
    case Some(tail) => ParseNamesSuffix(tail)
  }

  /** The second count and what follows it. */
  function ParseMax(s3: string): Option<(string, Option<string>)> {
    match SplitDigits(s3)
    case None => None
    case Some((max, s4)) =>
      match ParseTail(s4)
      case None => None
      case Some(names) => Some((max, names))
  }

  /** The first count and what follows it. */
  function ParseCounts(s1: string): Option<ListCaptures> {
    match SplitDigits(s1)
    case None => None
    case Some((current, s2)) =>
      match AfterPrefix(s2, MID)
      case None => None
      case Some(s3) =>
        match ParseMax(s3)
        case None => None
        case Some((max, names)) => Some(ListCaptures(current, max, names))
  }

  /** Anchored match of the `list` grammar: the capture groups, or None when the
      whole text is not a sentence of the grammar. */
  function ParseListLine(s: string): Option<ListCaptures> {
    match AfterPrefix(s, HEAD)
    case None => None
    case Some(s1) => ParseCounts(s1)
  }

  lemma AfterPrefixOf(p: string, t: string)
    ensures AfterPrefix(p + t, p) == Some(t)
  {
    assert (p + t)[..|p|] == p;
    assert (p + t)[|p|..] == t;
  }

  lemma AfterPrefixSome(s: string, p: string)
    requires AfterPrefix(s, p).Some?
    ensures s == p + AfterPrefix(s, p).value
  {
    assert s == s[..|p|] + s[|p|..];
  }

  lemma {:induction false} LeadingDigitsOf(d: string, t: string)
    requires AllDigits(d)
    requires t != [] ==> !IsDigit(t[0])
    ensures LeadingDigits(d + t) == |d|
    decreases |d|
  {
    if d != [] {
      assert (d + t)[1..] == d[1..] + t;
      LeadingDigitsOf(d[1..], t);
    } else {
      assert d + t == t;
    }
  }

  lemma SplitDigitsOf(d: string, t: string)
    requires d != [] && AllDigits(d)
    requires t != [] && !IsDigit(t[0])
    ensures SplitDigits(d + t) == Some((d, t))
  {
    LeadingDigitsOf(d, t);
    assert (d + t)[..|d|] == d;
    assert (d + t)[|d|..] == t;
  }

  lemma SplitDigitsSome(s: string)
    requires SplitDigits(s).Some?
    ensures var (d, t) := SplitDigits(s).value;
      d != [] && AllDigits(d) && s == d + t
  {
    var k := LeadingDigits(s);
    assert s == s[..k] + s[k..];
  }

  lemma ParseTailOf(names: Option<string>)
    requires ValidNames(names)
    ensures ParseTail(TAIL + NamesSuffix(names)) == Some(names)
  {
    AfterPrefixOf(TAIL, NamesSuffix(names));
    if names.Some? {
      assert (" " + names.value)[1..] == names.value;
    }
  }

  lemma ParseMaxOf(max: string, names: Option<string>)
    requires max != [] && AllDigits(max) && ValidNames(names)
    ensures ParseMax(max + (TAIL + NamesSuffix(names))) == Some((max, names))
  {
    var s4 := TAIL + NamesSuffix(names);
    assert s4[0] == ' ';
    SplitDigitsOf(max, s4);
    ParseTailOf(names);
  }

  lemma ParseCountsOf(c: ListCaptures)
    requires ValidCaptures(c)
    ensures ParseCounts(c.current + (MID + (c.max + (TAIL + NamesSuffix(c.names))))) == Some(c)
  {
    var s3 := c.max + (TAIL + NamesSuffix(c.names));
    var s2 := MID + s3;
    assert s2[0] == ' ';
    SplitDigitsOf(c.current, s2);
    AfterPrefixOf(MID, s3);
    ParseMaxOf(c.max, c.names);
  }

  /** Parsing a line of the grammar recovers its groups. */
  lemma ParseListed(c: ListCaptures)
    requires ValidCaptures(c)
    ensures ParseListLine(ListLine(c)) == Some(c)
  {
    AfterPrefixOf(HEAD, c.current + (MID + (c.max + (TAIL + NamesSuffix(c.names)))));
    ParseCountsOf(c);
  }

  lemma ParseTailSome(s4: string)
    requires ParseTail(s4).Some?
    ensures ValidNames(ParseTail(s4).value)
    ensures s4 == TAIL + NamesSuffix(ParseTail(s4).value)
  {
    var tail := AfterPrefix(s4, TAIL).value;
    AfterPrefixSome(s4, TAIL);
    if tail != [] {
      assert tail == " " + tail[1..];
    }
  }

  lemma ParseMaxSome(s3: string)
    requires ParseMax(s3).Some?
    ensures var (max, names) := ParseMax(s3).value;
      max != [] && AllDigits(max) && ValidNames(names) && s3 == max + (TAIL + NamesSuffix(names))
  {
    SplitDigitsSome(s3);
    var (max, s4) := SplitDigits(s3).value;
    ParseTailSome(s4);
  }

  lemma ParseCountsSome(s1: string)
    requires ParseCounts(s1).Some?
    ensures var c := ParseCounts(s1).value;
      ValidCaptures(c) && s1 == c.current + (MID + (c.max + (TAIL + NamesSuffix(c.names))))
  {
    SplitDigitsSome(s1);
    var (current, s2) := SplitDigits(s1).value;
    var s3 := AfterPrefix(s2, MID).value;
    AfterPrefixSome(s2, MID);
    ParseMaxSome(s3);
  }

  /** Whatever the parser accepts is a line of the grammar, rebuilt exactly from its groups. */
  lemma ParsedIsListed(s: string)
    requires ParseListLine(s).Some?
    ensures ValidCaptures(ParseListLine(s).value)
    ensures ListLine(ParseListLine(s).value) == s
  {
    AfterPrefixSome(s, HEAD);
    ParseCountsSome(AfterPrefix(s, HEAD).value);
  }

  /** The grammar as an if-and-only-if: the parser answers `c` exactly for the line built from `c`. */
  lemma ParseListLineIff(s: string, c: ListCaptures)
    ensures ParseListLine(s) == Some(c) <==> ValidCaptures(c) && s == ListLine(c)
  {
    if ParseListLine(s) == Some(c) { ParsedIsListed(s); }
    if ValidCaptures(c) && s == ListLine(c) { ParseListed(c); }
  }

  // ---------------------------------------------------------------------------
  // Name lists

  /** The name group is exactly a ", "-join of one or more non-empty words. */
  lemma NameListOfWords(words: seq<string>)
    requires |words| >= 1
    requires forall i :: 0 <= i < |words| ==> words[i] != [] && AllWordChars(words[i])
    ensures IsNameList(Join(words, ", "))
    ensures SplitComma(Join(words, ", ")) == words
  {
    forall i | 0 <= i < |words| ensures NoComma(words[i]) {
      assert forall j :: 0 <= j < |words[i]| ==> IsWordChar(words[i][j]);
    }
    SplitJoin(words);
  }

  // ---------------------------------------------------------------------------
  // Classification of the answer

  /** `str::parse::<i32>` of a string of ASCII digits: None when out of range. */
  function ParseI32(digits: string): (r: Option<I32>)
    requires AllDigits(digits)
    ensures r.Some? <==> DigitsValue(digits) < 0x8000_0000
    ensures r.Some? ==> r.value == DigitsValue(digits)
  {
    var v := DigitsValue(digits);
    if v < 0x8000_0000 then Some(v) else None
  }

  /** A text-mode entry: only the name is known. */
  function NameOnly(name: string): PlayerData {
    PlayerData(name, None, None, None)
  }

  /** The entries built from the sorted names, in order. */
  function Entries(names: seq<string>): (r: seq<PlayerData>)
    ensures |r| == |names|
  {
    seq(|names|, i requires 0 <= i < |names| => NameOnly(names[i]))
  }

  /** Text mode, after a successful `exec`. Out-of-range counts make the `unwrap` panic. */
  function TextModeStatus(reply: string): Outcome<Result<ServerStatus, string>> {
    match ParseListLine(Trim(reply))
    case None => Returned(Err(REGEX_ERROR))
    case Some(c) =>
      ParsedIsListed(Trim(reply));
      var current := ParseI32(c.current);
      var max := ParseI32(c.max);
      if current.None? || max.None? then Panicked
      else
        var names := Sort(SplitComma(c.names.GetOr("")));
        Returned(Ok(Online(OnlineServerStatus(current.value, max.value, Entries(names)))))
  }

  /** JSON mode, after a successful `exec`. */
  function JsonModeStatus(reply: string, decode: Decoder): Result<ServerStatus, string> {
    match decode(reply)
    case Some(status) => Ok(Online(status))
    case None => Err(DESERIALIZATION_ERROR)
  }

  /** The result of `get_server_status` given the console's answer to the status command. */
  function StatusOf(usesListJson: bool, reply: Result<string, ExecError>, decode: Decoder)
    : Outcome<Result<ServerStatus, string>>
  {
    if reply.Err? then Returned(Ok(Offline))
    else if usesListJson then Returned(JsonModeStatus(reply.value, decode))
    else TextModeStatus(reply.value)
  }

  // ---------------------------------------------------------------------------
  // What the classification promises

  /** The names of a list of entries, in order. */
  function Names(list: seq<PlayerData>): (r: seq<string>)
    ensures |r| == |list|
  {
    seq(|list|, i requires 0 <= i < |list| => list[i].name)
  }

  /** Offline comes from a failed `exec` and from nothing else; every kind of failure
      (Auth, CommandTooLong, Io) gives Offline and never an error text. */
  lemma OfflineIffExecFailed(usesListJson: bool, reply: Result<string, ExecError>, decode: Decoder)
    ensures StatusOf(usesListJson, reply, decode) == Returned(Ok(Offline)) <==> reply.Err?
  {
    if reply.Ok? && !usesListJson {
      match ParseListLine(Trim(reply.value))
      case None =>
      case Some(c) =>
    }
  }

  /** JSON mode: an answer that does not decode is reported as a bug, not as Offline. */
  lemma JsonUndecodable(reply: string, decode: Decoder)
    requires decode(reply).None?
    ensures StatusOf(true, Ok(reply), decode) == Returned(Err(DESERIALIZATION_ERROR))
  {
  }

  /** Text mode: an answer whose trimmed text is not a sentence of the grammar is reported as a bug. */
  lemma TextUnmatched(reply: string, decode: Decoder)
    requires ParseListLine(Trim(reply)).None?
    ensures StatusOf(false, Ok(reply), decode) == Returned(Err(REGEX_ERROR))
  {
  }

  /** Text mode on a matched answer, spelled out step by step. */
  lemma TextModeUnfold(reply: string)
    requires ParseListLine(Trim(reply)).Some?
    ensures var c := ParseListLine(Trim(reply)).value;
      && ValidCaptures(c)
      && TextModeStatus(reply)
         == if DigitsValue(c.current) >= 0x8000_0000 || DigitsValue(c.max) >= 0x8000_0000 then Panicked
            else Returned(Ok(Online(OnlineServerStatus(DigitsValue(c.current), DigitsValue(c.max),
                                                      Entries(Sort(SplitComma(c.names.GetOr(""))))))))
  {
    ParsedIsListed(Trim(reply));
  }

  /** Text mode on a matched answer whose counts fit in an `i32`. */
  lemma TextModeInRange(reply: string, c: ListCaptures)
    requires ParseListLine(Trim(reply)) == Some(c)
    requires DigitsValue(c.current) < 0x8000_0000 && DigitsValue(c.max) < 0x8000_0000
    ensures TextModeStatus(reply)
         == Returned(Ok(Online(OnlineServerStatus(DigitsValue(c.current), DigitsValue(c.max),
                                                  Entries(Sort(SplitComma(c.names.GetOr(""))))))))
  {
    TextModeUnfold(reply);
  }

  /** Text mode on a matching answer panics exactly when a count does not fit in an `i32`
      (the `unwrap` of `parse`). */
  lemma TextMatchedPanics(reply: string)
    requires ParseListLine(Trim(reply)).Some?
    ensures var c := ParseListLine(Trim(reply)).value;
      && ValidCaptures(c)
      && (TextModeStatus(reply).Panicked?
          <==> DigitsValue(c.current) >= 0x8000_0000 || DigitsValue(c.max) >= 0x8000_0000)
  {
    TextModeUnfold(reply);
  }

  /** Otherwise it is Online, with the decimal values of the two digit groups as counts;
      nothing checks current against max, or the list length against current. */
  lemma TextMatchedCounts(reply: string)
    requires ParseListLine(Trim(reply)).Some?
    ensures var c := ParseListLine(Trim(reply)).value;
      var r := TextModeStatus(reply);
      r.Returned? ==>
        && ValidCaptures(c)
        && r.value.Ok? && r.value.value.Online?
        && r.value.value.online.currentPlayers == DigitsValue(c.current)
        && r.value.value.online.maxPlayers == DigitsValue(c.max)
  {
    TextModeUnfold(reply);
  }

  /** The entries' names are the name group split on ", ", sorted. */
  lemma TextMatchedNames(reply: string)
    requires ParseListLine(Trim(reply)).Some?
    requires TextModeStatus(reply).Returned?
    ensures var c := ParseListLine(Trim(reply)).value;
      var list := TextModeStatus(reply).value.value.online.list;
      && multiset(Names(list)) == multiset(SplitComma(c.names.GetOr("")))
      && SortedBy(Names(list), Id)
  {
    TextModeUnfold(reply);
    var c := ParseListLine(Trim(reply)).value;
    var names := Sort(SplitComma(c.names.GetOr("")));
    assert Names(Entries(names)) == names;
  }

  /** Text mode knows only names: nickname, styled nickname and UUID are all None. */
  lemma TextMatchedNameOnly(reply: string)
    requires ParseListLine(Trim(reply)).Some?
    requires TextModeStatus(reply).Returned?
    ensures var list := TextModeStatus(reply).value.value.online.list;
      forall i :: 0 <= i < |list| ==>
        list[i].nickname.None? && list[i].nicknameStyled.None? && list[i].uuid.None?
  {
    TextModeUnfold(reply);
  }

  /** Text mode with the name group absent: `unwrap_or_default` then `split` give `[""]`,
      so the list holds one entry with an empty name, not zero entries. */
  lemma TextWithoutNames(reply: string)
    requires ParseListLine(Trim(reply)).Some?
    requires ParseListLine(Trim(reply)).value.names.None?
    requires TextModeStatus(reply).Returned?
    ensures TextModeStatus(reply).value.value.online.list == [NameOnly("")]
  {
    ParsedIsListed(Trim(reply));
    assert SplitComma("") == [""];
    assert Sort([""]) == [""];
  }

  /** What the groups of a server's line hold. */
  function ServerCaptures(current: nat, max: nat, names: seq<string>): ListCaptures {
    ListCaptures(NatToString(current), NatToString(max),
                 if names == [] then None else Some(Join(names, ", ")))
  }

  /** The line a server with these counts and these players prints. */
  function ServerLine(current: nat, max: nat, names: seq<string>): string {
    ListLine(ServerCaptures(current, max, names))
  }

  lemma {:induction false} JoinLast(words: seq<string>, sep: string)
    requires |words| >= 1 && words[|words| - 1] != []
    ensures var j := Join(words, sep); |j| >= 1 && j[|j| - 1] == words[|words| - 1][|words[|words| - 1]| - 1]
    decreases |words|
  {
    if |words| > 1 {
      JoinLast(words[1..], sep);
    }
  }

  /** A server's line is already trimmed and matches the grammar. */
  lemma ServerLineMatches(current: nat, max: nat, names: seq<string>)
    requires forall i :: 0 <= i < |names| ==> names[i] != [] && AllWordChars(names[i])
    ensures Trim(ServerLine(current, max, names)) == ServerLine(current, max, names)
    ensures ParseListLine(ServerLine(current, max, names)) == Some(ServerCaptures(current, max, names))
  {
    var c := ServerCaptures(current, max, names);
    var line := ListLine(c);
    if names != [] {
      NameListOfWords(names);
      JoinLast(names, ", ");
      var last := names[|names| - 1];
      assert IsWordChar(last[|last| - 1]);
      assert line[|line| - 1] == Join(names, ", ")[|Join(names, ", ")| - 1];
    } else {
      assert line[|line| - 1] == ':';
    }
    TrimNoEdgeWhitespace(line);
    ParseListed(c);
  }

  /** The name group of a server's line splits back into its players, or into `[""]`. */
  lemma ServerNamesSplit(current: nat, max: nat, names: seq<string>)
    requires forall i :: 0 <= i < |names| ==> names[i] != [] && AllWordChars(names[i])
    ensures Sort(SplitComma(ServerCaptures(current, max, names).names.GetOr("")))
         == if names == [] then [""] else Sort(names)
  {
    if names == [] {
      assert SplitComma("") == [""];
      SortSingleton("");
    } else {
      NameListOfWords(names);
    }
  }

  /** A server's line reads back as its counts, with the name group split and sorted. */
  lemma ServerLineStatus(current: nat, max: nat, names: seq<string>)
    requires current < 0x8000_0000 && max < 0x8000_0000
    requires forall i :: 0 <= i < |names| ==> names[i] != [] && AllWordChars(names[i])
    ensures TextModeStatus(ServerLine(current, max, names))
         == Returned(Ok(Online(OnlineServerStatus(current, max,
              Entries(Sort(SplitComma(ServerCaptures(current, max, names).names.GetOr(""))))))))
  {
    var line := ServerLine(current, max, names);
    var c := ServerCaptures(current, max, names);
    ServerLineMatches(current, max, names);
    DigitsOfNat(current);
    DigitsOfNat(max);
    TextModeInRange(line, c);
  }

  /** End to end: the server's own line reads back as its counts and its sorted players,
      except that an empty player list reads back as one entry with an empty name. */
  lemma TextModeOfServerLine(current: nat, max: nat, names: seq<string>)
    requires current < 0x8000_0000 && max < 0x8000_0000
    requires forall i :: 0 <= i < |names| ==> names[i] != [] && AllWordChars(names[i])
    ensures TextModeStatus(ServerLine(current, max, names))
         == Returned(Ok(Online(OnlineServerStatus(current, max,
              if names == [] then [NameOnly("")] else Entries(Sort(names))))))
  {
    ServerLineStatus(current, max, names);
    ServerNamesSplit(current, max, names);
    if names == [] {
      assert Entries([""]) == [NameOnly("")];
    }
  }

  // ---------------------------------------------------------------------------
  // The imperative operation

  /** Copy the names into a vector and sort it in place. */
  method SortNames(names: seq<string>) returns (sorted: seq<string>)
    ensures sorted == Sort(names)
  {
    var players := new string[|names|](i requires 0 <= i < |names| => names[i]);
    assert players[..] == names;
    SortInPlace(players, Id);
    sorted := players[..];
    SortedUnique(sorted, Sort(names));
  }

  /** Sort the names and wrap each one in an entry. */
  method SortedEntries(names: seq<string>) returns (entries: seq<PlayerData>)
    ensures entries == Entries(Sort(names))
  {
    var sorted := SortNames(names);
    entries := [];
    for k := 0 to |sorted|
      invariant entries == Entries(sorted[..k])
    {
      assert sorted[..k + 1] == sorted[..k] + [sorted[k]];
      entries := entries + [NameOnly(sorted[k])];
    }
    assert sorted[..|sorted|] == sorted;
  }

  /** The text-mode steps of `get_server_status` after a successful `exec`: trim,
      match, parse the counts, split and sort the names, build the entries. */
  method ParseTextReply(reply: string) returns (r: Outcome<Result<ServerStatus, string>>)
    ensures r == TextModeStatus(reply)
  {
    var line := Trim(reply);
    var captures := ParseListLine(line);
    if captures.None? {
      return Returned(Err(REGEX_ERROR));
    }
    ParsedIsListed(line);
    var current := ParseI32(captures.value.current);
    var max := ParseI32(captures.value.max);
    if current.None? || max.None? {
      return Panicked;
    }
    var entries := SortedEntries(SplitComma(captures.value.names.GetOr("")));
    r := Returned(Ok(Online(OnlineServerStatus(current.value, max.value, entries))));
  }

  /** `get_server_status`: send the status command once and classify the answer. */
  method GetServerStatus(console: Interface, usesListJson: bool, decode: Decoder)
    returns (r: Outcome<Result<ServerStatus, string>>)
    modifies console
    ensures console.sent == old(console.sent) + [StatusCommand(usesListJson)]
    ensures r == StatusOf(usesListJson, console.respond(old(console.sent), StatusCommand(usesListJson)), decode)
  {
    if usesListJson {
      var list := console.Exec("list json");
      if list.Ok? {
        match decode(list.value)
        case Some(status) =>
          r := Returned(Ok(Online(status)));
        case None =>
          r := Returned(Err(DESERIALIZATION_ERROR));
      } else {
        r := Returned(Ok(Offline));
      }
    } else {
      var list := console.Exec("list");
      if list.Ok? {
        r := ParseTextReply(list.value);
      } else {
        r := Returned(Ok(Offline));
      }
    }
  }
}
