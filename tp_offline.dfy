/** The `tp_offline` command (src/commands/tp_offline.rs): move a player who is
    not online by rewriting the position and dimension in their player-data file,
    and the two autocompletions it offers. Reading, decompressing, decoding,
    encoding and writing the file are outside the model; coordinates and NBT values
    are copied, never computed on, so both are opaque here. */
module TpOffline {

  import opened Wrappers
  import opened Text
  import opened Ids

  /** An `f64` coordinate, by its bit pattern. */
  datatype Coord = Coord(bits: nat)

  /** A `fastnbt::Value` the command does not look into. */
  datatype NbtValue = NbtValue(id: nat)

  /** The fields of an entity other than `Pos` and `Dimension`, by name. */
  type Fields = map<string, NbtValue>

  datatype Entity = Entity(pos: seq<Coord>, dimension: string, other: Fields)

  datatype RootVehicle = RootVehicle(entity: Entity, other: Fields)

  datatype PlayerData = PlayerData(pos: seq<Coord>, dimension: string, rootVehicle: Option<RootVehicle>,
                                   other: Fields)

  /** The two checks of the patch: `Pos` of the player, or of the vehicle it rides,
      is not a list of three numbers. */
  datatype PatchError = BadPos(found: seq<Coord>) | BadVehiclePos(found: seq<Coord>)

  // ---------------------------------------------------------------------------
  // the patch

  /** The player record after the teleport, or the check it fails. */
  function Patched(data: PlayerData, x: Coord, y: Coord, z: Coord, dimension: Option<string>)
    : Result<PlayerData, PatchError>
  {
    if |data.pos| != 3 then Err(BadPos(data.pos))
    else
      match data.rootVehicle
      case None =>
        Ok(data.(pos := [x, y, z], dimension := dimension.GetOr(data.dimension)))
      case Some(v) =>
        if |v.entity.pos| != 3 then Err(BadVehiclePos(v.entity.pos))
        else
          var e := v.entity.(pos := [x, y, z], dimension := dimension.GetOr(v.entity.dimension));
          Ok(data.(pos := [x, y, z], dimension := dimension.GetOr(data.dimension),
                   rootVehicle := Some(v.(entity := e))))
  }

  /** The patch fails exactly when a `Pos` has not three elements, the player's own
      being checked first. */
  lemma PatchErrors(data: PlayerData, x: Coord, y: Coord, z: Coord, dimension: Option<string>)
    ensures Patched(data, x, y, z, dimension).Err? <==>
      |data.pos| != 3 || (data.rootVehicle.Some? && |data.rootVehicle.value.entity.pos| != 3)
    ensures |data.pos| != 3 ==> Patched(data, x, y, z, dimension) == Err(BadPos(data.pos))
    ensures |data.pos| == 3 && data.rootVehicle.Some? && |data.rootVehicle.value.entity.pos| != 3 ==>
      Patched(data, x, y, z, dimension) == Err(BadVehiclePos(data.rootVehicle.value.entity.pos))
  {
  }

  /** A successful patch puts the player, and the vehicle if there is one, at
      (x, y, z); replaces each dimension only when one is given; and leaves every
      other field alone. */
  lemma PatchMoves(data: PlayerData, x: Coord, y: Coord, z: Coord, dimension: Option<string>)
    requires Patched(data, x, y, z, dimension).Ok?
    ensures var d := Patched(data, x, y, z, dimension).value;
      && d.pos == [x, y, z]
      && (dimension.Some? ==> d.dimension == dimension.value)
      && (dimension.None? ==> d.dimension == data.dimension)
      && d.other == data.other
      && d.rootVehicle.Some? == data.rootVehicle.Some?
    ensures var d := Patched(data, x, y, z, dimension).value;
      data.rootVehicle.Some? ==>
        var v, w := data.rootVehicle.value, d.rootVehicle.value;
        && w.entity.pos == [x, y, z]
        && (dimension.Some? ==> w.entity.dimension == dimension.value)
        && (dimension.None? ==> w.entity.dimension == v.entity.dimension)
        && w.other == v.other
        && w.entity.other == v.entity.other
  {
  }

  /** Teleporting to the same place twice is teleporting once. */
  lemma PatchIdempotent(data: PlayerData, x: Coord, y: Coord, z: Coord, dimension: Option<string>)
    requires Patched(data, x, y, z, dimension).Ok?
    ensures Patched(Patched(data, x, y, z, dimension).value, x, y, z, dimension)
         == Patched(data, x, y, z, dimension)
  {
  }

  /** The patch as the command performs it, assigning the fields of the decoded
      record one after another. */
  method Patch(data: PlayerData, x: Coord, y: Coord, z: Coord, dimension: Option<string>)
    returns (r: Result<PlayerData, PatchError>)
    ensures r == Patched(data, x, y, z, dimension)
  {
    var d := data;
    if |d.pos| != 3 {
      return Err(BadPos(d.pos));
    }
    d := d.(pos := [x, y, z]);
    if dimension.Some? {
      d := d.(dimension := dimension.value);
    }
    if d.rootVehicle.Some? {
      var vehicle := d.rootVehicle.value;
      if |vehicle.entity.pos| != 3 {
        return Err(BadVehiclePos(vehicle.entity.pos));
      }
      vehicle := vehicle.(entity := vehicle.entity.(pos := [x, y, z]));
      if dimension.Some? {
        vehicle := vehicle.(entity := vehicle.entity.(dimension := dimension.value));
      }
      d := d.(rootVehicle := Some(vehicle));
    }
    r := Ok(d);
  }

  // ---------------------------------------------------------------------------
  // autocompletion

  const KNOWN_DIMENSIONS: seq<string> := ["minecraft:overworld", "minecraft:the_nether", "minecraft:the_end"]

  /** The strings of `ds` that contain `partial`, in their order. */
  function KeepContaining(ds: seq<string>, partial: string): (r: seq<string>)
    ensures |r| <= |ds|
  {
    if ds == [] then []
    else (if Contains(ds[0], partial) then [ds[0]] else []) + KeepContaining(ds[1..], partial)
  }

  /** What is kept is exactly what contains `partial`. */
  lemma {:induction false} KeepContainingMembers(ds: seq<string>, partial: string)
    ensures forall d :: d in KeepContaining(ds, partial) <==> d in ds && Contains(d, partial)
  {
    if ds != [] {
      KeepContainingMembers(ds[1..], partial);
      assert ds == [ds[0]] + ds[1..];
    }
  }

  /** Keeping what contains the empty string keeps everything. */
  lemma {:induction false} KeepContainingEmpty(ds: seq<string>)
    ensures KeepContaining(ds, "") == ds
  {
    if ds != [] {
      ContainsEmpty(ds[0]);
      KeepContainingEmpty(ds[1..]);
    }
  }

  /** Filtering a concatenation filters each part, keeping their order. */
  lemma {:induction false} KeepContainingConcat(a: seq<string>, b: seq<string>, partial: string)
    ensures KeepContaining(a + b, partial) == KeepContaining(a, partial) + KeepContaining(b, partial)
  {
    if a == [] {
      assert a + b == b;
    } else {
      var head := if Contains(a[0], partial) then [a[0]] else [];
      assert (a + b)[0] == a[0] && (a + b)[1..] == a[1..] + b;
      KeepContainingConcat(a[1..], b, partial);
      assert KeepContaining(a + b, partial) == head + (KeepContaining(a[1..], partial) + KeepContaining(b, partial));
    }
  }

  /** Filtering one string keeps it exactly when it contains `partial`. */
  lemma KeepContainingOne(d: string, partial: string)
    ensures KeepContaining([d], partial) == if Contains(d, partial) then [d] else []
  {
    assert [d][1..] == [];
  }

  /** Filtering three strings keeps each, in place, exactly when it contains `partial`. */
  lemma KeepContainingThree(a: string, b: string, c: string, partial: string)
    ensures KeepContaining([a, b, c], partial) ==
      (if Contains(a, partial) then [a] else []) +
      (if Contains(b, partial) then [b] else []) +
      (if Contains(c, partial) then [c] else [])
  {
    assert [a, b, c][1..] == [b, c] && [b, c][1..] == [c];
    KeepContainingOne(c, partial);
  }

  /** `autocomplete_dimension`: the known dimensions that contain `partial`. */
  function AutocompleteDimension(partial: string): (r: seq<string>)
    ensures forall d :: d in r <==> d in KNOWN_DIMENSIONS && Contains(d, partial)
  {
    KeepContainingMembers(KNOWN_DIMENSIONS, partial);
    KeepContaining(KNOWN_DIMENSIONS, partial)
  }

  /** The dimensions are offered in their fixed order: overworld, nether, end,
      each one exactly when it contains `partial`. */
  lemma DimensionsInOrder(partial: string)
    ensures AutocompleteDimension(partial) ==
      (if Contains("minecraft:overworld", partial) then ["minecraft:overworld"] else []) +
      (if Contains("minecraft:the_nether", partial) then ["minecraft:the_nether"] else []) +
      (if Contains("minecraft:the_end", partial) then ["minecraft:the_end"] else [])
  {
    KeepContainingThree("minecraft:overworld", "minecraft:the_nether", "minecraft:the_end", partial);
  }

  /** Nothing typed yet: all three dimensions, in their fixed order. */
  lemma DimensionsForEmpty()
    ensures AutocompleteDimension("") == KNOWN_DIMENSIONS
  {
    KeepContainingEmpty(KNOWN_DIMENSIONS);
  }

  /** The name of a player's data file, from the hyphenated form of their UUID. */
  function DataFileName(hyphenated: string): (r: string)
    ensures EndsWith(r, ".dat")
  {
    hyphenated + ".dat"
  }

  /** Stripping ".dat" gives back the UUID text the file was named after. */
  lemma DataFileNameRoundTrip(hyphenated: string)
    ensures StripSuffix(DataFileName(hyphenated), ".dat") == Some(hyphenated)
  {
    var r := StripSuffix(DataFileName(hyphenated), ".dat");
    assert r.value + ".dat" == hyphenated + ".dat";
    assert r.value == (r.value + ".dat")[..|r.value|];
  }

  /** What one directory entry offers: its name (None when the entry could not be read
      or its name is not UTF-8) must end in ".dat", the rest must contain `partial`
      and parse as a UUID, and no online player may have that UUID. */
  function Offer(name: Option<string>, online: seq<Uuid>, partial: string,
                 parseUuid: string -> Option<Uuid>, hyphenate: Uuid -> string): (r: Option<string>)
    ensures r.Some? <==>
      && name.Some?
      && StripSuffix(name.value, ".dat").Some?
      && Contains(StripSuffix(name.value, ".dat").value, partial)
      && parseUuid(StripSuffix(name.value, ".dat").value).Some?
      && parseUuid(StripSuffix(name.value, ".dat").value).value !in online
    ensures r.Some? ==> r.value == hyphenate(parseUuid(StripSuffix(name.value, ".dat").value).value)
  {
    if name.None? then None
    else match StripSuffix(name.value, ".dat")
      case None => None
      case Some(u) =>
        if !Contains(u, partial) then None
        else match parseUuid(u)
          case None => None
          case Some(d) => if d in online then None else Some(hyphenate(d))
  }

  /** The offers of every entry, in directory order. */
  function Offers(names: seq<Option<string>>, online: seq<Uuid>, partial: string,
                  parseUuid: string -> Option<Uuid>, hyphenate: Uuid -> string): (r: seq<string>)
    ensures |r| <= |names|
    ensures forall s :: s in r <==>
      exists i :: 0 <= i < |names| && Offer(names[i], online, partial, parseUuid, hyphenate) == Some(s)
  {
    if names == [] then []
    else
      var first := Offer(names[0], online, partial, parseUuid, hyphenate);
      var rest := Offers(names[1..], online, partial, parseUuid, hyphenate);
      assert forall i :: 1 <= i < |names| ==> names[i] == names[1..][i - 1];
      (if first.Some? then [first.value] else []) + rest
  }

  /** `autocomplete_offline_player_uuid`: nothing when the server directory or the
      online player list cannot be read, else the offers of the entries of the server
      directory itself (not of its `world/playerdata` sub-directory, where the command
      looks for the data file). */
  function OfflineCompletions(names: Option<seq<Option<string>>>, online: Option<seq<Uuid>>, partial: string,
                              parseUuid: string -> Option<Uuid>, hyphenate: Uuid -> string): (r: seq<string>)
    ensures names.None? || online.None? ==> r == []
    ensures names.Some? && online.Some? ==> r == Offers(names.value, online.value, partial, parseUuid, hyphenate)
  {
    if names.None? || online.None? then []
    else Offers(names.value, online.value, partial, parseUuid, hyphenate)
  }

  /** An entry of the listed directory (the server directory) named after an offline
      player's UUID text plus ".dat", where that text reads back as the same UUID and
      contains what was typed, is offered, by that text. */
  lemma OfflinePlayerOffered(names: seq<Option<string>>, i: nat, online: seq<Uuid>, partial: string,
                             parseUuid: string -> Option<Uuid>, hyphenate: Uuid -> string, player: Uuid)
    requires i < |names| && names[i] == Some(DataFileName(hyphenate(player)))
    requires parseUuid(hyphenate(player)) == Some(player) && player !in online
    requires Contains(hyphenate(player), partial)
    ensures hyphenate(player) in Offers(names, online, partial, parseUuid, hyphenate)
  {
    DataFileNameRoundTrip(hyphenate(player));
    assert Offer(names[i], online, partial, parseUuid, hyphenate) == Some(hyphenate(player));
  }

  /** An online player is never offered, whatever the directory holds. */
  lemma OnlinePlayerNotOffered(names: seq<Option<string>>, online: seq<Uuid>, partial: string,
                               parseUuid: string -> Option<Uuid>, hyphenate: Uuid -> string, s: string)
    requires s in Offers(names, online, partial, parseUuid, hyphenate)
    ensures exists d :: d !in online && s == hyphenate(d)
  {
    var i :| 0 <= i < |names| && Offer(names[i], online, partial, parseUuid, hyphenate) == Some(s);
    var d := parseUuid(StripSuffix(names[i].value, ".dat").value).value;
    assert d !in online && s == hyphenate(d);
  }
}
