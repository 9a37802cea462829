/** The `crash` command (src/commands/crash.rs): hand out the newest crash report,
    at most once every 30 seconds. Instants are integers counting nanoseconds on the
    monotonic clock; the directory listing is given as what each step of the scan
    returned. */
module Crash {

  import opened Wrappers

  /** `RATELIMIT`: 30 seconds, in nanoseconds. */
  const RATELIMIT: nat := 30_000_000_000

  /** What `metadata()` says about a directory entry; `created` is None where the
      platform cannot tell the creation time. */
  datatype Metadata = Metadata(isFile: bool, created: Option<int>)

  /** One step of `read_dir`: an entry with its metadata (None when reading the
      metadata failed), or a failed `next_entry`. */
  datatype DirItem = Item(path: string, metadata: Option<Metadata>) | ItemError

  datatype CrashFile = CrashFile(path: string, created: int)

  /** Why `crash::run` refused: called again too soon (with the nanoseconds still to
      wait), or the reports could not be listed. */
  datatype CrashError = TooSoon(remaining: nat) | Unreadable

  const UNREADABLE_REPLY: string := "Could not read crash log file."

  // ---------------------------------------------------------------------------
  // the newest regular file

  /** A step that aborts the whole scan. */
  predicate Fails(it: DirItem) {
    it.ItemError? || it.metadata.None? || (it.metadata.value.isFile && it.metadata.value.created.None?)
  }

  predicate Regular(it: DirItem) {
    it.Item? && it.metadata.Some? && it.metadata.value.isFile
  }

  function FileOf(it: DirItem): CrashFile
    requires Regular(it) && !Fails(it)
  {
    CrashFile(it.path, it.metadata.value.created.value)
  }

  /** The regular files of a listing, or None when some step failed. */
  function RegularFiles(items: seq<DirItem>): (r: Option<seq<CrashFile>>)
    ensures r.Some? <==> forall i :: 0 <= i < |items| ==> !Fails(items[i])
    ensures r.Some? ==> forall f :: f in r.value <==>
      exists i :: 0 <= i < |items| && Regular(items[i]) && !Fails(items[i]) && FileOf(items[i]) == f
  {
    if items == [] then Some([])
    else
      var init := items[..|items| - 1];
      var last := items[|items| - 1];
      assert forall i :: 0 <= i < |init| ==> init[i] == items[i];
      match RegularFiles(init)
      case None => None
      case Some(fs) =>
        if Fails(last) then None
        else if Regular(last) then Some(fs + [FileOf(last)])
        else Some(fs)
  }

  /** The scan of a directory that may not be readable at all. */
  function Scan(listing: Option<seq<DirItem>>): Option<seq<CrashFile>> {
    match listing
    case None => None
    case Some(items) => RegularFiles(items)
  }

  ghost predicate IsNewest(f: CrashFile, files: seq<CrashFile>) {
    f in files && forall g :: g in files ==> g.created <= f.created
  }

  /** Every non-empty scan has a newest file. */
  lemma {:induction false} NewestExists(files: seq<CrashFile>)
    requires files != []
    ensures exists f :: IsNewest(f, files)
  {
    if |files| > 1 {
      NewestExists(files[1..]);
      var f :| IsNewest(f, files[1..]);
      assert files == [files[0]] + files[1..];
      if files[0].created <= f.created {
        assert IsNewest(f, files);
      } else {
        assert IsNewest(files[0], files);
      }
    } else {
      assert IsNewest(files[0], files);
    }
  }

  /** Two newest files have the same creation time: only ties are left open. */
  lemma NewestTies(f: CrashFile, g: CrashFile, files: seq<CrashFile>)
    requires IsNewest(f, files) && IsNewest(g, files)
    ensures f.created == g.created
  {
  }

  /** `get_latest_file`: collect the regular files, newest first, and take the first;
      with none, indexing the empty vector panics. Sorting by `Reverse(created)` only
      matters for its first element, so the loop after the scan picks a newest file. */
  method GetLatestFile(listing: Option<seq<DirItem>>) returns (r: Outcome<Option<CrashFile>>)
    ensures Scan(listing).None? ==> r == Returned(None)
    ensures Scan(listing) == Some([]) ==> r.Panicked?
    ensures Scan(listing).Some? && Scan(listing).value != [] ==>
      r.Returned? && r.value.Some? && IsNewest(r.value.value, Scan(listing).value)
  {
    if listing.None? {
      return Returned(None);
    }
    var items := listing.value;
    var entries: seq<CrashFile> := [];
    var i := 0;
    while i < |items|
      invariant 0 <= i <= |items|
      invariant RegularFiles(items[..i]) == Some(entries)
    {
      assert items[..i + 1][..i] == items[..i];
      var it := items[i];
      if it.ItemError? || it.metadata.None? {
        return Returned(None);
      }
      if it.metadata.value.isFile {
        if it.metadata.value.created.None? {
          return Returned(None);
        }
        entries := entries + [CrashFile(it.path, it.metadata.value.created.value)];
      }
      i := i + 1;
    }
    assert items[..|items|] == items;
    if |entries| == 0 {
      return Panicked;
    }
    var best := 0;
    var k := 1;
    while k < |entries|
      invariant 0 <= best < |entries| && 1 <= k <= |entries|
      invariant forall j :: 0 <= j < k ==> entries[j].created <= entries[best].created
    {
      if entries[k].created > entries[best].created {
        best := k;
      }
      k := k + 1;
    }
    r := Returned(Some(entries[best]));
  }

  // ---------------------------------------------------------------------------
  // the rate limit

  /** `Instant::elapsed`: the time since `last`, zero if `last` lies in the future. */
  function Elapsed(last: int, now: int): (r: nat)
    ensures last <= now ==> last + r == now
    ensures now < last ==> r == 0
  {
    if last <= now then now - last else 0
  }

  /** A call at `now` goes ahead when at least `RATELIMIT` has passed since `last`. */
  predicate Admitted(last: int, now: int) {
    Elapsed(last, now) >= RATELIMIT
  }

  /** The limit is exactly 30 seconds: a call 30 seconds after the last use goes
      ahead, and one a nanosecond earlier does not. */
  lemma AdmittedIff(last: int, now: int)
    ensures Admitted(last, now) <==> now >= last + 30_000_000_000
  {
  }

  /** The first use, whose last-use time starts 60 seconds back, always goes ahead. */
  lemma FirstUseAdmitted(now: int)
    ensures Admitted(now - 2 * RATELIMIT, now)
  {
  }

  /** `LAST_USED`: unset until the first call initialises it. */
  class RateLimiter {
    var lastUsed: Option<int>

    constructor ()
      ensures lastUsed == None
    {
      lastUsed := None;
    }

    /** `crash::run` at `now`; `finishedAt` is the clock read after a successful scan.
        The last-use time moves only on success. A panic leaves the initialised time in
        place (the lock is not poisoned). */
    method Run(now: int, finishedAt: int, listing: Option<seq<DirItem>>)
      returns (r: Outcome<Result<CrashFile, CrashError>>)
      modifies this`lastUsed
      ensures var last := old(lastUsed).GetOr(now - 2 * RATELIMIT);
        !Admitted(last, now) ==>
          r == Returned(Err(TooSoon(RATELIMIT - Elapsed(last, now)))) && lastUsed == Some(last)
      ensures var last := old(lastUsed).GetOr(now - 2 * RATELIMIT);
        Admitted(last, now) && Scan(listing).None? ==>
          r == Returned(Err(Unreadable)) && lastUsed == Some(last)
      ensures var last := old(lastUsed).GetOr(now - 2 * RATELIMIT);
        Admitted(last, now) && Scan(listing) == Some([]) ==>
          r.Panicked? && lastUsed == Some(last)
      ensures var last := old(lastUsed).GetOr(now - 2 * RATELIMIT);
        Admitted(last, now) && Scan(listing).Some? && Scan(listing).value != [] ==>
          r.Returned? && r.value.Ok? && IsNewest(r.value.value, Scan(listing).value)
          && lastUsed == Some(finishedAt)
    {
      if lastUsed.None? {
        lastUsed := Some(now - 2 * RATELIMIT);
      }
      var elapsed := Elapsed(lastUsed.value, now);
      if elapsed < RATELIMIT {
        return Returned(Err(TooSoon(RATELIMIT - elapsed)));
      }
      var latest := GetLatestFile(listing);
      match latest {
        case Panicked =>
          r := Panicked;
        case Returned(None) =>
          r := Returned(Err(Unreadable));
        case Returned(Some(file)) =>
          lastUsed := Some(finishedAt);
          r := Returned(Ok(file));
      }
    }
  }
}
