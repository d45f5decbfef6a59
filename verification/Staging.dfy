/** Checking for updates, and what the staging directory holds between checks. */
module Staging {
  import opened Options
  import opened Ordering
  import opened Versions

  const MAX_INSTALL_ATTEMPTS := 3

  datatype PendingUpdate = PendingUpdate(version: string, notesUrl: string, artifact: string, attempts: nat)

  /** The bookkeeping file: absent, unreadable for some other reason, not understood, or a record. */
  datatype Record = Absent | Unreadable | Malformed | Holds(update: PendingUpdate)

  /** What is on disk: the record, and which files exist. */
  datatype Disk = Disk(record: Record, files: set<string>)

  /** What a deletion fails to remove, or never reaches because it lies elsewhere. */
  datatype Spared = Spared(record: bool, files: set<string>)

  datatype Written = Wrote | LeftAlone | LeftTruncated

  function Cleared(d: Disk, spared: Spared): Disk {
    Disk(if spared.record then d.record else Absent, d.files * spared.files)
  }

  /** The update a reader finds: a record whose artifact still exists. */
  function Usable(d: Disk): Option<PendingUpdate> {
    if d.record.Holds? && d.record.update.artifact in d.files then Some(d.record.update) else None
  }

  /** A record that names no usable update is cleared away by reading it. */
  function AfterRead(d: Disk, spared: Spared): Disk {
    if d.record.Malformed? || (d.record.Holds? && Usable(d).None?) then Cleared(d, spared) else d
  }

  function AfterWrite(d: Disk, update: PendingUpdate, written: Written): Disk {
    match written
    case Wrote => d.(record := Holds(update))
    case LeftAlone => d
    case LeftTruncated => d.(record := Malformed)
  }

  /** The usable update has been tried once more. */
  function AfterAttempt(d: Disk, written: Written): Disk {
    if Usable(d).None? then d
    else AfterWrite(d, Usable(d).value.(attempts := Usable(d).value.attempts + 1), written)
  }

  /** A usable update that has been tried often enough is discarded. */
  function AfterTries(d: Disk, spared: Spared): Disk {
    if Usable(d).Some? && Usable(d).value.attempts >= MAX_INSTALL_ATTEMPTS then Cleared(d, spared) else d
  }

  datatype Manifest = Manifest(version: string, notesUrl: string)

  /** What one check meets: the running build, the feed, the deletion, the download and the write. */
  datatype World = World(
    current: string,
    manifest: Option<Manifest>, // None: it could not be fetched or was refused
    spared: Spared,
    download: Option<string>, // the verified file's path; None: no artifact for this platform, or it failed
    written: Written
  )

  datatype Outcome = Failed | UpToDate | Offered(update: PendingUpdate)

  // ---- The directory ----

  class Directory {
    var record: Record
    var files: set<string>

    constructor (record: Record, files: set<string>)
      ensures Now() == Disk(record, files)
    {
      this.record, this.files := record, files;
    }

    function Now(): Disk
      reads this
    {
      Disk(record, files)
    }

    method ClearPending(spared: Spared)
      modifies this
      ensures Now() == Cleared(old(Now()), spared)
    {
      if !spared.record {
        record := Absent;
      }
      files := files * spared.files;
    }

    method ReadPending(spared: Spared) returns (r: Option<PendingUpdate>)
      modifies this
      ensures r == Usable(old(Now())) && Now() == AfterRead(old(Now()), spared)
      ensures r.Some? ==> Now() == old(Now())
    {
      if record.Absent? || record.Unreadable? {
        return None;
      }
      if record.Malformed? {
        ClearPending(spared);
        return None;
      }
      var pending := record.update;
      if pending.artifact !in files {
        ClearPending(spared);
        return None;
      }
      return Some(pending);
    }

    method WritePending(update: PendingUpdate, written: Written) returns (ok: bool)
      modifies this
      ensures ok == written.Wrote? && Now() == AfterWrite(old(Now()), update, written)
    {
      match written
      case Wrote => record := Holds(update); return true;
      case LeftAlone => return false;
      case LeftTruncated => record := Malformed; return false;
    }

    /** Whether an artifact has tries left; if not it is discarded. */
    method AttemptsLeft(pending: PendingUpdate, spared: Spared) returns (left: bool)
      modifies this
      ensures left == (pending.attempts < 3)
      ensures Usable(old(Now())) == Some(pending) ==> Now() == AfterTries(old(Now()), spared)
      ensures Now() == if left then old(Now()) else Cleared(old(Now()), spared)
    {
      if pending.attempts >= MAX_INSTALL_ATTEMPTS {
        ClearPending(spared);
        return false;
      }
      return true;
    }

    /** Records that an installer runs with this artifact. */
    method NoteInstallAttempt(pending: PendingUpdate, written: Written)
      modifies this
      ensures Now() == AfterWrite(old(Now()), pending.(attempts := pending.attempts + 1), written)
      ensures Usable(old(Now())) == Some(pending) ==> Now() == AfterAttempt(old(Now()), written)
    {
      var _ := WritePending(pending.(attempts := pending.attempts + 1), written);
    }

    /** Checks the feed and, if it is ahead of the running build, leaves a verified installer staged. */
    method CheckAndStage(lib: Library, w: World) returns (r: Outcome)
      modifies this
      ensures (Now(), r) == AfterCheck(lib, old(Now()), w)
    {
      if w.manifest.None? {
        return Failed;
      }
      var manifest := w.manifest.value;
      match IsNewer(lib, manifest.version, w.current) {
        case None =>
          return Failed;
        case Some(newer) =>
          if !newer {
            var stale := ReadPending(w.spared);
            if stale.Some? {
              ClearPending(w.spared);
            }
            return UpToDate;
          }
      }
      var staged := ReadPending(w.spared);
      if staged.Some? {
        var pending := staged.value;
        if pending.version == manifest.version {
          return Offered(pending);
        }
        match IsNewer(lib, manifest.version, pending.version) {
          case Some(true) =>
            ClearPending(w.spared);
          case _ =>
            return Offered(pending);
        }
      }
      if w.download.None? {
        return Failed;
      }
      files := files + {w.download.value};
      var pending := PendingUpdate(manifest.version, manifest.notesUrl, w.download.value, 0);
      var ok := WritePending(pending, w.written);
      return if ok then Offered(pending) else Failed;
    }
  }

  /** The feed is ahead of the running build. */
  predicate FeedAhead(lib: Library, w: World) {
    w.manifest.Some? && IsNewer(lib, w.manifest.value.version, w.current) == Some(true)
  }

  /** The feed was read and is not ahead of the running build. */
  predicate FeedBehind(lib: Library, w: World) {
    w.manifest.Some? && IsNewer(lib, w.manifest.value.version, w.current) == Some(false)
  }

  /** A usable staged update stays, because the feed names it, is not ahead of it, or cannot be compared. */
  predicate Keeps(lib: Library, d: Disk, w: World)
    requires w.manifest.Some?
  {
    Usable(d).Some?
    && (Usable(d).value.version == w.manifest.value.version
        || IsNewer(lib, w.manifest.value.version, Usable(d).value.version) != Some(true))
  }

  /** A staged update or a useless record is out of the way. */
  function Discarded(d: Disk, spared: Spared): Disk {
    if Usable(d).Some? then Cleared(d, spared) else AfterRead(d, spared)
  }

  /** The disk after a check, and what it reports. */
  function AfterCheck(lib: Library, d: Disk, w: World): (Disk, Outcome) {
    if FeedBehind(lib, w) then (Discarded(d, w.spared), UpToDate)
    else if !FeedAhead(lib, w) then (d, Failed)
    else if Keeps(lib, d, w) then (d, Offered(Usable(d).value))
    else
      var discarded := Discarded(d, w.spared);
      if w.download.None? then (discarded, Failed)
      else
        var downloaded := discarded.(files := discarded.files + {w.download.value});
        var update := PendingUpdate(w.manifest.value.version, w.manifest.value.notesUrl, w.download.value, 0);
        (AfterWrite(downloaded, update, w.written), if w.written.Wrote? then Offered(update) else Failed)
  }

  // ---- What a check may offer ----

  /**
   * What a check offers is on disk, ready to install, and newer than the running build - unless it
   * was staged before under a version that does not parse, which is the only way it can fail to be.
   */
  lemma OfferedIsNewer(lib: Library, d: Disk, w: World)
    requires StrictTotalOrder(lib.buildLess)
    requires AfterCheck(lib, d, w).1.Offered?
    ensures var (after, r) := AfterCheck(lib, d, w);
            && Usable(after) == Some(r.update)
            && (IsNewer(lib, r.update.version, w.current) == Some(true) <==> Parse(lib, r.update.version).Some?)
            && (Parse(lib, r.update.version).None? ==> after == d)
  {
    hide VersionLess, Parse;
    if Keeps(lib, d, w) {
      var kept := Usable(d).value.version;
      if IsNewer(lib, w.manifest.value.version, kept) == Some(false) {
        NewerThroughKept(lib, w.current, w.manifest.value.version, kept);
      }
    }
  }

  /** A staged version a check cannot compare is kept as long as the feed is ahead of the running build. */
  lemma UnparseableIsOffered(lib: Library, d: Disk, w: World)
    requires FeedAhead(lib, w) && Usable(d).Some? && Parse(lib, Usable(d).value.version).None?
    ensures AfterCheck(lib, d, w) == (d, Offered(Usable(d).value))
  {
    hide Parse;
  }

  /**
   * When a check stages a new installer: the feed is ahead of the running build, and what was usable, if
   * anything, is under another version that the feed is ahead of too. Downloaded and recorded, it is the
   * one the feed describes, untried and ready to install; otherwise the check fails.
   */
  lemma NewIsStaged(lib: Library, d: Disk, w: World)
    requires w.manifest.Some? && IsNewer(lib, w.manifest.value.version, w.current) == Some(true)
    requires Usable(d).Some? ==>
               Usable(d).value.version != w.manifest.value.version
               && IsNewer(lib, w.manifest.value.version, Usable(d).value.version) == Some(true)
    ensures var (after, r) := AfterCheck(lib, d, w);
            if w.download.Some? && w.written.Wrote? then
              r == Offered(PendingUpdate(w.manifest.value.version, w.manifest.value.notesUrl, w.download.value, 0))
              && Usable(after) == Some(r.update)
            else
              r == Failed
  {
    hide IsNewer;
  }

  /** Where deleting works, the record a check leaves behind names a usable update or is not there. */
  lemma NoDanglingRecord(lib: Library, d: Disk, w: World)
    requires (FeedBehind(lib, w) || FeedAhead(lib, w)) && !w.spared.record && !w.written.LeftTruncated?
    ensures var after := AfterCheck(lib, d, w).0;
            Usable(after).Some? || after.record.Absent? || after.record.Unreadable?
  {
    hide IsNewer;
  }

  /**
   * Where deleting works, a check loses a usable staged update exactly when the feed is not ahead of
   * the running build - however new the staged update is - or when the feed superseded it and its
   * replacement could not be downloaded or recorded.
   */
  lemma StagedUpdateIsLostIff(lib: Library, d: Disk, w: World)
    requires Usable(d).Some? && !w.spared.record
    ensures Usable(AfterCheck(lib, d, w).0).None?
       <==> FeedBehind(lib, w)
            || (FeedAhead(lib, w) && !Keeps(lib, d, w) && (w.download.None? || !w.written.Wrote?))
  {
    hide IsNewer;
  }

  // ---- Runs ----

  datatype Step =
    | Check(w: World)
    | InstallAttempt(written: Written)
    | TriesSpent(spared: Spared)

  function After(lib: Library, d: Disk, step: Step): Disk {
    match step
    case Check(w) => AfterCheck(lib, d, w).0
    case InstallAttempt(written) => AfterAttempt(d, written)
    case TriesSpent(spared) => AfterTries(d, spared)
  }

  ghost predicate IsRun(lib: Library, states: seq<Disk>, steps: seq<Step>) {
    && |states| == |steps| + 1
    && forall k :: 0 <= k < |steps| ==> states[k + 1] == After(lib, states[k], steps[k])
  }

  /** Every installation attempt of the run is made right after a look at the tries left, and the look works. */
  ghost predicate LooksFirst(steps: seq<Step>) {
    forall k :: 0 <= k < |steps| && steps[k].InstallAttempt? ==>
      k > 0 && steps[k - 1].TriesSpent? && !steps[k - 1].spared.record
  }

  ghost predicate TriedAtMostThrice(d: Disk) {
    d.record.Holds? ==> d.record.update.attempts <= 3
  }

  /** Nothing staged is ever tried more than three times. */
  lemma {:induction false} NeverTriedTooOften(lib: Library, states: seq<Disk>, steps: seq<Step>, i: nat)
    requires IsRun(lib, states, steps) && LooksFirst(steps) && i < |states|
    requires TriedAtMostThrice(states[0])
    ensures TriedAtMostThrice(states[i])
  {
    hide IsNewer;
    if i > 0 {
      NeverTriedTooOften(lib, states, steps, i - 1);
      assert states[i - 1 + 1] == After(lib, states[i - 1], steps[i - 1]);
      if steps[i - 1].InstallAttempt? {
        assert states[i - 2 + 1] == After(lib, states[i - 2], steps[i - 2]);
        NeverTriedTooOften(lib, states, steps, i - 2);
      }
    }
  }

  ghost predicate NotBehind(lib: Library, later: string, earlier: string) {
    later == earlier || IsNewer(lib, later, earlier) == Some(true)
  }

  /** One step leaves the staged version as it was, or moves it forward, or leaves none staged. */
  lemma StepNeverGoesBack(lib: Library, d: Disk, step: Step)
    requires Usable(d).Some? && Usable(After(lib, d, step)).Some?
    ensures NotBehind(lib, Usable(After(lib, d, step)).value.version, Usable(d).value.version)
  {
    hide IsNewer;
  }

  /** Over any run, while something stays staged its version never goes back. */
  lemma {:induction false} StagedVersionNeverGoesBack(lib: Library, states: seq<Disk>, steps: seq<Step>, i: nat, j: nat)
    requires StrictTotalOrder(lib.buildLess)
    requires IsRun(lib, states, steps) && i <= j < |states|
    requires forall k :: i <= k <= j ==> Usable(states[k]).Some?
    ensures NotBehind(lib, Usable(states[j]).value.version, Usable(states[i]).value.version)
    decreases j - i
  {
    hide IsNewer, After, Usable;
    if i < j {
      StagedVersionNeverGoesBack(lib, states, steps, i, j - 1);
      assert states[j - 1 + 1] == After(lib, states[j - 1], steps[j - 1]);
      StepNeverGoesBack(lib, states[j - 1], steps[j - 1]);
      NotBehindIsTransitive(lib, Usable(states[i]).value.version, Usable(states[j - 1]).value.version,
                            Usable(states[j]).value.version);
    }
  }

  lemma NotBehindIsTransitive(lib: Library, a: string, b: string, c: string)
    requires StrictTotalOrder(lib.buildLess)
    requires NotBehind(lib, b, a) && NotBehind(lib, c, b)
    ensures NotBehind(lib, c, a)
  {
    hide IsNewer;
    if a != b && b != c {
      NewerIsTransitive(lib, a, b, c);
    }
  }
}
