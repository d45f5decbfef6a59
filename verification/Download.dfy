/** Downloading an artifact so that only a verified file ever reaches its final name. */
module Download {
  import opened Bytes
  import opened Options
  import opened Strings

  const MAX_ARTIFACT_BYTES: nat := 300 * 1024 * 1024

  /**
   * One artifact to fetch: its file name, the digest and size the manifest gives, and SHA-256, of
   * which only this is used: feeding it chunk by chunk gives the digest of what the chunks make up.
   */
  datatype Artifact = Artifact(fileName: string, sha256: string, size: nat)

  datatype Tools = Tools(digest: seq<byte> -> seq<byte>, whitespace: char -> bool)

  function FinalPath(a: Artifact): string {
    a.fileName
  }

  function PartPath(a: Artifact): string {
    a.fileName + ".part"
  }

  // ---- Digests as text ----

  function Hex(bytes: seq<byte>): string {
    if bytes == [] then ""
    else
      var last := bytes[|bytes| - 1];
      Hex(bytes[..|bytes| - 1]) + [HexDigit(last / 16), HexDigit(last % 16)]
  }

  function Expected(t: Tools, a: Artifact): string {
    AsciiLower(Trim(t.whitespace, a.sha256))
  }

  lemma HexDigitIsOnce(m: nat, n: nat)
    requires m < 16 && n < 16 && HexDigit(m) == HexDigit(n)
    ensures m == n
  {
  }

  /** No two digests are written alike. */
  lemma {:induction false} HexIsInjective(a: seq<byte>, b: seq<byte>)
    requires Hex(a) == Hex(b)
    ensures a == b
  {
    HexLength(a);
    HexLength(b);
    if a != [] {
      hide Hex;
      var inits := LastByte(a, b);
      HexIsInjective(inits.0, inits.1);
    }
  }

  lemma LastByte(a: seq<byte>, b: seq<byte>) returns (inits: (seq<byte>, seq<byte>))
    requires Hex(a) == Hex(b) && |a| == |b| > 0
    ensures a == inits.0 + [a[|a| - 1]] && b == inits.1 + [b[|b| - 1]]
    ensures Hex(inits.0) == Hex(inits.1) && a[|a| - 1] == b[|b| - 1]
  {
    inits := (a[..|a| - 1], b[..|b| - 1]);
    var m, n := a[|a| - 1], b[|b| - 1];
    SplitLast2(Hex(inits.0), [HexDigit(m / 16), HexDigit(m % 16)], Hex(inits.1), [HexDigit(n / 16), HexDigit(n % 16)]);
    hide HexDigit, Hex;
    HexDigitIsOnce(m / 16, n / 16);
    HexDigitIsOnce(m % 16, n % 16);
  }

  lemma {:induction false} HexLength(a: seq<byte>)
    ensures |Hex(a)| == 2 * |a|
  {
    if a != [] {
      HexLength(a[..|a| - 1]);
    }
  }

  lemma SplitLast2(x: string, ms: string, y: string, ns: string)
    requires x + ms == y + ns && |ms| == |ns|
    ensures x == y && ms == ns
  {
    assert |x| == |y|;
    assert x == (x + ms)[..|x|] && y == (y + ns)[..|y|];
    assert ms == (x + ms)[|x|..] && ns == (y + ns)[|y|..];
  }

  // ---- A download, one step at a time ----

  datatype Stage =
    | Begin
    | Receiving // between two chunks
    | Received(chunk: seq<byte>) // read, not yet hashed
    | Hashed(chunk: seq<byte>) // hashed, not yet handed to the writer
    | Flushed // everything handed over is in the file
    | Matched // and its digest is the manifest's
    | Done
    | Stopped // with an error, or by a crash

  /** `sent` is what the buffering writer was given; the file holds some beginning of it. */
  datatype State = State(stage: Stage, hashed: seq<byte>, sent: seq<byte>, files: map<string, seq<byte>>)

  datatype Move =
    | Create
    | Arrive(data: seq<byte>)
    | Hash
    | Send
    | Spill(upTo: nat) // the writer empties part of its buffer
    | Oversize(removed: bool)
    | Finish
    | Compare(removed: bool)
    | Rename
    | Stop // an error is returned, or the process dies

  /** The steps of a download, in the order they can come. */
  predicate Enabled(t: Tools, a: Artifact, s: State, m: Move) {
    match m
    case Create => s.stage.Begin? && a.size <= MAX_ARTIFACT_BYTES
    case Arrive(data) => s.stage.Receiving? && data != []
    case Hash => s.stage.Received? && |s.hashed| + |s.stage.chunk| <= MAX_ARTIFACT_BYTES
    case Oversize(_) => s.stage.Received? && |s.hashed| + |s.stage.chunk| > MAX_ARTIFACT_BYTES
    case Send => s.stage.Hashed?
    case Spill(upTo) =>
      && (s.stage.Receiving? || s.stage.Received? || s.stage.Hashed?)
      && PartPath(a) in s.files && |s.files[PartPath(a)]| <= upTo <= |s.sent|
    case Finish => s.stage.Receiving?
    case Compare(_) => s.stage.Flushed?
    case Rename => s.stage.Matched? && PartPath(a) in s.files
    case Stop => !s.stage.Done? && !s.stage.Stopped?
  }

  function Without(files: map<string, seq<byte>>, path: string): map<string, seq<byte>> {
    map p | p in files && p != path :: files[p]
  }

  function Matches(t: Tools, a: Artifact, bytes: seq<byte>): bool {
    Hex(t.digest(bytes)) == Expected(t, a)
  }

  function Apply(t: Tools, a: Artifact, s: State, m: Move): State
    requires Enabled(t, a, s, m)
  {
    var part := PartPath(a);
    match m
    case Create => State(Receiving, [], [], s.files[part := []])
    case Arrive(data) => s.(stage := Received(data))
    case Hash => s.(stage := Hashed(s.stage.chunk), hashed := s.hashed + s.stage.chunk)
    case Send => s.(stage := Receiving, sent := s.sent + s.stage.chunk)
    case Spill(upTo) => s.(files := s.files[part := s.sent[..upTo]])
    case Oversize(removed) => s.(stage := Stopped, files := if removed then Without(s.files, part) else s.files)
    case Finish => s.(stage := Flushed, files := s.files[part := s.sent])
    case Compare(removed) =>
      if Matches(t, a, s.hashed) then s.(stage := Matched)
      else s.(stage := Stopped, files := if removed then Without(s.files, part) else s.files)
    case Rename => s.(stage := Done, files := Without(s.files, part)[FinalPath(a) := s.files[part]])
    case Stop => s.(stage := Stopped)
  }

  /** The state after a list of steps; a step that cannot come is no step. */
  function After(t: Tools, a: Artifact, s: State, moves: seq<Move>): State {
    if moves == [] then s
    else
      var before, m := After(t, a, s, moves[..|moves| - 1]), moves[|moves| - 1];
      if Enabled(t, a, before, m) then Apply(t, a, before, m) else before
  }

  function Started(files: map<string, seq<byte>>): State {
    State(Begin, [], [], files)
  }

  /** `text` is the digest in hexadecimal, each digit in small letters or capitals. */
  ghost predicate Spells(text: string, digest: seq<byte>) {
    |text| == |Hex(digest)| && forall i :: 0 <= i < |text| ==> SameDigit(text[i], Hex(digest)[i])
  }

  ghost predicate SameDigit(c: char, digit: char) {
    c == digit || exists k :: 0 <= k < 6 && c == "ABCDEF"[k] && digit == "abcdef"[k]
  }

  lemma SameDigitLowers(c: char, d: nat)
    requires d < 16
    ensures LowerChar(c) == HexDigit(d) <==> SameDigit(c, HexDigit(d))
  {
    if LowerChar(c) == HexDigit(d) && c != HexDigit(d) {
      assert "ABCDEF"[c as int - 'A' as int] == c && "abcdef"[c as int - 'A' as int] == HexDigit(d);
    }
  }

  lemma {:induction false} HexIsDigits(bytes: seq<byte>, i: nat) returns (d: nat)
    requires i < |Hex(bytes)|
    ensures d < 16 && Hex(bytes)[i] == HexDigit(d)
  {
    hide HexDigit;
    var init, last := bytes[..|bytes| - 1], bytes[|bytes| - 1];
    if i < |Hex(init)| {
      d := HexIsDigits(init, i);
    } else {
      d := if i == |Hex(init)| then last / 16 else last % 16;
    }
  }

  /** The manifest's digest may be written in capitals and with space around it, and in no other way differently. */
  lemma DigestMatchesIffSpelled(t: Tools, a: Artifact, bytes: seq<byte>)
    ensures Matches(t, a, bytes) <==> Spells(Trim(t.whitespace, a.sha256), t.digest(bytes))
  {
    var text, hex := Trim(t.whitespace, a.sha256), Hex(t.digest(bytes));
    hide Trim, Hex, HexDigit, LowerChar, SameDigit;
    LowerLength(text);
    forall i | 0 <= i < |text| && i < |hex| ensures AsciiLower(text)[i] == hex[i] <==> SameDigit(text[i], hex[i]) {
      AsciiLowerAt(text, i);
      var d := HexIsDigits(t.digest(bytes), i);
      SameDigitLowers(text[i], d);
    }
    hide AsciiLower;
  }

  lemma LowerLength(text: string)
    ensures |AsciiLower(text)| == |text|
  {
    if text != [] {
      AsciiLowerAt(text, 0);
    }
  }

  // ---- What holds between any two steps ----

  /** A file fit to install: what the manifest's digest stands for, within the ceiling. */
  ghost predicate Verified(t: Tools, a: Artifact, bytes: seq<byte>) {
    Matches(t, a, bytes) && |bytes| <= 300 * 1024 * 1024
  }

  ghost predicate SameFile(f: map<string, seq<byte>>, g: map<string, seq<byte>>, path: string) {
    (path in f <==> path in g) && (path in f ==> f[path] == g[path])
  }

  /** The writer's account of what it was given, and the file's of what reached it. */
  ghost predicate Accounted(a: Artifact, s: State) {
    var part := PartPath(a);
    match s.stage
    case Begin => s.hashed == []
    case Receiving => s.hashed == s.sent && part in s.files && s.files[part] <= s.sent
    case Received(_) => s.hashed == s.sent && part in s.files && s.files[part] <= s.sent
    case Hashed(chunk) => s.hashed == s.sent + chunk && part in s.files && s.files[part] <= s.sent
    case Flushed => part in s.files && s.files[part] == s.hashed
    case Matched => part in s.files && s.files[part] == s.hashed
    case Done => FinalPath(a) in s.files && s.files[FinalPath(a)] == s.hashed && part !in s.files
    case Stopped => true
  }

  ghost predicate Sound(t: Tools, a: Artifact, files: map<string, seq<byte>>, s: State) {
    && Accounted(a, s)
    && |s.hashed| <= MAX_ARTIFACT_BYTES
    && (s.stage.Matched? || s.stage.Done? ==> Matches(t, a, s.hashed))
    && (forall p :: p != PartPath(a) && p != FinalPath(a) ==> SameFile(s.files, files, p))
    && (!s.stage.Done? ==> SameFile(s.files, files, FinalPath(a)))
  }

  lemma PathsDiffer(a: Artifact)
    ensures PartPath(a) != FinalPath(a)
  {
    assert |PartPath(a)| == |FinalPath(a)| + 5;
  }

  lemma StepKeepsSound(t: Tools, a: Artifact, files: map<string, seq<byte>>, s: State, m: Move)
    requires Sound(t, a, files, s) && Enabled(t, a, s, m)
    ensures Sound(t, a, files, Apply(t, a, s, m))
  {
    hide Matches;
    PathsDiffer(a);
    var next := Apply(t, a, s, m);
    forall p | p != PartPath(a) && (p != FinalPath(a) || !next.stage.Done?) ensures SameFile(next.files, files, p) {
      assert SameFile(s.files, files, p);
    }
    StepKeepsAccounts(t, a, s, m);
  }

  lemma StepKeepsAccounts(t: Tools, a: Artifact, s: State, m: Move)
    requires Accounted(a, s) && Enabled(t, a, s, m)
    ensures Accounted(a, Apply(t, a, s, m))
  {
    hide Matches;
    PathsDiffer(a);
    match m
    case Spill(upTo) => assert s.sent[..upTo] <= s.sent;
    case Send => assert s.sent <= s.sent + s.stage.chunk;
    case _ =>
  }

  lemma {:induction false} AlwaysSound(t: Tools, a: Artifact, files: map<string, seq<byte>>, moves: seq<Move>)
    ensures Sound(t, a, files, After(t, a, Started(files), moves))
  {
    hide Apply, Enabled;
    if moves == [] {
      hide *;
      StartIsSound(t, a, files);
      NoMoves(t, a, Started(files), moves);
    } else {
      AlwaysSound(t, a, files, moves[..|moves| - 1]);
      var before := After(t, a, Started(files), moves[..|moves| - 1]);
      if Enabled(t, a, before, moves[|moves| - 1]) {
        StepKeepsSound(t, a, files, before, moves[|moves| - 1]);
      }
    }
  }

  lemma StartIsSound(t: Tools, a: Artifact, files: map<string, seq<byte>>)
    ensures Sound(t, a, files, Started(files))
  {
  }

  lemma NoMoves(t: Tools, a: Artifact, s: State, moves: seq<Move>)
    requires moves == []
    ensures After(t, a, s, moves) == s
  {
  }

  /** The bytes that arrived in the course of a list of steps. */
  ghost function Arrived(t: Tools, a: Artifact, s: State, moves: seq<Move>): seq<byte> {
    if moves == [] then []
    else
      var init, m := moves[..|moves| - 1], moves[|moves| - 1];
      Arrived(t, a, s, init) + if m.Arrive? && Enabled(t, a, After(t, a, s, init), m) then m.data else []
  }

  /** The bytes read but not hashed yet. */
  function InHand(s: State): seq<byte> {
    if s.stage.Received? then s.stage.chunk else []
  }

  /** Everything that arrived was hashed, in order and once, unless the download was stopped. */
  lemma {:induction false} ArrivedIsHashed(t: Tools, a: Artifact, files: map<string, seq<byte>>, moves: seq<Move>)
    ensures var s := After(t, a, Started(files), moves);
            !s.stage.Stopped? ==> Arrived(t, a, Started(files), moves) == s.hashed + InHand(s)
  {
    hide Matches, Apply, Enabled, Sound, Accounted;
    if moves != [] {
      var init, m := moves[..|moves| - 1], moves[|moves| - 1];
      ArrivedIsHashed(t, a, files, init);
      var before := After(t, a, Started(files), init);
      AlwaysSound(t, a, files, init);
      SoundIsAccounted(t, a, files, before);
      if Enabled(t, a, before, m) {
        StepHashesWhatArrived(t, a, before, m);
      }
    }
  }

  lemma SoundIsAccounted(t: Tools, a: Artifact, files: map<string, seq<byte>>, s: State)
    requires Sound(t, a, files, s)
    ensures Accounted(a, s)
  {
  }

  lemma StepHashesWhatArrived(t: Tools, a: Artifact, s: State, m: Move)
    requires Accounted(a, s) && Enabled(t, a, s, m)
    ensures var next := Apply(t, a, s, m);
            next.stage.Stopped?
            || next.hashed + InHand(next) == s.hashed + InHand(s) + (if m.Arrive? then m.data else [])
    ensures s.stage.Stopped? ==> Apply(t, a, s, m).stage.Stopped?
  {
    hide Matches;
    match m
    case Arrive(data) => assert s.hashed + [] == s.hashed;
    case _ =>
  }

  /**
   * Stop a download after any step at all: apart from the `.part` file, the disk is as it was, or it
   * has gained exactly one file, under its final name, holding exactly the bytes that arrived, which
   * are within the ceiling and have the digest the manifest gives.
   */
  lemma DownloadIsSafe(t: Tools, a: Artifact, files: map<string, seq<byte>>, moves: seq<Move>, path: string)
    requires path != PartPath(a)
    ensures var s := After(t, a, Started(files), moves);
            SameFile(s.files, files, path)
            || (path == FinalPath(a) && s.stage.Done? && path in s.files && Verified(t, a, s.files[path])
                && s.files[path] == Arrived(t, a, Started(files), moves))
  {
    hide Matches, After, Arrived, SameFile;
    AlwaysSound(t, a, files, moves);
    ArrivedIsHashed(t, a, files, moves);
  }

  // ---- Many downloads, each cut short anywhere ----

  datatype Attempt = Attempt(artifact: Artifact, moves: seq<Move>)

  ghost function DiskAfter(t: Tools, files: map<string, seq<byte>>, attempts: seq<Attempt>): map<string, seq<byte>> {
    if attempts == [] then files
    else
      var last := attempts[|attempts| - 1];
      After(t, last.artifact, Started(DiskAfter(t, files, attempts[..|attempts| - 1])), last.moves).files
  }

  /** A fetch of the artifact writes to this path before anything is verified. */
  predicate IsPartOf(a: Artifact, path: string) {
    a.size <= MAX_ARTIFACT_BYTES && PartPath(a) == path
  }

  ghost predicate NoPart(attempts: seq<Attempt>, path: string) {
    forall k :: 0 <= k < |attempts| ==> !IsPartOf(attempts[k].artifact, path)
  }

  /** An artifact announced as too large is never begun. */
  lemma {:induction false} TooLargeDoesNothing(t: Tools, a: Artifact, files: map<string, seq<byte>>, moves: seq<Move>)
    requires a.size > MAX_ARTIFACT_BYTES
    ensures var s := After(t, a, Started(files), moves); s.files == files && (s.stage.Begin? || s.stage.Stopped?)
  {
    hide Matches;
    if moves != [] {
      TooLargeDoesNothing(t, a, files, moves[..|moves| - 1]);
    }
  }

  ghost predicate VerifiedBySome(t: Tools, attempts: seq<Attempt>, path: string, bytes: seq<byte>) {
    exists k :: 0 <= k < |attempts| && FinalPath(attempts[k].artifact) == path
        && Verified(t, attempts[k].artifact, bytes)
  }

  /** However many downloads were begun and abandoned, no file but a `.part` one is ever unverified. */
  lemma {:induction false} OnlyVerifiedFilesAppear(
    t: Tools, files: map<string, seq<byte>>, attempts: seq<Attempt>, path: string
  )
    requires NoPart(attempts, path)
    ensures var disk := DiskAfter(t, files, attempts);
            SameFile(disk, files, path) || (path in disk && VerifiedBySome(t, attempts, path, disk[path]))
  {
    hide After, Verified, FinalPath, PartPath;
    if attempts != [] {
      var before, last := attempts[..|attempts| - 1], attempts[|attempts| - 1];
      var disk := DiskAfter(t, files, before);
      OnlyVerifiedFilesAppear(t, files, before, path);
      if last.artifact.size > MAX_ARTIFACT_BYTES {
        TooLargeDoesNothing(t, last.artifact, disk, last.moves);
      } else {
        assert !IsPartOf(last.artifact, path);
        DownloadIsSafe(t, last.artifact, disk, last.moves, path);
      }
      if path in disk && VerifiedBySome(t, before, path, disk[path]) {
        var k :| 0 <= k < |before| && FinalPath(before[k].artifact) == path
            && Verified(t, before[k].artifact, disk[path]);
        assert attempts[k] == before[k];
      }
    }
  }

  /** The path has its old content, or a file that an attempted artifact of that name vouches for. */
  ghost predicate Safe(t: Tools, files: map<string, seq<byte>>, attempts: seq<Attempt>, path: string) {
    var disk := DiskAfter(t, files, attempts);
    SameFile(disk, files, path) || (path in disk && VerifiedBySome(t, attempts, path, disk[path]))
  }

  ghost predicate AttemptsAt(artifacts: set<Artifact>, attempts: seq<Attempt>) {
    forall k :: 0 <= k < |attempts| ==> attempts[k].artifact in artifacts
  }

  /** Whichever of these artifacts are fetched, how often, and however each attempt ends, the path is safe. */
  ghost predicate AlwaysSafe(t: Tools, artifacts: set<Artifact>, path: string) {
    forall files, attempts :: AttemptsAt(artifacts, attempts) ==> Safe(t, files, attempts, path)
  }

  /** A download abandoned as soon as it begins leaves its `.part` file, which nothing vouches for. */
  lemma AbandonedPart(t: Tools, a: Artifact)
    requires a.size <= MAX_ARTIFACT_BYTES
    ensures !Safe(t, map[], [Attempt(a, [Create])], PartPath(a))
  {
    var attempts := [Attempt(a, [Create])];
    assert attempts[..0] == [];
    assert DiskAfter(t, map[], attempts[..0]) == map[];
    var s := Started(map[]);
    NoMoves(t, a, s, [Create][..0]);
    assert After(t, a, s, [Create]) == Apply(t, a, s, Create);
    PathsDiffer(a);
  }

  /**
   * Whatever set of artifacts is fetched from, a path only ever gains verified files exactly when it is
   * the `.part` file of none of them that is small enough to be begun. One artifact's final name may
   * well be another's `.part` name.
   */
  lemma SafeIffNobodysPart(t: Tools, artifacts: set<Artifact>, path: string)
    ensures AlwaysSafe(t, artifacts, path) <==> forall a :: a in artifacts ==> !IsPartOf(a, path)
  {
    hide DiskAfter, PartPath, VerifiedBySome, SameFile;
    if forall a :: a in artifacts ==> !IsPartOf(a, path) {
      forall files, attempts | AttemptsAt(artifacts, attempts) ensures Safe(t, files, attempts, path) {
        OnlyVerifiedFilesAppear(t, files, attempts, path);
      }
    } else {
      var a :| a in artifacts && IsPartOf(a, path);
      AbandonedPart(t, a);
      assert AttemptsAt(artifacts, [Attempt(a, [Create])]);
    }
  }

  // ---- The downloader itself ----

  /**
   * What the network and the disk do to one download: what fails, and how many of the bytes handed to
   * the writer have reached the file when the download is given up.
   */
  datatype Line = Line(
    folder: bool,
    connected: bool,
    creatable: bool,
    chunks: seq<seq<byte>>,
    unwritable: Option<nat>, // the chunk the writer fails at
    broken: bool, // the transfer ends in an error
    flushable: bool,
    renamable: bool,
    spilled: nat,
    removable: bool
  )

  datatype Fetched =
    | File(path: string)
    | TooLarge
    | NotConnected
    | IoFailed
    | ChecksumMismatch(expected: string, actual: string)

  /** Nothing stands between the artifact and the disk. */
  predicate GoesThrough(line: Line) {
    && line.folder && line.connected && line.creatable && !line.broken && line.flushable && line.renamable
    && (line.unwritable.Some? ==> line.unwritable.value >= |line.chunks|)
  }

  /** The beginning of what was sent that is in the file when its writer is dropped. */
  function Spilled(line: Line, sent: seq<byte>): (r: seq<byte>)
    ensures r <= sent
  {
    if line.spilled < |sent| then sent[..line.spilled] else sent
  }

  class Folder {
    var files: map<string, seq<byte>>

    constructor (files: map<string, seq<byte>>)
      ensures this.files == files
    {
      this.files := files;
    }

    method Remove(path: string, removable: bool)
      modifies this
      ensures files == if removable then Without(old(files), path) else old(files)
    {
      if removable {
        files := map p | p in files && p != path :: files[p];
      }
    }

    /**
     * Streams the download, hashing as it goes. Every run of it is a run of the steps above; it yields
     * the file exactly when nothing fails and what arrived is verified, and touches nothing but the
     * `.part` file otherwise.
     */
    method FetchVerified(t: Tools, a: Artifact, line: Line) returns (r: Fetched, ghost moves: seq<Move>)
      requires forall k :: 0 <= k < |line.chunks| ==> line.chunks[k] != []
      modifies this
      ensures files == After(t, a, Started(old(files)), moves).files
      ensures r.File? <==> (a.size <= MAX_ARTIFACT_BYTES && GoesThrough(line) && Verified(t, a, Flat(line.chunks)))
      ensures r.File? ==>
                r.path == FinalPath(a) && files == Without(old(files), PartPath(a))[r.path := Flat(line.chunks)]
      ensures !r.File? ==> Without(files, PartPath(a)) == Without(old(files), PartPath(a))
      ensures r.ChecksumMismatch? ==> r.expected == Expected(t, a) != r.actual == Hex(t.digest(Flat(line.chunks)))
      ensures (r.TooLarge? || r.ChecksumMismatch?) && line.removable ==>
                files == old(files) || files == Without(old(files), PartPath(a))
    {
      ghost var start, part := Started(files), PartPath(a);
      hide After, Apply, Enabled, Flat, Hex, Expected, PartPath, Spilled;
      NoMoves(t, a, start, []);
      moves := [];
      if !line.folder {
        return IoFailed, moves;
      }
      if a.size > MAX_ARTIFACT_BYTES {
        return TooLarge, moves;
      }
      if !line.connected {
        return NotConnected, moves;
      }
      if !line.creatable {
        return IoFailed, moves;
      }
      moves := CreateMove(t, a, files);
      files := files[PartPath(a) := []];
      var hashed, buffered := [], [];
      var written := 0;
      NothingFlat(line.chunks);
      for k := 0 to |line.chunks|
        invariant written == |hashed| <= MAX_ARTIFACT_BYTES && hashed == buffered == Flat(line.chunks[..k])
        invariant files == old(files)[part := []]
        invariant After(t, a, start, moves) == State(Receiving, hashed, buffered, files)
        invariant line.unwritable.Some? ==> line.unwritable.value >= k
      {
        var chunk := line.chunks[k];
        FlatPrefix(line.chunks, k);
        written := written + |chunk|;
        WithoutNew(old(files), part, Spilled(line, buffered));
        if written > MAX_ARTIFACT_BYTES {
          FlatGrows(line.chunks, k + 1);
          moves := OversizeMoves(t, a, start, moves, hashed, files, chunk, Spilled(line, buffered), line.removable);
          files := files[PartPath(a) := Spilled(line, buffered)];
          Remove(PartPath(a), line.removable);
          return TooLarge, moves;
        }
        if line.unwritable == Some(k) {
          moves := WriteFails(t, a, start, moves, hashed, files, chunk, Spilled(line, buffered));
          files := files[PartPath(a) := Spilled(line, buffered)];
          return IoFailed, moves;
        }
        moves := ChunkMoves(t, a, start, moves, hashed, files, chunk);
        hashed := hashed + chunk;
        buffered := buffered + chunk;
      }
      assert line.chunks[..|line.chunks|] == line.chunks;
      if line.broken || !line.flushable {
        moves := DropMoves(t, a, start, moves, hashed, files, Spilled(line, buffered));
        WithoutNew(old(files), part, Spilled(line, buffered));
        files := files[PartPath(a) := Spilled(line, buffered)];
        return IoFailed, moves;
      }
      moves := EndMoves(t, a, start, moves, hashed, files, line.removable, line.renamable);
      WithoutNew(old(files), part, hashed);
      files := files[PartPath(a) := buffered];
      assert files == old(files)[part := hashed];
      var actual, expected := Hex(t.digest(hashed)), Expected(t, a);
      if actual != expected {
        Remove(PartPath(a), line.removable);
        return ChecksumMismatch(expected, actual), moves;
      }
      if !line.renamable {
        return IoFailed, moves;
      }
      var content := files[PartPath(a)];
      Remove(PartPath(a), true);
      files := files[FinalPath(a) := content];
      return File(FinalPath(a)), moves;
    }
  }

  lemma WithoutNew(files: map<string, seq<byte>>, part: string, bytes: seq<byte>)
    ensures Without(files[part := bytes], part) == Without(files, part)
    ensures Without(Without(files, part), part) == Without(files, part)
    ensures Without(files[part := []][part := bytes], part) == Without(files, part)
    ensures files[part := []][part := bytes] == files[part := bytes]
  {
  }

  lemma NothingFlat(rows: seq<seq<byte>>)
    ensures Flat(rows[..0]) == []
  {
  }

  lemma CreateMove(t: Tools, a: Artifact, files: map<string, seq<byte>>) returns (more: seq<Move>)
    requires a.size <= MAX_ARTIFACT_BYTES
    ensures After(t, a, Started(files), more) == State(Receiving, [], [], files[PartPath(a) := []])
  {
    NoMoves(t, a, Started(files), []);
    more := Next(t, a, Started(files), [], Create);
  }

  lemma ChunkMoves(
    t: Tools, a: Artifact, start: State, moves: seq<Move>, hashed: seq<byte>, files: map<string, seq<byte>>,
    chunk: seq<byte>
  )
    returns (more: seq<Move>)
    requires After(t, a, start, moves) == State(Receiving, hashed, hashed, files)
    requires chunk != [] && |hashed| + |chunk| <= MAX_ARTIFACT_BYTES
    ensures After(t, a, start, more) == State(Receiving, hashed + chunk, hashed + chunk, files)
  {
    hide After;
    more := Next(t, a, start, moves, Arrive(chunk));
    more := Next(t, a, start, more, Hash);
    more := Next(t, a, start, more, Send);
  }

  lemma OversizeMoves(
    t: Tools, a: Artifact, start: State, moves: seq<Move>, hashed: seq<byte>, files: map<string, seq<byte>>,
    chunk: seq<byte>, spilled: seq<byte>, removable: bool
  )
    returns (more: seq<Move>)
    requires After(t, a, start, moves) == State(Receiving, hashed, hashed, files)
    requires chunk != [] && |hashed| + |chunk| > MAX_ARTIFACT_BYTES
    requires PartPath(a) in files && files[PartPath(a)] == [] && spilled <= hashed
    ensures var full := files[PartPath(a) := spilled];
            After(t, a, start, more).files == if removable then Without(full, PartPath(a)) else full
  {
    hide After;
    more := Next(t, a, start, moves, Arrive(chunk));
    assert hashed[..|spilled|] == spilled;
    more := Next(t, a, start, more, Spill(|spilled|));
    more := Next(t, a, start, more, Oversize(removable));
  }

  lemma WriteFails(
    t: Tools, a: Artifact, start: State, moves: seq<Move>, hashed: seq<byte>, files: map<string, seq<byte>>,
    chunk: seq<byte>, spilled: seq<byte>
  )
    returns (more: seq<Move>)
    requires After(t, a, start, moves) == State(Receiving, hashed, hashed, files)
    requires chunk != [] && |hashed| + |chunk| <= MAX_ARTIFACT_BYTES
    requires PartPath(a) in files && files[PartPath(a)] == [] && spilled <= hashed
    ensures After(t, a, start, more).files == files[PartPath(a) := spilled]
  {
    hide After;
    more := Next(t, a, start, moves, Arrive(chunk));
    more := Next(t, a, start, more, Hash);
    assert hashed[..|spilled|] == spilled;
    more := Next(t, a, start, more, Spill(|spilled|));
    more := Next(t, a, start, more, Stop);
  }

  /** The writer empties what it can of its buffer when the download is given up. */
  lemma DropMoves(
    t: Tools, a: Artifact, start: State, moves: seq<Move>, hashed: seq<byte>, files: map<string, seq<byte>>,
    spilled: seq<byte>
  )
    returns (more: seq<Move>)
    requires After(t, a, start, moves) == State(Receiving, hashed, hashed, files)
    requires PartPath(a) in files && files[PartPath(a)] == [] && spilled <= hashed
    ensures After(t, a, start, more).files == files[PartPath(a) := spilled]
  {
    hide After;
    assert hashed[..|spilled|] == spilled;
    more := Next(t, a, start, moves, Spill(|spilled|));
    more := Next(t, a, start, more, Stop);
  }

  lemma EndMoves(
    t: Tools, a: Artifact, start: State, moves: seq<Move>, hashed: seq<byte>, files: map<string, seq<byte>>,
    removable: bool, renamable: bool
  )
    returns (more: seq<Move>)
    requires After(t, a, start, moves) == State(Receiving, hashed, hashed, files)
    ensures var full := files[PartPath(a) := hashed];
            After(t, a, start, more).files
            == if Matches(t, a, hashed) then
                 if renamable then Without(full, PartPath(a))[FinalPath(a) := hashed] else full
               else if removable then Without(full, PartPath(a)) else full
  {
    hide After, Matches;
    more := Next(t, a, start, moves, Finish);
    more := Next(t, a, start, more, Compare(removable));
    if Matches(t, a, hashed) {
      if renamable {
        more := Next(t, a, start, more, Rename);
      } else {
        more := Next(t, a, start, more, Stop);
      }
    }
  }

  lemma Next(t: Tools, a: Artifact, start: State, moves: seq<Move>, m: Move) returns (more: seq<Move>)
    requires Enabled(t, a, After(t, a, start, moves), m)
    ensures After(t, a, start, more) == Apply(t, a, After(t, a, start, moves), m)
  {
    hide Enabled, Apply;
    more := moves + [m];
    assert more[..|more| - 1] == moves;
  }

  lemma FlatPrefix(rows: seq<seq<byte>>, k: nat)
    requires k < |rows|
    ensures Flat(rows[..k + 1]) == Flat(rows[..k]) + rows[k]
  {
    assert rows[..k + 1][..k] == rows[..k];
  }

  lemma {:induction false} FlatGrows(rows: seq<seq<byte>>, k: nat)
    requires k <= |rows|
    ensures |Flat(rows[..k])| <= |Flat(rows)|
    decreases |rows| - k
  {
    if k == |rows| {
      assert rows[..k] == rows;
    } else {
      FlatPrefix(rows, k);
      FlatGrows(rows, k + 1);
    }
  }
}
