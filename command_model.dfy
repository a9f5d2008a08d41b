/** The shell commands as values: each command is a function from the volume
    to its new state and its outcome, built from the engine functions, and
    the lemmas state what each command guarantees. */
module CommandModel {
  import opened Outcomes
  import opened Search
  import opened Layout
  import opened Fat
  import opened Records
  import opened Paths
  import opened DiskModel

  /** The allocation half shared by copy and move: read the source contents
      by its size, write them from the first FREE cluster, then add a record
      for them to directory cluster `dir`. */
  function CopyInto(d: Disk, e: Entry, dir: int, name: NameField): (r: Step)
    requires Valid(d)
    ensures Valid(r.disk)
  {
    match ReadFile(d, e.firstCluster, e.size)
    case Err(err) => Step(d, Fail(err))
    case Ok(bytes) =>
      match FirstFree(d.fat1)
      case None => Step(d, Fail(NoSpace))
      case Some(k) =>
        var w := WriteFile(d, k, bytes);
        if w.outcome.Fail? then Step(w.disk, w.outcome)
        else WriteDirectoryEntry(w.disk, dir, Entry(name, e.size, k, e.isDirectory))
  }

  /** CopyFile (`cp`). */
  function CopyFile(d: Disk, src: string, dest: string): (r: Step)
    requires Valid(d)
    ensures Valid(r.disk)
  {
    match ParsePath(d, src, true)
    case Err(_) => Step(d, Fail(PathNotFound))
    case Ok(s) =>
      match FindEntry(d, s.name, s.cluster)
      case Err(_) => Step(d, Fail(FileNotFound))
      case Ok(e) =>
        if e.isDirectory == 1 then Step(d, Fail(IsADirectory))
        else match ParsePath(d, dest, true)
          case Err(_) => Step(d, Fail(PathNotFound))
          case Ok(t) =>
            if NameTaken(d, t.cluster, t.name) then Step(d, Fail(AlreadyExists))
            else CopyInto(d, e, t.cluster, NameOf(t.name))
  }

  /** MoveFile (`mv`). A source path that does not resolve is reported and
      the command goes on with cluster -1 and the empty name. A destination
      name that is absent means a rename into the destination's directory;
      an existing destination must be a directory, and the record then goes
      into it under the whole source argument as its name. The source record
      is removed last. */
  function MoveFile(d: Disk, src: string, dest: string): (r: Step)
    requires Valid(d)
    ensures Valid(r.disk)
  {
    var s := match ParsePath(d, src, true) case Ok(l) => l case Err(_) => Located(-1, "");
    match FindEntry(d, s.name, s.cluster)
    case Err(_) => Step(d, Fail(FileNotFound))
    case Ok(e) =>
      if e.isDirectory == 1 then Step(d, Fail(IsADirectory))
      else match ParsePath(d, dest, true)
        case Err(_) => Step(d, Fail(PathNotFound))
        case Ok(t) =>
          var found := FindEntry(d, t.name, t.cluster);
          if found.Ok? && found.value.isDirectory != 1 then Step(d, Fail(NotADirectory))
          else
            var target := if found.Err? then t.cluster else found.value.firstCluster;
            var name := if found.Err? then NameOf(t.name) else NameOf(src);
            var c := CopyInto(d, e, target, name);
            if c.outcome.Fail? then c
            else RemoveDirectoryEntry(c.disk, s.cluster, s.name)
  }

  /** RemoveFile (`rm`): a zero record found by its (empty) name counts as
      missing. */
  function RemoveFile(d: Disk, file: string): (r: Step)
    requires Valid(d)
    ensures Valid(r.disk)
  {
    match ParsePath(d, file, true)
    case Err(_) => Step(d, Fail(PathNotFound))
    case Ok(l) =>
      match FindEntry(d, l.name, l.cluster)
      case Err(_) => Step(d, Fail(FileNotFound))
      case Ok(e) =>
        if IsZero(e) then Step(d, Fail(FileNotFound))
        else RemoveDirectoryEntry(d, l.cluster, l.name)
  }

  /** RemoveDirectory (`rmdir`). */
  function RemoveDirectory(d: Disk, dir: string): (r: Step)
    requires Valid(d)
    ensures Valid(r.disk)
  {
    match ParsePath(d, dir, true)
    case Err(_) => Step(d, Fail(PathNotFound))
    case Ok(l) => RemoveDirectoryEntry(d, l.cluster, l.name)
  }

  /** The traversal of ChangePath from component `i` on: `.` and empty
      components are skipped, `..` goes to the parent through slot 1, and
      any other name must be a directory record of the current cluster. */
  function Descend(d: Disk, comps: seq<string>, i: nat, cur: int): Result<int>
    decreases |comps| - i
  {
    if i >= |comps| then Ok(cur)
    else if comps[i] == "." || comps[i] == "" then Descend(d, comps, i + 1, cur)
    else if comps[i] == ".." then Descend(d, comps, i + 1, ParentOf(d, cur))
    else if !InVolume(d, cur) then Err(VolumeIoError)
    else match FindDirNamed(SlotsAt(d, cur), comps[i])
      case None => Err(PathNotFound)
      case Some(k) => Descend(d, comps, i + 1, SlotsAt(d, cur)[k].firstCluster)
  }

  /** ChangePath (`cd`). `/` alone goes to the root; otherwise one leading
      '/' is dropped and the walk starts from the current cluster either way.
      On success the cursor moves and the path is edited by the argument. */
  function ChangePath(d: Disk, path: string): (r: Step)
    requires Valid(d) && path != ""
    ensures Valid(r.disk)
  {
    if path == "/" then Step(d.(cursor := Root(d.format), path := "/"), Pass)
    else
      ChangeBy(d, if path[0] == SLASH then path[1..] else path)
  }

  /** The walk of ChangePath for the argument `p` once any leading '/' is
      dropped. */
  function ChangeBy(d: Disk, p: string): (r: Step)
    requires Valid(d)
    ensures Valid(r.disk)
  {
    match Descend(d, Split(p), 0, d.cursor)
    case Err(err) => Step(d, Fail(err))
    case Ok(c) =>
      NextPathKeepsShape(d.path, p);
      Step(d.(cursor := c, path := NextPath(d.path, p)), Pass)
  }

  /** What `info` reports: the clusters listed, in order, and the outcome. */
  datatype Listing = Listing(clusters: seq<int>, outcome: Outcome)

  /** The chain listing of `info` from `first`: every cluster printed before
      END. A value that is not an index is printed and then fails to read;
      a walk longer than the table has entries is cut off as a corrupted
      chain. */
  function ChainListing(t: seq<int>, first: int): Listing {
    var w := ChainFrom(t, first, |t|);
    match w.stop
    case AtEnd => Listing(w.clusters, Pass)
    case Stray(at) => Listing(w.clusters + [at], Fail(VolumeIoError))
    case OutOfFuel => Listing(w.clusters, Fail(CorruptedChain))
  }

  /** `info` on a record whose first cluster is linked to FREE or BAD lists
      that cluster and the sentinel, then reports the failed table read. */
  lemma ChainListingAtSentinel(t: seq<int>, c: int)
    requires 0 <= c < |t| && (t[c] == FREE || t[c] == BAD)
    ensures ChainListing(t, c) == Listing([c, t[c]], Fail(VolumeIoError))
  {
    ChainFromStopsAtSentinel(t, c, |t|);
  }

  /** Where the chain loop of PrintInformation stops, the listing it reports
      is the one ChainListing gives. */
  lemma ChainListingStops(t: seq<int>, first: int, listed: seq<int>, cur: int, fuel: nat)
    requires Walking(t, first, listed, cur, fuel)
    ensures cur == END ==> ChainListing(t, first) == Listing(listed, Pass)
    ensures cur != END && !(0 <= cur < |t|) ==>
      ChainListing(t, first) == Listing(listed + [cur], Fail(VolumeIoError))
    ensures cur != END && 0 <= cur < |t| && fuel == 0 ==>
      ChainListing(t, first) == Listing(listed, Fail(CorruptedChain))
  {
    WalkingStops(t, first, listed, cur, fuel);
  }

  /** PrintInformation (`info`). */
  function PrintInformation(d: Disk, src: string): Listing {
    match ParsePath(d, src, true)
    case Err(_) => Listing([], Fail(PathNotFound))
    case Ok(l) =>
      match FindEntry(d, l.name, l.cluster)
      case Err(err) => Listing([], Fail(err))
      case Ok(e) => ChainListing(d.fat1, e.firstCluster)
  }

  /** The first cluster BugTest marks: that of the first non-zero record
      answering to `name`, -1 when there is none. */
  function BugStart(d: Disk, c: int, name: string): int
    requires InVolume(d, c)
  {
    match FindLiveNamed(SlotsAt(d, c), name)
    case None => -1
    case Some(k) => SlotsAt(d, c)[k].firstCluster
  }

  /** BugTest (`bug`): the table entry of the file's first cluster becomes
      BAD in both copies. A first cluster of -1 reads as "not found". */
  function BugTest(d: Disk, file: string): (r: Step)
    requires Valid(d)
    ensures Valid(r.disk)
  {
    match ParsePath(d, file, true)
    case Err(err) => Step(d, Fail(err))
    case Ok(l) =>
      BugTestIn(d, l.cluster, l.name)
  }

  /** BugTest once the file's directory cluster and name are known. */
  function BugTestIn(d: Disk, c: int, name: string): (r: Step)
    requires Valid(d)
    ensures Valid(r.disk)
  {
    if !InVolume(d, c) then Step(d, Fail(VolumeIoError))
    else
      var start := BugStart(d, c, name);
      if start == -1 then Step(d, Fail(FileNotFound))
      else UpdateFatEntry(d, start, BAD)
  }

  /** CheckForBugs (`check`): the indices where either copy holds BAD. */
  function CheckForBugs(d: Disk): (r: seq<int>)
    requires Valid(d)
    ensures forall k :: 0 <= k < |r| ==> 0 <= r[k] < |d.fat1| && (d.fat1[r[k]] == BAD || d.fat2[r[k]] == BAD)
    ensures forall i :: 0 <= i < |d.fat1| && (d.fat1[i] == BAD || d.fat2[i] == BAD) ==> i in r
    ensures forall j, k :: 0 <= j < k < |r| ==> r[j] < r[k]
  {
    BadClustersComplete(d.fat1, d.fat2);
    BadClusters(d.fat1, d.fat2)
  }

  // ---------------------------------------------------------------- copy

  /** Every refusal of `cp` comes before any allocation or write. */
  lemma CopyFileRejects(d: Disk, src: string, dest: string)
    requires Valid(d)
    ensures var r := CopyFile(d, src, dest);
      && (ParsePath(d, src, true).Err? ==> r == Step(d, Fail(PathNotFound)))
      && (ParsePath(d, src, true).Ok? ==>
            var s := ParsePath(d, src, true).value;
            && (FindEntry(d, s.name, s.cluster).Err? ==> r == Step(d, Fail(FileNotFound)))
            && (FindEntry(d, s.name, s.cluster).Ok? && FindEntry(d, s.name, s.cluster).value.isDirectory == 1 ==>
                  r == Step(d, Fail(IsADirectory)))
            && (FindEntry(d, s.name, s.cluster).Ok? && FindEntry(d, s.name, s.cluster).value.isDirectory != 1 ==>
                  && (ParsePath(d, dest, true).Err? ==> r == Step(d, Fail(PathNotFound)))
                  && (ParsePath(d, dest, true).Ok? ==>
                        var t := ParsePath(d, dest, true).value;
                        r == if NameTaken(d, t.cluster, t.name) then Step(d, Fail(AlreadyExists))
                             else CopyInto(d, FindEntry(d, s.name, s.cluster).value, t.cluster, NameOf(t.name)))))
  {
  }

  /** A completed copy into an allocated directory cluster: the contents
      were written from the first FREE cluster and read back as they were
      read from the source, and the directory has gained, in its first zero
      slot, a record with the given name, the source's size and directory
      flag, and that cluster. */
  lemma CopyIntoMakes(d: Disk, e: Entry, dir: int, name: NameField)
    requires Valid(d) && CopyInto(d, e, dir, name).outcome == Pass
    requires InVolume(d, dir) && d.fat1[dir] != FREE
    ensures ReadFile(d, e.firstCluster, e.size).Ok? && FirstFree(d.fat1).Some?
    ensures var r := CopyInto(d, e, dir, name);
      var bytes := ReadFile(d, e.firstCluster, e.size).value;
      var k := FirstFree(d.fat1).value;
      var slots := SlotsAt(d, dir);
      && FindZero(slots).Some?
      && SlotsAt(r.disk, dir) == slots[FindZero(slots).value := Entry(name, e.size, k, e.isDirectory)]
      && ReadFile(r.disk, k, |bytes|) == Ok(bytes)
  {
    CopyIntoDirectory(d, e, dir, name);
    CopyIntoReadBack(d, e, dir, name);
  }

  /** A completed CopyInto is the write of the bytes read from the source
      into the first FREE cluster, then the record written into `dir`. */
  lemma CopyIntoStep(d: Disk, e: Entry, dir: int, name: NameField)
    requires Valid(d) && CopyInto(d, e, dir, name).outcome == Pass
    ensures ReadFile(d, e.firstCluster, e.size).Ok? && FirstFree(d.fat1).Some?
    ensures var bytes := ReadFile(d, e.firstCluster, e.size).value;
      var k := FirstFree(d.fat1).value;
      var w := WriteFile(d, k, bytes);
      && w.outcome == Pass
      && CopyInto(d, e, dir, name) == WriteDirectoryEntry(w.disk, dir, Entry(name, e.size, k, e.isDirectory))
  {
    var read := ReadFile(d, e.firstCluster, e.size);
    var free := FirstFree(d.fat1);
    assert read.Ok?;
    assert free.Some?;
    var w := WriteFile(d, free.value, read.value);
    var entry := Entry(name, e.size, free.value, e.isDirectory);
    assert CopyInto(d, e, dir, name) ==
      if w.outcome.Fail? then Step(w.disk, w.outcome) else WriteDirectoryEntry(w.disk, dir, entry);
  }

  /** The record lands in the first zero slot of `dir`, which the write of
      the bytes left alone. */
  lemma CopyIntoDirectory(d: Disk, e: Entry, dir: int, name: NameField)
    requires Valid(d) && CopyInto(d, e, dir, name).outcome == Pass
    requires InVolume(d, dir) && d.fat1[dir] != FREE
    ensures ReadFile(d, e.firstCluster, e.size).Ok? && FirstFree(d.fat1).Some?
    ensures var r := CopyInto(d, e, dir, name);
      var k := FirstFree(d.fat1).value;
      var slots := SlotsAt(d, dir);
      && FindZero(slots).Some?
      && SlotsAt(r.disk, dir) == slots[FindZero(slots).value := Entry(name, e.size, k, e.isDirectory)]
  {
    CopyIntoStep(d, e, dir, name);
    var bytes := ReadFile(d, e.firstCluster, e.size).value;
    var k := FirstFree(d.fat1).value;
    var w := WriteFile(d, k, bytes);
    var entry := Entry(name, e.size, k, e.isDirectory);
    assert dir != k;
    WriteFileKeeps(d, k, bytes, dir);
    WriteDirectoryEntryEffect(w.disk, dir, entry);
  }

  /** The new cluster reads back the bytes that were copied. */
  lemma CopyIntoReadBack(d: Disk, e: Entry, dir: int, name: NameField)
    requires Valid(d) && CopyInto(d, e, dir, name).outcome == Pass
    requires InVolume(d, dir) && d.fat1[dir] != FREE
    ensures ReadFile(d, e.firstCluster, e.size).Ok? && FirstFree(d.fat1).Some?
    ensures var r := CopyInto(d, e, dir, name);
      var bytes := ReadFile(d, e.firstCluster, e.size).value;
      ReadFile(r.disk, FirstFree(d.fat1).value, |bytes|) == Ok(bytes)
  {
    CopyIntoStep(d, e, dir, name);
    var bytes := ReadFile(d, e.firstCluster, e.size).value;
    var k := FirstFree(d.fat1).value;
    var w := WriteFile(d, k, bytes);
    var entry := Entry(name, e.size, k, e.isDirectory);
    WriteDirectoryEntryEffect(w.disk, dir, entry);
    var r := WriteDirectoryEntry(w.disk, dir, entry);
    if |bytes| > 0 {
      assert dir != k;
      WriteFileKeeps(d, k, bytes, dir);
      WriteThenRead(d, k, bytes);
      WriteFileChain(d, k, bytes);
      WriteFileUses(d, k, bytes);
      forall j | 0 <= j < |w.used|
        ensures BytesAt(r.disk, w.used[j]) == BytesAt(w.disk, w.used[j])
      {
        assert w.used[j] != dir;
      }
      assert w.used[0] == k;
      ReadChainFrame(w.disk, r.disk, w.used, |bytes|);
    }
  }

  /** `cp` gives the new record the source's size and directory flag and
      the first FREE cluster, and the copy reads back as the source read. */
  lemma CopyFileMakes(d: Disk, src: string, dest: string)
    requires Valid(d) && CopyFile(d, src, dest).outcome == Pass
    ensures ParsePath(d, src, true).Ok? && ParsePath(d, dest, true).Ok?
    ensures var s := ParsePath(d, src, true).value;
      var t := ParsePath(d, dest, true).value;
      && FindEntry(d, s.name, s.cluster).Ok?
      && var e := FindEntry(d, s.name, s.cluster).value;
      && e.isDirectory != 1 && !NameTaken(d, t.cluster, t.name)
      && CopyFile(d, src, dest) == CopyInto(d, e, t.cluster, NameOf(t.name))
      && (InVolume(d, t.cluster) && d.fat1[t.cluster] != FREE ==>
            var bytes := ReadFile(d, e.firstCluster, e.size).value;
            var k := FirstFree(d.fat1).value;
            var slots := SlotsAt(d, t.cluster);
            && FindZero(slots).Some?
            && SlotsAt(CopyFile(d, src, dest).disk, t.cluster)
                 == slots[FindZero(slots).value := Entry(NameOf(t.name), e.size, k, e.isDirectory)]
            && ReadFile(CopyFile(d, src, dest).disk, k, |bytes|) == Ok(bytes))
  {
    CopyFileRejects(d, src, dest);
    var s := ParsePath(d, src, true).value;
    var t := ParsePath(d, dest, true).value;
    var e := FindEntry(d, s.name, s.cluster).value;
    if InVolume(d, t.cluster) && d.fat1[t.cluster] != FREE {
      CopyIntoMakes(d, e, t.cluster, NameOf(t.name));
    }
  }

  // ---------------------------------------------------------------- move

  /** The refusals of `mv` change nothing; in particular an existing
      destination that is not a directory is refused. */
  lemma MoveFileRejects(d: Disk, src: string, dest: string)
    requires Valid(d)
    ensures var r := MoveFile(d, src, dest);
      var s := match ParsePath(d, src, true) case Ok(l) => l case Err(_) => Located(-1, "");
      && (FindEntry(d, s.name, s.cluster).Err? ==> r == Step(d, Fail(FileNotFound)))
      && (FindEntry(d, s.name, s.cluster).Ok? ==>
            var e := FindEntry(d, s.name, s.cluster).value;
            && (e.isDirectory == 1 ==> r == Step(d, Fail(IsADirectory)))
            && (e.isDirectory != 1 && ParsePath(d, dest, true).Err? ==> r == Step(d, Fail(PathNotFound)))
            && (e.isDirectory != 1 && ParsePath(d, dest, true).Ok? ==>
                  var t := ParsePath(d, dest, true).value;
                  FindEntry(d, t.name, t.cluster).Ok? && FindEntry(d, t.name, t.cluster).value.isDirectory != 1 ==>
                    r == Step(d, Fail(NotADirectory))))
  {
  }

  /** An unresolvable source path is not an error of its own: the lookup
      that follows runs on cluster -1 and reports the file missing. */
  lemma MoveFromBadPath(d: Disk, src: string, dest: string)
    requires Valid(d) && ParsePath(d, src, true).Err?
    ensures MoveFile(d, src, dest) == Step(d, Fail(FileNotFound))
  {
  }

  /** A rename (absent destination name): the record, named after the
      destination, goes into the destination's directory with the copied
      contents, and then the source record is removed. */
  lemma MoveFileRenames(d: Disk, src: string, dest: string)
    requires Valid(d) && MoveFile(d, src, dest).outcome == Pass
    requires ParsePath(d, dest, true).Ok?
    requires var t := ParsePath(d, dest, true).value; FindEntry(d, t.name, t.cluster).Err?
    ensures var s := match ParsePath(d, src, true) case Ok(l) => l case Err(_) => Located(-1, "");
      var t := ParsePath(d, dest, true).value;
      && FindEntry(d, s.name, s.cluster).Ok?
      && var e := FindEntry(d, s.name, s.cluster).value;
      && var c := CopyInto(d, e, t.cluster, NameOf(t.name));
      && c.outcome == Pass
      && MoveFile(d, src, dest) == RemoveDirectoryEntry(c.disk, s.cluster, s.name)
      && (InVolume(d, t.cluster) && d.fat1[t.cluster] != FREE ==>
            var slots := SlotsAt(d, t.cluster);
            && FindZero(slots).Some?
            && SlotsAt(c.disk, t.cluster)
                 == slots[FindZero(slots).value := Entry(NameOf(t.name), e.size, FirstFree(d.fat1).value, e.isDirectory)])
  {
    MoveFileRejects(d, src, dest);
    var s := match ParsePath(d, src, true) case Ok(l) => l case Err(_) => Located(-1, "");
    var t := ParsePath(d, dest, true).value;
    var e := FindEntry(d, s.name, s.cluster).value;
    assert MoveFile(d, src, dest) == (var c := CopyInto(d, e, t.cluster, NameOf(t.name));
      if c.outcome.Fail? then c else RemoveDirectoryEntry(c.disk, s.cluster, s.name));
    if InVolume(d, t.cluster) && d.fat1[t.cluster] != FREE {
      CopyIntoMakes(d, e, t.cluster, NameOf(t.name));
    }
  }

  /** A move into an existing directory names the new record after the
      whole source argument, so `mv a/f d` files the record as "a/f". */
  lemma MoveIntoDirectoryKeepsSourceArgument(d: Disk, src: string, dest: string)
    requires Valid(d) && MoveFile(d, src, dest).outcome == Pass
    requires ParsePath(d, dest, true).Ok?
    requires var t := ParsePath(d, dest, true).value; FindEntry(d, t.name, t.cluster).Ok?
    ensures var s := match ParsePath(d, src, true) case Ok(l) => l case Err(_) => Located(-1, "");
      var t := ParsePath(d, dest, true).value;
      var target := FindEntry(d, t.name, t.cluster).value;
      && target.isDirectory == 1
      && FindEntry(d, s.name, s.cluster).Ok?
      && var e := FindEntry(d, s.name, s.cluster).value;
      && var c := CopyInto(d, e, target.firstCluster, NameOf(src));
      && c.outcome == Pass
      && MoveFile(d, src, dest) == RemoveDirectoryEntry(c.disk, s.cluster, s.name)
  {
    MoveFileRejects(d, src, dest);
  }

  // -------------------------------------------------------------- remove

  lemma RemoveFileRejects(d: Disk, file: string)
    requires Valid(d)
    ensures var r := RemoveFile(d, file);
      && (ParsePath(d, file, true).Err? ==> r == Step(d, Fail(PathNotFound)))
      && (ParsePath(d, file, true).Ok? ==>
            var l := ParsePath(d, file, true).value;
            && (FindEntry(d, l.name, l.cluster).Err? ==> r == Step(d, Fail(FileNotFound)))
            && (FindEntry(d, l.name, l.cluster).Ok? && IsZero(FindEntry(d, l.name, l.cluster).value) ==>
                  r == Step(d, Fail(FileNotFound))))
  {
  }

  /** `rm` of a file whose clusters form a well-formed chain succeeds, frees
      exactly that chain in both copies, zeroes exactly its record and
      changes no other cluster. */
  lemma RemoveFileFreesChain(d: Disk, file: string, chain: seq<int>)
    requires Valid(d) && ParsePath(d, file, true).Ok?
    requires var l := ParsePath(d, file, true).value;
      && l.name != "." && l.name != ".." && l.name != "/"
      && FindEntry(d, l.name, l.cluster).Ok?
      && var e := FindEntry(d, l.name, l.cluster).value;
      && !IsZero(e) && e.isDirectory != 1
      && IsChain(d.fat1, chain) && chain[0] == e.firstCluster
    ensures var l := ParsePath(d, file, true).value;
      var r := RemoveFile(d, file);
      var k := FindNamed(SlotsAt(d, l.cluster), l.name).value;
      && r.outcome == Pass
      && (forall i :: 0 <= i < |d.fat1| ==>
            r.disk.fat1[i] == (if i in chain then FREE else d.fat1[i])
            && r.disk.fat2[i] == (if i in chain then FREE else d.fat2[i]))
      && SlotsAt(r.disk, l.cluster) == SlotsAt(d, l.cluster)[k := ZERO_ENTRY]
      && (forall x :: x != l.cluster ==> SlotsAt(r.disk, x) == SlotsAt(d, x) && BytesAt(r.disk, x) == BytesAt(d, x))
  {
    var l := ParsePath(d, file, true).value;
    var k := FindNamed(SlotsAt(d, l.cluster), l.name).value;
    RemoveGuards(d, l.cluster, l.name);
    assert RemoveFile(d, file) == RemoveSlot(d, l.cluster, k);
    RemoveFreesChain(d, l.cluster, k, chain);
    RemoveFrees(d, l.cluster, k);
  }

  /** `rmdir` of a directory that still holds a record other than `.` and
      `..` is refused before anything changes. */
  lemma RemoveDirectoryRefusesNonEmpty(d: Disk, dir: string)
    requires Valid(d) && ParsePath(d, dir, true).Ok?
    requires var l := ParsePath(d, dir, true).value;
      && l.name != "." && l.name != ".." && l.name != "/"
      && InVolume(d, l.cluster) && FindNamed(SlotsAt(d, l.cluster), l.name).Some?
      && var e := SlotsAt(d, l.cluster)[FindNamed(SlotsAt(d, l.cluster), l.name).value];
      && e.isDirectory == 1 && InVolume(d, e.firstCluster)
      && FindOccupant(SlotsAt(d, e.firstCluster)).Some?
    ensures RemoveDirectory(d, dir) == Step(d, Fail(NotEmpty))
  {
    var l := ParsePath(d, dir, true).value;
    RemoveGuards(d, l.cluster, l.name);
  }

  // ------------------------------------------------------------------- cd

  lemma ChangeToRoot(d: Disk)
    requires Valid(d)
    ensures ChangePath(d, "/") == Step(d.(cursor := Root(d.format), path := "/"), Pass)
  {
  }

  /** A failed `cd` leaves cursor, path and volume as they were. */
  lemma ChangePathFailureKeepsState(d: Disk, path: string)
    requires Valid(d) && path != "" && ChangePath(d, path).outcome.Fail?
    ensures ChangePath(d, path).disk == d
  {
  }

  /** A path with a leading '/' walks from the current cluster exactly as
      the same path without it: it is not resolved from the root. */
  lemma LeadingSlashIsRelative(d: Disk, q: string)
    requires Valid(d) && q != "" && q[0] != SLASH
    ensures ChangePath(d, [SLASH] + q) == ChangePath(d, q)
  {
    assert ([SLASH] + q)[1..] == q;
  }

  /** `cd name` for a single name descends only into the first directory
      record with that name; it appends the name to the path. */
  lemma ChangePathOneStep(d: Disk, name: string)
    requires Valid(d) && NoSlash(name) && name != "" && name != "." && name != ".."
    ensures var r := ChangePath(d, name);
      && (r.outcome == Pass <==> InVolume(d, d.cursor) && FindDirNamed(SlotsAt(d, d.cursor), name).Some?)
      && (r.outcome == Pass ==>
            var e := SlotsAt(d, d.cursor)[FindDirNamed(SlotsAt(d, d.cursor), name).value];
            && e.isDirectory == 1
            && r.disk == d.(cursor := e.firstCluster, path := d.path + name + "/"))
  {
    assert name[0] != SLASH && name != "/";
    SplitSingle(name);
    var r := ChangePath(d, name);
    assert r == match Descend(d, [name], 0, d.cursor)
      case Err(err) => Step(d, Fail(err))
      case Ok(c) => Step(d.(cursor := c, path := NextPath(d.path, name)), Pass);
    assert NextPath(d.path, name) == d.path + name + "/";
    if InVolume(d, d.cursor) {
      var slots := SlotsAt(d, d.cursor);
      match FindDirNamed(slots, name)
      case None =>
        assert Descend(d, [name], 0, d.cursor) == Err(PathNotFound);
      case Some(k) =>
        assert Descend(d, [name], 1, slots[k].firstCluster) == Ok(slots[k].firstCluster);
        assert Descend(d, [name], 0, d.cursor) == Ok(slots[k].firstCluster);
    } else {
      assert Descend(d, [name], 0, d.cursor) == Err(VolumeIoError);
    }
  }

  /** A successful `cd` into a directory whose `..` names the starting
      cluster is undone by `cd ..`: cursor and path come back. */
  lemma ChangePathThenBack(d: Disk, name: string)
    requires Valid(d) && NoSlash(name) && name != "" && name != "." && name != ".."
    requires ChangePath(d, name).outcome == Pass
    requires var r := ChangePath(d, name).disk; ParentOf(r, r.cursor) == d.cursor
    ensures ChangePath(ChangePath(d, name).disk, "..") == Step(d, Pass)
  {
    ChangePathOneStep(d, name);
    var r := ChangePath(d, name).disk;
    assert r == d.(cursor := r.cursor, path := d.path + name + "/");
    ChangeUp(r);
    EnterThenLeave(d.path, name);
  }

  /** `cd ..` moves to the parent recorded in slot 1 and drops the last
      name from the path. */
  lemma ChangeUp(d: Disk)
    requires Valid(d)
    ensures ChangePath(d, "..") == Step(d.(cursor := ParentOf(d, d.cursor), path := NextPath(d.path, "..")), Pass)
  {
    SplitSingle("..");
    assert Descend(d, [".."], 1, ParentOf(d, d.cursor)) == Ok(ParentOf(d, d.cursor));
    assert Descend(d, [".."], 0, d.cursor) == Ok(ParentOf(d, d.cursor));
    assert ChangePath(d, "..") == ChangeBy(d, "..");
  }


  // ----------------------------------------------------------------- info

  /** `info` on a record whose clusters form a well-formed chain lists
      exactly that chain and succeeds. */
  lemma InformationListsChain(d: Disk, src: string, chain: seq<int>)
    requires ParsePath(d, src, true).Ok?
    requires var l := ParsePath(d, src, true).value;
      FindEntry(d, l.name, l.cluster).Ok?
      && IsChain(d.fat1, chain) && chain[0] == FindEntry(d, l.name, l.cluster).value.firstCluster
    ensures PrintInformation(d, src) == Listing(chain, Pass)
  {
    ClusterCountIsEnoughFuel(d.fat1, chain);
  }

  /** What `info` lists is a path through the table that never shows END:
      each listed cluster but the last names the next one. */
  lemma ListingFollowsTable(t: seq<int>, first: int)
    ensures var li := ChainListing(t, first);
      && END !in li.clusters
      && (|li.clusters| > 0 ==> li.clusters[0] == first)
      && (forall k :: 0 <= k < |li.clusters| - 1 ==> 0 <= li.clusters[k] < |t| && t[li.clusters[k]] == li.clusters[k + 1])
      && (li.outcome == Pass ==> |li.clusters| <= |t|)
  {
  }

  // ------------------------------------------------------------------ bug

  /** `bug` on a file found among the non-zero records marks its first
      cluster BAD in both copies and changes nothing else, the records
      included; `check` then reports that cluster exactly once. */
  lemma BugTestMarks(d: Disk, file: string, l: Located)
    requires Valid(d) && ParsePath(d, file, true) == Ok(l)
    requires InVolume(d, l.cluster) && FindLiveNamed(SlotsAt(d, l.cluster), l.name).Some?
    requires InVolume(d, BugStart(d, l.cluster, l.name))
    ensures var c := BugStart(d, l.cluster, l.name);
      var r := BugTest(d, file);
      && r == Step(d.(fat1 := d.fat1[c := BAD], fat2 := d.fat2[c := BAD]), Pass)
      && r.disk.clusters == d.clusters
      && var bad := CheckForBugs(r.disk);
      && exists k :: 0 <= k < |bad| && bad[k] == c && forall j :: 0 <= j < |bad| && j != k ==> bad[j] != c
  {
    var c := BugStart(d, l.cluster, l.name);
    assert BugTest(d, file) == BugTestIn(d, l.cluster, l.name);
    assert BugTestIn(d, l.cluster, l.name) == Step(SetFat(d, c, BAD), Pass);
    var u := SetFat(d, c, BAD);
    assert CheckForBugs(u) == BadClusters(d.fat1[c := BAD], d.fat2[c := BAD]);
    MarkedClusterReportedOnce(d.fat1, d.fat2, c);
  }


  /** Only non-zero records are looked at: with no such record for the
      name, `bug` reports it missing and changes nothing. */
  lemma BugTestNotFound(d: Disk, file: string)
    requires Valid(d) && ParsePath(d, file, true).Ok?
    requires var l := ParsePath(d, file, true).value;
      InVolume(d, l.cluster) && FindLiveNamed(SlotsAt(d, l.cluster), l.name).None?
    ensures BugTest(d, file) == Step(d, Fail(FileNotFound))
  {
  }
}
