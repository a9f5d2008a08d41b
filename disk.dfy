/** The volume engine as values: the whole state of a formatted volume (the
    superblock, both table copies, the cluster contents and the session
    cursor) and one function per engine operation, giving its new state and
    its outcome. The engine class executes these step by step. */
module DiskModel {
  import opened Outcomes
  import opened Search
  import opened Layout
  import opened Fat
  import opened Records
  import opened Paths

  /** What a cluster holds: directory records or file bytes. */
  datatype Cluster = Dir(slots: seq<Entry>) | File(bytes: seq<byte>)

  /** The volume: the host file seen as its superblock, its two tables and
      its clusters (a cluster never written reads as zeros), together with
      the session's current cluster and current path. */
  datatype Disk = Disk(
    format: FileSystemFormat,
    fat1: seq<int>,
    fat2: seq<int>,
    clusters: map<int, Cluster>,
    cursor: int,
    path: string)

  /** New state and outcome of a state-changing operation. */
  datatype Step = Step(disk: Disk, outcome: Outcome)

  ghost predicate Valid(d: Disk) {
    |d.fat1| == |d.fat2| && PathShape(d.path)
  }

  /** A cluster index inside the volume. */
  predicate InVolume(d: Disk, c: int) {
    0 <= c < |d.fat1|
  }

  function ZeroBytes(): (r: seq<byte>)
    ensures |r| == CLUSTER_SIZE && forall i :: 0 <= i < CLUSTER_SIZE ==> r[i] == 0
  {
    seq(CLUSTER_SIZE, i => 0)
  }

  /** ReadDirectoryEntries' view of cluster `c`: its SLOTS records. */
  function SlotsAt(d: Disk, c: int): (r: seq<Entry>)
    ensures |r| == SLOTS
  {
    if c in d.clusters && d.clusters[c].Dir? && |d.clusters[c].slots| == SLOTS then d.clusters[c].slots
    else ZeroSlots()
  }

  /** The CLUSTER_SIZE bytes of cluster `c`. */
  function BytesAt(d: Disk, c: int): (r: seq<byte>)
    ensures |r| == CLUSTER_SIZE
  {
    if c in d.clusters && d.clusters[c].File? && |d.clusters[c].bytes| == CLUSTER_SIZE then d.clusters[c].bytes
    else ZeroBytes()
  }

  /** Both copies set to `v` at `c`. */
  function SetFat(d: Disk, c: int, v: int): Disk
    requires InVolume(d, c) && |d.fat2| == |d.fat1|
  {
    d.(fat1 := d.fat1[c := v], fat2 := d.fat2[c := v])
  }

  /** UpdateFatEntry. */
  function UpdateFatEntry(d: Disk, c: int, v: int): (r: Step)
    requires Valid(d)
    ensures Valid(r.disk)
    ensures r.outcome == Pass <==> InVolume(d, c)
    ensures r.outcome.Fail? ==> r.disk == d
    // the mirrored write, read back through copy 1
    ensures r.outcome == Pass ==>
      && ReadEntry(r.disk.fat1, c) == Ok(v) && r.disk.fat2[c] == v
      && |r.disk.fat1| == |d.fat1|
      && (forall i :: 0 <= i < |d.fat1| && i != c ==> r.disk.fat1[i] == d.fat1[i] && r.disk.fat2[i] == d.fat2[i])
      && r.disk.clusters == d.clusters && r.disk.cursor == d.cursor && r.disk.path == d.path
  {
    if InVolume(d, c) then Step(SetFat(d, c, v), Pass) else Step(d, Fail(VolumeIoError))
  }

  /** FindFreeCluster: the lowest index whose copy-1 entry is FREE. */
  function FindFreeCluster(d: Disk): Option<nat> {
    FirstFree(d.fat1)
  }

  /** WriteDirectoryEntry: the entry goes into the first zero slot of `c`. */
  function WriteDirectoryEntry(d: Disk, c: int, e: Entry): Step {
    if !InVolume(d, c) then Step(d, Fail(VolumeIoError))
    else match FindZero(SlotsAt(d, c))
      case None => Step(d, Fail(NoEmptySlot))
      case Some(k) => Step(d.(clusters := d.clusters[c := Dir(SlotsAt(d, c)[k := e])]), Pass)
  }

  /** The entry lands in the first zero slot, every other slot and cluster and
      the tables are unchanged; without a zero slot nothing is written. */
  lemma WriteDirectoryEntryEffect(d: Disk, c: int, e: Entry)
    ensures var r := WriteDirectoryEntry(d, c, e);
      && (r.outcome == Pass <==> InVolume(d, c) && exists j :: 0 <= j < SLOTS && IsZero(SlotsAt(d, c)[j]))
      && (r.outcome.Fail? ==> r.disk == d)
      && (r.outcome == Pass ==>
            var k := FindZero(SlotsAt(d, c)).value;
            && IsZero(SlotsAt(d, c)[k]) && (forall j :: 0 <= j < k ==> !IsZero(SlotsAt(d, c)[j]))
            && SlotsAt(r.disk, c) == SlotsAt(d, c)[k := e]
            && (forall x :: x != c ==> SlotsAt(r.disk, x) == SlotsAt(d, x) && BytesAt(r.disk, x) == BytesAt(d, x))
            && r.disk.fat1 == d.fat1 && r.disk.fat2 == d.fat2)
  {
  }

  /** CheckIfDirectoryExists: a non-zero record of `p` answers to `name`; an
      unreadable cluster counts as "does not exist". */
  function NameTaken(d: Disk, p: int, name: string): bool {
    InVolume(d, p) && FindLiveNamed(SlotsAt(d, p), name).Some?
  }

  /** FindDirectoryCluster: the first cluster of the first record answering
      to `name`, zero records included; -1 when there is none. */
  function FindDirectoryCluster(d: Disk, name: string, p: int): Result<int> {
    if !InVolume(d, p) then Err(VolumeIoError)
    else match FindNamed(SlotsAt(d, p), name)
      case None => Ok(-1)
      case Some(k) => Ok(SlotsAt(d, p)[k].firstCluster)
  }

  /** FindEntry: the first record answering to `name`, zero records included. */
  function FindEntry(d: Disk, name: string, c: int): Result<Entry> {
    if !InVolume(d, c) then Err(VolumeIoError)
    else match FindNamed(SlotsAt(d, c), name)
      case None => Err(FileNotFound)
      case Some(k) => Ok(SlotsAt(d, c)[k])
  }

  /** GetParentCluster: slot 1's first cluster, -1 when unreadable. */
  function ParentOf(d: Disk, c: int): int {
    if InVolume(d, c) then SlotsAt(d, c)[1].firstCluster else -1
  }

  /** SetCurrentAndParentDirectory: `.` and `..` followed by zeros. When both
      clusters are the same the records go to `data_start`, the root. */
  function SetCurrentAndParent(d: Disk, cur: int, parent: int): Disk {
    var at := if cur == parent then Root(d.format) else cur;
    if InVolume(d, at) then d.(clusters := d.clusters[at := Dir(NewDirectory(cur, parent))]) else d
  }

  /** UpdateParentDirectory. With a zero slot, the new record goes there and
      the records are written back packed. Without one, a cluster is
      allocated and linked after the parent and receives the record, and the
      retry on the full parent then fails. */
  function UpdateParentDirectory(d: Disk, p: int, e: Entry): (r: Step)
    requires Valid(d)
    ensures Valid(r.disk) && |r.disk.fat1| == |d.fat1|
  {
    if !InVolume(d, p) then Step(d, Fail(VolumeIoError))
    else
      var slots := SlotsAt(d, p);
      match FindZero(slots)
      case Some(k) =>
        Step(d.(clusters := d.clusters[p := Dir(WriteBack(slots, slots[k := e]))]), Pass)
      case None =>
        match FirstFree(d.fat1)
        case None => Step(d, Fail(NoSpace))
        case Some(n) =>
          var linked := SetFat(d, p, n);
          var s2 := WriteDirectoryEntry(linked, n, e);
          if s2.outcome.Fail? then s2
          else
            var s3 := WriteDirectoryEntry(s2.disk, p, e);
            if s3.outcome.Fail? then s3
            else Step(s3.disk.(clusters := s3.disk.clusters[p := Dir(WriteBack(SlotsAt(s3.disk, p), slots))]), Pass)
  }

  /** A full parent is never extended successfully: the parent is linked to
      the first FREE cluster in both copies, that cluster may receive the
      record, and the retry on the parent finds no zero slot. */
  lemma FullParentFails(d: Disk, p: int, e: Entry)
    requires Valid(d) && InVolume(d, p) && FindZero(SlotsAt(d, p)).None?
    ensures var r := UpdateParentDirectory(d, p, e);
      && r.outcome.Fail?
      && (FirstFree(d.fat1).Some? ==>
            var n := FirstFree(d.fat1).value;
            r.disk.fat1 == d.fat1[p := n] && r.disk.fat2 == d.fat2[p := n])
  {
    var slots := SlotsAt(d, p);
    match FirstFree(d.fat1)
    case None =>
    case Some(n) =>
      var linked := SetFat(d, p, n);
      var s2 := WriteDirectoryEntry(linked, n, e);
      assert s2.disk.fat1 == linked.fat1 && s2.disk.fat2 == linked.fat2;
      if s2.outcome == Pass {
        assert n != p;
        assert SlotsAt(s2.disk, p) == slots;
        assert WriteDirectoryEntry(s2.disk, p, e).outcome.Fail?;
      }
  }

  /** The location ParsePath resolves: a cluster and the final name. */
  datatype Located = Located(cluster: int, name: string)

  /** One ParsePath step per component, from component `i` on. */
  function ParseSteps(d: Disk, comps: seq<string>, i: nat, cur: int, lastEntry: bool): Result<Located>
    decreases |comps| - i
  {
    if i >= |comps| then Ok(Located(cur, ""))
    else
      var c := comps[i];
      if c == "" || c == "." then ParseSteps(d, comps, i + 1, cur, lastEntry)
      else if c == ".." then ParseSteps(d, comps, i + 1, ParentOf(d, cur), lastEntry)
      else if i == |comps| - 1 && lastEntry then Ok(Located(cur, c))
      else
        match FindDirectoryCluster(d, c, cur)
        case Err(e) => Err(e)
        case Ok(next) =>
          if next == -1 then Err(PathNotFound)
          else if i == |comps| - 1 then Ok(Located(next, c))
          else ParseSteps(d, comps, i + 1, next, lastEntry)
  }

  /** The components ParsePath walks: trailing '/' trimmed, then split. */
  function Components(dest: string): seq<string> {
    Split(TrimSlashes(dest))
  }

  /** Where a walk over `comps` starts: the root for an empty first component,
      otherwise the current cluster. */
  function StartOf(d: Disk, comps: seq<string>): int
    requires |comps| > 0
  {
    if comps[0] == "" then Root(d.format) else d.cursor
  }

  /** ParsePath. */
  function ParsePath(d: Disk, dest: string, lastEntry: bool): Result<Located> {
    var comps := Components(dest);
    ParseSteps(d, comps, 0, StartOf(d, comps), lastEntry)
  }

  /** A path starting with '/' (or the empty path) starts at the root,
      anything else at the current cluster. */
  lemma ParseStart(d: Disk, dest: string)
    ensures (dest == "" || dest[0] == SLASH) ==> StartOf(d, Components(dest)) == Root(d.format)
    ensures (dest != "" && dest[0] != SLASH) ==> StartOf(d, Components(dest)) == d.cursor
  {
    var t := TrimSlashes(dest);
    SplitHead(t);
    if dest != "" && dest[0] == SLASH {
      TrimKeepsLeadingSlash(dest);
    }
    if dest != "" && dest[0] != SLASH {
      assert |t| > 0;
    }
  }

  lemma {:induction false} ParseStepsIgnoreCursor(d: Disk, comps: seq<string>, i: nat, cur: int, lastEntry: bool, x: int)
    ensures ParseSteps(d.(cursor := x), comps, i, cur, lastEntry) == ParseSteps(d, comps, i, cur, lastEntry)
    decreases |comps| - i
  {
    var e := d.(cursor := x);
    assert forall c :: SlotsAt(e, c) == SlotsAt(d, c);
    if i < |comps| {
      var c := comps[i];
      if c == "" || c == "." {
        ParseStepsIgnoreCursor(d, comps, i + 1, cur, lastEntry, x);
      } else if c == ".." {
        ParseStepsIgnoreCursor(d, comps, i + 1, ParentOf(d, cur), lastEntry, x);
      } else if FindDirectoryCluster(d, c, cur).Ok? {
        ParseStepsIgnoreCursor(d, comps, i + 1, FindDirectoryCluster(d, c, cur).value, lastEntry, x);
      }
    }
  }

  /** An absolute path resolves the same wherever the cursor is. */
  lemma AbsolutePathIgnoresCursor(d: Disk, dest: string, lastEntry: bool, x: int)
    requires dest != "" && dest[0] == SLASH
    ensures ParsePath(d.(cursor := x), dest, lastEntry) == ParsePath(d, dest, lastEntry)
  {
    ParseStart(d, dest);
    ParseStart(d.(cursor := x), dest);
    ParseStepsIgnoreCursor(d, Components(dest), 0, Root(d.format), lastEntry, x);
  }

  /** Resolving without `lastEntry` is resolving with it and then looking the
      final name up in the cluster found. */
  lemma {:induction false} ParseStepsLast(d: Disk, comps: seq<string>, i: nat, cur: int)
    requires ParseSteps(d, comps, i, cur, true).Ok?
    ensures var loc := ParseSteps(d, comps, i, cur, true).value;
      ParseSteps(d, comps, i, cur, false) ==
        if loc.name == "" then Ok(loc)
        else match FindDirectoryCluster(d, loc.name, loc.cluster)
          case Err(e) => Err(e)
          case Ok(next) => if next == -1 then Err(PathNotFound) else Ok(Located(next, loc.name))
    decreases |comps| - i
  {
    if i < |comps| {
      var c := comps[i];
      if c == "" || c == "." {
        ParseStepsLast(d, comps, i + 1, cur);
      } else if c == ".." {
        ParseStepsLast(d, comps, i + 1, ParentOf(d, cur));
      } else if i < |comps| - 1 {
        ParseStepsLast(d, comps, i + 1, FindDirectoryCluster(d, c, cur).value);
      }
    }
  }

  /** ReadFileContents: up to `remaining` bytes along the chain from `c`,
      whole clusters except the last, stopping early at END. */
  function ReadFile(d: Disk, c: int, remaining: int): (r: Result<seq<byte>>)
    ensures r.Ok? ==> |r.value| <= (if remaining > 0 then remaining else 0)
    // a short read stops at a cluster boundary
    ensures r.Ok? && |r.value| < remaining ==> |r.value| % CLUSTER_SIZE == 0 && |r.value| > 0
    decreases if remaining > 0 then remaining else 0
  {
    if remaining <= 0 then Ok([])
    else if !InVolume(d, c) then Err(VolumeIoError)
    else
      var n := if remaining < CLUSTER_SIZE then remaining else CLUSTER_SIZE;
      var chunk := BytesAt(d, c)[..n];
      if remaining - n <= 0 then Ok(chunk)
      else if d.fat1[c] == END then Ok(chunk)
      else match ReadFile(d, d.fat1[c], remaining - n)
        case Err(e) => Err(e)
        case Ok(rest) => Ok(chunk + rest)
  }

  /** Result of WriteFileContents: new state, outcome, and the clusters
      written, in chain order. */
  datatype Written = Written(disk: Disk, outcome: Outcome, used: seq<int>)

  /** Number of clusters that `len` bytes occupy. */
  function ClustersFor(len: nat): nat {
    (len + CLUSTER_SIZE - 1) / CLUSTER_SIZE
  }

  /** The cluster after writing `chunk` at its start with WriteAt. */
  function Overwrite(d: Disk, c: int, chunk: seq<byte>): seq<byte>
    requires |chunk| <= CLUSTER_SIZE
  {
    chunk + BytesAt(d, c)[|chunk|..]
  }

  /** One step of WriteFileContents: the next chunk of at most CLUSTER_SIZE
      bytes written at the start of cluster `c`, and `c` marked END. */
  function StoreChunk(d: Disk, c: int, data: seq<byte>): (s: Disk)
    requires Valid(d) && InVolume(d, c)
    ensures Valid(s) && s.format == d.format && s.cursor == d.cursor && s.path == d.path
    ensures s.fat1 == d.fat1[c := END] && s.fat2 == d.fat2[c := END]
  {
    var n := if |data| < CLUSTER_SIZE then |data| else CLUSTER_SIZE;
    SetFat(d.(clusters := d.clusters[c := File(Overwrite(d, c, data[..n]))]), c, END)
  }

  /** WriteFileContents: each cluster takes the next CLUSTER_SIZE bytes and is
      marked END; when bytes remain, the lowest FREE cluster is linked after
      it and the write goes on there. */
  function WriteFile(d: Disk, c: int, data: seq<byte>): (r: Written)
    requires Valid(d)
    ensures Valid(r.disk) && |r.disk.fat1| == |d.fat1| && r.disk.format == d.format
    ensures r.disk.cursor == d.cursor && r.disk.path == d.path
    ensures forall k :: 0 <= k < |r.used| ==> 0 <= r.used[k] < |d.fat1|
    ensures |data| > 0 && InVolume(d, c) ==> |r.used| > 0 && r.used[0] == c
    decreases |data|
  {
    if |data| == 0 then Written(d, Pass, [])
    else if !InVolume(d, c) then Written(d, Fail(VolumeIoError), [])
    else
      var n := if |data| < CLUSTER_SIZE then |data| else CLUSTER_SIZE;
      var stored := StoreChunk(d, c, data);
      if |data| == n then Written(stored, Pass, [c])
      else
        match FirstFree(stored.fat1)
        case None => Written(stored, Fail(NoSpace), [c])
        case Some(x) =>
          var linked := SetFat(stored, c, x);
          var r := WriteFile(linked, x, data[n..]);
          Written(r.disk, r.outcome, [c] + r.used)
  }

  /** One step of WriteFile on data longer than a cluster: the first chunk
      is stored, the lowest FREE cluster is linked after `c`, and the rest
      is written from there. */
  lemma WriteFileUnfold(d: Disk, c: int, data: seq<byte>)
    requires Valid(d) && InVolume(d, c) && |data| > CLUSTER_SIZE
    ensures var stored := StoreChunk(d, c, data);
      match FirstFree(stored.fat1)
      case None => WriteFile(d, c, data) == Written(stored, Fail(NoSpace), [c])
      case Some(x) =>
        var r := WriteFile(SetFat(stored, c, x), x, data[CLUSTER_SIZE..]);
        WriteFile(d, c, data) == Written(r.disk, r.outcome, [c] + r.used)
  {
  }

  /** Every cluster a write uses after `c` was FREE before it, and the second
      one is the lowest FREE cluster once `c` is marked END. */
  lemma {:induction false} WriteFileFresh(d: Disk, c: int, data: seq<byte>)
    requires Valid(d)
    ensures var r := WriteFile(d, c, data);
      && (forall k :: 1 <= k < |r.used| ==> r.used[k] != c && d.fat1[r.used[k]] == FREE)
      && (|r.used| > 1 ==> InVolume(d, c) && Some(r.used[1]) == FirstFree(d.fat1[c := END]))
    decreases |data|
  {
    if |data| > CLUSTER_SIZE && InVolume(d, c) {
      var stored := StoreChunk(d, c, data);
      WriteFileUnfold(d, c, data);
      if FirstFree(stored.fat1).Some? {
        var x := FirstFree(stored.fat1).value;
        var linked := SetFat(stored, c, x);
        WriteFileFresh(linked, x, data[CLUSTER_SIZE..]);
        var r := WriteFile(linked, x, data[CLUSTER_SIZE..]);
        var used := [c] + r.used;
        assert linked.fat1 == d.fat1[c := x] && x != c;
        forall k | 1 <= k < |used|
          ensures used[k] != c && d.fat1[used[k]] == FREE
        {
          assert used[k] == r.used[k - 1];
          if k > 1 {
            assert linked.fat1[r.used[k - 1]] == FREE;
          }
        }
      }
    }
  }

  /** No cluster is used twice by one write. */
  lemma {:induction false} WriteFileDistinct(d: Disk, c: int, data: seq<byte>)
    requires Valid(d)
    ensures var r := WriteFile(d, c, data);
      forall j, k :: 0 <= j < k < |r.used| ==> r.used[j] != r.used[k]
    decreases |data|
  {
    if |data| > CLUSTER_SIZE && InVolume(d, c) {
      var stored := StoreChunk(d, c, data);
      WriteFileUnfold(d, c, data);
      if FirstFree(stored.fat1).Some? {
        var x := FirstFree(stored.fat1).value;
        var linked := SetFat(stored, c, x);
        WriteFileDistinct(linked, x, data[CLUSTER_SIZE..]);
        WriteFileFresh(d, c, data);
        var r := WriteFile(linked, x, data[CLUSTER_SIZE..]);
        var used := [c] + r.used;
        assert WriteFile(d, c, data).used == used;
        forall j, k | 1 <= j < k < |used|
          ensures used[j] != used[k]
        {
          assert used[j] == r.used[j - 1] && used[k] == r.used[k - 1];
        }
      }
    }
  }

  /** A completed write uses exactly as many clusters as the data needs. */
  lemma {:induction false} WriteFileCount(d: Disk, c: int, data: seq<byte>)
    requires Valid(d)
    ensures var r := WriteFile(d, c, data);
      r.outcome == Pass ==> |r.used| == ClustersFor(|data|)
    decreases |data|
  {
    if |data| > CLUSTER_SIZE && InVolume(d, c) {
      var stored := StoreChunk(d, c, data);
      WriteFileUnfold(d, c, data);
      if FirstFree(stored.fat1).Some? {
        var x := FirstFree(stored.fat1).value;
        WriteFileCount(SetFat(stored, c, x), x, data[CLUSTER_SIZE..]);
        assert ClustersFor(|data|) == 1 + ClustersFor(|data| - CLUSTER_SIZE);
      }
    }
  }

  /** The clusters a write uses: distinct volume clusters starting at `c`,
      every later one FREE before the write and chosen first-fit, and as many
      as the data needs when the write completes. */
  lemma WriteFileUses(d: Disk, c: int, data: seq<byte>)
    requires Valid(d)
    ensures var r := WriteFile(d, c, data);
      && (|data| == 0 ==> r == Written(d, Pass, []))
      && (|data| > 0 && InVolume(d, c) ==> |r.used| > 0 && r.used[0] == c)
      && (forall j, k :: 0 <= j < k < |r.used| ==> r.used[j] != r.used[k])
      && (forall k :: 1 <= k < |r.used| ==> r.used[k] != c && d.fat1[r.used[k]] == FREE)
      && (|r.used| > 1 ==> InVolume(d, c) && Some(r.used[1]) == FirstFree(d.fat1[c := END]))
      && (r.outcome == Pass ==> |r.used| == ClustersFor(|data|))
  {
    WriteFileFresh(d, c, data);
    WriteFileDistinct(d, c, data);
    WriteFileCount(d, c, data);
  }

  /** A write changes nothing outside the clusters it uses. */
  lemma {:induction false} WriteFileFrame(d: Disk, c: int, data: seq<byte>)
    requires Valid(d)
    ensures var r := WriteFile(d, c, data);
      && (forall i :: 0 <= i < |d.fat1| && i !in r.used ==>
            r.disk.fat1[i] == d.fat1[i] && r.disk.fat2[i] == d.fat2[i])
      && (forall i :: i !in r.used ==> SlotsAt(r.disk, i) == SlotsAt(d, i) && BytesAt(r.disk, i) == BytesAt(d, i))
    decreases |data|
  {
    if |data| > 0 && InVolume(d, c) {
      var stored := StoreChunk(d, c, data);
      StoreChunkKeeps(d, c, data);
      if |data| > CLUSTER_SIZE {
        WriteFileUnfold(d, c, data);
        if FirstFree(stored.fat1).Some? {
          var x := FirstFree(stored.fat1).value;
          var linked := SetFat(stored, c, x);
          WriteFileFrame(linked, x, data[CLUSTER_SIZE..]);
          var r := WriteFile(linked, x, data[CLUSTER_SIZE..]);
          var used := [c] + r.used;
          forall i | i !in used
            ensures SlotsAt(r.disk, i) == SlotsAt(d, i) && BytesAt(r.disk, i) == BytesAt(d, i)
          {
            assert i != c && i !in r.used;
            assert SlotsAt(linked, i) == SlotsAt(stored, i) && BytesAt(linked, i) == BytesAt(stored, i);
          }
          forall i | 0 <= i < |d.fat1| && i !in used
            ensures r.disk.fat1[i] == d.fat1[i] && r.disk.fat2[i] == d.fat2[i]
          {
            assert i != c && i !in r.used;
          }
        }
      } else {
        assert WriteFile(d, c, data) == Written(stored, Pass, [c]);
      }
    }
  }

  /** Storing a chunk in `c` leaves every other cluster as it was. */
  lemma StoreChunkKeeps(d: Disk, c: int, data: seq<byte>)
    requires Valid(d) && InVolume(d, c)
    ensures forall i :: i != c ==>
      SlotsAt(StoreChunk(d, c, data), i) == SlotsAt(d, i) && BytesAt(StoreChunk(d, c, data), i) == BytesAt(d, i)
  {
  }

  /** A cluster that is allocated before a write and is not where the write
      starts is neither used nor changed by it. */
  lemma {:induction false} WriteFileKeeps(d: Disk, c: int, data: seq<byte>, i: int)
    requires Valid(d) && InVolume(d, i) && i != c && d.fat1[i] != FREE
    ensures var r := WriteFile(d, c, data);
      && i !in r.used
      && r.disk.fat1[i] == d.fat1[i] && r.disk.fat2[i] == d.fat2[i]
      && SlotsAt(r.disk, i) == SlotsAt(d, i) && BytesAt(r.disk, i) == BytesAt(d, i)
    decreases |data|
  {
    if |data| > 0 && InVolume(d, c) {
      var n := if |data| < CLUSTER_SIZE then |data| else CLUSTER_SIZE;
      var stored := StoreChunk(d, c, data);
      if |data| > n && FirstFree(stored.fat1).Some? {
        var x := FirstFree(stored.fat1).value;
        var linked := SetFat(stored, c, x);
        WriteFileKeeps(linked, x, data[n..], i);
      }
    }
  }

  /** A completed write leaves a well-formed chain through the clusters it
      used, mirrored in both copies. */
  lemma {:induction false} WriteFileChain(d: Disk, c: int, data: seq<byte>)
    requires Valid(d)
    requires |data| > 0 && WriteFile(d, c, data).outcome == Pass
    ensures var r := WriteFile(d, c, data);
      && IsChain(r.disk.fat1, r.used)
      && forall k :: 0 <= k < |r.used| ==> r.disk.fat2[r.used[k]] == r.disk.fat1[r.used[k]]
    decreases |data|
  {
    var n := if |data| < CLUSTER_SIZE then |data| else CLUSTER_SIZE;
    var stored := StoreChunk(d, c, data);
    if |data| > n {
      var x := FirstFree(stored.fat1).value;
      var linked := SetFat(stored, c, x);
      var r := WriteFile(linked, x, data[n..]);
      WriteFileChain(linked, x, data[n..]);
      WriteFileKeeps(linked, x, data[n..], c);
      var used := [c] + r.used;
      assert WriteFile(d, c, data) == Written(r.disk, Pass, used);
      assert used[|used| - 1] == r.used[|r.used| - 1];
      assert forall k :: 1 <= k < |used| ==> used[k] == r.used[k - 1];
    }
  }

  /** A read longer than one cluster is the cluster's bytes followed by the
      read along its link. */
  lemma ReadFileLinks(d: Disk, c: int, remaining: int, head: seq<byte>, rest: seq<byte>)
    requires InVolume(d, c) && remaining > CLUSTER_SIZE && d.fat1[c] != END
    requires BytesAt(d, c)[..CLUSTER_SIZE] == head
    requires ReadFile(d, d.fat1[c], remaining - CLUSTER_SIZE) == Ok(rest)
    ensures ReadFile(d, c, remaining) == Ok(head + rest)
  {
  }

  /** Reading back as many bytes as were written returns exactly them. */
  lemma {:induction false} WriteThenRead(d: Disk, c: int, data: seq<byte>)
    requires Valid(d) && WriteFile(d, c, data).outcome == Pass
    ensures ReadFile(WriteFile(d, c, data).disk, c, |data|) == Ok(data)
    decreases |data|, 1
  {
    if |data| > CLUSTER_SIZE {
      WriteThenReadLinked(d, c, data);
    } else if |data| > 0 {
      var stored := StoreChunk(d, c, data);
      assert WriteFile(d, c, data).disk == stored;
      assert BytesAt(stored, c)[..|data|] == data;
    }
  }

  /** A write longer than one cluster reads back as its first cluster's bytes
      followed by the read along the link. */
  lemma {:induction false} WriteThenReadLinked(d: Disk, c: int, data: seq<byte>)
    requires Valid(d) && |data| > CLUSTER_SIZE && WriteFile(d, c, data).outcome == Pass
    ensures ReadFile(WriteFile(d, c, data).disk, c, |data|) == Ok(data)
    decreases |data|, 0
  {
    var n := CLUSTER_SIZE;
    var stored := StoreChunk(d, c, data);
    assert BytesAt(stored, c)[..n] == data[..n];
    var x := FirstFree(stored.fat1).value;
    var linked := SetFat(stored, c, x);
    var r := WriteFile(linked, x, data[n..]);
    assert ReadFile(r.disk, x, |data| - n) == Ok(data[n..]) by {
      WriteThenRead(linked, x, data[n..]);
    }
    assert BytesAt(r.disk, c)[..n] == data[..n] && r.disk.fat1[c] == x by {
      WriteFileKeeps(linked, x, data[n..], c);
    }
    assert WriteFile(d, c, data).disk == r.disk;
    ReadFileLinks(r.disk, c, |data|, data[..n], data[n..]);
    assert data[..n] + data[n..] == data;
  }

  /** A read along a well-formed chain depends only on the table and on the
      bytes of the chain's own clusters. */
  lemma {:induction false} ReadChainFrame(d: Disk, e: Disk, l: seq<int>, n: int)
    requires IsChain(d.fat1, l) && e.fat1 == d.fat1
    requires forall k :: 0 <= k < |l| ==> BytesAt(e, l[k]) == BytesAt(d, l[k])
    ensures ReadFile(e, l[0], n) == ReadFile(d, l[0], n)
    decreases |l|
  {
    if n > 0 && |l| > 1 {
      assert d.fat1[l[0]] == l[1] && l[1] != END;
      assert d.fat1[l[1..][|l| - 2]] == END;
      assert IsChain(d.fat1, l[1..]);
      var m := if n < CLUSTER_SIZE then n else CLUSTER_SIZE;
      ReadChainFrame(d, e, l[1..], n - m);
    }
  }

  /** Writing a file from a FREE cluster and then freeing its chain, as
      removal does, frees exactly the clusters written and restores both
      tables. */
  lemma WriteThenFree(d: Disk, c: int, data: seq<byte>)
    requires Valid(d) && d.fat1 == d.fat2
    requires InVolume(d, c) && d.fat1[c] == FREE && |data| > 0
    requires WriteFile(d, c, data).outcome == Pass
    ensures var r := WriteFile(d, c, data);
      var w := FreeWalk(r.disk.fat1, r.disk.fat2, c);
      w.ok && w.visited == r.used && w.t1 == d.fat1 && w.t2 == d.fat2
  {
    var r := WriteFile(d, c, data);
    WriteFileUses(d, c, data);
    WriteFileFrame(d, c, data);
    WriteFileChain(d, c, data);
    FreeWalkFreesChain(r.disk.fat1, r.disk.fat2, r.used);
    var w := FreeWalk(r.disk.fat1, r.disk.fat2, c);
    forall i | 0 <= i < |d.fat1|
      ensures w.t1[i] == d.fat1[i] && w.t2[i] == d.fat2[i]
    {
      if i in r.used {
        var k :| 0 <= k < |r.used| && r.used[k] == i;
        assert w.visited[k] == i;
      }
    }
  }

  /** The table Format writes before the root exists: END for the boot and
      table clusters `0 .. 2*fcc`, FREE for every data cluster. */
  function InitialTable(f: FileSystemFormat): (t: seq<int>)
    requires f.clusterCount >= 0
    ensures |t| == f.clusterCount
  {
    seq(f.clusterCount, i => if i <= 2 * f.fatClusterCount then END else FREE)
  }

  /** A volume of `mb` mebibytes right after Format: the root directory is the
      first data cluster, holds `.` and `..` pointing at itself, is END in
      both copies, and is the current cluster. */
  function Formatted(mb: int): Disk
    requires mb >= 1
  {
    var f := FormatOf(mb);
    FormatGeometry(mb);
    var root := Root(f);
    var t := InitialTable(f)[root := END];
    Disk(f, t, t, map[root := Dir(NewDirectory(root, root))], root, "/")
  }

  lemma FormattedVolume(mb: int)
    requires mb >= 1
    ensures var f := FormatOf(mb);
      var d := Formatted(mb);
      && FirstFree(InitialTable(f)) == Some(Root(f))
      && Valid(d) && d.fat1 == d.fat2 && |d.fat1| == f.clusterCount
      && (forall i :: 0 <= i < |d.fat1| ==> d.fat1[i] == if i <= Root(f) then END else FREE)
      && SlotsAt(d, Root(f)) == NewDirectory(Root(f), Root(f))
      && ParentOf(d, Root(f)) == Root(f)
      && FirstFree(d.fat1) == (if Root(f) + 1 < f.clusterCount then Some(Root(f) + 1) else None)
  {
    var f := FormatOf(mb);
    FormatGeometry(mb);
    var t := InitialTable(f);
    assert IsFirst(t, IsFree, Root(f));
    FirstWhereIs(t, IsFree, Root(f));
    var d := Formatted(mb);
    if Root(f) + 1 < f.clusterCount {
      assert IsFirst(d.fat1, IsFree, Root(f) + 1);
      FirstWhereIs(d.fat1, IsFree, Root(f) + 1);
    }
  }

  /** CreateRootDirectory: the cluster is marked END, receives `.` and `..`
      naming itself, and becomes the current cluster. */
  function CreateRootDirectory(d: Disk, c: int): (r: Step)
    requires Valid(d)
    ensures Valid(r.disk)
  {
    var s := UpdateFatEntry(d, c, END);
    if s.outcome.Fail? then s
    else Step(SetCurrentAndParent(s.disk, c, c).(cursor := c), Pass)
  }

  /** Format's steps compose to the formatted volume: the tables as the
      loops leave them, then the root made in the first FREE cluster, which
      is the first data cluster. */
  lemma FormatMakesRoot(mb: int)
    requires mb >= 1
    ensures var f := FormatOf(mb);
      var t := InitialTable(f);
      var blank := Disk(f, t, t, map[], 0, "/");
      && FirstFree(t) == Some(Root(f))
      && CreateRootDirectory(blank, Root(f)) == Step(Formatted(mb), Pass)
  {
    FormattedVolume(mb);
  }

  /** CreateDirectory. The outcome records which check stopped it; the new
      cluster is chosen before the parent is updated and is marked END only
      afterwards. */
  function CreateDirectory(d: Disk, name: string): (r: Step)
    requires Valid(d)
    ensures Valid(r.disk)
  {
    if name == "." || name == ".." then Step(d, Fail(InvalidName))
    else match ParsePath(d, name, true)
      case Err(_) => Step(d, Fail(PathNotFound))
      case Ok(loc) => CreateIn(d, loc.cluster, loc.name)
  }

  /** CreateDirectory once the path has resolved to parent `p` and leaf name
      `leaf`. */
  function CreateIn(d: Disk, p: int, leaf: string): (r: Step)
    requires Valid(d)
    ensures Valid(r.disk)
  {
    if |leaf| > MAX_FILE_NAME then Step(d, Fail(NameTooLong))
    else if NameTaken(d, p, leaf) then Step(d, Fail(AlreadyExists))
    else match FirstFree(d.fat1)
      case None => Step(d, Fail(NoSpace))
      case Some(k) =>
        var s1 := UpdateParentDirectory(d, p, Entry(NameOf(leaf), 0, k, 1));
        if s1.outcome.Fail? then s1
        else
          var s2 := UpdateFatEntry(s1.disk, k, END);
          if s2.outcome.Fail? then s2
          else Step(SetCurrentAndParent(s2.disk, k, p), Pass)
  }

  /** The rejections of CreateDirectory change nothing. */
  lemma CreateDirectoryRejects(d: Disk, name: string)
    requires Valid(d)
    ensures var r := CreateDirectory(d, name);
      && (name == "." || name == ".." ==> r == Step(d, Fail(InvalidName)))
      && (name != "." && name != ".." && ParsePath(d, name, true).Err? ==> r == Step(d, Fail(PathNotFound)))
      && (name != "." && name != ".." && ParsePath(d, name, true).Ok? ==>
            var loc := ParsePath(d, name, true).value;
            r == CreateIn(d, loc.cluster, loc.name))
  {
  }

  lemma CreateInRejects(d: Disk, p: int, leaf: string)
    requires Valid(d)
    ensures var r := CreateIn(d, p, leaf);
      && (|leaf| > MAX_FILE_NAME ==> r == Step(d, Fail(NameTooLong)))
      && (|leaf| <= MAX_FILE_NAME && NameTaken(d, p, leaf) ==> r == Step(d, Fail(AlreadyExists)))
  {
  }

  /** A successful creation is the parent update, the END mark and the new
      directory cluster, in that order. */
  lemma CreateInSteps(d: Disk, p: int, leaf: string)
    requires Valid(d) && CreateIn(d, p, leaf).outcome == Pass
    ensures InVolume(d, p) && FindZero(SlotsAt(d, p)).Some? && FirstFree(d.fat1).Some?
    ensures var k := FirstFree(d.fat1).value;
      var slots := SlotsAt(d, p);
      var s1 := d.(clusters := d.clusters[p := Dir(WriteBack(slots, slots[FindZero(slots).value := Entry(NameOf(leaf), 0, k, 1)]))]);
      CreateIn(d, p, leaf) == Step(SetCurrentAndParent(SetFat(s1, k, END), k, p), Pass)
  {
    var k := FirstFree(d.fat1).value;
    var e := Entry(NameOf(leaf), 0, k, 1);
    if InVolume(d, p) && FindZero(SlotsAt(d, p)).None? {
      FullParentFails(d, p, e);
    }
    assert InVolume(d, p) && FindZero(SlotsAt(d, p)).Some?;
    var slots := SlotsAt(d, p);
    var s1 := d.(clusters := d.clusters[p := Dir(WriteBack(slots, slots[FindZero(slots).value := e]))]);
    assert UpdateParentDirectory(d, p, e) == Step(s1, Pass);
  }

  /** A successful creation: the parent had a zero slot, the new cluster is
      the first FREE one and is END in both copies afterwards. When it differs
      from the parent, it holds `.` for itself and `..` for the parent and
      zeros elsewhere, GetParentCluster on it yields the parent, and the
      parent holds the new record (written back packed). When it is the
      parent itself (a record whose first cluster was still FREE), the `.`
      and `..` pair is written over the root instead, both naming the new
      cluster, and a parent other than the root keeps the new record. */
  lemma CreateInMakes(d: Disk, p: int, leaf: string)
    requires Valid(d) && CreateIn(d, p, leaf).outcome == Pass
    ensures FirstFree(d.fat1).Some?
    ensures var r := CreateIn(d, p, leaf);
      var k := FirstFree(d.fat1).value;
      var slots := SlotsAt(d, p);
      && InVolume(d, p) && FindZero(slots).Some?
      && d.fat1[k] == FREE
      && r.disk.fat1[k] == END && r.disk.fat2[k] == END
      && (k != p ==>
            && SlotsAt(r.disk, k) == NewDirectory(k, p)
            && ParentOf(r.disk, k) == p
            && SlotsAt(r.disk, p) == WriteBack(slots, slots[FindZero(slots).value := Entry(NameOf(leaf), 0, k, 1)]))
    ensures var r := CreateIn(d, p, leaf);
      var k := FirstFree(d.fat1).value;
      var slots := SlotsAt(d, p);
      var root := Root(d.format);
      k == p ==>
        && (InVolume(d, root) ==> SlotsAt(r.disk, root) == NewDirectory(k, k))
        && (p != root ==>
              SlotsAt(r.disk, p) == WriteBack(slots, slots[FindZero(slots).value := Entry(NameOf(leaf), 0, k, 1)]))
  {
    CreateInSteps(d, p, leaf);
    var k := FirstFree(d.fat1).value;
    var e := Entry(NameOf(leaf), 0, k, 1);
    var slots := SlotsAt(d, p);
    var s1 := d.(clusters := d.clusters[p := Dir(WriteBack(slots, slots[FindZero(slots).value := e]))]);
    var s2 := SetFat(s1, k, END);
    if k != p {
      var r := s2.(clusters := s2.clusters[k := Dir(NewDirectory(k, p))]);
      assert SetCurrentAndParent(s2, k, p) == r;
      assert SlotsAt(r, k) == NewDirectory(k, p);
      assert p in r.clusters && r.clusters[p] == s1.clusters[p];
    } else {
      var root := Root(d.format);
      if InVolume(d, root) {
        var r := s2.(clusters := s2.clusters[root := Dir(NewDirectory(k, k))]);
        assert SetCurrentAndParent(s2, k, p) == r;
        assert SlotsAt(r, root) == NewDirectory(k, k);
        if p != root {
          assert p in r.clusters && r.clusters[p] == s1.clusters[p];
        }
      } else {
        assert SetCurrentAndParent(s2, k, p) == s2;
      }
    }
  }

  /** Because the new cluster is still FREE while the parent is updated, a
      full parent is linked to that very cluster in both copies and the
      creation then fails, leaving the cluster FREE. */
  lemma CreateInFullParent(d: Disk, p: int, leaf: string)
    requires Valid(d)
    requires |leaf| <= MAX_FILE_NAME && !NameTaken(d, p, leaf)
    requires InVolume(d, p) && FindZero(SlotsAt(d, p)).None?
    requires FirstFree(d.fat1).Some? && FirstFree(d.fat1).value != p
    ensures var r := CreateIn(d, p, leaf);
      var k := FirstFree(d.fat1).value;
      && r.outcome.Fail?
      && r.disk.fat1[p] == k && r.disk.fat2[p] == k
      && r.disk.fat1[k] == FREE
  {
    var k := FirstFree(d.fat1).value;
    var e := Entry(NameOf(leaf), 0, k, 1);
    FullParentFails(d, p, e);
    assert CreateIn(d, p, leaf) == UpdateParentDirectory(d, p, e);
  }

  /** RemoveDirectoryEntry. */
  function RemoveDirectoryEntry(d: Disk, c: int, name: string): (r: Step)
    requires Valid(d)
    ensures Valid(r.disk)
  {
    if name == "." || name == ".." || name == "/" then Step(d, Pass)
    else if !InVolume(d, c) then Step(d, Fail(VolumeIoError))
    else
      var slots := SlotsAt(d, c);
      match FindNamed(slots, name)
      case None => Step(d, Pass)
      case Some(k) => RemoveSlot(d, c, k)
  }

  /** Removal of the record in slot `k` of directory cluster `c`: the
      emptiness check for directories, the chain-freeing walk, then the
      slot written back as the zero record. */
  function RemoveSlot(d: Disk, c: int, k: int): (r: Step)
    requires Valid(d) && InVolume(d, c) && 0 <= k < SLOTS
    ensures Valid(r.disk)
  {
    var slots := SlotsAt(d, c);
    var e := slots[k];
    if e.isDirectory == 1 && !InVolume(d, e.firstCluster) then Step(d, Fail(VolumeIoError))
    else if e.isDirectory == 1 && FindOccupant(SlotsAt(d, e.firstCluster)).Some? then Step(d, Fail(NotEmpty))
    else
      var w := FreeWalk(d.fat1, d.fat2, e.firstCluster);
      var freed := d.(fat1 := w.t1, fat2 := w.t2);
      if !w.ok then Step(freed, Fail(VolumeIoError))
      else Step(freed.(clusters := d.clusters[c := Dir(slots[k := ZERO_ENTRY])]), Pass)
  }

  /** Removing a file or an empty directory whose first cluster is linked to
      FREE or BAD (a zero-length file, a cluster marked by `bug`) frees that
      cluster in both copies, then fails and keeps the record. */
  lemma RemoveSlotStopsAtSentinel(d: Disk, c: int, k: int)
    requires Valid(d) && InVolume(d, c) && 0 <= k < SLOTS
    requires var e := SlotsAt(d, c)[k];
      && InVolume(d, e.firstCluster)
      && (e.isDirectory == 1 ==> FindOccupant(SlotsAt(d, e.firstCluster)).None?)
      && (d.fat1[e.firstCluster] == FREE || d.fat1[e.firstCluster] == BAD)
    ensures var f := SlotsAt(d, c)[k].firstCluster;
      var r := RemoveSlot(d, c, k);
      && r.outcome == Fail(VolumeIoError)
      && r.disk.fat1 == d.fat1[f := FREE] && r.disk.fat2 == d.fat2[f := FREE]
      && SlotsAt(r.disk, c) == SlotsAt(d, c)
  {
    var f := SlotsAt(d, c)[k].firstCluster;
    FreeWalkStopsAtSentinel(d.fat1, d.fat2, f);
  }

  /** The guarded names, an absent name, and a directory with an occupant
      leave the volume unchanged. */
  lemma RemoveGuards(d: Disk, c: int, name: string)
    requires Valid(d)
    ensures var r := RemoveDirectoryEntry(d, c, name);
      && (name == "." || name == ".." || name == "/" ==> r == Step(d, Pass))
      && (InVolume(d, c) && FindNamed(SlotsAt(d, c), name).None? ==> r.disk == d)
      && (name != "." && name != ".." && name != "/" && InVolume(d, c) && FindNamed(SlotsAt(d, c), name).Some? ==>
            r == RemoveSlot(d, c, FindNamed(SlotsAt(d, c), name).value))
  {
  }

  /** A successful removal frees the entry's chain in both copies, zeroes
      exactly the entry's slot, and changes nothing else. */
  lemma RemoveFrees(d: Disk, c: int, k: int)
    requires Valid(d) && InVolume(d, c) && 0 <= k < SLOTS
    requires RemoveSlot(d, c, k).outcome == Pass
    ensures var r := RemoveSlot(d, c, k);
      var w := FreeWalk(d.fat1, d.fat2, SlotsAt(d, c)[k].firstCluster);
      && (forall i :: 0 <= i < |d.fat1| ==>
            r.disk.fat1[i] == (if i in w.visited then FREE else d.fat1[i])
            && r.disk.fat2[i] == (if i in w.visited then FREE else d.fat2[i]))
      && SlotsAt(r.disk, c) == SlotsAt(d, c)[k := ZERO_ENTRY]
      && (forall x :: x != c ==> SlotsAt(r.disk, x) == SlotsAt(d, x) && BytesAt(r.disk, x) == BytesAt(d, x))
  {
    var slots := SlotsAt(d, c);
    var w := FreeWalk(d.fat1, d.fat2, slots[k].firstCluster);
    var r := d.(fat1 := w.t1, fat2 := w.t2, clusters := d.clusters[c := Dir(slots[k := ZERO_ENTRY])]);
    assert RemoveSlot(d, c, k).disk == r;
    forall i | 0 <= i < |d.fat1|
      ensures r.fat1[i] == (if i in w.visited then FREE else d.fat1[i])
      ensures r.fat2[i] == (if i in w.visited then FREE else d.fat2[i])
    {
      if i in w.visited {
        var j :| 0 <= j < |w.visited| && w.visited[j] == i;
      }
    }
  }

  /** Removing a record whose clusters form a well-formed chain (and which,
      if a directory, has no occupant) succeeds and frees exactly that chain. */
  lemma RemoveFreesChain(d: Disk, c: int, k: int, chain: seq<int>)
    requires Valid(d) && InVolume(d, c) && 0 <= k < SLOTS
    requires var e := SlotsAt(d, c)[k];
      && IsChain(d.fat1, chain) && chain[0] == e.firstCluster
      && (e.isDirectory == 1 ==> FindOccupant(SlotsAt(d, e.firstCluster)).None?)
    ensures RemoveSlot(d, c, k).outcome == Pass
    ensures FreeWalk(d.fat1, d.fat2, SlotsAt(d, c)[k].firstCluster).visited == chain
  {
    FreeWalkFreesChain(d.fat1, d.fat2, chain);
  }
}
