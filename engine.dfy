/** The volume engine as an object: the tables, the cluster contents and the
    session cursor are fields, and each engine function is a method that
    works the way the Go engine in file_system.go does (scanning loops, read-modify-write of a
    directory cluster, the chain loops). Every method is proved to compute
    exactly the corresponding function of the value model. */
module Engine {
  import opened Outcomes
  import opened Search
  import opened Layout
  import opened Fat
  import opened Records
  import opened Paths
  import opened DiskModel

  /** Format's table loops: every entry FREE, then END for cluster 0 and for
      the table clusters `1 .. 2*fcc`. */
  method InitialFat(f: FileSystemFormat) returns (t: seq<int>)
    requires 0 <= f.fatClusterCount && 2 * f.fatClusterCount < f.clusterCount
    ensures t == InitialTable(f)
  {
    var a := new int[f.clusterCount];
    var i := 0;
    while i < a.Length
      invariant 0 <= i <= a.Length
      invariant forall j :: 0 <= j < i ==> a[j] == FREE
    {
      a[i] := FREE;
      i := i + 1;
    }
    a[0] := END;
    i := 1;
    while i < 2 * f.fatClusterCount + 1
      invariant 1 <= i <= 2 * f.fatClusterCount + 1
      invariant a[0] == END
      invariant forall j :: 1 <= j < i ==> a[j] == END
      invariant forall j :: i <= j < a.Length ==> a[j] == FREE
    {
      a[i] := END;
      i := i + 1;
    }
    t := a[..];
  }

  /** `prefix` in front of the bytes of a read, errors passed through. */
  ghost function Prefixed(prefix: seq<byte>, r: Result<seq<byte>>): Result<seq<byte>> {
    match r
    case Ok(rest) => Ok(prefix + rest)
    case Err(e) => Err(e)
  }

  class Volume {
    const format: FileSystemFormat
    var fat1: seq<int>
    var fat2: seq<int>
    var clusters: map<int, Cluster>
    var currentCluster: int
    var currentPath: string

    /** The whole volume as a value. */
    function State(): Disk
      reads this
    {
      Disk(format, fat1, fat2, clusters, currentCluster, currentPath)
    }

    ghost predicate Valid()
      reads this
    {
      DiskModel.Valid(State())
    }

    /** FindFreeCluster: scan copy 1 from index 0 for FREE. */
    method FindFreeCluster() returns (r: Option<nat>)
      ensures r == FirstFree(fat1)
      ensures r.Some? ==> r.value < |fat1| && fat1[r.value] == FREE
    {
      var i := 0;
      while i < |fat1|
        invariant 0 <= i <= |fat1|
        invariant forall j :: 0 <= j < i ==> fat1[j] != FREE
      {
        if fat1[i] == FREE {
          assert IsFirst(fat1, IsFree, i);
          FirstWhereIs(fat1, IsFree, i);
          return Some(i);
        }
        i := i + 1;
      }
      FirstWhereNone(fat1, IsFree);
      return None;
    }

    /** ReadFatEntry: copy 1 at `c`. */
    method ReadFatEntry(c: int) returns (r: Result<int>)
      ensures r == ReadEntry(fat1, c)
      ensures r.Ok? <==> 0 <= c < |fat1|
    {
      if 0 <= c < |fat1| {
        r := Ok(fat1[c]);
      } else {
        r := Err(VolumeIoError);
      }
    }

    /** UpdateFatEntry: the same value at the same index in both copies. */
    method UpdateFatEntry(c: int, v: int) returns (o: Outcome)
      requires Valid()
      modifies this
      ensures Valid()
      ensures Step(State(), o) == DiskModel.UpdateFatEntry(old(State()), c, v)
    {
      if !(0 <= c < |fat1|) {
        return Fail(VolumeIoError);
      }
      fat1 := fat1[c := v];
      fat2 := fat2[c := v];
      return Pass;
    }

    /** ReadDirectoryEntries: the SLOTS records of cluster `c`, read one by one. */
    method ReadDirectoryEntries(c: int) returns (r: Result<seq<Entry>>)
      ensures r == if InVolume(State(), c) then Ok(SlotsAt(State(), c)) else Err(VolumeIoError)
    {
      if !InVolume(State(), c) {
        return Err(VolumeIoError);
      }
      var slots := SlotsAt(State(), c);
      var items: seq<Entry> := [];
      var i := 0;
      while i < SLOTS
        invariant 0 <= i <= SLOTS
        invariant items == slots[..i]
      {
        items := items + [slots[i]];
        i := i + 1;
      }
      assert items == slots;
      return Ok(items);
    }

    /** WriteDirectoryEntry: read the records, put `e` into the first zero
        slot, write the records back. */
    method WriteDirectoryEntry(c: int, e: Entry) returns (o: Outcome)
      requires Valid()
      modifies this
      ensures Valid()
      ensures Step(State(), o) == DiskModel.WriteDirectoryEntry(old(State()), c, e)
    {
      var read := ReadDirectoryEntries(c);
      if read.Err? {
        return Fail(read.error);
      }
      var entries := read.value;
      var i := 0;
      while i < |entries|
        invariant 0 <= i <= |entries|
        invariant forall j :: 0 <= j < i ==> !IsZero(entries[j])
      {
        if IsZero(entries[i]) {
          clusters := clusters[c := Dir(entries[i := e])];
          return Pass;
        }
        i := i + 1;
      }
      return Fail(NoEmptySlot);
    }

    /** CheckIfDirectoryExists: some non-zero record of `p` answers to `name`. */
    method CheckIfDirectoryExists(p: int, name: string) returns (b: bool)
      ensures b == NameTaken(State(), p, name)
    {
      var read := ReadDirectoryEntries(p);
      if read.Err? {
        return false;
      }
      var entries := read.value;
      var i := 0;
      while i < |entries|
        invariant 0 <= i <= |entries|
        invariant forall j :: 0 <= j < i ==> IsZero(entries[j]) || NameOfEntry(entries[j]) != name
      {
        if !IsZero(entries[i]) && NameOfEntry(entries[i]) == name {
          assert FindLiveNamed(entries, name).Some?;
          return true;
        }
        i := i + 1;
      }
      assert FindLiveNamed(entries, name).None?;
      return false;
    }

    /** FindDirectoryCluster: the first cluster of the first record answering
        to `name`, -1 when there is none. */
    method FindDirectoryCluster(name: string, p: int) returns (r: Result<int>)
      ensures r == DiskModel.FindDirectoryCluster(State(), name, p)
    {
      var read := ReadDirectoryEntries(p);
      if read.Err? {
        return Err(read.error);
      }
      var entries := read.value;
      assert InVolume(State(), p) && entries == SlotsAt(State(), p);
      var i := 0;
      while i < |entries|
        invariant 0 <= i <= |entries|
        invariant forall j :: 0 <= j < i ==> NameOfEntry(entries[j]) != name
      {
        if NameOfEntry(entries[i]) == name {
          assert FindNamed(entries, name) == Some(i);
          return Ok(entries[i].firstCluster);
        }
        i := i + 1;
      }
      assert FindNamed(entries, name).None?;
      return Ok(-1);
    }

    /** FindEntry: the first record of `c` answering to `name`. */
    method FindEntry(name: string, c: int) returns (r: Result<Entry>)
      ensures r == DiskModel.FindEntry(State(), name, c)
    {
      var read := ReadDirectoryEntries(c);
      if read.Err? {
        return Err(read.error);
      }
      var entries := read.value;
      var i := 0;
      while i < |entries|
        invariant 0 <= i <= |entries|
        invariant forall j :: 0 <= j < i ==> NameOfEntry(entries[j]) != name
      {
        if NameOfEntry(entries[i]) == name {
          assert FindNamed(entries, name) == Some(i);
          return Ok(entries[i]);
        }
        i := i + 1;
      }
      assert FindNamed(entries, name).None?;
      return Err(FileNotFound);
    }

    /** GetParentCluster: the first cluster of slot 1, -1 when unreadable. */
    method GetParentCluster(c: int) returns (p: int)
      ensures p == ParentOf(State(), c)
    {
      if !InVolume(State(), c) {
        return -1;
      }
      p := SlotsAt(State(), c)[1].firstCluster;
    }

    method SetCurrentCluster(c: int)
      modifies this
      ensures State() == old(State()).(cursor := c)
    {
      currentCluster := c;
    }

    /** SetCurrentPath; `..` cuts the trailing '/' and then scans backwards
        for the previous one. */
    method SetCurrentPath(arg: string)
      requires arg == ".." && currentPath != "/" ==> currentPath != ""
      modifies this
      ensures State() == old(State()).(path := NextPath(old(currentPath), arg))
    {
      if arg == "/" {
        currentPath := "/";
      } else if arg == "." {
        return;
      } else if arg == ".." {
        if currentPath == "/" {
          return;
        }
        var cut := currentPath[..|currentPath| - 1];
        var i := |cut| - 1;
        while i >= 0
          invariant -1 <= i < |cut|
          invariant LastSlash(cut) == LastSlash(cut[..i + 1])
        {
          assert cut[..i + 1][..i] == cut[..i];
          if cut[i] == SLASH {
            currentPath := cut[..i + 1];
            return;
          }
          i := i - 1;
        }
        currentPath := cut;
      } else {
        currentPath := currentPath + arg + "/";
      }
    }

    /** SetCurrentAndParentDirectory: `.`, `..` and zeros, at the root when
        both clusters are the same. */
    method SetCurrentAndParentDirectory(cur: int, parent: int)
      modifies this
      ensures State() == SetCurrentAndParent(old(State()), cur, parent)
    {
      var at := if cur == parent then Root(format) else cur;
      if !InVolume(State(), at) {
        return;
      }
      clusters := clusters[at := Dir(NewDirectory(cur, parent))];
    }

    /** UpdateParentDirectory: the record goes into the first zero slot;
        without one a cluster is allocated, linked after the parent and
        written, and the parent is written again; then the non-zero records
        are written back packed from the start of the parent cluster. */
    method UpdateParentDirectory(p: int, e: Entry) returns (o: Outcome)
      requires Valid()
      modifies this
      ensures Valid()
      ensures Step(State(), o) == DiskModel.UpdateParentDirectory(old(State()), p, e)
    {
      var read := ReadDirectoryEntries(p);
      if read.Err? {
        return Fail(read.error);
      }
      var entries := read.value;
      ghost var slots := entries;
      var written := false;
      var i := 0;
      while i < |entries|
        invariant 0 <= i <= |entries| == SLOTS
        invariant forall j :: 0 <= j < i ==> !IsZero(slots[j])
        invariant !written
        invariant entries == slots
      {
        if IsZero(entries[i]) {
          assert FindZero(slots) == Some(i);
          entries := entries[i := e];
          written := true;
          break;
        }
        i := i + 1;
      }
      if !written {
        assert FindZero(slots).None?;
        var free := FindFreeCluster();
        if free.None? {
          return Fail(NoSpace);
        }
        var n := free.value;
        o := UpdateFatEntry(p, n);
        o := WriteDirectoryEntry(n, e);
        if o.Fail? {
          return;
        }
        o := WriteDirectoryEntry(p, e);
        if o.Fail? {
          return;
        }
      }
      PackInto(p, entries);
      return Pass;
    }

    /** The write-back of UpdateParentDirectory: the non-zero records of
        `entries`, packed from the start of cluster `p`; the rest of the
        cluster keeps what it held. */
    method PackInto(p: int, entries: seq<Entry>)
      requires |entries| == SLOTS
      modifies this
      ensures State() == old(State()).(clusters := old(clusters)[p := Dir(WriteBack(SlotsAt(old(State()), p), entries))])
    {
      var onDisk := SlotsAt(State(), p);
      var live: seq<Entry> := [];
      var j := 0;
      while j < |entries|
        invariant 0 <= j <= |entries|
        invariant live == Live(entries[..j])
        invariant State() == old(State())
      {
        LiveAppend(entries[..j], entries[j]);
        assert entries[..j + 1] == entries[..j] + [entries[j]];
        if !IsZero(entries[j]) {
          live := live + [entries[j]];
        }
        j := j + 1;
      }
      assert entries[..j] == entries;
      assert live + onDisk[|live|..] == WriteBack(SlotsAt(old(State()), p), entries);
      clusters := clusters[p := Dir(live + onDisk[|live|..])];
    }

    /** ParsePath: trailing '/' trimmed, split, then one step per component
        from the root or from the current cluster. */
    method ParsePath(dest: string, lastEntry: bool) returns (r: Result<Located>)
      ensures r == DiskModel.ParsePath(State(), dest, lastEntry)
    {
      ghost var d := State();
      var comps := Components(dest);
      var cur := if comps[0] == "" then Root(format) else currentCluster;
      var i := 0;
      while i < |comps|
        invariant 0 <= i <= |comps|
        invariant ParseSteps(d, comps, i, cur, lastEntry) == DiskModel.ParsePath(d, dest, lastEntry)
      {
        var c := comps[i];
        ghost var here := cur;
        if c == "" || c == "." {
          assert ParseSteps(d, comps, i, here, lastEntry) == ParseSteps(d, comps, i + 1, cur, lastEntry);
        } else if c == ".." {
          cur := GetParentCluster(cur);
          assert ParseSteps(d, comps, i, here, lastEntry) == ParseSteps(d, comps, i + 1, cur, lastEntry);
        } else if i == |comps| - 1 && lastEntry {
          assert ParseSteps(d, comps, i, here, lastEntry) == Ok(Located(cur, c));
          return Ok(Located(cur, c));
        } else {
          var next := FindDirectoryCluster(c, cur);
          if next.Err? {
            assert ParseSteps(d, comps, i, here, lastEntry) == Err(next.error);
            return Err(next.error);
          }
          if next.value == -1 {
            assert ParseSteps(d, comps, i, here, lastEntry) == Err(PathNotFound);
            return Err(PathNotFound);
          }
          cur := next.value;
          if i == |comps| - 1 {
            assert ParseSteps(d, comps, i, here, lastEntry) == Ok(Located(cur, c));
            return Ok(Located(cur, c));
          }
          assert ParseSteps(d, comps, i, here, lastEntry) == ParseSteps(d, comps, i + 1, cur, lastEntry);
        }
        i := i + 1;
      }
      return Ok(Located(cur, ""));
    }

    /** The freeing loop of RemoveDirectoryEntry: from `first` until END,
        read the next index from copy 1 and mark the current cluster FREE in
        both copies. */
    method FreeChain(first: int) returns (ok: bool)
      requires Valid()
      modifies this
      ensures Valid()
      ensures var w := FreeWalk(old(fat1), old(fat2), first);
        State() == old(State()).(fat1 := w.t1, fat2 := w.t2) && ok == w.ok
    {
      ghost var w0 := FreeWalk(fat1, fat2, first);
      var cur := first;
      while cur != END
        invariant Valid()
        invariant State() == old(State()).(fat1 := fat1, fat2 := fat2)
        invariant var w := FreeWalk(fat1, fat2, cur); w.t1 == w0.t1 && w.t2 == w0.t2 && w.ok == w0.ok
        decreases NonFree(fat1) + (if 0 <= cur < |fat1| then 1 else 0)
      {
        var next := ReadFatEntry(cur);
        if next.Err? {
          return false;
        }
        NonFreeUpdate(fat1, cur, FREE);
        var o := UpdateFatEntry(cur, FREE);
        cur := next.value;
      }
      return true;
    }

    /** RemoveDirectoryEntry: the guarded names and an absent name do
        nothing; a directory with an occupant is refused; otherwise the chain
        is freed and the slot is written back as the zero record. */
    method RemoveDirectoryEntry(c: int, name: string) returns (o: Outcome)
      requires Valid()
      modifies this
      ensures Valid()
      ensures Step(State(), o) == DiskModel.RemoveDirectoryEntry(old(State()), c, name)
    {
      ghost var d := State();
      if name == "." || name == ".." || name == "/" {
        return Pass;
      }
      var read := ReadDirectoryEntries(c);
      if read.Err? {
        return Fail(read.error);
      }
      var entries := read.value;
      assert InVolume(d, c) && entries == SlotsAt(d, c);
      var k := -1;
      var i := 0;
      while i < |entries|
        invariant 0 <= i <= |entries|
        invariant forall j :: 0 <= j < i ==> NameOfEntry(entries[j]) != name
        invariant k == -1
      {
        if NameOfEntry(entries[i]) == name {
          k := i;
          break;
        }
        i := i + 1;
      }
      if k == -1 {
        assert FindNamed(entries, name).None?;
        return Pass;
      }
      assert FindNamed(entries, name) == Some(k);
      assert DiskModel.RemoveDirectoryEntry(d, c, name) == RemoveSlot(d, c, k);
      o := RemoveAt(c, entries, k);
    }

    /** RemoveDirectoryEntry once the record has been found in slot `k`. */
    method RemoveAt(c: int, entries: seq<Entry>, k: int) returns (o: Outcome)
      requires Valid() && InVolume(State(), c) && entries == SlotsAt(State(), c) && 0 <= k < SLOTS
      modifies this
      ensures Valid()
      ensures Step(State(), o) == RemoveSlot(old(State()), c, k)
    {
      var e := entries[k];
      if e.isDirectory == 1 {
        var sub := ReadDirectoryEntries(e.firstCluster);
        if sub.Err? {
          return Fail(sub.error);
        }
        var subEntries := sub.value;
        var j := 0;
        while j < |subEntries|
          invariant 0 <= j <= |subEntries|
          invariant forall m :: 0 <= m < j ==> !IsOccupant(subEntries[m])
        {
          var n := NameOfEntry(subEntries[j]);
          if n != "." && n != ".." && !IsZero(subEntries[j]) {
            assert FindOccupant(subEntries).Some?;
            return Fail(NotEmpty);
          }
          j := j + 1;
        }
        assert FindOccupant(subEntries).None?;
      }
      var ok := FreeChain(e.firstCluster);
      if !ok {
        return Fail(VolumeIoError);
      }
      clusters := clusters[c := Dir(entries[k := ZERO_ENTRY])];
      return Pass;
    }

    /** ReadFileContents: whole clusters along the chain, the last one cut
        to the bytes still wanted, stopping early at END. */
    method ReadFileContents(start: int, size: int) returns (r: Result<seq<byte>>)
      ensures r == ReadFile(State(), start, size)
    {
      ghost var d := State();
      var contents: seq<byte> := [];
      var cur := start;
      var remaining := size;
      assert Prefixed(contents, ReadFile(d, cur, remaining)) == ReadFile(d, start, size) by {
        if ReadFile(d, cur, remaining).Ok? {
          assert [] + ReadFile(d, cur, remaining).value == ReadFile(d, cur, remaining).value;
        }
      }
      while remaining > 0
        invariant Prefixed(contents, ReadFile(d, cur, remaining)) == ReadFile(d, start, size)
        decreases remaining
      {
        if !InVolume(State(), cur) {
          return Err(VolumeIoError);
        }
        ghost var here := cur;
        ghost var before := contents;
        ghost var wanted := remaining;
        var n := if remaining < CLUSTER_SIZE then remaining else CLUSTER_SIZE;
        var buffer := BytesAt(State(), cur)[..n];
        contents := contents + buffer;
        remaining := remaining - n;
        if remaining <= 0 {
          assert ReadFile(d, here, wanted) == Ok(buffer);
          return Ok(contents);
        }
        var next := ReadFatEntry(cur);
        cur := next.value;
        if cur == END {
          assert ReadFile(d, here, wanted) == Ok(buffer);
          return Ok(contents);
        }
        assert ReadFile(d, here, wanted) == Prefixed(buffer, ReadFile(d, cur, remaining));
        if ReadFile(d, cur, remaining).Ok? {
          assert before + (buffer + ReadFile(d, cur, remaining).value)
              == contents + ReadFile(d, cur, remaining).value;
        }
      }
      assert contents + [] == contents;
      return Ok(contents);
    }

    /** WriteFileContents: each cluster takes the next CLUSTER_SIZE bytes and
        is marked END; while bytes remain, the lowest FREE cluster is linked
        after it and becomes the current one. */
    method WriteFileContents(start: int, data: seq<byte>) returns (o: Outcome)
      requires Valid()
      modifies this
      ensures Valid()
      ensures var w := WriteFile(old(State()), start, data); State() == w.disk && o == w.outcome
    {
      ghost var goal := WriteFile(State(), start, data);
      var cur := start;
      var rest := data;
      while |rest| > 0
        invariant Valid()
        invariant var w := WriteFile(State(), cur, rest); w.disk == goal.disk && w.outcome == goal.outcome
        decreases |rest|
      {
        if !InVolume(State(), cur) {
          return Fail(VolumeIoError);
        }
        var n := if |rest| < CLUSTER_SIZE then |rest| else CLUSTER_SIZE;
        clusters := clusters[cur := File(Overwrite(State(), cur, rest[..n]))];
        o := UpdateFatEntry(cur, END);
        rest := rest[n..];
        if |rest| == 0 {
          return Pass;
        }
        var next := FindFreeCluster();
        if next.None? {
          return Fail(NoSpace);
        }
        o := UpdateFatEntry(cur, next.value);
        cur := next.value;
      }
      return Pass;
    }

    /** CreateRootDirectory: END for the cluster, `.` and `..` naming itself,
        and the cluster becomes the current one. */
    method CreateRootDirectory(c: int)
      requires Valid()
      modifies this
      ensures Valid()
      ensures State() == DiskModel.CreateRootDirectory(old(State()), c).disk
    {
      var o := UpdateFatEntry(c, END);
      if o.Fail? {
        return;
      }
      SetCurrentAndParentDirectory(c, c);
      SetCurrentCluster(c);
    }

    /** Format: the superblock, the two tables as the loops fill them, then
        the root directory in the first FREE cluster. */
    constructor Format(mb: int)
      requires mb >= 1
      ensures Valid() && State() == Formatted(mb)
    {
      FormatGeometry(mb);
      format := FormatOf(mb);
      var t := InitialFat(FormatOf(mb));
      fat1 := t;
      fat2 := t;
      clusters := map[];
      currentCluster := 0;
      currentPath := "/";
      new;
      FormatMakesRoot(mb);
      var free := FindFreeCluster();
      CreateRootDirectory(free.value);
    }

    /** CreateDirectory: reject `.` and `..`, resolve the parent, reject a
        long or taken name, choose the first FREE cluster, record it in the
        parent, mark it END, and give it `.` and `..`. */
    method CreateDirectory(name: string) returns (o: Outcome)
      requires Valid()
      modifies this
      ensures Valid()
      ensures Step(State(), o) == DiskModel.CreateDirectory(old(State()), name)
    {
      if name == "." || name == ".." {
        return Fail(InvalidName);
      }
      var loc := ParsePath(name, true);
      if loc.Err? {
        return Fail(PathNotFound);
      }
      var p := loc.value.cluster;
      var leaf := loc.value.name;
      if |leaf| > MAX_FILE_NAME {
        return Fail(NameTooLong);
      }
      var taken := CheckIfDirectoryExists(p, leaf);
      if taken {
        return Fail(AlreadyExists);
      }
      var free := FindFreeCluster();
      if free.None? {
        return Fail(NoSpace);
      }
      var k := free.value;
      o := UpdateParentDirectory(p, Entry(NameOf(leaf), 0, k, 1));
      if o.Fail? {
        return;
      }
      o := UpdateFatEntry(k, END);
      if o.Fail? {
        return;
      }
      SetCurrentAndParentDirectory(k, p);
      return Pass;
    }
  }
}
