/** The shell commands over a live volume: each method makes the engine calls
    the Go command in commands.go makes, in the same order, and is proved to leave
    the volume in exactly the state the value model of the command gives. */
module Commands {
  import opened Outcomes
  import opened Fat
  import opened Records
  import opened Paths
  import opened DiskModel
  import opened Engine
  import CommandModel

  /** The shared tail of `cp` and `mv`: read the source contents, take the
      first FREE cluster, write the contents there, then add the record. */
  method CopyInto(v: Volume, e: Entry, dir: int, name: NameField) returns (o: Outcome)
    requires v.Valid()
    modifies v
    ensures v.Valid()
    ensures Step(v.State(), o) == CommandModel.CopyInto(old(v.State()), e, dir, name)
  {
    var contents := v.ReadFileContents(e.firstCluster, e.size);
    if contents.Err? {
      return Fail(contents.error);
    }
    var free := v.FindFreeCluster();
    if free.None? {
      return Fail(NoSpace);
    }
    o := v.WriteFileContents(free.value, contents.value);
    if o.Fail? {
      return;
    }
    o := v.WriteDirectoryEntry(dir, Entry(name, e.size, free.value, e.isDirectory));
  }

  /** CopyFile. */
  method CopyFile(v: Volume, src: string, dest: string) returns (o: Outcome)
    requires v.Valid()
    modifies v
    ensures v.Valid()
    ensures Step(v.State(), o) == CommandModel.CopyFile(old(v.State()), src, dest)
  {
    var s := v.ParsePath(src, true);
    if s.Err? {
      return Fail(PathNotFound);
    }
    var e := v.FindEntry(s.value.name, s.value.cluster);
    if e.Err? {
      return Fail(FileNotFound);
    }
    if e.value.isDirectory == 1 {
      return Fail(IsADirectory);
    }
    var t := v.ParsePath(dest, true);
    if t.Err? {
      return Fail(PathNotFound);
    }
    var taken := v.CheckIfDirectoryExists(t.value.cluster, t.value.name);
    if taken {
      return Fail(AlreadyExists);
    }
    o := CopyInto(v, e.value, t.value.cluster, NameOf(t.value.name));
  }

  /** MoveFile: an unresolvable source path is only reported, and the
      lookup goes on with cluster -1 and the empty name. */
  method MoveFile(v: Volume, src: string, dest: string) returns (o: Outcome)
    requires v.Valid()
    modifies v
    ensures v.Valid()
    ensures Step(v.State(), o) == CommandModel.MoveFile(old(v.State()), src, dest)
  {
    var parsed := v.ParsePath(src, true);
    var s := if parsed.Ok? then parsed.value else Located(-1, "");
    var e := v.FindEntry(s.name, s.cluster);
    if e.Err? {
      return Fail(FileNotFound);
    }
    if e.value.isDirectory == 1 {
      return Fail(IsADirectory);
    }
    var t := v.ParsePath(dest, true);
    if t.Err? {
      return Fail(PathNotFound);
    }
    var found := v.FindEntry(t.value.name, t.value.cluster);
    var rename := found.Err?;
    if !rename && found.value.isDirectory != 1 {
      return Fail(NotADirectory);
    }
    var target := if rename then t.value.cluster else found.value.firstCluster;
    var name := if rename then NameOf(t.value.name) else NameOf(src);
    o := CopyInto(v, e.value, target, name);
    if o.Fail? {
      return;
    }
    o := v.RemoveDirectoryEntry(s.cluster, s.name);
  }

  /** RemoveFile. */
  method RemoveFile(v: Volume, file: string) returns (o: Outcome)
    requires v.Valid()
    modifies v
    ensures v.Valid()
    ensures Step(v.State(), o) == CommandModel.RemoveFile(old(v.State()), file)
  {
    var l := v.ParsePath(file, true);
    if l.Err? {
      return Fail(PathNotFound);
    }
    var e := v.FindEntry(l.value.name, l.value.cluster);
    if e.Err? {
      return Fail(FileNotFound);
    }
    if IsZero(e.value) {
      return Fail(FileNotFound);
    }
    o := v.RemoveDirectoryEntry(l.value.cluster, l.value.name);
  }

  /** RemoveDirectory. */
  method RemoveDirectory(v: Volume, dir: string) returns (o: Outcome)
    requires v.Valid()
    modifies v
    ensures v.Valid()
    ensures Step(v.State(), o) == CommandModel.RemoveDirectory(old(v.State()), dir)
  {
    var l := v.ParsePath(dir, true);
    if l.Err? {
      return Fail(PathNotFound);
    }
    o := v.RemoveDirectoryEntry(l.value.cluster, l.value.name);
  }

  /** The component walk of ChangePath from cluster `start`: `.` and empty
      components are skipped, `..` follows slot 1, and any other component
      is searched for among the directory records of the current cluster. */
  method Traverse(v: Volume, comps: seq<string>, start: int) returns (r: Result<int>)
    ensures r == CommandModel.Descend(v.State(), comps, 0, start)
  {
    ghost var d := v.State();
    var cur := start;
    var i := 0;
    while i < |comps|
      invariant 0 <= i <= |comps|
      invariant CommandModel.Descend(d, comps, i, cur) == CommandModel.Descend(d, comps, 0, start)
    {
      var c := comps[i];
      if c == "." || c == "" {
        i := i + 1;
        continue;
      }
      if c == ".." {
        cur := v.GetParentCluster(cur);
        i := i + 1;
        continue;
      }
      var read := v.ReadDirectoryEntries(cur);
      if read.Err? {
        assert CommandModel.Descend(d, comps, i, cur) == Err(VolumeIoError);
        return Err(read.error);
      }
      var entries := read.value;
      assert InVolume(d, cur) && entries == SlotsAt(d, cur);
      var found := FindDirectoryRecord(entries, c);
      if found.None? {
        assert CommandModel.Descend(d, comps, i, cur) == Err(PathNotFound);
        return Err(PathNotFound);
      }
      var j := found.value;
      assert CommandModel.Descend(d, comps, i, cur) == CommandModel.Descend(d, comps, i + 1, entries[j].firstCluster);
      cur := entries[j].firstCluster;
      i := i + 1;
    }
    return Ok(cur);
  }

  /** The scan of ChangePath over one directory cluster: the first
      directory record with the component's name. */
  method FindDirectoryRecord(entries: seq<Entry>, name: string) returns (r: Option<nat>)
    ensures r == FindDirNamed(entries, name)
  {
    var j := 0;
    while j < |entries|
      invariant 0 <= j <= |entries|
      invariant forall k :: 0 <= k < j ==> entries[k].isDirectory != 1 || NameOfEntry(entries[k]) != name
    {
      if entries[j].isDirectory == 1 && NameOfEntry(entries[j]) == name {
        return Some(j);
      }
      j := j + 1;
    }
    return None;
  }

  /** ChangePath: `/` goes to the root; otherwise the walk runs from the
      current cluster, and the cursor and path move only when it succeeds. */
  method ChangePath(v: Volume, path: string) returns (o: Outcome)
    requires v.Valid() && path != ""
    modifies v
    ensures v.Valid()
    ensures Step(v.State(), o) == CommandModel.ChangePath(old(v.State()), path)
  {
    if path == "/" {
      v.SetCurrentCluster(Layout.Root(v.format));
      v.SetCurrentPath(path);
      return Pass;
    }
    ghost var d := v.State();
    var p := if path[0] == SLASH then path[1..] else path;
    assert CommandModel.ChangePath(d, path) == CommandModel.ChangeBy(d, p);
    var r := Traverse(v, Split(p), v.currentCluster);
    if r.Err? {
      return Fail(r.error);
    }
    v.SetCurrentCluster(r.value);
    v.SetCurrentPath(p);
    NextPathKeepsShape(d.path, p);
    return Pass;
  }

  /** PrintInformation: print each cluster of the chain from the record's
      first cluster until END. The walk is cut off after as many clusters
      as the table has entries. */
  method PrintInformation(v: Volume, src: string) returns (listed: seq<int>, o: Outcome)
    ensures CommandModel.Listing(listed, o) == CommandModel.PrintInformation(v.State(), src)
  {
    var l := v.ParsePath(src, true);
    if l.Err? {
      return [], Fail(PathNotFound);
    }
    var e := v.FindEntry(l.value.name, l.value.cluster);
    if e.Err? {
      return [], Fail(e.error);
    }
    listed, o := ListChain(v, e.value.firstCluster);
  }

  /** The chain loop of PrintInformation from `first`. */
  method ListChain(v: Volume, first: int) returns (listed: seq<int>, o: Outcome)
    ensures CommandModel.Listing(listed, o) == CommandModel.ChainListing(v.fat1, first)
  {
    ghost var t := v.fat1;
    var cur := first;
    var fuel: nat := |v.fat1|;
    listed := [];
    WalkingStarts(t, first);
    while cur != END
      invariant Walking(t, first, listed, cur, fuel)
      decreases fuel
    {
      var next := v.ReadFatEntry(cur);
      if next.Err? {
        CommandModel.ChainListingStops(t, first, listed, cur, fuel);
        return listed + [cur], Fail(VolumeIoError);
      }
      if fuel == 0 {
        CommandModel.ChainListingStops(t, first, listed, cur, fuel);
        return listed, Fail(CorruptedChain);
      }
      WalkingStep(t, first, listed, cur, fuel);
      listed := listed + [cur];
      cur := next.value;
      fuel := fuel - 1;
      if cur == END {
        break;
      }
    }
    CommandModel.ChainListingStops(t, first, listed, cur, fuel);
    return listed, Pass;
  }

  /** BugTest: find the first non-zero record with the file's name and mark
      the table entry of its first cluster BAD. */
  method BugTest(v: Volume, file: string) returns (o: Outcome)
    requires v.Valid()
    modifies v
    ensures v.Valid()
    ensures Step(v.State(), o) == CommandModel.BugTest(old(v.State()), file)
  {
    ghost var d := v.State();
    var l := v.ParsePath(file, true);
    if l.Err? {
      return Fail(l.error);
    }
    var dir, name := l.value.cluster, l.value.name;
    assert CommandModel.BugTest(d, file) == CommandModel.BugTestIn(d, dir, name);
    var read := v.ReadDirectoryEntries(dir);
    if read.Err? {
      return Fail(read.error);
    }
    var entries := read.value;
    assert InVolume(d, dir) && entries == SlotsAt(d, dir);
    var found := FindLiveRecord(entries, name);
    var start := if found.Some? then entries[found.value].firstCluster else -1;
    assert start == CommandModel.BugStart(d, dir, name);
    if start == -1 {
      return Fail(FileNotFound);
    }
    o := v.UpdateFatEntry(start, BAD);
  }

  /** The scan of BugTest over the directory cluster: the first non-zero
      record with the file's name. */
  method FindLiveRecord(entries: seq<Entry>, name: string) returns (r: Option<nat>)
    ensures r == FindLiveNamed(entries, name)
  {
    var i := 0;
    while i < |entries|
      invariant 0 <= i <= |entries|
      invariant forall j :: 0 <= j < i ==> IsZero(entries[j]) || NameOfEntry(entries[j]) != name
    {
      if !IsZero(entries[i]) && NameOfEntry(entries[i]) == name {
        FindLiveNamedAt(entries, name, i);
        return Some(i);
      }
      i := i + 1;
    }
    assert FindLiveNamed(entries, name).None?;
    return None;
  }

  /** CheckForBugs: every index where either copy holds BAD, in order. */
  method CheckForBugs(v: Volume) returns (bad: seq<int>)
    requires v.Valid()
    ensures bad == CommandModel.CheckForBugs(v.State())
  {
    var t1, t2 := v.fat1, v.fat2;
    bad := [];
    var i := 0;
    while i < |t1|
      invariant 0 <= i <= |t1| <= |t2|
      invariant bad == BadBelow(t1, t2, i)
    {
      if t1[i] == BAD || t2[i] == BAD {
        bad := bad + [i];
      }
      i := i + 1;
    }
  }
}
