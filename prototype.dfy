/** The prototype as a live object: the allocation table and the cluster
    buffers are arrays updated in place, the directory a map field the
    methods reassign. Each method is proved to reach the state the value
    function of the same name in ProtoModel gives. */
module Prototype {
  import opened Outcomes
  import opened Layout
  import opened Fat
  import opened ProtoModel

  class FileSystem {
    const fatTable: array<int>
    var directory: map<string, ProtoEntry>
    const clusterData: array<seq<byte>>

    function State(): Proto
      reads this, fatTable, clusterData
    {
      Proto(fatTable[..], directory, clusterData[..])
    }

    ghost predicate Valid()
      reads this
    {
      fatTable.Length == clusterData.Length
    }

    /** Init: every link FREE, an empty directory, zero buffers. */
    constructor Init()
      ensures Valid() && State() == Initial()
      ensures fatTable.Length == MAX_CLUSTERS
      ensures fresh(fatTable) && fresh(clusterData)
    {
      var t := new int[MAX_CLUSTERS];
      var i := 0;
      while i < MAX_CLUSTERS
        invariant 0 <= i <= MAX_CLUSTERS
        invariant forall j :: 0 <= j < i ==> t[j] == FREE
      {
        t[i] := FREE;
        i := i + 1;
      }
      var c := new seq<byte>[MAX_CLUSTERS];
      i := 0;
      while i < MAX_CLUSTERS
        invariant 0 <= i <= MAX_CLUSTERS
        invariant forall j :: 0 <= j < i ==> c[j] == Zeros(PROTO_CLUSTER_SIZE)
        modifies c
      {
        c[i] := Zeros(PROTO_CLUSTER_SIZE);
        i := i + 1;
      }
      fatTable := t;
      directory := map[];
      clusterData := c;
      new;
      assert forall j :: 0 <= j < MAX_CLUSTERS ==> fatTable[..][j] == Initial().fat[j];
      assert fatTable[..] == Initial().fat;
      assert forall j :: 0 <= j < MAX_CLUSTERS ==> clusterData[..][j] == Initial().data[j];
      assert clusterData[..] == Initial().data;
    }

    /** findFreeCluster: the lowest FREE index. */
    method FindFreeCluster() returns (r: Option<nat>)
      ensures r == FirstFree(fatTable[..])
    {
      var i := 0;
      while i < fatTable.Length
        invariant 0 <= i <= fatTable.Length
        invariant forall j :: 0 <= j < i ==> fatTable[j] != FREE
      {
        if fatTable[i] == FREE {
          assert FirstFree(fatTable[..]) == Some(i) by {
            var f := FirstFree(fatTable[..]);
            assert f.Some?;
            assert !(f.value < i);
          }
          return Some(i);
        }
        i := i + 1;
      }
      return None;
    }

    /** inCp. */
    method InCp(filename: string, data: seq<byte>) returns (o: Outcome)
      requires Valid()
      modifies this, fatTable, clusterData
      ensures Valid()
      ensures ProtoStep(State(), o) == ProtoModel.InCp(old(State()), filename, data)
    {
      if |filename| > PROTO_MAX_NAME {
        return Fail(NameTooLong);
      }
      if filename in directory {
        return Fail(AlreadyExists);
      }
      var numClusters := (|data| + PROTO_CLUSTER_SIZE - 1) / PROTO_CLUSTER_SIZE;
      var firstCluster := FindFreeCluster();
      if firstCluster.None? {
        return Fail(NoSpace);
      }
      ghost var goal := Fill(fatTable[..], clusterData[..], data, 0, firstCluster.value);
      var currentCluster: int := firstCluster.value;
      var i := 0;
      while i < numClusters
        invariant 0 <= i <= numClusters && numClusters == ChunkCount(|data|)
        invariant 0 <= currentCluster < fatTable.Length
        invariant directory == old(directory)
        invariant Fill(fatTable[..], clusterData[..], data, i, currentCluster) == goal
      {
        ghost var t, cd, prev := fatTable[..], clusterData[..], currentCluster;
        if i > 0 {
          var newCluster := FindFreeCluster();
          if newCluster.None? {
            assert Fill(t, cd, data, i, prev) == Filled(t, cd, prev, false);
            return Fail(NoSpace);
          }
          fatTable[currentCluster] := newCluster.value;
          currentCluster := newCluster.value;
          assert fatTable[..] == t[prev := currentCluster];
        }
        var start := i * PROTO_CLUSTER_SIZE;
        var end := start + PROTO_CLUSTER_SIZE;
        if end > |data| {
          end := |data|;
        }
        assert data[start..end] == Chunk(data, i);
        clusterData[currentCluster] := GoCopy(clusterData[currentCluster], data[start..end]);
        assert clusterData[..] == cd[currentCluster := GoCopy(cd[currentCluster], Chunk(data, i))];
        assert Fill(t, cd, data, i, prev) == Fill(fatTable[..], clusterData[..], data, i + 1, currentCluster);
        i := i + 1;
      }
      assert goal == Filled(fatTable[..], clusterData[..], currentCluster, true);
      fatTable[currentCluster] := END;
      directory := directory[filename := ProtoEntry(filename, |data|, firstCluster.value, false)];
      return Pass;
    }

    /** The chain loop of cat and copyFile: append each buffer until END. */
    method ReadChain(first: int) returns (r: Result<seq<byte>>)
      requires Valid()
      ensures r == ChainBytes(State(), first)
    {
      ghost var t, cd := fatTable[..], clusterData[..];
      ghost var listed: seq<int> := [];
      var out: seq<byte> := [];
      var cur := first;
      var fuel: nat := fatTable.Length;
      WalkingStarts(t, first);
      while cur != END
        invariant Reading(t, cd, first, listed, out, cur, fuel)
        decreases fuel
      {
        if !(0 <= cur < fatTable.Length) {
          WalkingStops(t, first, listed, cur, fuel);
          return Err(IndexOutOfRange);
        }
        if fuel == 0 {
          WalkingStops(t, first, listed, cur, fuel);
          return Err(CorruptedChain);
        }
        ReadingStep(t, cd, first, listed, out, cur, fuel);
        out := out + clusterData[cur];
        listed := listed + [cur];
        cur := fatTable[cur];
        fuel := fuel - 1;
      }
      WalkingStops(t, first, listed, cur, fuel);
      return Ok(out);
    }

    /** cat. */
    method Cat(filename: string) returns (r: Result<seq<byte>>)
      requires Valid()
      ensures r == ProtoModel.Cat(State(), filename)
    {
      if filename !in directory {
        return Err(FileNotFound);
      }
      r := ReadChain(directory[filename].firstCluster);
    }

    /** rm: each step reads the next link, frees the current cluster and
        moves on; then the entry is deleted. */
    method Rm(filename: string) returns (o: Outcome)
      requires Valid()
      modifies this, fatTable
      ensures Valid()
      ensures ProtoStep(State(), o) == ProtoModel.Rm(old(State()), filename)
    {
      if filename !in directory {
        return Fail(FileNotFound);
      }
      ghost var goal := FreeWalk(fatTable[..], fatTable[..], directory[filename].firstCluster);
      var currentCluster := directory[filename].firstCluster;
      while currentCluster != END
        invariant directory == old(directory)
        invariant var w := FreeWalk(fatTable[..], fatTable[..], currentCluster);
          w.t1 == goal.t1 && w.ok == goal.ok
        decreases NonFree(fatTable[..]) + (if 0 <= currentCluster < fatTable.Length then 1 else 0)
      {
        if !(0 <= currentCluster < fatTable.Length) {
          return Fail(IndexOutOfRange);
        }
        var nextCluster := fatTable[currentCluster];
        NonFreeUpdate(fatTable[..], currentCluster, FREE);
        fatTable[currentCluster] := FREE;
        currentCluster := nextCluster;
      }
      directory := directory - {filename};
      return Pass;
    }

    method MakeDirectory(dirname: string) returns (o: Outcome)
      modifies this
      ensures ProtoStep(State(), o) == ProtoModel.MakeDirectory(old(State()), dirname)
    {
      if dirname in directory {
        return Fail(AlreadyExists);
      }
      directory := directory[dirname := ProtoEntry(dirname, 0, END, false)];
      return Pass;
    }

    /** removeDirectory: look at every name for `dirname` as a prefix. */
    method RemoveDirectory(dirname: string) returns (o: Outcome)
      modifies this
      ensures ProtoStep(State(), o) == ProtoModel.RemoveDirectory(old(State()), dirname)
    {
      var names := directory.Keys;
      while names != {}
        invariant names <= directory.Keys && directory == old(directory)
        invariant forall n :: n in directory.Keys - names ==> !HasPrefix(n, dirname)
        decreases |names|
      {
        var name :| name in names;
        if HasPrefix(name, dirname) {
          return Fail(NotEmpty);
        }
        names := names - {name};
      }
      directory := directory - {dirname};
      return Pass;
    }

    method MoveFile(src: string, dest: string) returns (o: Outcome)
      modifies this
      ensures ProtoStep(State(), o) == ProtoModel.MoveFile(old(State()), src, dest)
    {
      if src !in directory {
        return Fail(FileNotFound);
      }
      var entry := directory[src];
      if dest in directory {
        return Fail(AlreadyExists);
      }
      directory := directory[dest := entry];
      directory := directory - {src};
      return Pass;
    }

    /** copyFile: read the source chain, then inCp under the new name. */
    method CopyFile(src: string, dest: string) returns (o: Outcome)
      requires Valid()
      modifies this, fatTable, clusterData
      ensures Valid()
      ensures ProtoStep(State(), o) == ProtoModel.CopyFile(old(State()), src, dest)
    {
      if src !in directory {
        return Fail(FileNotFound);
      }
      if dest in directory {
        return Fail(AlreadyExists);
      }
      var data := ReadChain(directory[src].firstCluster);
      if data.Err? {
        return Fail(data.error);
      }
      o := InCp(dest, data.value);
    }
  }
}
