/** The in-memory prototype as values: one flat directory of named
    entries, a table of 1024 cluster links and 1024 cluster buffers of 512
    bytes, and each operation as a function from state to state. */
module ProtoModel {
  import opened Outcomes
  import opened Layout
  import opened Fat

  const PROTO_CLUSTER_SIZE: int := 512
  const MAX_CLUSTERS: int := 1024
  const PROTO_MAX_NAME: int := 12

  /** A directory entry of the prototype. */
  datatype ProtoEntry = ProtoEntry(name: string, size: int, firstCluster: int, isDirectory: bool)

  /** The state of the prototype as a value. */
  datatype Proto = Proto(fat: seq<int>, dir: map<string, ProtoEntry>, data: seq<seq<byte>>)

  /** The result of an operation: the new state and the outcome. */
  datatype ProtoStep = ProtoStep(state: Proto, outcome: Outcome)

  /** One buffer per table entry. */
  ghost predicate Shaped(p: Proto) {
    |p.fat| == |p.data|
  }

  function Zeros(n: nat): (r: seq<byte>)
    ensures |r| == n && forall i :: 0 <= i < n ==> r[i] == 0
  {
    seq(n, _ => 0 as byte)
  }

  /** Go's `copy(dst, src)`: the first `min(len(dst), len(src))` bytes of
      `dst` are replaced. */
  function GoCopy(dst: seq<byte>, src: seq<byte>): (r: seq<byte>)
    ensures |r| == |dst|
    ensures forall i :: 0 <= i < |r| ==> r[i] == if i < |src| then src[i] else dst[i]
  {
    if |src| >= |dst| then src[..|dst|] else src + dst[|src|..]
  }

  /** The state Init builds: every link FREE, no entries, zero buffers. */
  function Initial(): (p: Proto)
    ensures Shaped(p)
  {
    Proto(seq(MAX_CLUSTERS, _ => FREE), map[], seq(MAX_CLUSTERS, _ => Zeros(PROTO_CLUSTER_SIZE)))
  }

  /** Number of clusters inCp fills for `len` bytes. */
  function ChunkCount(len: nat): nat {
    (len + PROTO_CLUSTER_SIZE - 1) / PROTO_CLUSTER_SIZE
  }

  /** Bytes `[i*512, min((i+1)*512, len))` of `data`. */
  function Chunk(data: seq<byte>, i: nat): seq<byte>
    requires i < ChunkCount(|data|)
  {
    var start := i * PROTO_CLUSTER_SIZE;
    var end := if start + PROTO_CLUSTER_SIZE > |data| then |data| else start + PROTO_CLUSTER_SIZE;
    data[start..end]
  }

  /** The state of inCp's loop after its steps from `i` on. */
  datatype Filled = Filled(fat: seq<int>, data: seq<seq<byte>>, cur: int, ok: bool)

  /** The loop of inCp from step `i` with current cluster `cur`: every step
      after the first takes the lowest FREE cluster, links the current one
      to it and moves there; every step copies its chunk into the current
      cluster. The current cluster is marked only after the loop, so the
      second step finds the first cluster still FREE. */
  function Fill(fat: seq<int>, cd: seq<seq<byte>>, data: seq<byte>, i: nat, cur: int): (r: Filled)
    requires |fat| == |cd| && 0 <= cur < |fat| && i <= ChunkCount(|data|)
    ensures |r.fat| == |fat| && |r.data| == |cd| && 0 <= r.cur < |fat|
    decreases ChunkCount(|data|) - i
  {
    if i == ChunkCount(|data|) then Filled(fat, cd, cur, true)
    else if i > 0 && FirstFree(fat).None? then Filled(fat, cd, cur, false)
    else
      var next := if i > 0 then FirstFree(fat).value as int else cur;
      var linked := if i > 0 then fat[cur := next] else fat;
      Fill(linked, cd[next := GoCopy(cd[next], Chunk(data, i))], data, i + 1, next)
  }

  /** inCp: store `data` under `filename`. */
  function InCp(p: Proto, filename: string, data: seq<byte>): (r: ProtoStep)
    requires Shaped(p)
    ensures Shaped(r.state)
  {
    if |filename| > PROTO_MAX_NAME then ProtoStep(p, Fail(NameTooLong))
    else if filename in p.dir then ProtoStep(p, Fail(AlreadyExists))
    else match FirstFree(p.fat)
      case None => ProtoStep(p, Fail(NoSpace))
      case Some(first) =>
        var f := Fill(p.fat, p.data, data, 0, first);
        if !f.ok then ProtoStep(Proto(f.fat, p.dir, f.data), Fail(NoSpace))
        else ProtoStep(Proto(f.fat[f.cur := END], p.dir[filename := ProtoEntry(filename, |data|, first, false)], f.data), Pass)
  }

  /** The buffers of clusters `l`, in order, end to end. */
  function Concat(cd: seq<seq<byte>>, l: seq<int>): seq<byte>
    requires forall k :: 0 <= k < |l| ==> 0 <= l[k] < |cd|
  {
    if |l| == 0 then [] else Concat(cd, l[..|l| - 1]) + cd[l[|l| - 1]]
  }

  /** The chain loop of cat and copyFile from `first`: the buffers up to END.
      An index outside the table panics; a walk longer than the table has
      entries is cut off. */
  function ChainBytes(p: Proto, first: int): Result<seq<byte>>
    requires Shaped(p)
  {
    var w := ChainFrom(p.fat, first, |p.fat|);
    match w.stop
    case AtEnd => Ok(Concat(p.data, w.clusters))
    case Stray(_) => Err(IndexOutOfRange)
    case OutOfFuel => Err(CorruptedChain)
  }

  /** The state of the chain loop of cat and copyFile after visiting
      `listed`: `out` holds their buffers, and what is left of the walk from
      `cur` completes the walk from `first`. */
  ghost predicate Reading(t: seq<int>, cd: seq<seq<byte>>, first: int, listed: seq<int>, out: seq<byte>, cur: int, fuel: nat) {
    && |t| == |cd| && fuel <= |t|
    && (forall k :: 0 <= k < |listed| ==> 0 <= listed[k] < |t|)
    && out == Concat(cd, listed)
    && Walking(t, first, listed, cur, fuel)
  }

  /** One step of the chain loop keeps `Reading`. */
  lemma ReadingStep(t: seq<int>, cd: seq<seq<byte>>, first: int, listed: seq<int>, out: seq<byte>, cur: int, fuel: nat)
    requires Reading(t, cd, first, listed, out, cur, fuel)
    requires 0 <= cur < |t| && fuel > 0
    ensures Reading(t, cd, first, listed + [cur], out + cd[cur], t[cur], fuel - 1)
  {
    WalkingStep(t, first, listed, cur, fuel);
    assert (listed + [cur])[..|listed|] == listed;
  }

  /** cat: the file's chain, printed. */
  function Cat(p: Proto, filename: string): Result<seq<byte>>
    requires Shaped(p)
  {
    if filename !in p.dir then Err(FileNotFound) else ChainBytes(p, p.dir[filename].firstCluster)
  }

  /** rm: free the chain while walking it, then drop the entry. */
  function Rm(p: Proto, filename: string): (r: ProtoStep)
    requires Shaped(p)
    ensures Shaped(r.state)
  {
    if filename !in p.dir then ProtoStep(p, Fail(FileNotFound))
    else
      var w := FreeWalk(p.fat, p.fat, p.dir[filename].firstCluster);
      if !w.ok then ProtoStep(Proto(w.t1, p.dir, p.data), Fail(IndexOutOfRange))
      else ProtoStep(Proto(w.t1, p.dir - {filename}, p.data), Pass)
  }

  /** makeDirectory: an entry of size 0 whose first cluster is END; its
      directory flag is left false. */
  function MakeDirectory(p: Proto, dirname: string): ProtoStep {
    if dirname in p.dir then ProtoStep(p, Fail(AlreadyExists))
    else ProtoStep(p.(dir := p.dir[dirname := ProtoEntry(dirname, 0, END, false)]), Pass)
  }

  /** `prefix` is a prefix of `s` (`strings.HasPrefix`). */
  predicate HasPrefix(s: string, prefix: string) {
    |prefix| <= |s| && s[..|prefix|] == prefix
  }

  /** removeDirectory: refused when any name starts with `dirname`,
      otherwise the key is deleted. */
  function RemoveDirectory(p: Proto, dirname: string): ProtoStep {
    if exists name :: name in p.dir && HasPrefix(name, dirname) then ProtoStep(p, Fail(NotEmpty))
    else ProtoStep(p.(dir := p.dir - {dirname}), Pass)
  }

  /** moveFile: the entry is filed under the new name, unchanged (its name
      field still holds the old name). A taken destination is reported with
      the text "PATH NOT FOUND"; the model calls it AlreadyExists. */
  function MoveFile(p: Proto, src: string, dest: string): ProtoStep {
    if src !in p.dir then ProtoStep(p, Fail(FileNotFound))
    else if dest in p.dir then ProtoStep(p, Fail(AlreadyExists))
    else ProtoStep(p.(dir := p.dir[dest := p.dir[src]] - {src}), Pass)
  }

  /** copyFile: the whole buffers of the source chain go through inCp. A
      taken destination is reported as in moveFile. */
  function CopyFile(p: Proto, src: string, dest: string): (r: ProtoStep)
    requires Shaped(p)
    ensures Shaped(r.state)
  {
    if src !in p.dir then ProtoStep(p, Fail(FileNotFound))
    else if dest in p.dir then ProtoStep(p, Fail(AlreadyExists))
    else match ChainBytes(p, p.dir[src].firstCluster)
      case Err(e) => ProtoStep(p, Fail(e))
      case Ok(bytes) => InCp(p, dest, bytes)
  }

  // ------------------------------------------------------------- lemmas

  /** inCp refuses a long name or a present one before touching anything. */
  lemma InCpRejects(p: Proto, filename: string, data: seq<byte>)
    requires Shaped(p)
    ensures |filename| > PROTO_MAX_NAME ==> InCp(p, filename, data) == ProtoStep(p, Fail(NameTooLong))
    ensures |filename| <= PROTO_MAX_NAME && filename in p.dir ==> InCp(p, filename, data) == ProtoStep(p, Fail(AlreadyExists))
    ensures InCp(p, filename, data).outcome == Fail(NoSpace) && FirstFree(p.fat).None? ==> InCp(p, filename, data).state == p
  {
  }

  /** inCp of at most one cluster of data: the data goes into the lowest
      FREE cluster, which is marked END, and the entry records the length.
      Empty data still takes one END cluster. */
  lemma InCpSmall(p: Proto, filename: string, data: seq<byte>)
    requires Shaped(p) && |filename| <= PROTO_MAX_NAME && filename !in p.dir
    requires |data| <= PROTO_CLUSTER_SIZE && FirstFree(p.fat).Some?
    ensures var k := FirstFree(p.fat).value;
      InCp(p, filename, data) == ProtoStep(Proto(
        p.fat[k := END],
        p.dir[filename := ProtoEntry(filename, |data|, k, false)],
        if |data| == 0 then p.data else p.data[k := GoCopy(p.data[k], data)]), Pass)
  {
    var k := FirstFree(p.fat).value;
    if |data| > 0 {
      assert ChunkCount(|data|) == 1;
      assert Chunk(data, 0) == data;
      var f := Fill(p.fat, p.data[k := GoCopy(p.data[k], data)], data, 1, k);
      assert Fill(p.fat, p.data, data, 0, k) == f;
    } else {
      assert ChunkCount(0) == 0;
    }
  }

  /** The quirk of the second allocation: for data of more than one and at
      most two clusters, the second step finds the first cluster still FREE,
      links it to itself and copies the second chunk over the first. The
      file ends up with a single END cluster holding its second half. */
  lemma InCpSecondClusterOverwritesFirst(p: Proto, filename: string, data: seq<byte>)
    requires Shaped(p) && |filename| <= PROTO_MAX_NAME && filename !in p.dir
    requires PROTO_CLUSTER_SIZE < |data| <= 2 * PROTO_CLUSTER_SIZE && FirstFree(p.fat).Some?
    ensures var k := FirstFree(p.fat).value;
      var r := InCp(p, filename, data);
      && r.outcome == Pass
      && r.state.fat == p.fat[k := END]
      && r.state.dir[filename] == ProtoEntry(filename, |data|, k, false)
      && r.state.data == p.data[k := GoCopy(GoCopy(p.data[k], data[..PROTO_CLUSTER_SIZE]), data[PROTO_CLUSTER_SIZE..])]
  {
    var k := FirstFree(p.fat).value;
    assert ChunkCount(|data|) == 2;
    assert Chunk(data, 0) == data[..PROTO_CLUSTER_SIZE];
    assert Chunk(data, 1) == data[PROTO_CLUSTER_SIZE..];
    var cd1 := p.data[k := GoCopy(p.data[k], data[..PROTO_CLUSTER_SIZE])];
    var f1 := Fill(p.fat, cd1, data, 1, k);
    assert Fill(p.fat, p.data, data, 0, k) == f1;
    assert FirstFree(p.fat) == Some(k);
    var cd2 := cd1[k := GoCopy(cd1[k], data[PROTO_CLUSTER_SIZE..])];
    assert f1 == Fill(p.fat[k := k], cd2, data, 2, k);
    assert Fill(p.fat[k := k], cd2, data, 2, k) == Filled(p.fat[k := k], cd2, k, true);
    assert p.fat[k := k][k := END] == p.fat[k := END];
    assert cd2 == p.data[k := GoCopy(GoCopy(p.data[k], data[..PROTO_CLUSTER_SIZE]), data[PROTO_CLUSTER_SIZE..])];
  }

  /** On a fresh system a file of at most one cluster reads back as its
      bytes followed by the zero rest of the cluster. */
  lemma FreshInCpThenCat(filename: string, data: seq<byte>)
    requires |filename| <= PROTO_MAX_NAME && 0 < |data| <= PROTO_CLUSTER_SIZE
    ensures var r := InCp(Initial(), filename, data);
      r.outcome == Pass && Cat(r.state, filename) == Ok(data + Zeros(PROTO_CLUSTER_SIZE - |data|))
  {
    var p := Initial();
    assert p.fat[0] == FREE;
    assert FirstFree(p.fat) == Some(0);
    InCpSmall(p, filename, data);
    var r := InCp(p, filename, data);
    assert IsChain(r.state.fat, [0]);
    ClusterCountIsEnoughFuel(r.state.fat, [0]);
    assert Concat(r.state.data, [0]) == GoCopy(Zeros(PROTO_CLUSTER_SIZE), data);
    assert GoCopy(Zeros(PROTO_CLUSTER_SIZE), data) == data + Zeros(PROTO_CLUSTER_SIZE - |data|);
  }

  /** rm undoes inCp of at most one cluster: the table and the directory
      are as before; only the buffer written keeps the data. */
  lemma InCpThenRmRestores(p: Proto, filename: string, data: seq<byte>)
    requires Shaped(p) && |filename| <= PROTO_MAX_NAME && filename !in p.dir
    requires |data| <= PROTO_CLUSTER_SIZE && FirstFree(p.fat).Some?
    ensures var r := InCp(p, filename, data).state;
      var back := Rm(r, filename);
      && back.outcome == Pass
      && back.state.fat == p.fat && back.state.dir == p.dir
      && back.state.data == r.data
  {
    var k := FirstFree(p.fat).value;
    InCpSmall(p, filename, data);
    var r := InCp(p, filename, data).state;
    assert IsChain(r.fat, [k]);
    RmFreesChain(r, filename, [k]);
    var back := Rm(r, filename).state;
    assert forall i :: 0 <= i < |p.fat| ==> back.fat[i] == p.fat[i];
    assert r.dir - {filename} == p.dir;
  }

  /** rm of a missing name changes nothing; rm of a file whose links form a
      well-formed chain frees exactly that chain and drops the entry. */
  lemma RmFreesChain(p: Proto, filename: string, chain: seq<int>)
    requires Shaped(p)
    ensures filename !in p.dir ==> Rm(p, filename) == ProtoStep(p, Fail(FileNotFound))
    ensures filename in p.dir && IsChain(p.fat, chain) && chain[0] == p.dir[filename].firstCluster ==>
      var r := Rm(p, filename);
      && r.outcome == Pass
      && r.state.dir == p.dir - {filename} && r.state.data == p.data
      && |r.state.fat| == |p.fat|
      && forall i :: 0 <= i < |p.fat| ==> r.state.fat[i] == if i in chain then FREE else p.fat[i]
  {
    if filename in p.dir && IsChain(p.fat, chain) && chain[0] == p.dir[filename].firstCluster {
      FreeWalkFreesChain(p.fat, p.fat, chain);
      var w := FreeWalk(p.fat, p.fat, chain[0]);
      forall i | 0 <= i < |p.fat|
        ensures Rm(p, filename).state.fat[i] == if i in chain then FREE else p.fat[i]
      {
        if i in chain {
          var j :| 0 <= j < |chain| && chain[j] == i;
          assert w.t1[w.visited[j]] == FREE;
        }
      }
    }
  }

  /** moveFile refuses a missing source or a taken destination; otherwise
      the destination holds the source's entry, the source name is gone and
      the number of entries is the same. */
  lemma MoveKeepsCount(p: Proto, src: string, dest: string)
    ensures src !in p.dir ==> MoveFile(p, src, dest) == ProtoStep(p, Fail(FileNotFound))
    ensures src in p.dir && dest in p.dir ==> MoveFile(p, src, dest) == ProtoStep(p, Fail(AlreadyExists))
    ensures src in p.dir && dest !in p.dir ==>
      var r := MoveFile(p, src, dest).state;
      && r.dir[dest] == p.dir[src] && src !in r.dir
      && |r.dir| == |p.dir|
      && forall n :: n != src && n != dest ==> (n in r.dir <==> n in p.dir) && (n in p.dir ==> r.dir[n] == p.dir[n])
  {
    if src in p.dir && dest !in p.dir {
      var m := p.dir[dest := p.dir[src]];
      assert m.Keys == p.dir.Keys + {dest};
      assert |m.Keys| == |p.dir.Keys| + 1;
      assert (m - {src}).Keys == m.Keys - {src};
      assert |(m - {src}).Keys| == |m.Keys| - 1;
    }
  }

  /** makeDirectory adds an empty entry unless the name is present. */
  lemma MakeDirectoryAdds(p: Proto, dirname: string)
    ensures dirname in p.dir ==> MakeDirectory(p, dirname) == ProtoStep(p, Fail(AlreadyExists))
    ensures dirname !in p.dir ==>
      var r := MakeDirectory(p, dirname).state;
      && r.fat == p.fat && r.data == p.data
      && r.dir.Keys == p.dir.Keys + {dirname}
      && r.dir[dirname].size == 0 && r.dir[dirname].firstCluster == END
  {
  }

  /** removeDirectory never deletes a present key: every name is a prefix
      of itself. Its map is unchanged in every case. */
  lemma RemoveDirectoryNeverDeletes(p: Proto, dirname: string)
    ensures dirname in p.dir ==> RemoveDirectory(p, dirname) == ProtoStep(p, Fail(NotEmpty))
    ensures RemoveDirectory(p, dirname).state == p
  {
    if dirname in p.dir {
      assert HasPrefix(dirname, dirname);
    } else {
      assert p.dir - {dirname} == p.dir;
    }
  }

  /** copyFile refuses like moveFile; otherwise it stores the whole buffers
      of the source chain, so a completed copy of a file records a size that
      is a whole number of clusters. */
  lemma CopyFileStoresWholeClusters(p: Proto, src: string, dest: string, chain: seq<int>)
    requires Shaped(p) && (forall i :: 0 <= i < |p.data| ==> |p.data[i]| == PROTO_CLUSTER_SIZE)
    ensures src !in p.dir ==> CopyFile(p, src, dest) == ProtoStep(p, Fail(FileNotFound))
    ensures src in p.dir && dest in p.dir ==> CopyFile(p, src, dest) == ProtoStep(p, Fail(AlreadyExists))
    ensures src in p.dir && dest !in p.dir && IsChain(p.fat, chain) && chain[0] == p.dir[src].firstCluster ==>
      && CopyFile(p, src, dest) == InCp(p, dest, Concat(p.data, chain))
      && |Concat(p.data, chain)| == |chain| * PROTO_CLUSTER_SIZE
  {
    if src in p.dir && dest !in p.dir && IsChain(p.fat, chain) && chain[0] == p.dir[src].firstCluster {
      ClusterCountIsEnoughFuel(p.fat, chain);
      ConcatLength(p.data, chain);
    }
  }

  lemma {:induction false} ConcatLength(cd: seq<seq<byte>>, l: seq<int>)
    requires forall k :: 0 <= k < |l| ==> 0 <= l[k] < |cd|
    requires forall i :: 0 <= i < |cd| ==> |cd[i]| == PROTO_CLUSTER_SIZE
    ensures |Concat(cd, l)| == |l| * PROTO_CLUSTER_SIZE
    decreases |l|
  {
    if |l| > 0 {
      ConcatLength(cd, l[..|l| - 1]);
    }
  }

}
