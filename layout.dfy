/** Layout calculator: the superblock (FileSystemFormat) that `CalculateFS`
    derives from the requested volume size, and the mapping from cluster index
    to byte offset used by every positioned read and write. */
module Layout {

  const CLUSTER_SIZE: int := 1024
  const FAT_ENTRY: int := 4
  const MAX_FILE_NAME: int := 12
  const MIB: int := 1024 * 1024

  /** One byte of the backing file. */
  newtype byte = x: int | 0 <= x < 256

  /** Go's `/` on integers, which truncates toward zero. */
  function Quot(a: int, b: int): int
    requires b > 0
  {
    if a >= 0 then a / b else -((-a) / b)
  }

  /** The superblock written once at format time. */
  datatype FileSystemFormat = FileSystemFormat(
    fileSize: int,
    fatSize: int,
    fatClusterCount: int,
    clusterCount: int,
    fat1Start: int,
    fat2Start: int,
    dataStart: int)

  function CalculateFS(fileSize: int): (f: FileSystemFormat)
    ensures f.fileSize == fileSize
    // the volume is cut into whole clusters, the remainder is unused
    ensures fileSize >= 0 ==>
      0 <= f.clusterCount && f.clusterCount * CLUSTER_SIZE <= fileSize < (f.clusterCount + 1) * CLUSTER_SIZE
    // one table copy takes the fewest clusters that hold one entry per cluster
    ensures f.fatSize == FAT_ENTRY * f.clusterCount
    ensures fileSize >= 0 ==>
      (f.fatClusterCount - 1) * CLUSTER_SIZE < f.fatSize <= f.fatClusterCount * CLUSTER_SIZE
    // boot cluster, then table 1, then table 2, then the data region
    ensures f.fat1Start == CLUSTER_SIZE
    ensures f.fat2Start - f.fat1Start == f.fatClusterCount * CLUSTER_SIZE
    ensures f.dataStart - f.fat2Start == f.fatClusterCount * CLUSTER_SIZE
  {
    var clusterCount := Quot(fileSize, CLUSTER_SIZE);
    var fatSize := clusterCount * FAT_ENTRY;
    var fatClusterCount := Quot(fatSize + CLUSTER_SIZE - 1, CLUSTER_SIZE);
    var fat1Start := CLUSTER_SIZE;
    var fat2Start := fat1Start + fatClusterCount * CLUSTER_SIZE;
    var dataStart := fat2Start + fatClusterCount * CLUSTER_SIZE;
    FileSystemFormat(fileSize, fatSize, fatClusterCount, clusterCount, fat1Start, fat2Start, dataStart)
  }

  /** The superblock of a volume formatted with `mb` mebibytes. */
  function FormatOf(mb: int): FileSystemFormat {
    CalculateFS(mb * MIB)
  }

  /** The root directory's cluster: `data_start / CLUSTER_SIZE`. */
  function Root(f: FileSystemFormat): int {
    f.dataStart / CLUSTER_SIZE
  }

  /** Byte offset of cluster `c`: `data_start + (c - 2*fcc - 1) * CLUSTER_SIZE`. */
  function ClusterOffset(f: FileSystemFormat, c: int): int {
    f.dataStart + (c - 2 * f.fatClusterCount - 1) * CLUSTER_SIZE
  }

  /** The first data cluster is the root, index `2*fcc + 1`, at `data_start`;
      the offset formula is the identity `c * CLUSTER_SIZE`, so distinct
      clusters occupy disjoint byte ranges. */
  lemma OffsetIsIdentity(fileSize: int, c: int, d: int)
    ensures var f := CalculateFS(fileSize);
      && Root(f) == 2 * f.fatClusterCount + 1
      && ClusterOffset(f, Root(f)) == f.dataStart
      && ClusterOffset(f, c) == c * CLUSTER_SIZE
      && (c != d ==>
            || ClusterOffset(f, c) + CLUSTER_SIZE <= ClusterOffset(f, d)
            || ClusterOffset(f, d) + CLUSTER_SIZE <= ClusterOffset(f, c))
  {
    var f := CalculateFS(fileSize);
    assert f.dataStart == (2 * f.fatClusterCount + 1) * CLUSTER_SIZE;
  }

  /** Every data cluster `c` with `Root <= c < clusterCount` lies between
      `data_start` and the end of the volume. */
  lemma DataClusterInVolume(fileSize: int, c: int)
    requires fileSize >= 0
    requires Root(CalculateFS(fileSize)) <= c < CalculateFS(fileSize).clusterCount
    ensures var f := CalculateFS(fileSize);
      f.dataStart <= ClusterOffset(f, c) && ClusterOffset(f, c) + CLUSTER_SIZE <= fileSize
  {
    OffsetIsIdentity(fileSize, c, c);
  }

  /** The geometry of a volume of `mb` >= 1 mebibytes: 1024 clusters per
      mebibyte, four table clusters per copy per mebibyte, and a root that
      leaves room for data. */
  lemma FormatGeometry(mb: int)
    requires mb >= 1
    ensures var f := FormatOf(mb);
      && f.clusterCount == 1024 * mb
      && f.fatClusterCount == 4 * mb
      && Root(f) == 8 * mb + 1
      && Root(f) < f.clusterCount
  {
    var f := FormatOf(mb);
    assert mb * MIB == (1024 * mb) * CLUSTER_SIZE;
    assert f.clusterCount == 1024 * mb;
    assert f.fatSize + CLUSTER_SIZE - 1 == (4 * mb) * CLUSTER_SIZE + 1023;
    assert f.fatClusterCount == 4 * mb;
    OffsetIsIdentity(mb * MIB, 0, 0);
  }
}
