/** Directory records: the fixed-size entry stored in directory clusters, the
    12-byte name field with Go's `copy` and `bytes.Trim` semantics, the slot
    searches that the engine's loops perform, and the packed write-back of
    the parent-directory update. A name byte is modelled as one `char`. */
module Records {
  import opened Outcomes
  import opened Search
  import opened Layout

  const NUL: char := '\0'

  /** Size of one record: 12 name bytes, two 4-byte integers, one flag byte. */
  const RECORD_SIZE: int := 21

  /** Records read from one directory cluster: CLUSTER_SIZE / RECORD_SIZE. */
  const SLOTS: int := 48

  lemma SlotsFillCluster()
    ensures SLOTS == CLUSTER_SIZE / RECORD_SIZE
    ensures SLOTS * RECORD_SIZE <= CLUSTER_SIZE < (SLOTS + 1) * RECORD_SIZE
  {
  }

  /** The fixed-size name field of a record. */
  type NameField = s: seq<char> | |s| == MAX_FILE_NAME witness [NUL, NUL, NUL, NUL, NUL, NUL, NUL, NUL, NUL, NUL, NUL, NUL]

  datatype Entry = Entry(name: NameField, size: int, firstCluster: int, isDirectory: byte)

  const ZERO_NAME: NameField := [NUL, NUL, NUL, NUL, NUL, NUL, NUL, NUL, NUL, NUL, NUL, NUL]

  /** The all-zero record, `DirectoryEntry{}`. */
  const ZERO_ENTRY: Entry := Entry(ZERO_NAME, 0, 0, 0)

  /** IsZeroEntry: an unused slot. Only the first name byte, the size and the
      first cluster are looked at. */
  predicate IsZero(e: Entry) {
    e.name[0] == NUL && e.size == 0 && e.firstCluster == 0
  }

  /** `copy(field[:], s)` into a zeroed field: the first 12 bytes of `s`,
      padded with NUL. */
  function NameOf(s: string): (r: NameField)
    ensures forall i :: 0 <= i < MAX_FILE_NAME ==> r[i] == if i < |s| then s[i] else NUL
  {
    if |s| >= MAX_FILE_NAME then s[..MAX_FILE_NAME] else s + seq(MAX_FILE_NAME - |s|, _ => NUL)
  }

  function TrimLeft(s: string): string {
    if |s| > 0 && s[0] == NUL then TrimLeft(s[1..]) else s
  }

  function TrimRight(s: string): string {
    if |s| > 0 && s[|s| - 1] == NUL then TrimRight(s[..|s| - 1]) else s
  }

  /** TrimLeft removes exactly the leading NULs. */
  lemma {:induction false} TrimLeftShape(s: string)
    ensures var r := TrimLeft(s);
      && |r| <= |s| && r == s[|s| - |r|..]
      && (|r| > 0 ==> r[0] != NUL)
      && forall i :: 0 <= i < |s| - |r| ==> s[i] == NUL
  {
    if |s| > 0 && s[0] == NUL {
      TrimLeftShape(s[1..]);
    }
  }

  /** TrimRight removes exactly the trailing NULs. */
  lemma {:induction false} TrimRightShape(s: string)
    ensures var r := TrimRight(s);
      && |r| <= |s| && r == s[..|r|]
      && (|r| > 0 ==> r[|r| - 1] != NUL)
      && forall i :: |r| <= i < |s| ==> s[i] == NUL
  {
    if |s| > 0 && s[|s| - 1] == NUL {
      TrimRightShape(s[..|s| - 1]);
    }
  }

  /** `bytes.Trim(name, "\x00")`: NULs removed from both ends. */
  function Trim(s: string): string {
    TrimRight(TrimLeft(s))
  }

  /** The name a record answers to in every lookup. */
  function NameOfEntry(e: Entry): string {
    Trim(e.name)
  }

  predicate NoNul(s: string) {
    forall i :: 0 <= i < |s| ==> s[i] != NUL
  }

  /** A name without NUL bytes that fits the field is read back unchanged; a
      longer one is read back cut to its first 12 bytes. */
  lemma NameRoundTrip(s: string)
    requires NoNul(s)
    ensures |s| <= MAX_FILE_NAME ==> Trim(NameOf(s)) == s
    ensures |s| > MAX_FILE_NAME ==> Trim(NameOf(s)) == s[..MAX_FILE_NAME]
  {
    var f := NameOf(s);
    var k := if |s| <= MAX_FILE_NAME then |s| else MAX_FILE_NAME;
    var l := TrimLeft(f);
    TrimLeftShape(f);
    TrimRightShape(l);
    if k == 0 {
      // the field is all NUL and trims to nothing
      assert l == [];
      assert Trim(f) == TrimRight([]);
    } else {
      // nothing is trimmed on the left
      assert f[0] != NUL;
      assert l == f;
      var r := TrimRight(l);
      // exactly the padding is trimmed on the right
      assert f[k - 1] != NUL;
      assert forall i :: k <= i < |f| ==> f[i] == NUL;
      assert |r| == k;
      assert r == s[..k];
    }
  }

  /** The record `.` written into slot 0 of a new directory. */
  function DotEntry(c: int): Entry {
    Entry(NameOf("."), 0, c, 1)
  }

  /** The record `..` written into slot 1 of a new directory. */
  function DotDotEntry(parent: int): Entry {
    Entry(NameOf(".."), 0, parent, 1)
  }

  /** A cluster of zero records. */
  function ZeroSlots(): (r: seq<Entry>)
    ensures |r| == SLOTS && forall i :: 0 <= i < SLOTS ==> r[i] == ZERO_ENTRY
  {
    seq(SLOTS, i => ZERO_ENTRY)
  }

  /** A new directory cluster: `.`, `..`, then zeros to the end. */
  function NewDirectory(c: int, parent: int): (r: seq<Entry>)
    ensures |r| == SLOTS
    ensures r[0] == DotEntry(c) && r[1] == DotDotEntry(parent)
    ensures forall i :: 2 <= i < SLOTS ==> r[i] == ZERO_ENTRY
  {
    [DotEntry(c), DotDotEntry(parent)] + ZeroSlots()[2..]
  }

  lemma DotNames(c: int, parent: int)
    ensures NameOfEntry(DotEntry(c)) == "." && NameOfEntry(DotDotEntry(parent)) == ".."
    ensures !IsZero(DotEntry(c)) && !IsZero(DotDotEntry(parent))
  {
    NameRoundTrip(".");
    NameRoundTrip("..");
  }

  /** The first slot answering to `name`, zero slots included
      (FindDirectoryCluster, FindEntry, the removal search). */
  function FindNamed(slots: seq<Entry>, name: string): (r: Option<nat>)
    ensures r.Some? ==> r.value < |slots| && NameOfEntry(slots[r.value]) == name
    ensures r.Some? ==> forall j :: 0 <= j < r.value ==> NameOfEntry(slots[j]) != name
    ensures r.None? <==> forall j :: 0 <= j < |slots| ==> NameOfEntry(slots[j]) != name
  {
    FirstWhere(slots, (e: Entry) => NameOfEntry(e) == name)
  }

  /** The first non-zero slot answering to `name` (CheckIfDirectoryExists,
      BugTest). */
  function FindLiveNamed(slots: seq<Entry>, name: string): (r: Option<nat>)
    ensures r.Some? ==> r.value < |slots| && !IsZero(slots[r.value]) && NameOfEntry(slots[r.value]) == name
    ensures r.Some? ==> forall j :: 0 <= j < r.value ==> IsZero(slots[j]) || NameOfEntry(slots[j]) != name
    ensures r.None? <==> forall j :: 0 <= j < |slots| ==> IsZero(slots[j]) || NameOfEntry(slots[j]) != name
  {
    FirstWhere(slots, (e: Entry) => !IsZero(e) && NameOfEntry(e) == name)
  }

  /** A scan that stops at the first non-zero match computes FindLiveNamed. */
  lemma FindLiveNamedAt(slots: seq<Entry>, name: string, i: nat)
    requires i < |slots| && !IsZero(slots[i]) && NameOfEntry(slots[i]) == name
    requires forall j :: 0 <= j < i ==> IsZero(slots[j]) || NameOfEntry(slots[j]) != name
    ensures FindLiveNamed(slots, name) == Some(i)
  {
    var r := FindLiveNamed(slots, name);
    assert r.Some?;
    assert !(r.value < i);
  }

  /** The first directory record answering to `name` (the cd traversal). */
  function FindDirNamed(slots: seq<Entry>, name: string): (r: Option<nat>)
    ensures r.Some? ==> r.value < |slots| && slots[r.value].isDirectory == 1 && NameOfEntry(slots[r.value]) == name
    ensures r.Some? ==> forall j :: 0 <= j < r.value ==> slots[j].isDirectory != 1 || NameOfEntry(slots[j]) != name
    ensures r.None? <==> forall j :: 0 <= j < |slots| ==> slots[j].isDirectory != 1 || NameOfEntry(slots[j]) != name
  {
    FirstWhere(slots, (e: Entry) => e.isDirectory == 1 && NameOfEntry(e) == name)
  }

  /** The first zero slot. */
  function FindZero(slots: seq<Entry>): (r: Option<nat>)
    ensures r.Some? ==> r.value < |slots| && IsZero(slots[r.value])
    ensures r.Some? ==> forall j :: 0 <= j < r.value ==> !IsZero(slots[j])
    ensures r.None? <==> forall j :: 0 <= j < |slots| ==> !IsZero(slots[j])
  {
    FirstWhere(slots, IsZero)
  }

  /** A record that keeps a directory from being removed: not zero and not
      named `.` or `..`. */
  predicate IsOccupant(e: Entry) {
    NameOfEntry(e) != "." && NameOfEntry(e) != ".." && !IsZero(e)
  }

  function FindOccupant(slots: seq<Entry>): (r: Option<nat>)
    ensures r.Some? ==> r.value < |slots| && IsOccupant(slots[r.value])
    ensures r.None? <==> forall j :: 0 <= j < |slots| ==> !IsOccupant(slots[j])
  {
    FirstWhere(slots, IsOccupant)
  }

  /** A freshly made directory has no occupant. */
  lemma NewDirectoryIsEmpty(c: int, parent: int)
    ensures FindOccupant(NewDirectory(c, parent)) == None
  {
    var s := NewDirectory(c, parent);
    DotNames(c, parent);
    assert IsZero(ZERO_ENTRY);
    forall j | 0 <= j < |s|
      ensures !IsOccupant(s[j])
    {
      if j >= 2 { assert s[j] == ZERO_ENTRY; }
    }
    FirstWhereNone(s, IsOccupant);
  }

  /** The non-zero records of `slots`, in order. */
  function Live(slots: seq<Entry>): (r: seq<Entry>)
    ensures |r| <= |slots|
    ensures forall i :: 0 <= i < |r| ==> !IsZero(r[i]) && r[i] in slots
  {
    if |slots| == 0 then []
    else (if IsZero(slots[0]) then [] else [slots[0]]) + Live(slots[1..])
  }

  /** Collecting the non-zero records front to back: one more record
      extends the collection exactly when it is non-zero. */
  lemma {:induction false} LiveAppend(s: seq<Entry>, x: Entry)
    ensures Live(s + [x]) == Live(s) + (if IsZero(x) then [] else [x])
    decreases |s|
  {
    if |s| == 0 {
      assert Live([x]) == (if IsZero(x) then [] else [x]) + Live([]);
    } else {
      assert (s + [x])[1..] == s[1..] + [x];
      LiveAppend(s[1..], x);
    }
  }

  /** The cluster after the parent-directory write-back: the non-zero records
      of `entries` packed from slot 0, and whatever `onDisk` held after them. */
  function WriteBack(onDisk: seq<Entry>, entries: seq<Entry>): (r: seq<Entry>)
    requires |entries| <= |onDisk|
    ensures |r| == |onDisk|
  {
    Live(entries) + onDisk[|Live(entries)|..]
  }

  /** `k` splits `s` into non-zero records followed by zero records. */
  ghost predicate CompactAt(s: seq<Entry>, k: int) {
    && 0 <= k <= |s|
    && (forall i :: 0 <= i < k ==> !IsZero(s[i]))
    && (forall i :: k <= i < |s| ==> IsZero(s[i]))
  }

  lemma {:induction false} LiveOfCompact(s: seq<Entry>, k: int)
    requires CompactAt(s, k)
    ensures Live(s) == s[..k]
    decreases |s|
  {
    if |s| > 0 {
      if k == 0 {
        assert CompactAt(s[1..], 0);
        LiveOfCompact(s[1..], 0);
      } else {
        assert CompactAt(s[1..], k - 1);
        LiveOfCompact(s[1..], k - 1);
        assert s[..k] == [s[0]] + s[1..][..k - 1];
      }
    }
  }

  /** On a directory whose records are packed with no hole, adding a record
      at the first zero slot and writing back packed is the plain slot write. */
  lemma WriteBackOfCompact(prev: seq<Entry>, e: Entry)
    requires !IsZero(e)
    requires FindZero(prev).Some? && CompactAt(prev, FindZero(prev).value)
    ensures var k := FindZero(prev).value;
      WriteBack(prev, prev[k := e]) == prev[k := e]
  {
    var k := FindZero(prev).value;
    var s := prev[k := e];
    if k + 1 < |prev| {
      assert CompactAt(s, k + 1);
    } else {
      assert CompactAt(s, |s|);
    }
    var m := if k + 1 < |prev| then k + 1 else |s|;
    LiveOfCompact(s, m);
    assert m == k + 1;
    assert Live(s) + prev[k + 1..] == s;
  }

  /** With a hole before a later record, the packed write-back leaves that
      later record twice in the cluster: `[A, zero, zero, B]` plus `N` is
      written back as `[A, N, B, B]`. */
  lemma WriteBackDuplicates(a: Entry, b: Entry, n: Entry)
    requires !IsZero(a) && !IsZero(b) && !IsZero(n)
    ensures var prev := [a, ZERO_ENTRY, ZERO_ENTRY, b];
      && FindZero(prev) == Some(1)
      && WriteBack(prev, prev[1 := n]) == [a, n, b, b]
  {
    var prev := [a, ZERO_ENTRY, ZERO_ENTRY, b];
    assert IsZero(ZERO_ENTRY);
    assert IsFirst(prev, IsZero, 1);
    FirstWhereIs(prev, IsZero, 1);
    assert Live(prev[1 := n]) == [a, n, b] by {
      assert prev[1 := n] == [a, n, ZERO_ENTRY, b];
      assert Live([b]) == [b];
      assert Live([ZERO_ENTRY, b]) == [b] by { assert [ZERO_ENTRY, b][1..] == [b]; }
      assert Live([n, ZERO_ENTRY, b]) == [n, b] by { assert [n, ZERO_ENTRY, b][1..] == [ZERO_ENTRY, b]; }
      assert [a, n, ZERO_ENTRY, b][1..] == [n, ZERO_ENTRY, b];
    }
  }
}
