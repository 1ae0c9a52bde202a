/**
 * The virtual-file table: six root-level files, each a contiguous range of flash
 * sectors, looked up by exact path. The whole-flash and root-partition entries get
 * their sizes from the flash geometry once the device has been queried.
 */
module Table {
  import opened Wire

  datatype Option<T> = None | Some(value: T)

  datatype Result<T> = Ok(value: T) | Err(code: int)

  /** Bytes per flash sector. */
  const SECTOR: nat := 0x200

  const ENOENT: int := 2

  // Partition layout of the Rockchip boot flow, in sectors
  const LOADER1_START: nat := 0x40
  const LOADER2_START: nat := 0x4000
  const TRUST_START: nat := 0x6000
  const BOOT_START: nat := 0x8000
  const ROOT_START: nat := 0x40000

  const LOADER1_SIZE: nat := LOADER2_START - LOADER1_START
  const LOADER2_SIZE: nat := TRUST_START - LOADER2_START
  const TRUST_SIZE: nat := BOOT_START - TRUST_START
  const BOOT_SIZE: nat := ROOT_START - BOOT_START

  /** Positions of the two entries sized from the flash geometry. */
  const FILE_FULL: nat := 0
  const FILE_ROOT: nat := 5

  datatype Entry = Entry(vpath: string, start: nat, count: nat)

  /** vfile_tab as compiled in: the whole-flash and root sizes are still zero. */
  function Initial(): (t: seq<Entry>)
  {
    [ Entry("/full.img", 0, 0),
      Entry("/loader1.img", LOADER1_START, LOADER1_SIZE),
      Entry("/loader2.img", LOADER2_START, LOADER2_SIZE),
      Entry("/trust.img", TRUST_START, TRUST_SIZE),
      Entry("/boot.img", BOOT_START, BOOT_SIZE),
      Entry("/root.img", ROOT_START, 0) ]
  }

  /** Paths are absolute, name something below the root, and no two entries share one. */
  ghost predicate WellFormed(tab: seq<Entry>)
  {
    && (forall i :: 0 <= i < |tab| ==> |tab[i].vpath| >= 2 && tab[i].vpath[0] == '/')
    && (forall i, j :: 0 <= i < j < |tab| ==> tab[i].vpath != tab[j].vpath)
  }

  /** get_vfile_entry_by_path: the position of the first entry whose path is exactly `path`. */
  function Find(tab: seq<Entry>, path: string): (r: Option<nat>)
    ensures r.Some? ==> r.value < |tab| && tab[r.value].vpath == path
    ensures r.Some? ==> forall j :: 0 <= j < r.value ==> tab[j].vpath != path
    ensures r.None? ==> forall j :: 0 <= j < |tab| ==> tab[j].vpath != path
  {
    if tab == [] then None
    else if tab[0].vpath == path then Some(0)
    else match Find(tab[1..], path)
      case None => None
      case Some(i) => Some(i + 1)
  }

  datatype Stat = Directory | Regular(size: nat)

  /** rockfuse_getattr: the root is a directory, a table path a regular file of its sector range's size. */
  function GetAttr(tab: seq<Entry>, path: string): (r: Result<Stat>)
    ensures path == "/" ==> r == Ok(Directory)
    ensures r.Ok? || r == Err(-ENOENT)
    ensures path != "/" ==> (r == Err(-ENOENT) <==> forall i :: 0 <= i < |tab| ==> tab[i].vpath != path)
    ensures path != "/" && r.Ok? ==>
      exists i :: 0 <= i < |tab| && tab[i].vpath == path && r.value == Regular(tab[i].count * SECTOR)
  {
    if path == "/" then Ok(Directory)
    else match Find(tab, path)
      case None => Err(-ENOENT)
      case Some(i) => Ok(Regular(tab[i].count * SECTOR))
  }

  /** rockfuse_open: succeeds exactly for table paths. */
  function Open(tab: seq<Entry>, path: string): (r: int)
    ensures r == 0 <==> exists i :: 0 <= i < |tab| && tab[i].vpath == path
    ensures r != 0 ==> r == -ENOENT
  {
    if Find(tab, path).None? then -ENOENT else 0
  }

  /** Every table path with its leading '/' dropped, in table order. */
  function Names(tab: seq<Entry>): (names: seq<string>)
    requires forall i :: 0 <= i < |tab| ==> |tab[i].vpath| >= 1
  {
    if tab == [] then [] else [tab[0].vpath[1..]] + Names(tab[1..])
  }

  /** rockfuse_readdir: the root lists ".", ".." and the table's names; any other path is not found. */
  function ReadDir(tab: seq<Entry>, path: string): (r: Result<seq<string>>)
    requires forall i :: 0 <= i < |tab| ==> |tab[i].vpath| >= 1
  {
    if path != "/" then Err(-ENOENT) else Ok([".", ".."] + Names(tab))
  }

  /** The backpatch of rockfuse_init: full covers the flash, root the rest after ROOT_START, in 32-bit arithmetic. */
  function Backpatched(tab: seq<Entry>, flashSize: uint32): (t: seq<Entry>)
    requires |tab| == 6
  {
    tab[FILE_FULL := tab[FILE_FULL].(count := flashSize)]
       [FILE_ROOT := tab[FILE_ROOT].(count := (flashSize - ROOT_START) % 0x1_0000_0000)]
  }

  // ---------------------------------------------------------------- lemmas

  lemma {:induction false} NamesAt(tab: seq<Entry>, i: nat)
    requires forall j :: 0 <= j < |tab| ==> |tab[j].vpath| >= 1
    requires i < |tab|
    ensures |Names(tab)| == |tab| && Names(tab)[i] == tab[i].vpath[1..]
  {
    if i > 0 {
      NamesAt(tab[1..], i - 1);
    } else if |tab| > 1 {
      NamesAt(tab[1..], 0);
    }
  }

  /** Every name readdir lists resolves, with '/' put back in front, to the entry it came from. */
  lemma {:induction false} ListedNamesResolve(tab: seq<Entry>, i: nat)
    requires WellFormed(tab) && i < |tab|
    ensures ReadDir(tab, "/").Ok? && |ReadDir(tab, "/").value| == |tab| + 2
    ensures var name := ReadDir(tab, "/").value[i + 2];
      Find(tab, "/" + name) == Some(i) && GetAttr(tab, "/" + name) == Ok(Regular(tab[i].count * SECTOR))
  {
    NamesAt(tab, i);
    var name := ReadDir(tab, "/").value[i + 2];
    assert name == tab[i].vpath[1..];
    assert "/" + name == tab[i].vpath;
    var r := Find(tab, tab[i].vpath);
    assert r.Some? && r.value == i;
    assert tab[i].vpath != "/";
  }

  /** The fixed partitions follow each other without gap or overlap, and boot ends where root starts. */
  lemma FixedPartitionsContiguous()
    ensures var t := Initial();
      forall i :: 1 <= i < 5 ==> t[i].start + t[i].count == t[i + 1].start
    ensures Initial()[4].start + Initial()[4].count == ROOT_START
  {
  }

  lemma InitialWellFormed()
    ensures WellFormed(Initial())
  {
  }

  lemma {:induction false} BackpatchKeepsPaths(tab: seq<Entry>, flashSize: uint32)
    requires |tab| == 6 && WellFormed(tab)
    ensures WellFormed(Backpatched(tab, flashSize))
    ensures forall i :: 0 <= i < 6 ==> Backpatched(tab, flashSize)[i].vpath == tab[i].vpath
    ensures forall i :: 0 <= i < 6 ==> Backpatched(tab, flashSize)[i].start == tab[i].start
  {
    var t := Backpatched(tab, flashSize);
    assert forall i :: 0 <= i < 6 ==> t[i].vpath == tab[i].vpath;
  }

  /**
   * After the backpatch of a flash of at least ROOT_START sectors, full.img covers the whole
   * flash, every entry lies inside it, and root.img ends exactly where full.img ends.
   */
  lemma {:induction false} BackpatchedLayout(flashSize: uint32)
    requires flashSize >= ROOT_START
    ensures var t := Backpatched(Initial(), flashSize);
      && t[FILE_FULL] == Entry("/full.img", 0, flashSize)
      && t[FILE_ROOT] == Entry("/root.img", ROOT_START, flashSize - ROOT_START)
      && t[FILE_ROOT].start + t[FILE_ROOT].count == t[FILE_FULL].start + t[FILE_FULL].count
      && (forall i :: 0 <= i < 6 ==> t[i].start + t[i].count <= flashSize)
      && (forall i :: 1 <= i < 5 ==> t[i].start + t[i].count == t[i + 1].start)
  {
    var t := Backpatched(Initial(), flashSize);
    assert (flashSize - ROOT_START) % 0x1_0000_0000 == flashSize - ROOT_START;
    assert t[1..5] == Initial()[1..5];
  }

  /** On a flash smaller than ROOT_START sectors the 32-bit subtraction wraps, and root.img runs past the end of the flash. */
  lemma {:induction false} SmallFlashRootWraps(flashSize: uint32)
    requires flashSize < ROOT_START
    ensures var t := Backpatched(Initial(), flashSize);
      t[FILE_ROOT].count == flashSize + 0x1_0000_0000 - ROOT_START
      && t[FILE_ROOT].start + t[FILE_ROOT].count > t[FILE_FULL].count
  {
    assert (flashSize - ROOT_START) % 0x1_0000_0000 == flashSize + 0x1_0000_0000 - ROOT_START;
  }
}
