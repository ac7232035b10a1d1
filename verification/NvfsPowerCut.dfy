/** A power cut during a call: whatever sector write was the last, the drive mounts as before, and the
    file that was being written has its old or its new bytes. */
module NvfsPowerCut {
  import opened Bytes
  import opened NvfsFormat
  import opened NvfsImage
  import opened NvfsVolume
  import opened NvfsDriver
  import opened NvfsExtents
  import opened NvfsTree
  import opened NvfsNamespace
  import opened NvfsUpdates
  import opened NvfsApi
  import opened NvfsReadBack
  import opened NvfsMount

  /** A file as the drives in a machine show it: the first place that nvfs_mount accepts carries a
      sound volume, on which the path leads to a file. */
  ghost predicate Shows(drives: seq<Option<Image>>, k: nat, g: Geo, leaked: set<nat>, depth: map<nat, nat>,
                        path: seq<byte>)
  {
    && |drives| == 4 && k < 8 && FirstPlace(drives, k, g) && drives[k / 2].Some?
    && GeoOk(g, |drives[k / 2].value|) && Sound(View(g, drives[k / 2].value), leaked, depth)
    && ZeroFree(path) && NameFits(path)
    && PathTo(View(g, drives[k / 2].value), path).Present?
    && NodeAt(FsView(View(g, drives[k / 2].value)), PathTo(View(g, drives[k / 2].value), path).inode).File?
  }

  ghost function PathTo(v: Vol, path: seq<byte>): Place { Seek(FsView(v), |v.inodes|, ROOT, path) }

  /** The bytes of the file that the path leads to. */
  ghost function BytesAt(v: Vol, path: seq<byte>): seq<byte> {
    var node := if PathTo(v, path).Present? then NodeAt(FsView(v), PathTo(v, path).inode) else Odd(TYPE_FREE);
    if node.File? then node.bytes else []
  }

  /** The image after the first `cut` sector writes; all of them if there are not so many. */
  method ImageAfter(dr: Drive, first: Image, cut: nat) returns (image: Image)
    requires dr.Logged() && first == dr.boot
    ensures SameHead(dr.geo, dr.boot, image) && GeoOk(dr.geo, |image|)
    ensures cut == 0 ==> image == first
    ensures 0 < cut <= |dr.trail| ==> View(dr.geo, image) == dr.trail[cut - 1]
    ensures cut > |dr.trail| ==> image == dr.disk
  {
    hide View;
    image := if cut == 0 then first else if cut <= |dr.history| then dr.history[cut - 1] else dr.disk;
  }

  /** After every sector write since the mount, nvfs_mount finds at the volume's place what it found then. */
  lemma ProbeKept(dr: Drive)
    requires dr.Logged()
    ensures Probe(Some(dr.disk), dr.geo.offset) == Probe(Some(dr.boot), dr.geo.offset)
    ensures forall k :: 0 <= k < |dr.history| ==>
      Probe(Some(dr.history[k]), dr.geo.offset) == Probe(Some(dr.boot), dr.geo.offset)
  {
    hide Probe, View;
    HeadProbe(dr.geo, dr.boot, dr.disk);
    forall k | 0 <= k < |dr.history|
      ensures Probe(Some(dr.history[k]), dr.geo.offset) == Probe(Some(dr.boot), dr.geo.offset)
    {
      HeadProbe(dr.geo, dr.boot, dr.history[k]);
    }
  }

  /** Before, during or after the call, the volume is mountable and shows the old or the new tree. */
  ghost predicate Either(v: Vol, fs: Fs, i: nat, data: seq<byte>) {
    Mountable(v) && ShowsEither(v, fs, OverwriteIn(fs, i, data))
  }

  lemma SoundEither(v: Vol, leaked: set<nat>, depth: map<nat, nat>, fs: Fs, i: nat, data: seq<byte>)
    requires Sound(v, leaked, depth) && (FsView(v) == fs || FsView(v) == OverwriteIn(fs, i, data))
    ensures Either(v, fs, i, data)
  {
    hide AllOk, TreeOk, FsView, Acct, OverwriteIn;
  }

  /** The image that the cut leaves of a call which overwrote inode i, or failed to. */
  lemma CutEither(v: Vol, trail: seq<Vol>, k: nat, fs: Fs, i: nat, data: seq<byte>)
    requires TrailShows(trail, 0, fs, OverwriteIn(fs, i, data)) && TrailMounts(trail, 0) && k < |trail| && trail[k] == v
    ensures Either(v, fs, i, data)
  {
    hide Mountable, ShowsEither;
  }

  lemma Counted(g: Geo, d: Image)
    requires GeoOk(g, |d|)
    ensures |View(g, d).inodes| == g.inodeCount
  {}

  /** The machine comes up again with the image on drive d, and the file is read. */
  method MountAndRead(drives: seq<Option<Image>>, d: nat, image: Image, path: seq<byte>, max: nat,
                      ghost data: seq<byte>,
                      ghost k: nat, ghost g: Geo, ghost leaked: set<nat>, ghost depth: map<nat, nat>)
    returns (ret: int, out: seq<byte>)
    requires Shows(drives, k, g, leaked, depth, path) && d == k / 2
    requires SameHead(g, drives[d].value, image) && GeoOk(g, |image|)
    requires var v := View(g, drives[d].value); Either(View(g, image), FsView(v), PathTo(v, path).inode, data)
    ensures ret == |out|
    ensures out == Take(BytesAt(View(g, drives[d].value), path), max) || out == Take(data, max)
  {
    hide View, Sound, FsView, Seek, NameFits, Take, FirstPlace, SameHead, Mountable, ShowsEither, OverwriteIn, GeoOk,
      Drive.Valid, Drive.Logged;
    ghost var v := View(g, drives[d].value);
    MountKept(drives, k, g, image);
    SoundRoot(v, leaked, depth);
    Counted(g, drives[d].value);
    Counted(g, image);
    var e, geo := MountAt(drives[d := Some(image)], k, g);
    var cut := new Drive(geo, image);
    cut.Mirrors();
    ret, out := ReadAfterCut(cut, path, max, FsView(v), data, |v.inodes|);
  }

  /** nvfs_mount, nvfs_write onto a file, a power cut after any number of its sector writes, nvfs_mount
      again and nvfs_read: the file has exactly its old or exactly its new bytes. */
  method WriteCutRead(drives: seq<Option<Image>>, path: seq<byte>, data: seq<byte>, max: nat, cut: nat,
                      t0: u32, t1: u32, t2: u32, junk: seq<Extent>,
                      ghost k: nat, ghost g: Geo, ghost leaked: set<nat>, ghost depth: map<nat, nat>)
    returns (ret: int, out: seq<byte>)
    requires Shows(drives, k, g, leaked, depth, path) && |data| <= MAX_BUFFER && |junk| == MAX_EXTENTS
    ensures ret == |out|
    ensures out == Take(BytesAt(View(g, drives[k / 2].value), path), max) || out == Take(data, max)
  {
    hide View, Sound, FsView, Seek, NameFits, Take, FirstPlace, SameHead, Mountable, ShowsEither, OverwriteIn, GeoOk,
      Drive.Valid, Drive.Logged, TrailShows, TrailMounts, KeepsTree, TrailCreates, TrailStays, Acct, Fits, Either;
    var d, geo := MountAt(drives, k, g);
    var dr := new Drive(geo, drives[d].value);
    dr.Mirrors();
    ghost var v, fs, i := dr.vol, FsView(dr.vol), PathTo(dr.vol, path).inode;
    var f := new FileSystem(dr, leaked, depth);
    SoundEither(v, leaked, depth, fs, i, data);
    SoundRoot(v, leaked, depth);
    FileKeeps(fs, i, data, ROOT);
    var done := f.Write(path, data, t0, t1, t2, junk);
    dr.Mirrors();
    SoundEither(dr.vol, f.leaked, f.depth, fs, i, data);
    var image := ImageAfter(dr, drives[d].value, cut);
    if 0 < cut <= |dr.trail| { CutEither(View(g, image), dr.trail, cut - 1, fs, i, data); }
    ret, out := MountAndRead(drives, d, image, path, max, data, k, g, leaked, depth);
  }

  /** The same for nvfs_append: the old bytes, or the first 4096 of the old bytes and the data. */
  method AppendCutRead(drives: seq<Option<Image>>, path: seq<byte>, data: seq<byte>, max: nat, cut: nat, t0: u32,
                       gotBuffer: bool, ghost k: nat, ghost g: Geo, ghost leaked: set<nat>, ghost depth: map<nat, nat>)
    returns (ret: int, out: seq<byte>)
    requires Shows(drives, k, g, leaked, depth, path) && |data| <= MAX_BUFFER
    ensures ret == |out|
    ensures var old' := BytesAt(View(g, drives[k / 2].value), path);
      out == Take(old', max) || out == Take(Take(old' + data, 4096), max)
  {
    hide View, Sound, FsView, Seek, NameFits, Take, FirstPlace, SameHead, Mountable, ShowsEither, OverwriteIn, GeoOk,
      Drive.Valid, Drive.Logged, TrailShows, TrailMounts, KeepsTree, Acct, Fits, Either;
    var d, geo := MountAt(drives, k, g);
    var dr := new Drive(geo, drives[d].value);
    dr.Mirrors();
    ghost var v, fs, i := dr.vol, FsView(dr.vol), PathTo(dr.vol, path).inode;
    ghost var bytes := AppendedBytes(fs, i, data);
    var f := new FileSystem(dr, leaked, depth);
    SoundEither(v, leaked, depth, fs, i, bytes);
    var done := f.Append(path, data, t0, gotBuffer);
    dr.Mirrors();
    SoundEither(dr.vol, f.leaked, f.depth, fs, i, bytes);
    var image := ImageAfter(dr, drives[d].value, cut);
    if 0 < cut <= |dr.trail| { CutEither(View(g, image), dr.trail, cut - 1, fs, i, bytes); }
    ret, out := MountAndRead(drives, d, image, path, max, bytes, k, g, leaked, depth);
  }
}
