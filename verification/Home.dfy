/** What is on disk for one software product (client/internal/state), and what an unpacked
    release is. */
module Home {
  import opened Hashing
  import opened Paths
  import Tarx

  /** The pointers `current` and `previous`, and the temporary names next to them. Each can be a
      symlink under its own name or a text file under its name plus ".path". */
  datatype Name = Current | Previous | Tmp(of: Name)

  datatype State = State(current: string, previous: string, history: seq<string>, pubkey: string)

  const EMPTY_STATE := State("", "", [], "")

  /** A regular file and its permission bits. */
  datatype File = File(data: Bytes, mode: int)

  /** The files of an unpacked release, by path components below its directory. */
  type Tree = map<Comps, File>

  /** What a state file contains: a state, or less than one. */
  datatype StateText = Json(state: State) | Garbage

  datatype Disk = Disk(
    links: map<Name, string>,       // symlinks, by target
    shims: map<Name, string>,       // .path files, by content
    dists: map<string, Tree>,       // distribution directories, by directory name
    blobs: map<string, Bytes>,      // blobs/<version>.blob
    parts: map<string, Bytes>,      // blobs/<version>.blob.part
    patches: map<string, Bytes>,    // the patches directory, by file name
    saved: State,                   // state.json
    stateTmp: Option<StateText>)    // state.json.tmp

  const EMPTY_DISK := Disk(map[], map[], map[], map[], map[], map[], EMPTY_STATE, None)

  function Get<K, V>(m: map<K, V>, k: K): Option<V> {
    if k in m then Some(m[k]) else None
  }

  function Put<K, V>(m: map<K, V>, k: K, v: Option<V>): map<K, V> {
    if v.Some? then m[k := v.value] else m - {k}
  }

  /** platform.ReadCurrent: the symlink wins over the shim. */
  function ReadLink(d: Disk, n: Name): Option<string> {
    if n in d.links then Some(d.links[n]) else Get(d.shims, n)
  }

  predicate OneKind(d: Disk, n: Name) { !(n in d.links && n in d.shims) }

  /** Nothing has changed but the one directory. */
  ghost predicate OnlyDist(before: Disk, after: Disk, dist: string) {
    after == before.(dists := after.dists) && forall k :: k != dist ==> Get(after.dists, k) == Get(before.dists, k)
  }

  /** Nothing has changed but the text of the one .path file. */
  ghost predicate OnlyShim(before: Disk, after: Disk, n: Name) {
    after == before.(shims := after.shims) && forall k :: k != n ==> Get(after.shims, k) == Get(before.shims, k)
  }

  const PREFIX: string := "distribution-"

  function DistName(version: string): string { PREFIX + version }

  function PatchName(from: string, to: string): string { from + "-to-" + to + ".patch" }

  // ---------------------------------------------------------------- unpacking

  datatype Entry = Entry(name: string, regular: bool, mode: int, data: Bytes, whole: bool)

  /** What the tar reader delivers: entries, then the end or an unreadable header. */
  datatype Archive = Archive(entries: seq<Entry>, bad: bool)

  /** The parts of the toolchain that are outside the model. */
  datatype Tools = Tools(hash: Hash, untar: Bytes -> Archive, bspatch: (Bytes, Bytes) -> Option<Bytes>)

  ghost predicate Submap<K, V>(a: map<K, V>, b: map<K, V>) {
    forall k :: k in a ==> k in b && b[k] == a[k]
  }

  /** The permission bits a new file gets: nine bits of the header, or 0644 if they are all zero. */
  function FileMode(header: int): int {
    if header % 0x200 == 0 then 420 else header % 0x200
  }

  /** The owner's write bit, 0200. */
  predicate Writable(mode: int) { mode / 128 % 2 == 1 }

  /** A file cannot be created below another file, nor where a directory is, nor opened for writing
      again once it is read-only. */
  predicate Blocked(tree: Tree, path: Comps) {
    || path == []
    || (path in tree && !Writable(tree[path].mode))
    || exists q :: q in tree && q != path && (q <= path || path <= q)
  }

  /** Opening for writing: a new file gets the mode asked for, an existing one keeps its own. */
  function Created(tree: Tree, path: Comps, mode: int, data: Bytes): Tree {
    tree[path := File(data, if path in tree then tree[path].mode else mode)]
  }

  /** Where an archive name goes below the distribution directory, if anywhere. */
  function PlacedAt(name: string): Option<Comps> {
    match Tarx.Place([], name)
    case Refused(_) => None
    case At(path) => Some(path)
  }

  function UnpackOne(e: Entry, tree: Tree): Option<Tree> {
    if !e.regular then Some(tree)
    else
      var path := PlacedAt(e.name);
      if path.None? || Blocked(tree, path.value) || !e.whole then None
      else Some(Created(tree, path.value, FileMode(e.mode), e.data))
  }

  /** The result of extracting entries on top of a tree; None when extraction fails. */
  function Unpack(entries: seq<Entry>, tree: Tree): Option<Tree> {
    if entries == [] then Some(tree)
    else
      var before := Unpack(entries[..|entries| - 1], tree);
      if before.None? then None else UnpackOne(entries[|entries| - 1], before.value)
  }

  function UnpackBlob(t: Tools, blob: Bytes): Option<Tree> {
    var a := t.untar(blob);
    if a.bad then None else Unpack(a.entries, map[])
  }

  /** The data of the last regular entry placed at a path. */
  function LastWrite(entries: seq<Entry>, path: Comps): Option<Bytes> {
    if entries == [] then None
    else
      var e := entries[|entries| - 1];
      if e.regular && PlacedAt(e.name) == Some(path) then Some(e.data)
      else LastWrite(entries[..|entries| - 1], path)
  }

  function DataAt(tree: Tree, path: Comps): Option<Bytes> {
    if path in tree then Some(tree[path].data) else None
  }

  /** Every regular entry has a place, and the tree has the last data written at each. */
  ghost predicate Holds(a: Archive, tree: Tree) {
    && !a.bad
    && (forall e :: e in a.entries && e.regular ==> PlacedAt(e.name).Some?)
    && (forall path :: LastWrite(a.entries, path).Some? ==> DataAt(tree, path) == LastWrite(a.entries, path))
  }

  /** `tree` holds a complete release with digest `sha`; it is exactly its unpacking if `exact`. */
  ghost predicate Full(t: Tools, sha: string, tree: Tree, exact: bool) {
    exists blob: Bytes :: Digest(t.hash, blob) == sha && Holds(t.untar(blob), tree)
                          && (exact ==> UnpackBlob(t, blob) == Some(tree))
  }

  /** What a completed extraction leaves at a path: the last entry placed there, or what was there
      before if there is none. It never writes outside the root, and a file that was there keeps its
      permissions. */
  lemma {:induction false} UnpackIsLastWrite(entries: seq<Entry>, tree: Tree, path: Comps)
    requires Unpack(entries, tree).Some?
    ensures var w, after := LastWrite(entries, path), Unpack(entries, tree).value;
            && DataAt(after, path) == (if w.Some? then w else DataAt(tree, path))
            && (w.Some? ==> Plain(path) && path != [])
            && (path in tree ==> after[path].mode == tree[path].mode)
  {
    if entries != [] {
      var n := |entries| - 1;
      UnpackIsLastWrite(entries[..n], tree, path);
      PlacedBelowRoot(entries[n].name);
    }
  }

  /** The first regular entry placed at a path. */
  function FirstWrite(entries: seq<Entry>, path: Comps): Option<Entry> {
    if entries == [] then None
    else
      var first, e := FirstWrite(entries[..|entries| - 1], path), entries[|entries| - 1];
      if first.None? && e.regular && PlacedAt(e.name) == Some(path) then Some(e) else first
  }

  /** The permission bits the archive asks for: the nine bits of the header, or rw-r--r-- if it has none. */
  ghost predicate Permits(header: int, mode: int) {
    if header % 512 == 0 then mode == 6 * 64 + 4 * 8 + 4 else mode == header % 512
  }

  /** Which files a completed extraction adds, and their permissions: those that the first entry placed
      at the path asks for. */
  lemma {:induction false} UnpackSetsModes(entries: seq<Entry>, tree: Tree, path: Comps)
    requires Unpack(entries, tree).Some? && path !in tree
    ensures var first, after := FirstWrite(entries, path), Unpack(entries, tree).value;
            && (path in after <==> first.Some?)
            && (first.Some? ==> Permits(first.value.mode, after[path].mode))
  {
    if entries != [] {
      var n := |entries| - 1;
      UnpackSetsModes(entries[..n], tree, path);
      FileModeIs(entries[n].mode);
    }
  }

  lemma FileModeIs(header: int)
    ensures Permits(header, FileMode(header))
    ensures Writable(FileMode(header)) <==> OwnerWrites(header)
  {
  }

  /** The header lets the owner write, by its own bits or for lack of any. */
  predicate OwnerWrites(header: int) { header % 512 == 0 || header % 512 / 128 == 1 || header % 512 / 128 == 3 }

  /** Something placed by earlier entries is in the way of a file: another file above or below, or a
      read-only file at the same place. The root itself is always in the way. */
  ghost predicate InTheWay(earlier: seq<Entry>, path: Comps) {
    || path == []
    || (FirstWrite(earlier, path).Some? && !OwnerWrites(FirstWrite(earlier, path).value.mode))
    || exists q :: FirstWrite(earlier, q).Some? && q != path && (q <= path || path <= q)
  }

  /** The i-th entry can be extracted after the ones before it. */
  ghost predicate Extractable(entries: seq<Entry>, i: nat)
    requires i < |entries|
  {
    entries[i].regular ==>
      PlacedAt(entries[i].name).Some? && entries[i].whole && !InTheWay(entries[..i], PlacedAt(entries[i].name).value)
  }

  /** Exactly which archives can be unpacked into an empty directory. */
  lemma {:induction false} UnpacksIff(entries: seq<Entry>)
    ensures Unpack(entries, map[]).Some? <==> forall i :: 0 <= i < |entries| ==> Extractable(entries, i)
  {
    if entries != [] {
      var n := |entries| - 1;
      var front, e := entries[..n], entries[n];
      UnpacksIff(front);
      forall i | 0 <= i < n ensures Extractable(front, i) <==> Extractable(entries, i) {
        assert front[..i] == entries[..i];
      }
      if Unpack(front, map[]).Some? && e.regular && PlacedAt(e.name).Some? {
        BlockedIff(front, PlacedAt(e.name).value);
      }
      assert Unpack(front, map[]).Some? ==> (Unpack(entries, map[]).Some? <==> Extractable(entries, n));
    }
  }

  lemma BlockedIff(entries: seq<Entry>, path: Comps)
    requires Unpack(entries, map[]).Some?
    ensures Blocked(Unpack(entries, map[]).value, path) <==> InTheWay(entries, path)
  {
    var tree := Unpack(entries, map[]).value;
    forall q ensures q in tree <==> FirstWrite(entries, q).Some? { UnpackSetsModes(entries, map[], q); }
    if path in tree { FirstModeStays(entries, path); }
  }

  /** The mode is that of the first entry, to the bit that matters for writing again. */
  lemma {:induction false} FirstModeStays(entries: seq<Entry>, path: Comps)
    requires Unpack(entries, map[]).Some? && path in Unpack(entries, map[]).value
    ensures FirstWrite(entries, path).Some?
    ensures Writable(Unpack(entries, map[]).value[path].mode) <==> OwnerWrites(FirstWrite(entries, path).value.mode)
  {
    UnpackSetsModes(entries, map[], path);
    var header, mode := FirstWrite(entries, path).value.mode, Unpack(entries, map[]).value[path].mode;
    FileModeIs(header);
  }

  lemma UnpackBlobIs(t: Tools, blob: Bytes)
    ensures var a := t.untar(blob); UnpackBlob(t, blob).Some? ==> !a.bad && Unpack(a.entries, map[]) == UnpackBlob(t, blob)
  {
  }

  lemma PlacedBelowRoot(name: string)
    ensures PlacedAt(name).Some? ==> Plain(PlacedAt(name).value)
  {
    Tarx.PlaceBelow([], name);
  }

  lemma {:induction false} UnpackedIsPlaced(entries: seq<Entry>, tree: Tree)
    requires Unpack(entries, tree).Some?
    ensures forall e :: e in entries && e.regular ==> PlacedAt(e.name).Some?
  {
    if entries != [] {
      var n := |entries| - 1;
      UnpackedIsPlaced(entries[..n], tree);
      assert forall e :: e in entries ==> e in entries[..n] || e == entries[n];
    }
  }

  /** Leftovers below an extraction can make it fail, but when it completes everything in the
      archive is there. */
  lemma UnpackHoldsOverLeftovers(a: Archive, leftover: Tree)
    requires !a.bad && Unpack(a.entries, leftover).Some?
    ensures Holds(a, Unpack(a.entries, leftover).value)
  {
    UnpackedIsPlaced(a.entries, leftover);
    forall path | LastWrite(a.entries, path).Some?
      ensures DataAt(Unpack(a.entries, leftover).value, path) == LastWrite(a.entries, path)
    {
      UnpackIsLastWrite(a.entries, leftover, path);
    }
  }

  /** A release with a regular entry is not empty. */
  lemma HoldsIsNotEmpty(a: Archive, tree: Tree)
    requires Holds(a, tree) && exists e :: e in a.entries && e.regular
    ensures |tree| > 0
  {
    var e :| e in a.entries && e.regular;
    var path := PlacedAt(e.name).value;
    PlacedIsWritten(a.entries, e);
    assert path in tree;
  }

  lemma {:induction false} PlacedIsWritten(entries: seq<Entry>, e: Entry)
    requires e in entries && e.regular && PlacedAt(e.name).Some?
    ensures LastWrite(entries, PlacedAt(e.name).value).Some?
  {
    var n := |entries| - 1;
    if e != entries[n] {
      assert e in entries[..n];
      PlacedIsWritten(entries[..n], e);
    }
  }
}
