/** The operations of vfs.c on ramfs nodes: creating, opening, reading and writing
    through file descriptors. */
module Vfs {
  import opened Basics
  import opened VfsTree
  import opened VfsMounts
  import opened RamFile
  import FrameAllocator

  const MAX_FDS: nat := 256
  /** Descriptors below this are the console's. */
  const FIRST_FD: nat := 3

  /** Size and data pointer of a node. */
  datatype FileInfo = FileInfo(size: nat, file: Option<nat>)

  datatype Descriptor = Descriptor(node: Option<nat>, offset: nat, refcount: nat, flags: bv32)

  const O_CREAT: bv32 := 0x0100
  const O_APPEND: bv32 := 0x0400

  predicate Creates(flags: bv32) { flags & O_CREAT != 0 }
  predicate Appends(flags: bv32) { flags & O_APPEND != 0 }

  ghost predicate FdsOk(fds: seq<Descriptor>, nodes: nat) {
    && |fds| == 256
    && forall f :: 0 <= f < |fds| && fds[f].refcount > 0 ==> fds[f].node.Some? && fds[f].node.value < nodes
  }

  /** No two nodes share file data. */
  ghost predicate Unshared(info: seq<FileInfo>) {
    forall m, n :: 0 <= m < n < |info| && info[m].file.Some? ==> info[m].file != info[n].file
  }

  ghost predicate InfoOk(info: seq<FileInfo>, store: FileStore)
    reads store
  {
    && (forall n :: 0 <= n < |info| ==> store.NodeOk(info[n].file, info[n].size))
    && Unshared(info)
  }

  ghost function BytesAt(info: seq<FileInfo>, store: FileStore, n: nat): (b: seq<byte>)
    requires n < |info| && store.NodeOk(info[n].file, info[n].size)
    reads store
    ensures |b| == Min(info[n].size, PagesOf(store.files, info[n].file) * PAGE)
  {
    store.BytesOf(info[n].file, info[n].size)
  }

  class VirtualFs {
    const store: FileStore
    var tree: Tree
    /** File side of the node pool. */
    var info: seq<FileInfo>
    var fds: seq<Descriptor>

    ghost predicate Valid()
      reads this, store, store.pfa, store.pfa.lowBitmap, store.pfa.bitmap
    {
      && store.Valid() && WellFormed(tree) && Ascending(tree) && |info| == |tree.nodes|
      && InfoOk(info, store) && FdsOk(fds, |tree.nodes|)
    }

    /** vfs_init, with the root already mounted on a fresh ramfs. */
    constructor (store: FileStore)
      requires store.Valid()
      ensures Valid() && this.store == store
      ensures tree == Tree([EmptyNode(true).(mount := Some(0))], [0], Some(0))
      ensures forall f :: 0 <= f < MAX_FDS ==> fds[f].refcount == 0
    {
      this.store := store;
      tree := Tree([EmptyNode(true).(mount := Some(0))], [0], Some(0));
      info := [FileInfo(0, None)];
      fds := seq(MAX_FDS, _ => Descriptor(None, 0, 0, 0));
    }

    /** What a reader of node `n` gets. */
    ghost function Bytes(n: nat): (b: seq<byte>)
      requires n < |info| && store.NodeOk(info[n].file, info[n].size)
      reads this`info, store
      ensures |b| == Min(info[n].size, PagesOf(store.files, info[n].file) * PAGE)
    {
      BytesAt(info, store, n)
    }

    /** The bytes of every node. */
    ghost function Contents(): (c: seq<seq<byte>>)
      requires InfoOk(info, store)
      reads this, store
      ensures |c| == |info| && forall n :: 0 <= n < |c| ==> c[n] == Bytes(n)
    {
      seq(|info|, n requires 0 <= n < |info| && store.NodeOk(info[n].file, info[n].size) reads this, store => Bytes(n))
    }

    /** vfs_create and vfs_mkdir, over ramfs_create. */
    method MakeNode(path: string, dir: bool) returns (ok: bool)
      requires Valid()
      modifies this`tree, this`info
      ensures Valid() && (ok <==> Make(old(tree), path, dir).Some?)
      ensures tree == if ok then Make(old(tree), path, dir).value else old(tree)
      ensures ok ==> |tree.nodes| == |old(tree).nodes| + 1 && Blank(tree.nodes[|old(tree).nodes|], dir)
      ensures info == if ok then old(info) + [FileInfo(0, None)] else old(info)
    {
      hide Resolve, FrameAllocator.Allocator.Valid, PoolOk, NodeOk, WellFormed, Ascending, FdsOk, Unshared, Make;
      MakeByParts(tree, path, dir);
      var dirname := DirName(path);
      var parent := ResolvePath(tree, dirname);
      if parent.None? {
        return false;
      }
      var base := BaseName(path);
      var node := tree.nodes[parent.value];
      if !node.dir {
        return false;
      }
      var slot := FirstFree(node.children);
      if slot.None? || |tree.nodes| >= MAX_NODES {
        return false;
      }
      MakeGrows(tree, path, dir);
      MakeKeepsAscending(tree, path, dir);
      OneMore(info, fds, |tree.nodes|);
      ghost var made := Make(tree, path, dir).value;
      var child := Child(Kept(base), |tree.nodes|);
      tree := tree.(nodes := tree.nodes[parent.value := node.(children := node.children[slot.value := Some(child)])]
                             + [EmptyNode(dir)]);
      info := info + [FileInfo(0, None)];
      assert tree == made;
      ok := true;
    }

    /** vfs_mount of a ramfs. */
    method MountRam(path: string) returns (ok: bool)
      requires Valid()
      modifies this`tree, this`info
      ensures Valid() && (tree, ok) == Mount(old(tree), path)
      ensures |info| == |tree.nodes| && |old(info)| <= |info| && info[..|old(info)|] == old(info)
    {
      hide Resolve, FrameAllocator.Allocator.Valid, PoolOk, FileStore.Valid, NodeOk;
      if |tree.mounts| >= MAX_MOUNTS || |tree.nodes| >= MAX_NODES {
        return false;
      }
      MountKeeps(tree, path);
      var root := |tree.nodes|;
      ghost var mounted := Mount(tree, path);
      ghost var pool := tree;
      info := info + [FileInfo(0, None)];
      if path == "/" {
        tree := Tree(tree.nodes + [EmptyNode(true).(mount := Some(|tree.mounts|))], tree.mounts + [root], Some(root));
        ok := true;
      } else {
        var found := ResolvePath(tree, path);
        tree := tree.(nodes := tree.nodes + [EmptyNode(true)]);
        ok := found.Some? && tree.nodes[found.value].dir;
        if ok {
          var n := found.value;
          tree := Tree(tree.nodes[n := tree.nodes[n].(mount := Some(|tree.mounts|))], tree.mounts + [root], tree.root);
        }
      }
      assert (tree, ok) == mounted;
    }

    /** The descriptor search of vfs_open. */
    method FreeFd() returns (fd: int)
      requires |fds| == MAX_FDS
      ensures fd == -1 || (FIRST_FD <= fd < MAX_FDS && fds[fd].refcount == 0)
      ensures fd == -1 ==> forall f :: FIRST_FD <= f < MAX_FDS ==> fds[f].refcount > 0
      ensures fd != -1 ==> forall f :: FIRST_FD <= f < fd ==> fds[f].refcount > 0
    {
      for f := FIRST_FD to MAX_FDS
        invariant forall g :: FIRST_FD <= g < f ==> fds[g].refcount > 0
      {
        if fds[f].refcount == 0 {
          return f;
        }
      }
      fd := -1;
    }

    /** vfs_open: ramfs nodes have no open operation of their own. */
    method Open(path: string, flags: bv32) returns (fd: int)
      requires Valid()
      modifies this
      ensures Valid() && (fd == -1 || 3 <= fd < 256)
      ensures tree == (if Resolve(old(tree), path).None? && flags & 0x100 != 0 && Make(old(tree), path, false).Some?
                       then Make(old(tree), path, false).value else old(tree))
      ensures fd == -1 <==> Resolve(tree, path).None?
                            || forall f :: 3 <= f < 256 ==> old(fds)[f].refcount > 0
      ensures fd == -1 ==> fds == old(fds)
      ensures fd != -1 ==> forall f :: 3 <= f < fd ==> old(fds)[f].refcount > 0
      ensures fd != -1 ==>
                var n := Resolve(tree, path).value;
                && old(fds)[fd].refcount == 0
                && fds == old(fds)[fd := Descriptor(Some(n), if flags & 0x400 != 0 then info[n].size else 0, 1, flags)]
      ensures info == if |tree.nodes| == |old(tree).nodes| then old(info) else old(info) + [FileInfo(0, None)]
    {
      hide FrameAllocator.Allocator.Valid, PoolOk, FileStore.Valid, InfoOk, Make, Resolve, WellFormed, Ascending;
      var node := ResolvePath(tree, path);
      if node.None? && Creates(flags) {
        GrowsIfMade(tree, path);
        var made := MakeNode(path, false);
        if !made {
          return -1;
        }
        node := ResolvePath(tree, path);
      }
      if node.None? {
        return -1;
      }
      fd := FreeFd();
      if fd == -1 {
        return;
      }
      fds := fds[fd := Descriptor(node, if Appends(flags) then info[node.value].size else 0, 1, flags)];
    }

    /** vfs_close */
    method Close(fd: int) returns (r: int)
      requires Valid()
      modifies this`fds
      ensures Valid()
      ensures r == if 0 <= fd < 256 && old(fds)[fd].refcount > 0 then 0 else -1
      ensures r == -1 ==> fds == old(fds)
      ensures r == 0 ==> fds == old(fds)[fd := fds[fd]] && fds[fd].refcount == old(fds)[fd].refcount - 1
                         && fds[fd].offset == old(fds)[fd].offset && fds[fd].flags == old(fds)[fd].flags
    {
      if fd < 0 || fd >= MAX_FDS || fds[fd].refcount == 0 {
        return -1;
      }
      var d := fds[fd];
      fds := fds[fd := d.(node := if d.refcount == 1 then None else d.node, refcount := d.refcount - 1)];
      r := 0;
    }

    lemma DescriptorTable()
      requires FdsOk(fds, |tree.nodes|)
      ensures |fds| == MAX_FDS
    {
    }

    /** What an open descriptor of a valid file system leads to; its offset may
        change. */
    lemma OpenFile(fd: int)
      requires |info| == |tree.nodes| && InfoOk(info, store) && FdsOk(fds, |tree.nodes|)
      requires 0 <= fd < |fds| && fds[fd].refcount > 0
      ensures fds[fd].node.Some? && fds[fd].node.value < |info|
      ensures store.NodeOk(info[fds[fd].node.value].file, info[fds[fd].node.value].size)
      ensures forall m: nat :: FdsOk(fds[fd := fds[fd].(offset := m)], |tree.nodes|)
    {
    }

    predicate IsOpen(fd: int)
      requires |fds| == MAX_FDS
      reads this`fds
    {
      0 <= fd < MAX_FDS && fds[fd].refcount > 0
    }

    /** vfs_read: the size_t count is passed on as 32 bits. */
    method ReadFd(fd: int, count: nat) returns (r: int, buf: seq<byte>)
      requires Valid()
      modifies this`fds
      ensures Valid()
      ensures !old(IsOpen(fd)) || old(tree.nodes[fds[fd].node.value].dir) ==> r == -1 && fds == old(fds)
      ensures old(IsOpen(fd)) && !old(tree.nodes[fds[fd].node.value].dir) ==>
                var d := old(fds)[fd];
                && buf == Slice(Bytes(d.node.value), d.offset, count % WORD32) && r == |buf|
                && fds == old(fds)[fd := d.(offset := d.offset + |buf|)]
    {
      hide FrameAllocator.Allocator.Valid, PoolOk, Ascending, WellFormed, InfoOk, FdsOk, FileStore.Valid,
           FileStore.NodeOk, FileStore.BytesOf;
      DescriptorTable();
      buf, r := [], -1;
      if fd < 0 || fd >= MAX_FDS || fds[fd].refcount == 0 {
        return;
      }
      OpenFile(fd);
      var n := fds[fd].node.value;
      if tree.nodes[n].dir {
        return;
      }
      buf := store.Read(info[n].file, info[n].size, fds[fd].offset, count % WORD32);
      r := |buf|;
      if r > 0 {
        fds := fds[fd := fds[fd].(offset := fds[fd].offset + |buf|)];
      }
    }

    /** vfs_write */
    method WriteFd(fd: int, data: seq<byte>) returns (r: int)
      requires Valid()
      requires IsOpen(fd) && !tree.nodes[fds[fd].node.value].dir ==> fds[fd].offset + |data| <= FILE_PAGES * PAGE
      modifies this`info, this`fds, store, store.pfa, store.pfa.lowBitmap
      ensures Valid() && |info| == |old(info)|
      ensures !old(IsOpen(fd)) || tree.nodes[old(fds)[fd].node.value].dir ==>
                r == -1 && fds == old(fds) && OthersKept(old(info), old(store.mem), old(store.files), |info|)
      ensures old(IsOpen(fd)) && !tree.nodes[old(fds)[fd].node.value].dir ==>
                Written(old(info), old(store.mem), old(store.files), old(store.pfa.state.low), old(fds), fd, data, r)
    {
      hide FrameAllocator.Allocator.Valid, PoolOk, Ascending, WellFormed, FdsOk, Unshared, Written, NodeWritten, OthersKept;
      DescriptorTable();
      r := -1;
      if fd < 0 || fd >= MAX_FDS || fds[fd].refcount == 0 {
        SelfKept(|info|);
        return;
      }
      OpenFile(fd);
      var n := fds[fd].node.value;
      if tree.nodes[n].dir {
        SelfKept(|info|);
        return;
      }
      r := WriteNode(fd, n, data);
    }

    /** The write through an open descriptor of a file. */
    method WriteNode(fd: nat, n: nat, data: seq<byte>) returns (r: int)
      requires store.Valid() && InfoOk(info, store) && fd < |fds| && fds[fd].node == Some(n) && n < |info|
      requires fds[fd].offset + |data| <= FILE_PAGES * PAGE
      modifies this`info, this`fds, store, store.pfa, store.pfa.lowBitmap
      ensures store.Valid() && InfoOk(info, store) && |info| == |old(info)|
      ensures exists m: nat :: fds == old(fds)[fd := old(fds)[fd].(offset := m)]
      ensures Written(old(info), old(store.mem), old(store.files), old(store.pfa.state.low), old(fds), fd, data, r)
    {
      hide NodeWritten, InfoOk, FileStore.Valid;
      ghost var info0, mem0, files0, low0 := info, store.mem, store.files, store.pfa.state.low;
      var offset := fds[fd].offset;
      r := WriteData(n, offset, data);
      if r > 0 {
        Advance(fd, offset + |data|, info0, mem0, files0, low0, n, data, r);
      }
      assert fds == old(fds)[fd := old(fds)[fd].(offset := fds[fd].offset)];
    }

    /** Moving a descriptor changes no node. */
    method Advance(fd: nat, offset: nat, ghost info0: seq<FileInfo>, ghost mem0: seq<Page>, ghost files0: seq<FileData>,
                   ghost low0: set<nat>, ghost n: nat, ghost data: seq<byte>, ghost r: int)
      requires fd < |fds| && n < |info0| && store.Valid() && InfoOk(info, store)
      requires NodeWritten(info0, mem0, files0, low0, n, fds[fd].offset, data, r)
      modifies this`fds
      ensures fds == old(fds)[fd := old(fds)[fd].(offset := offset)] && store.Valid() && InfoOk(info, store)
      ensures NodeWritten(info0, mem0, files0, low0, n, old(fds)[fd].offset, data, r)
    {
      fds := fds[fd := fds[fd].(offset := offset)];
    }

    /** The write operation of a ramfs file node. */
    method WriteData(n: nat, offset: nat, data: seq<byte>) returns (r: int)
      requires store.Valid() && InfoOk(info, store) && n < |info| && offset + |data| <= FILE_PAGES * PAGE
      modifies this`info, store, store.pfa, store.pfa.lowBitmap
      ensures store.Valid() && InfoOk(info, store) && |info| == |old(info)| && (r == -1 || r == |data|)
      ensures NodeWritten(old(info), old(store.mem), old(store.files), old(store.pfa.state.low), n, offset, data, r)
    {
      hide FrameAllocator.Allocator.Valid, PoolOk, Content, OthersSame, FileStore.NodeOk, FileStore.BytesOf;
      hide Missing, Unowned, Fits, LaidOver, Unshared, Visible, PagesAfter, LastWanted;
      ghost var info0, mem0, files0 := info, store.mem, store.files;
      AllHeld();
      var file, size;
      r, file, size := store.Write(info[n].file, info[n].size, offset, data);
      info := info[n := FileInfo(size, file)];
      KeepsInfo(info0, mem0, files0, n, file, size);
    }

    lemma SelfKept(n: nat)
      requires InfoOk(info, store)
      ensures OthersKept(info, store.mem, store.files, n)
    {
    }

    /** What a write to the data of node `n` leaves of the other nodes. */
    lemma KeepsInfo(info0: seq<FileInfo>, mem0: seq<Page>, files0: seq<FileData>, n: nat, file: Option<nat>, size: nat)
      requires n < |info0| && (forall m :: 0 <= m < |info0| ==> Held(info0[m], mem0, files0)) && Unshared(info0)
      requires info == info0[n := FileInfo(size, file)] && store.NodeOk(file, size)
      requires info0[n].file.Some? ==> file == info0[n].file
      requires info0[n].file.None? && file.Some? ==> file.value == |files0|
      requires OthersSame(mem0, files0, store.mem, store.files, if file.Some? then file.value else |files0|)
      ensures OthersKept(info0, mem0, files0, n) && InfoOk(info, store)
      ensures file.Some? ==> file.value < |store.files|
    {
      var f := if file.Some? then file.value else |files0|;
      forall m | 0 <= m < |info0| && m != n
        ensures Held(info0[m], mem0, files0) && store.NodeOk(info[m].file, info[m].size)
        ensures Bytes(m) == HeldBytes(info0[m], mem0, files0)
        ensures info0[m].file.Some? ==> info0[m].file != file
      {
        var i := info0[m];
        if i.file.Some? {
          assert i.file != info0[n].file && i.file.value != f;
          OtherBytes(mem0, files0, store.mem, store.files, f, i.file.value, i.size);
        }
      }
    }

    lemma AllHeld()
      requires InfoOk(info, store)
      ensures forall m :: 0 <= m < |info| ==> Held(info[m], store.mem, store.files)
      ensures forall m :: 0 <= m < |info| ==> HeldBytes(info[m], store.mem, store.files) == Bytes(m)
    {
    }

    /** Every node but `n` has the size, data and bytes it had. */
    ghost predicate OthersKept(info0: seq<FileInfo>, mem0: seq<Page>, files0: seq<FileData>, n: nat)
      reads this`info, store
    {
      && |info| == |info0|
      && forall m :: 0 <= m < |info0| && m != n ==>
           info[m] == info0[m] && Held(info0[m], mem0, files0) && store.NodeOk(info[m].file, info[m].size)
           && Bytes(m) == HeldBytes(info0[m], mem0, files0)
    }

    /** The outcome of a write through an open descriptor of a file. */
    ghost predicate Written(info0: seq<FileInfo>, mem0: seq<Page>, files0: seq<FileData>, low0: set<nat>,
                            fds0: seq<Descriptor>, fd: nat, data: seq<byte>, r: int)
      requires fd < |fds0| && fds0[fd].node.Some? && fds0[fd].node.value < |info0|
      reads this`info, this`fds, store, store.pfa
    {
      var n, offset := fds0[fd].node.value, fds0[fd].offset;
      && NodeWritten(info0, mem0, files0, low0, n, offset, data, r)
      && fds == if r == -1 then fds0 else fds0[fd := fds0[fd].(offset := offset + |data|)]
    }

    /** What a write leaves of the nodes. */
    ghost predicate NodeWritten(info0: seq<FileInfo>, mem0: seq<Page>, files0: seq<FileData>, low0: set<nat>,
                                n: nat, offset: nat, data: seq<byte>, r: int)
      requires n < |info0|
      reads this`info, store, store.pfa
    {
      && OthersKept(info0, mem0, files0, n)
      && Held(info0[n], mem0, files0) && n < |info| && store.NodeOk(info[n].file, info[n].size)
      && (r != -1 <==> Fits(files0, low0, info0[n].file, offset + |data|))
      && (r != -1 ==> Filled(files0, low0, info0[n].file, store.files, store.pfa.state.low, info[n].file, offset + |data|))
      && var was := HeldBytes(info0[n], mem0, files0);
      && (r == -1 || r == |data|)
      && info[n].size == (if r == -1 then info0[n].size else Max(info0[n].size, offset + |data|))
      && (r == -1 ==> Bytes(n) == was)
      && (r != -1 && offset + |data| > 0 ==> LaidOver(was, offset, data, Bytes(n)))
      && (r != -1 && offset + |data| == 0 ==> Bytes(n) == [])
    }
  }

  /** Exactly the pages a write up to `end` asked for and lacked have come from the
      free frames. */
  predicate Filled(files0: seq<FileData>, low0: set<nat>, file0: Option<nat>,
                   files: seq<FileData>, low: set<nat>, file: Option<nat>, end: nat)
  {
    && (file0.Some? ==> file0.value < |files0|) && file.Some? && file.value < |files|
    && var n := PagesOf(files0, file0);
       PagesOf(files, file) == PagesAfter(n, end) && |low| == |low0| - Missing(n, LastWanted(end))
  }

  /** A node's content as memory and the file pool gave it. */
  ghost predicate Held(i: FileInfo, mem: seq<Page>, files: seq<FileData>) {
    if i.file.None? then i.size == 0
    else i.file.value < |files| && Mapped(mem, files[i.file.value])
  }

  ghost function HeldBytes(i: FileInfo, mem: seq<Page>, files: seq<FileData>): seq<byte>
    requires Held(i, mem, files)
  {
    if i.file.None? then [] else Visible(mem, files[i.file.value], i.size)
  }

  lemma MakeByParts(t: Tree, path: string, dir: bool)
    requires WellFormed(t)
    ensures var parent := Resolve(t, Dirname(path));
            if parent.None? then Make(t, path, dir).None?
            else parent.value < |t.nodes| && Make(t, path, dir) == AddChild(t, parent.value, Basename(path), dir)
  {
    hide WellFormed;
  }

  /** A new node without data. */
  lemma OneMore(info: seq<FileInfo>, fds: seq<Descriptor>, nodes: nat)
    requires Unshared(info) && FdsOk(fds, nodes)
    ensures Unshared(info + [FileInfo(0, None)]) && FdsOk(fds, nodes + 1)
  {
  }

  lemma GrowsIfMade(t: Tree, path: string)
    requires WellFormed(t)
    ensures Make(t, path, false).Some? ==> |Make(t, path, false).value.nodes| == |t.nodes| + 1
  {
    if Make(t, path, false).Some? {
      MakeGrows(t, path, false);
    }
  }

  // ---------------------------------------------------------------------------
  // Runs of writes
  // ---------------------------------------------------------------------------

  function Concat(chunks: seq<seq<byte>>): (all: seq<byte>) {
    if chunks == [] then [] else chunks[0] + Concat(chunks[1..])
  }

  lemma {:induction false} ConcatMore(chunks: seq<seq<byte>>, i: nat)
    requires i < |chunks|
    ensures Concat(chunks[..i + 1]) == Concat(chunks[..i]) + chunks[i]
    ensures |Concat(chunks[..i + 1])| <= |Concat(chunks)|
  {
    if i == 0 {
      assert chunks[..1] == [chunks[0]] && Concat([]) == [];
    } else {
      ConcatMore(chunks[1..], i - 1);
      assert chunks[..i + 1][1..] == chunks[1..][..i] && chunks[..i][1..] == chunks[1..][..i - 1];
    }
  }

  /** How many chunks at the front are empty. */
  function LeadingEmpty(chunks: seq<seq<byte>>): (k: nat)
    ensures k <= |chunks| && (forall i :: 0 <= i < k ==> chunks[i] == []) && (k < |chunks| ==> chunks[k] != [])
  {
    if chunks == [] || chunks[0] != [] then 0 else 1 + LeadingEmpty(chunks[1..])
  }

  /** The frames a run of `len` writes takes at the end of a file of `n` pages, up
      to `end` and with `k` empty ones at offset 0 first: for each of those all that
      a file can have, and then those the last write lacks. */
  function NeededFor(n: nat, k: nat, len: nat, end: nat): nat {
    (if k == 0 then 0 else Missing(n, FILE_PAGES - 1) + FILE_PAGES * (k - 1))
    + if k == len then 0 else Missing(if k == 0 then n else 0, LastWanted(end))
  }

  /** The page count after them. */
  function PagesFor(n: nat, k: nat, len: nat, end: nat): nat {
    if len == 0 then n else PagesAfter(if k == 0 then n else 0, end)
  }

  /** How many of the chunks are empty writes at offset 0 of a file of that size. */
  function Wipes(size: nat, chunks: seq<seq<byte>>): (k: nat)
    ensures k <= |chunks|
  {
    if size == 0 then LeadingEmpty(chunks) else 0
  }

  function Needed(n: nat, size: nat, chunks: seq<seq<byte>>): nat {
    NeededFor(n, Wipes(size, chunks), |chunks|, size + |Concat(chunks)|)
  }

  function PagesThen(n: nat, size: nat, chunks: seq<seq<byte>>): nat {
    PagesFor(n, Wipes(size, chunks), |chunks|, size + |Concat(chunks)|)
  }

  lemma {:induction false} LeadingMore(chunks: seq<seq<byte>>, i: nat)
    requires i < |chunks|
    ensures var k := LeadingEmpty(chunks[..i]);
            LeadingEmpty(chunks[..i + 1]) == if k == i && chunks[i] == [] then i + 1 else k
  {
    if i == 0 {
      assert chunks[..1] == [chunks[0]];
    } else {
      assert chunks[..i + 1][1..] == chunks[1..][..i] && chunks[..i][1..] == chunks[1..][..i - 1];
      LeadingMore(chunks[1..], i - 1);
    }
  }

  lemma {:induction false} EmptyConcat(chunks: seq<seq<byte>>)
    ensures |Concat(chunks)| == 0 <==> LeadingEmpty(chunks) == |chunks|
  {
    if chunks != [] {
      EmptyConcat(chunks[1..]);
    }
  }

  /** One write more, from `a` to `b`, takes the frames it lacks. */
  lemma NeededStep(n: nat, k: nat, len: nat, a: nat, b: nat)
    requires n <= FILE_PAGES && k <= len && a <= b && (k == len || 0 < a)
    requires b == 0 ==> k == len
    requires k == len && 0 < len ==> a == 0
    ensures var k', p := if b == 0 then len + 1 else k, PagesFor(n, k, len, a);
            && NeededFor(n, k', len + 1, b) == NeededFor(n, k, len, a) + Missing(p, LastWanted(b))
            && PagesFor(n, k', len + 1, b) == PagesAfter(p, b)
  {
    LastGrows(a, b);
    hide LastWanted;
  }

  lemma NeededMore(n: nat, size: nat, chunks: seq<seq<byte>>, i: nat)
    requires i < |chunks| && n <= FILE_PAGES
    ensures var end := size + |Concat(chunks[..i + 1])|;
            && Needed(n, size, chunks[..i + 1])
               == Needed(n, size, chunks[..i]) + Missing(PagesThen(n, size, chunks[..i]), LastWanted(end))
            && PagesThen(n, size, chunks[..i + 1]) == PagesAfter(PagesThen(n, size, chunks[..i]), end)
  {
    hide Concat, LastWanted, NeededFor, PagesFor, Wipes;
    WipesMore(size, chunks, i);
    NeededStep(n, Wipes(size, chunks[..i]), i, size + |Concat(chunks[..i])|, size + |Concat(chunks[..i + 1])|);
  }

  lemma WipesMore(size: nat, chunks: seq<seq<byte>>, i: nat)
    requires i < |chunks|
    ensures var k, a, b := Wipes(size, chunks[..i]), size + |Concat(chunks[..i])|, size + |Concat(chunks[..i + 1])|;
            && a <= b && (k == i || 0 < a) && (b == 0 ==> k == i) && (k == i && 0 < i ==> a == 0)
            && Wipes(size, chunks[..i + 1]) == if b == 0 then i + 1 else k
  {
    hide LeadingEmpty, Concat;
    LeadingMore(chunks, i);
    ConcatMore(chunks, i);
    EmptyConcat(chunks[..i]);
    EmptyConcat(chunks[..i + 1]);
  }

  lemma LastGrows(a: nat, b: nat)
    requires a <= b
    ensures 0 < a ==> LastWanted(a) <= LastWanted(b)
    ensures LastWanted(0) == FILE_PAGES - 1
  {
  }

  lemma {:induction false} NeededGrows(n: nat, size: nat, chunks: seq<seq<byte>>, i: nat)
    requires i <= |chunks| && n <= FILE_PAGES
    ensures Needed(n, size, chunks[..i]) <= Needed(n, size, chunks)
    decreases |chunks| - i
  {
    hide Needed, PagesThen;
    if i < |chunks| {
      NeededMore(n, size, chunks, i);
      NeededGrows(n, size, chunks, i + 1);
    } else {
      assert chunks[..i] == chunks;
    }
  }

  /** There is file data for the chunks and there are frames. */
  predicate AllFit(files: seq<FileData>, low: set<nat>, file: Option<nat>, size: nat, chunks: seq<seq<byte>>)
    requires file.Some? ==> file.value < |files|
  {
    (file.Some? || |files| < MAX_FILES) && Needed(PagesOf(files, file), size, chunks) <= |low|
  }

  /** The chunks have been written at the end of a file, into the frames needed. */
  predicate Taken(files0: seq<FileData>, low0: set<nat>, file0: Option<nat>, size: nat, chunks: seq<seq<byte>>,
                  files: seq<FileData>, low: set<nat>, file: Option<nat>)
  {
    && (file0.Some? ==> file0.value < |files0|)
    && if chunks == [] then files == files0 && low == low0 && file == file0
       else
         var n := PagesOf(files0, file0);
         && AllFit(files0, low0, file0, size, chunks) && file.Some? && file.value < |files|
         && PagesOf(files, file) == PagesThen(n, size, chunks) && |low| == |low0| - Needed(n, size, chunks)
  }

  /** The next chunk fits exactly if all up to it do; if not, all chunks do not. */
  lemma TakenNext(files0: seq<FileData>, low0: set<nat>, file0: Option<nat>, size: nat, chunks: seq<seq<byte>>, i: nat,
                  files: seq<FileData>, low: set<nat>, file: Option<nat>,
                  files': seq<FileData>, low': set<nat>, file': Option<nat>, ok: bool)
    requires i < |chunks|
    requires Taken(files0, low0, file0, size, chunks[..i], files, low, file) && PagesOf(files0, file0) <= FILE_PAGES
    requires (file.Some? ==> file.value < |files|) && (file0.Some? ==> file0.value < |files0|)
    requires ok <==> Fits(files, low, file, size + |Concat(chunks[..i + 1])|)
    requires ok ==> Filled(files, low, file, files', low', file', size + |Concat(chunks[..i + 1])|)
    ensures ok ==> Taken(files0, low0, file0, size, chunks[..i + 1], files', low', file')
    ensures !ok ==> !AllFit(files0, low0, file0, size, chunks)
  {
    var n := PagesOf(files0, file0);
    NeededMore(n, size, chunks, i);
    NeededGrows(n, size, chunks, i + 1);
    NeededNothing(n, size);
    hide Needed, PagesThen, Missing, LastWanted, PagesAfter, Concat;
    assert i > 0 ==> chunks[..i] != [];
    assert i == 0 ==> chunks[..i] == [];
  }

  lemma NeededNothing(n: nat, size: nat)
    ensures Needed(n, size, []) == 0 && PagesThen(n, size, []) == n
  {
  }

  /** The chunk at the end of the file of descriptor `fd`. */
  method AppendChunk(fs: VirtualFs, fd: nat, ghost n: nat, data: seq<byte>) returns (r: int)
    requires fs.Valid() && fs.IsOpen(fd) && fs.fds[fd].node == Some(n) && !fs.tree.nodes[n].dir
    requires fs.fds[fd].offset == fs.info[n].size == |fs.Bytes(n)| && fs.info[n].size + |data| <= FILE_PAGES * PAGE
    modifies fs`info, fs`fds, fs.store, fs.store.pfa, fs.store.pfa.lowBitmap
    ensures fs.Valid() && |fs.info| == |old(fs.info)| && |fs.fds| == MAX_FDS && InfoOk(fs.info, fs.store)
    ensures fs.Contents() == WithMore(old(fs.Contents()), n, if r == -1 then [] else data)
    ensures fs.info[n].size == |fs.Bytes(n)|
    ensures fs.fds == AdvancedFds(old(fs.fds), fd, if r == -1 then 0 else |data|)
    ensures r != -1 <==> old(Fits(fs.store.files, fs.store.pfa.state.low, fs.info[n].file, fs.info[n].size + |data|))
    ensures r != -1 ==> Filled(old(fs.store.files), old(fs.store.pfa.state.low), old(fs.info[n].file),
                               fs.store.files, fs.store.pfa.state.low, fs.info[n].file, old(fs.info[n].size) + |data|)
  {
    hide FrameAllocator.Allocator.Valid, PoolOk, Content, Ascending, WellFormed, Fits, LaidOver, Mapped, PagesAfter, LastWanted;
    hide Missing, Patch;
    fs.AllHeld();
    ghost var bytes, size := fs.Bytes(n), fs.info[n].size;
    r := fs.WriteFd(fd, data);
    AppendIs(bytes, data);
    if r != -1 {
      ReachesEnd(PagesOf(fs.store.files, fs.info[n].file), size + |data|);
      if size + |data| > 0 {
        LaidIsPatch(bytes, size, data, fs.Bytes(n));
      }
    }
  }

  lemma ReachesEnd(pages: nat, end: nat)
    requires exists n: nat :: pages == PagesAfter(n, end)
    ensures end <= pages * PAGE
  {
    var n: nat :| pages == PagesAfter(n, end);
  }

  function AdvancedFds(fds: seq<Descriptor>, fd: nat, n: nat): seq<Descriptor>
    requires fd < |fds|
  {
    fds[fd := fds[fd].(offset := fds[fd].offset + n)]
  }

  lemma AppendIs(bytes: seq<byte>, data: seq<byte>)
    ensures Patch(bytes, |bytes|, data) == bytes + data && bytes + [] == bytes
  {
  }

  /** Successive vfs_write calls through a descriptor that stands at the end of its
      file: what has been written is appended, chunk after chunk, and all of it is
      written exactly if there is room for all of it. */
  method WriteChunks(fs: VirtualFs, fd: nat, ghost n: nat, chunks: seq<seq<byte>>) returns (done: nat)
    requires fs.Valid() && fd < |fs.fds| && fs.IsOpen(fd) && fs.fds[fd].node == Some(n) && !fs.tree.nodes[n].dir
    requires fs.fds[fd].offset == fs.info[n].size == |fs.Bytes(n)|
    requires fs.info[n].size + |Concat(chunks)| <= FILE_PAGES * PAGE
    modifies fs`info, fs`fds, fs.store, fs.store.pfa, fs.store.pfa.lowBitmap
    ensures fs.Valid() && done <= |chunks|
    ensures fs.Contents() == WithMore(old(fs.Contents()), n, Concat(chunks[..done]))
    ensures fs.fds == AdvancedFds(old(fs.fds), fd, |Concat(chunks[..done])|)
    ensures chunks != [] ==>
              (done == |chunks| <==>
               old(AllFit(fs.store.files, fs.store.pfa.state.low, fs.info[n].file, fs.info[n].size, chunks)))
  {
    hide *;
    StartWriting(fs, fd, n);
    ghost var files0, low0, file0 := fs.store.files, fs.store.pfa.state.low, fs.info[n].file;
    ghost var size0, contents0 := fs.info[n].size, fs.Contents();
    done := 0;
    NothingWritten(contents0, n, chunks);
    TakenNothing(files0, low0, file0, size0, chunks);
    while done < |chunks|
      invariant done <= |chunks| && fs.Valid() && n < |fs.info| && |fs.fds| == MAX_FDS && InfoOk(fs.info, fs.store)
      invariant fs.Contents() == WithMore(contents0, n, Concat(chunks[..done]))
      invariant fs.fds == AdvancedFds(old(fs.fds), fd, |Concat(chunks[..done])|)
      invariant fs.info[n].size == |fs.Contents()[n]|
      invariant Taken(files0, low0, file0, size0, chunks[..done], fs.store.files, fs.store.pfa.state.low, fs.info[n].file)
    {
      ConcatMore(chunks, done);
      ReadyToWrite(fs, old(fs.fds), fd, n, |Concat(chunks[..done])|);
      WithMoreIs(contents0, n, Concat(chunks[..done]), chunks[done]);
      ghost var files, low, file := fs.store.files, fs.store.pfa.state.low, fs.info[n].file;
      var r := AppendChunk(fs, fd, n, chunks[done]);
      TakenNext(files0, low0, file0, size0, chunks, done, files, low, file,
                fs.store.files, fs.store.pfa.state.low, fs.info[n].file, r != -1);
      if r == -1 {
        return;
      }
      done := done + 1;
    }
    assert chunks[..|chunks|] == chunks;
    if chunks != [] {
      TakenFits(files0, low0, file0, size0, chunks, fs.store.files, fs.store.pfa.state.low, fs.info[n].file);
    }
  }

  lemma TakenNothing(files: seq<FileData>, low: set<nat>, file: Option<nat>, size: nat, chunks: seq<seq<byte>>)
    requires file.Some? ==> file.value < |files|
    ensures Taken(files, low, file, size, chunks[..0], files, low, file)
  {
  }

  lemma TakenFits(files0: seq<FileData>, low0: set<nat>, file0: Option<nat>, size: nat, chunks: seq<seq<byte>>,
                  files: seq<FileData>, low: set<nat>, file: Option<nat>)
    requires Taken(files0, low0, file0, size, chunks, files, low, file) && chunks != []
    ensures (file0.Some? ==> file0.value < |files0|) && AllFit(files0, low0, file0, size, chunks)
  {
  }

  /** `more` at the end of the bytes of node `n`. */
  function WithMore(contents: seq<seq<byte>>, n: nat, more: seq<byte>): seq<seq<byte>>
    requires n < |contents|
  {
    contents[n := contents[n] + more]
  }

  lemma WithMoreIs(contents: seq<seq<byte>>, n: nat, a: seq<byte>, b: seq<byte>)
    requires n < |contents|
    ensures WithMore(WithMore(contents, n, a), n, b) == WithMore(contents, n, a + b)
    ensures WithMore(contents, n, []) == contents && |WithMore(contents, n, a)| == |contents|
    ensures |WithMore(contents, n, a)[n]| == |contents[n]| + |a|
    ensures WithMore(WithMore(contents, n, a), n, []) == WithMore(contents, n, a)
  {
    assert contents[n] + a + [] == contents[n] + a;
    assert contents[n] + a + b == contents[n] + (a + b) && contents[n] + [] == contents[n];
  }

  lemma NothingWritten(contents: seq<seq<byte>>, n: nat, chunks: seq<seq<byte>>)
    requires n < |contents|
    ensures Concat(chunks[..0]) == [] && WithMore(contents, n, Concat(chunks[..0])) == contents
  {
    WithMoreIs(contents, n, [], []);
  }

  lemma ReadyToWrite(fs: VirtualFs, fds0: seq<Descriptor>, fd: nat, n: nat, k: nat)
    requires fs.Valid() && fd < |fds0| && fs.fds == AdvancedFds(fds0, fd, k) && fds0[fd].node == Some(n)
    requires fds0[fd].refcount > 0
    ensures InfoOk(fs.info, fs.store) && n < |fs.info| && |fs.Contents()| == |fs.info| == |fs.tree.nodes|
    ensures |fs.fds| == MAX_FDS && fs.IsOpen(fd) && fs.fds[fd].node == Some(n)
    ensures fs.fds[fd].offset == fds0[fd].offset + k
    ensures fs.store.NodeOk(fs.info[n].file, fs.info[n].size) && fs.Contents()[n] == fs.Bytes(n)
    ensures fs.info[n].file.Some? ==> fs.info[n].file.value < |fs.store.files|
    ensures forall m: nat :: AdvancedFds(fs.fds, fd, m) == AdvancedFds(fds0, fd, k + m)
  {
    assert fs.fds[fd].refcount > 0;
  }

  lemma StartWriting(fs: VirtualFs, fd: nat, n: nat)
    requires fs.Valid() && fs.IsOpen(fd) && fs.fds[fd].node == Some(n)
    ensures |fs.fds| == MAX_FDS && AdvancedFds(fs.fds, fd, 0) == fs.fds && fs.fds[fd].refcount > 0
    ensures InfoOk(fs.info, fs.store) && n < |fs.info| && |fs.Contents()| == |fs.info| == |fs.tree.nodes|
    ensures fs.store.NodeOk(fs.info[n].file, fs.info[n].size) && fs.Contents()[n] == fs.Bytes(n)
    ensures fs.info[n].file.Some? ==> fs.info[n].file.value < |fs.store.files|
    ensures PagesOf(fs.store.files, fs.info[n].file) <= FILE_PAGES
  {
    ReadyToWrite(fs, fs.fds, fd, n, 0);
  }

  /** The path can be made, leads to what is made, and a descriptor is free. */
  predicate CanStore(t: Tree, path: string, fds: seq<Descriptor>)
    requires WellFormed(t)
  {
    && Make(t, path, false).Some? && |Basename(path)| <= 31 && Resolve(t, Parent(path)) == Resolve(t, Dirname(path))
    && exists f :: 3 <= f < |fds| && fds[f].refcount == 0
  }

  lemma NewFile(t: Tree, path: string)
    requires WellFormed(t) && Resolve(t, path).None?
    ensures Make(t, path, false).Some? ==>
              var t' := Make(t, path, false).value;
              && WellFormed(t') && |t'.nodes| == |t.nodes| + 1 && !t'.nodes[|t.nodes|].dir
              && Resolve(t', path) == if |Basename(path)| <= 31 && Resolve(t, Parent(path)) == Resolve(t, Dirname(path))
                                      then Some(|t.nodes|) else None
  {
    if Make(t, path, false).Some? {
      MakeGrows(t, path, false);
      MadeResolves(t, path, false);
      hide Resolve, WellFormed;
    }
  }

  /** vfs_open of a new path, vfs_write chunk after chunk, vfs_close. */
  method Store(fs: VirtualFs, path: string, chunks: seq<seq<byte>>) returns (ok: bool, done: nat)
    requires fs.Valid() && Resolve(fs.tree, path).None? && |Concat(chunks)| <= FILE_PAGES * PAGE
    modifies fs, fs.store, fs.store.pfa, fs.store.pfa.lowBitmap
    ensures fs.Valid() && (ok <==> CanStore(old(fs.tree), path, old(fs.fds)))
    ensures ok ==>
              var n := |old(fs.tree).nodes|;
              && Resolve(fs.tree, path) == Some(n) && !fs.tree.nodes[n].dir
              && (exists f :: FIRST_FD <= f < MAX_FDS && fs.fds[f].refcount == 0)
              && done <= |chunks| && n < |fs.info| && fs.Bytes(n) == Concat(chunks[..done])
    ensures ok && chunks != [] ==>
              (done == |chunks| <==> old(AllFit(fs.store.files, fs.store.pfa.state.low, None, 0, chunks)))
  {
    hide FrameAllocator.Allocator.Valid, PoolOk, Content, Ascending, WellFormed, Fits, FileStore.Valid, Make, Resolve;
    hide CanStore, FdsOk, Unshared, Concat;
    ok, done := false, 0;
    ghost var n := |fs.tree.nodes|;
    var fd := OpenNew(fs, path);
    if fd == -1 {
      return;
    }
    done := WriteChunks(fs, fd, n, chunks);
    AppendIs(Concat(chunks[..done]), []);
    fs.DescriptorTable();
    assert fs.fds[fd].refcount == 1;
    assert fs.Contents()[n] == [] + Concat(chunks[..done]) == Concat(chunks[..done]);
    var _ := fs.Close(fd);
    ok := true;
    assert fs.fds[fd].refcount == 0;
    assert n < |fs.info| && fs.Bytes(n) == fs.Contents()[n];
  }

  /** vfs_open of a path that does not resolve yet. */
  method OpenNew(fs: VirtualFs, path: string) returns (fd: int)
    requires fs.Valid() && Resolve(fs.tree, path).None?
    modifies fs
    ensures fs.Valid() && (fd != -1 <==> CanStore(old(fs.tree), path, old(fs.fds)))
    ensures fd != -1 ==>
              var n := |old(fs.tree).nodes|;
              && Resolve(fs.tree, path) == Some(n) && n < |fs.tree.nodes| && !fs.tree.nodes[n].dir
              && FIRST_FD <= fd < |fs.fds| == MAX_FDS && fs.IsOpen(fd) && fs.fds[fd] == Descriptor(Some(n), 0, 1, O_CREAT)
              && n < |fs.info| && fs.info[n] == FileInfo(0, None)
  {
    hide FrameAllocator.Allocator.Valid, PoolOk, Content, Ascending, WellFormed, FileStore.Valid, Make, Resolve, InfoOk;
    NewFile(fs.tree, path);
    fd := fs.Open(path, O_CREAT);
  }

  /** What is read back through a new descriptor is what was written. */
  method StoreThenLoad(fs: VirtualFs, path: string, chunks: seq<seq<byte>>) returns (ok: bool, done: nat, buf: seq<byte>)
    requires fs.Valid() && Resolve(fs.tree, path).None? && |Concat(chunks)| <= FILE_PAGES * PAGE
    modifies fs, fs.store, fs.store.pfa, fs.store.pfa.lowBitmap
    ensures fs.Valid() && (ok <==> CanStore(old(fs.tree), path, old(fs.fds)))
    ensures ok ==> done <= |chunks| && buf == Concat(chunks[..done])
    ensures ok && chunks != [] ==>
              (done == |chunks| <==> old(AllFit(fs.store.files, fs.store.pfa.state.low, None, 0, chunks)))
  {
    hide FrameAllocator.Allocator.Valid, PoolOk, Content, Ascending, WellFormed, Fits, FileStore.Valid, Make, Resolve;
    hide VirtualFs.Valid, CanStore;
    ghost var n := |fs.tree.nodes|;
    buf := [];
    ok, done := Store(fs, path, chunks);
    if ok {
      WholeSlice(chunks, done);
      buf := Load(fs, path, |Concat(chunks)|, n);
    }
  }

  /** vfs_open and vfs_read of a file that exists. */
  method Load(fs: VirtualFs, path: string, count: nat, ghost n: nat) returns (buf: seq<byte>)
    requires fs.Valid() && n < |fs.info| && Resolve(fs.tree, path) == Some(n) && !fs.tree.nodes[n].dir
    requires exists f :: FIRST_FD <= f < MAX_FDS && fs.fds[f].refcount == 0
    modifies fs
    ensures fs.Valid() && n < |fs.info| && fs.info == old(fs.info) && fs.tree == old(fs.tree)
    ensures buf == Slice(old(fs.Bytes(n)), 0, count % WORD32)
  {
    hide FrameAllocator.Allocator.Valid, PoolOk, Content, Ascending, WellFormed, FileStore.Valid, Make, Resolve;
    var fd := fs.Open(path, 0);
    var r;
    r, buf := fs.ReadFd(fd, count);
  }

  lemma {:induction false} WholeSlice(chunks: seq<seq<byte>>, i: nat)
    requires i <= |chunks| && |Concat(chunks)| < WORD32
    ensures Slice(Concat(chunks[..i]), 0, |Concat(chunks)| % WORD32) == Concat(chunks[..i])
    ensures |Concat(chunks[..i])| <= |Concat(chunks)|
    decreases |chunks| - i
  {
    if i < |chunks| {
      ConcatMore(chunks, i);
    } else {
      assert chunks[..i] == chunks;
    }
  }
}
