/** Path resolution (vfs.c) over the directory trees of ramfs (ramfs.c). */
module VfsTree {
  import opened Basics

  const MAX_CHILDREN: nat := 64
  const MAX_NODES: nat := 64
  const MAX_MOUNTS: nat := 16
  /** Characters of a child's name that the directory keeps. */
  const NAME_KEPT: nat := 31
  /** Characters of a path component that one lookup takes. */
  const COMPONENT: nat := 255
  /** Characters of a directory name that vfs_create and vfs_mkdir keep. */
  const DIRNAME: nat := 255

  datatype Child = Child(name: string, node: nat)

  /** A pooled node: the child slots of a directory, and the mount linked to it. */
  datatype Node = Node(dir: bool, children: seq<Option<Child>>, mount: Option<nat>)

  /** Nodes refer to each other by pool index; `mounts` holds the root node of
      each mount. */
  datatype Tree = Tree(nodes: seq<Node>, mounts: seq<nat>, root: Option<nat>)

  // ---------------------------------------------------------------------------
  // Paths
  // ---------------------------------------------------------------------------

  function UpToSlash(p: string): (n: nat)
    ensures n <= |p| && (forall i :: 0 <= i < n ==> p[i] != '/') && (n < |p| ==> p[n] == '/')
  {
    if p == "" || p[0] == '/' then 0 else 1 + UpToSlash(p[1..])
  }

  /** Length of the next component: up to a slash or the component buffer. */
  function ChunkLength(p: string): (n: nat)
    ensures n <= |p| && n <= 255 && forall i :: 0 <= i < n ==> p[i] != '/'
    ensures n < |p| && n < 255 ==> p[n] == '/'
  {
    Min(UpToSlash(p), COMPONENT)
  }

  /** What follows the next component and one slash behind it. */
  function AfterChunk(p: string): (r: string)
    ensures p != "" ==> |r| < |p|
  {
    var n := ChunkLength(p);
    if n < |p| && p[n] == '/' then p[n + 1..] else p[n..]
  }

  /** The components the resolver looks up, in order. */
  function Components(p: string): (cs: seq<string>)
    ensures forall i :: 0 <= i < |cs| ==> cs[i] != ""
    decreases |p|
  {
    if p == "" then []
    else Head(p) + Components(AfterChunk(p))
  }

  lemma UpToSlashIs(p: string, n: nat)
    requires n <= |p| && (forall i :: 0 <= i < n ==> p[i] != '/') && (n < |p| ==> p[n] == '/')
    ensures UpToSlash(p) == n
  {
    var m := UpToSlash(p);
    assert m < |p| ==> p[m] == '/';
  }

  /** A slash separates components wherever it stands. */
  lemma {:induction false} ComponentsSplit(a: string, b: string)
    ensures Components(a + "/" + b) == Components(a) + Components(b)
    decreases |a|
  {
    hide *;
    var p := a + "/" + b;
    if a == "" {
      assert p == "/" + b;
      ComponentsSlash(b);
      NoComponents();
    } else {
      ChunkOfSplit(a, b);
      ComponentsOf(a);
      ComponentsOf(p);
      if ChunkLength(a) < |a| {
        ComponentsSplit(AfterChunk(a), b);
      } else {
        NoComponents();
      }
    }
  }

  lemma ComponentsSlash(b: string)
    ensures Components("/" + b) == Components(b)
  {
    var p := "/" + b;
    assert p[1..] == b;
    UpToSlashIs(p, 0);
  }

  function Head(p: string): seq<string> { if ChunkLength(p) == 0 then [] else [p[..ChunkLength(p)]] }

  lemma ComponentsOf(p: string)
    requires p != ""
    ensures Components(p) == Head(p) + Components(AfterChunk(p))
  {
  }

  lemma NoComponents()
    ensures Components("") == []
  {
  }

  lemma ChunkOfSplit(a: string, b: string)
    requires a != ""
    ensures var p := a + "/" + b; var n := ChunkLength(a);
            && p != "" && ChunkLength(p) == n && Head(p) == Head(a)
            && (n < |a| ==> AfterChunk(p) == AfterChunk(a) + "/" + b)
            && (n == |a| ==> AfterChunk(p) == b && AfterChunk(a) == "")
  {
    var p := a + "/" + b;
    var n, k := ChunkLength(a), UpToSlash(a);
    assert forall i :: 0 <= i < |a| ==> p[i] == a[i];
    assert p[|a|] == '/';
    UpToSlashIs(p, k);
    hide UpToSlash;
    assert p[..n] == a[..n];
    if n == |a| {
      assert p[n + 1..] == b;
    } else if a[n] == '/' {
      assert p[n + 1..] == a[n + 1..] + "/" + b;
    } else {
      assert p[n..] == a[n..] + "/" + b;
    }
  }

  /** A name of ordinary length is one component. */
  lemma OneComponent(c: string)
    requires c != "" && |c| <= 255 && forall i :: 0 <= i < |c| ==> c[i] != '/'
    ensures Components(c) == [c]
  {
    UpToSlashIs(c, |c|);
    assert c[..|c|] == c && AfterChunk(c) == "";
  }

  /** A longer name starts with a full component buffer. */
  lemma LongComponent(c: string)
    requires |c| > 255 && forall i :: 0 <= i < |c| ==> c[i] != '/'
    ensures Components(c) != [] && Components(c)[0] == c[..255]
  {
    UpToSlashIs(c, |c|);
  }

  // ---------------------------------------------------------------------------
  // Resolution
  // ---------------------------------------------------------------------------

  /** First slot from `i` on whose child is called `name`. */
  function FindSlot(children: seq<Option<Child>>, i: nat, name: string): (r: Option<nat>)
    requires i <= |children|
    ensures r.Some? ==> i <= r.value < |children| && children[r.value].Some? && children[r.value].value.name == name
    ensures forall j :: i <= j < (if r.Some? then r.value else |children|) ==>
              !(children[j].Some? && children[j].value.name == name)
    decreases |children| - i
  {
    if i == |children| then None
    else if children[i].Some? && children[i].value.name == name then Some(i)
    else FindSlot(children, i + 1, name)
  }

  /** Slots fill from the front and are never emptied. */
  predicate Compact(children: seq<Option<Child>>) {
    forall i, j :: 0 <= i < j < |children| && children[j].Some? ==> children[i].Some?
  }

  predicate NodeOk(n: Node, nodes: nat, mounts: nat) {
    && |n.children| == 64 && Compact(n.children)
    && (forall i :: 0 <= i < |n.children| && n.children[i].Some? ==> n.children[i].value.node < nodes)
    && (forall i :: 0 <= i < |n.children| && n.children[i].Some? ==> |n.children[i].value.name| <= 31)
    && (n.mount.Some? ==> n.mount.value < mounts)
  }

  predicate WellFormed(t: Tree) {
    && |t.nodes| <= 64 && |t.mounts| <= 16
    && (forall n :: 0 <= n < |t.nodes| ==> NodeOk(t.nodes[n], |t.nodes|, |t.mounts|))
    && (forall m :: 0 <= m < |t.mounts| ==> t.mounts[m] < |t.nodes|)
    && (t.root.Some? ==> t.root.value < |t.nodes|)
  }

  /** ramfs_finddir */
  function FindDir(t: Tree, d: nat, name: string): (r: Option<nat>)
    requires WellFormed(t) && d < |t.nodes|
    ensures r.Some? ==> r.value < |t.nodes|
  {
    var node := t.nodes[d];
    if !node.dir then None
    else
      match FindSlot(node.children, 0, name)
      case None => None
      case Some(i) => Some(node.children[i].value.node)
  }

  /** Onto the mounted root when the node is a mount point. */
  function Cross(t: Tree, n: nat): (m: nat)
    requires WellFormed(t) && n < |t.nodes|
    ensures m < |t.nodes|
  {
    assert NodeOk(t.nodes[n], |t.nodes|, |t.mounts|);
    if t.nodes[n].mount.Some? then t.mounts[t.nodes[n].mount.value] else n
  }

  /** One component. */
  function Step(t: Tree, d: nat, name: string): (r: Option<nat>)
    requires WellFormed(t) && d < |t.nodes|
    ensures r.Some? ==> r.value < |t.nodes|
  {
    match FindDir(t, d, name)
    case None => None
    case Some(n) => Some(Cross(t, n))
  }

  function Walk(t: Tree, d: nat, cs: seq<string>): (r: Option<nat>)
    requires WellFormed(t) && d < |t.nodes|
    ensures r.Some? ==> r.value < |t.nodes|
    decreases |cs|
  {
    if cs == [] then Some(d)
    else
      match Step(t, d, cs[0])
      case None => None
      case Some(n) => Walk(t, n, cs[1..])
  }

  predicate Absolute(path: string) { path != "" && path[0] == '/' }

  /** vfs_resolve_path */
  function Resolve(t: Tree, path: string): (r: Option<nat>)
    requires WellFormed(t)
    ensures r.Some? ==> r.value < |t.nodes|
  {
    if t.root.None? || !Absolute(path) then None else Walk(t, t.root.value, Components(path[1..]))
  }

  function Then(t: Tree, r: Option<nat>, cs: seq<string>): Option<nat>
    requires WellFormed(t) && (r.Some? ==> r.value < |t.nodes|)
  {
    if r.None? then None else Walk(t, r.value, cs)
  }

  lemma {:induction false} WalkSplit(t: Tree, d: nat, a: seq<string>, b: seq<string>)
    requires WellFormed(t) && d < |t.nodes|
    ensures Walk(t, d, a + b) == Then(t, Walk(t, d, a), b)
    decreases |a|
  {
    hide WellFormed, FindDir, Cross;
    if a == [] {
      assert a + b == b;
    } else {
      assert (a + b)[0] == a[0] && (a + b)[1..] == a[1..] + b;
      var r := Step(t, d, a[0]);
      if r.Some? {
        WalkSplit(t, r.value, a[1..], b);
      }
    }
  }

  /** Resolving p/q is resolving p and walking q from there. */
  lemma ResolveSplit(t: Tree, p: string, q: string)
    requires WellFormed(t) && Absolute(p)
    ensures Absolute(p + "/" + q)
    ensures Resolve(t, p + "/" + q) == Then(t, Resolve(t, p), Components(q))
  {
    hide WellFormed, Walk, Components;
    assert (p + "/" + q)[1..] == p[1..] + "/" + q;
    ComponentsSplit(p[1..], q);
    if t.root.Some? {
      RootInPool(t);
      WalkSplit(t, t.root.value, Components(p[1..]), Components(q));
    }
  }

  lemma RootInPool(t: Tree)
    requires WellFormed(t) && t.root.Some?
    ensures t.root.value < |t.nodes|
  {
  }

  /** Resolving p/c is one lookup, with mount crossing, from where p leads. */
  lemma ResolveChild(t: Tree, p: string, c: string)
    requires WellFormed(t) && Absolute(p)
    requires c != "" && |c| <= 255 && forall i :: 0 <= i < |c| ==> c[i] != '/'
    ensures Resolve(t, p + "/" + c) == match Resolve(t, p)
                                       case None => None
                                       case Some(d) => Step(t, d, c)
  {
    hide WellFormed, Step;
    ResolveSplit(t, p, c);
    OneComponent(c);
    if Resolve(t, p).Some? {
      WalkOne(t, Resolve(t, p).value, c);
    }
    hide Resolve;
  }

  lemma WalkOne(t: Tree, d: nat, c: string)
    requires WellFormed(t) && d < |t.nodes|
    ensures Walk(t, d, [c]) == Step(t, d, c)
  {
    hide WellFormed, Step;
    assert [c][0] == c && [c][1..] == [];
  }

  // ---------------------------------------------------------------------------
  // Creating nodes
  // ---------------------------------------------------------------------------

  function FreeSlot(children: seq<Option<Child>>, i: nat): (r: Option<nat>)
    requires i <= |children|
    ensures r.Some? ==> i <= r.value < |children| && children[r.value].None?
    ensures forall j :: i <= j < (if r.Some? then r.value else |children|) ==> children[j].Some?
    decreases |children| - i
  {
    if i == |children| then None
    else if children[i].None? then Some(i)
    else FreeSlot(children, i + 1)
  }

  function Kept(name: string): (k: string)
    ensures |k| <= NAME_KEPT && (k == name <==> |name| <= NAME_KEPT)
    ensures k <= name && |k| == Min(|name|, 31)
  {
    name[..Min(|name|, NAME_KEPT)]
  }

  /** ramfs_alloc_node */
  function EmptyNode(dir: bool): Node {
    Node(dir, seq(MAX_CHILDREN, _ => None), None)
  }

  /** ramfs_create: the new node is the last of the pool. */
  function AddChild(t: Tree, d: nat, name: string, dir: bool): (r: Option<Tree>)
    requires WellFormed(t) && d < |t.nodes|
  {
    var node := t.nodes[d];
    if !node.dir then None
    else
      match FreeSlot(node.children, 0)
      case None => None
      case Some(slot) =>
        if |t.nodes| >= MAX_NODES then None
        else
          var child := Child(Kept(name), |t.nodes|);
          Some(t.(nodes := t.nodes[d := node.(children := node.children[slot := Some(child)])] + [EmptyNode(dir)]))
  }

  /** A node as it is made: a directory or a file, nothing in it, nothing mounted on it. */
  predicate Blank(n: Node, dir: bool) {
    n.dir == dir && n.mount == None && forall i :: 0 <= i < |n.children| ==> n.children[i] == None
  }

  /** Nothing that was there is gone: only free slots and the pool's end change. */
  ghost predicate Grown(t: Tree, t': Tree) {
    && |t.nodes| <= |t'.nodes| && t'.mounts == t.mounts && t'.root == t.root
    && forall n | 0 <= n < |t.nodes| :: NodeGrown(t.nodes[n], t'.nodes[n])
  }

  predicate NodeGrown(a: Node, b: Node) {
    && b.dir == a.dir && b.mount == a.mount && |b.children| == |a.children|
    && forall i :: 0 <= i < |a.children| && a.children[i].Some? ==> b.children[i] == a.children[i]
  }

  lemma AddChildGrows(t: Tree, d: nat, name: string, dir: bool)
    requires WellFormed(t) && d < |t.nodes| && AddChild(t, d, name, dir).Some?
    ensures var t' := AddChild(t, d, name, dir).value;
            WellFormed(t') && Grown(t, t') && |t'.nodes| == |t.nodes| + 1 && Blank(t'.nodes[|t.nodes|], dir)
  {
    var t' := AddChild(t, d, name, dir).value;
    forall n | 0 <= n < |t'.nodes|
      ensures NodeOk(t'.nodes[n], |t'.nodes|, |t'.mounts|)
      ensures n < |t.nodes| ==> NodeGrown(t.nodes[n], t'.nodes[n])
    {
      if n == d {
        SlotFilled(t.nodes[d], FreeSlot(t.nodes[d].children, 0).value, Child(Kept(name), |t.nodes|), |t.nodes|, |t.mounts|);
      } else if n < |t.nodes| {
        assert NodeOk(t.nodes[n], |t.nodes|, |t.mounts|);
      }
    }
  }

  lemma SlotFilled(n: Node, slot: nat, child: Child, nodes: nat, mounts: nat)
    requires NodeOk(n, nodes, mounts) && slot < |n.children| && n.children[slot].None?
    requires forall j :: 0 <= j < slot ==> n.children[j].Some?
    requires child.node == nodes && |child.name| <= NAME_KEPT
    ensures var n' := n.(children := n.children[slot := Some(child)]);
            NodeOk(n', nodes + 1, mounts) && NodeGrown(n, n')
  {
  }

  lemma GrownTrans(a: Tree, b: Tree, c: Tree)
    requires Grown(a, b) && Grown(b, c)
    ensures Grown(a, c)
  {
    forall n | 0 <= n < |a.nodes|
      ensures NodeGrown(a.nodes[n], c.nodes[n])
    {
      assert NodeGrown(a.nodes[n], b.nodes[n]) && NodeGrown(b.nodes[n], c.nodes[n]);
    }
  }

  /** A child once found is found for good, even beside a later duplicate. */
  lemma StepStable(t: Tree, t': Tree, d: nat, name: string)
    requires WellFormed(t) && WellFormed(t') && Grown(t, t') && d < |t.nodes| && Step(t, d, name).Some?
    ensures Step(t', d, name) == Step(t, d, name)
  {
    var a, b := t.nodes[d], t'.nodes[d];
    assert NodeGrown(a, b) && NodeOk(a, |t.nodes|, |t.mounts|) && NodeOk(b, |t'.nodes|, |t'.mounts|);
    SlotStable(a.children, b.children, name);
    var n := FindDir(t, d, name).value;
    assert NodeGrown(t.nodes[n], t'.nodes[n]);
  }

  lemma SlotStable(a: seq<Option<Child>>, b: seq<Option<Child>>, name: string)
    requires |a| == |b| && Compact(a) && FindSlot(a, 0, name).Some?
    requires forall i :: 0 <= i < |a| && a[i].Some? ==> b[i] == a[i]
    ensures FindSlot(b, 0, name) == FindSlot(a, 0, name)
  {
    var i, r := FindSlot(a, 0, name).value, FindSlot(b, 0, name);
    assert a[i].Some? && forall j :: 0 <= j < i ==> a[j].Some?;
    assert r.Some? && r.value <= i;
  }

  lemma {:induction false} WalkStable(t: Tree, t': Tree, d: nat, cs: seq<string>)
    requires WellFormed(t) && WellFormed(t') && Grown(t, t') && d < |t.nodes| && Walk(t, d, cs).Some?
    ensures d < |t'.nodes| && Walk(t', d, cs) == Walk(t, d, cs)
    decreases |cs|
  {
    hide WellFormed, Step;
    if cs != [] {
      StepStable(t, t', d, cs[0]);
      WalkStable(t, t', Step(t, d, cs[0]).value, cs[1..]);
    }
  }

  /** No create or mkdir changes what a resolving path resolves to. */
  lemma ResolveStable(t: Tree, t': Tree, path: string)
    requires WellFormed(t) && WellFormed(t') && Grown(t, t') && Resolve(t, path).Some?
    ensures Resolve(t', path) == Resolve(t, path)
  {
    WalkStable(t, t', t.root.value, Components(path[1..]));
  }

  // ---------------------------------------------------------------------------
  // vfs_create and vfs_mkdir
  // ---------------------------------------------------------------------------

  function LastSlash(p: string): (r: Option<nat>)
    ensures r.Some? ==> r.value < |p| && p[r.value] == '/'
    ensures forall i :: (if r.Some? then r.value else -1) < i < |p| ==> p[i] != '/'
    decreases |p|
  {
    if p == "" then None
    else if p[|p| - 1] == '/' then Some(|p| - 1)
    else LastSlash(p[..|p| - 1])
  }

  function Basename(p: string): string {
    match LastSlash(p)
    case None => p
    case Some(i) => p[i + 1..]
  }

  /** Cut to the 256-byte buffer of the callers. */
  function Dirname(p: string): string {
    match LastSlash(p)
    case None => "."
    case Some(i) => p[..Min(if i == 0 then 1 else i, DIRNAME)]
  }

  /** vfs_create (`dir` false) and vfs_mkdir. */
  function Make(t: Tree, path: string, dir: bool): (r: Option<Tree>)
    requires WellFormed(t)
  {
    match Resolve(t, Dirname(path))
    case None => None
    case Some(parent) => AddChild(t, parent, Basename(path), dir)
  }

  lemma MakeGrows(t: Tree, path: string, dir: bool)
    requires WellFormed(t) && Make(t, path, dir).Some?
    ensures var t' := Make(t, path, dir).value;
            WellFormed(t') && Grown(t, t') && |t'.nodes| == |t.nodes| + 1 && Blank(t'.nodes[|t.nodes|], dir)
  {
    AddChildGrows(t, Resolve(t, Dirname(path)).value, Basename(path), dir);
  }

  /** A create succeeds if and only if the directory name resolves to a directory with
      one of its 64 slots free and the pool of 64 nodes has one left. */
  lemma MakesExactly(t: Tree, path: string, dir: bool)
    requires WellFormed(t)
    ensures Make(t, path, dir).Some? <==>
            && |t.nodes| < 64 && Resolve(t, Dirname(path)).Some?
            && var node := t.nodes[Resolve(t, Dirname(path)).value];
               node.dir && |node.children| == 64 && exists i :: 0 <= i < 64 && node.children[i].None?
  {
    hide Resolve, Dirname, Basename;
    if Resolve(t, Dirname(path)).Some? {
      var d := Resolve(t, Dirname(path)).value;
      assert NodeOk(t.nodes[d], |t.nodes|, |t.mounts|);
    }
  }

  /** Everything in front of the base name, however long. */
  function Parent(p: string): string {
    match LastSlash(p)
    case None => "."
    case Some(i) => p[..if i == 0 then 1 else i]
  }

  /** A path resolves as what is in front of its base name, then the base name. */
  lemma ResolveParts(t: Tree, path: string)
    requires WellFormed(t) && Absolute(path)
    ensures Resolve(t, path) == Then(t, Resolve(t, Parent(path)), Components(Basename(path)))
    ensures forall i :: 0 <= i < |Basename(path)| ==> Basename(path)[i] != '/'
  {
    PathParts(path);
    hide *;
    var i := LastSlash(path).value;
    if i == 0 {
      RootParts(t, path, Basename(path));
    } else {
      ResolveSplit(t, Parent(path), Basename(path));
    }
  }

  lemma PathParts(path: string)
    requires Absolute(path)
    ensures LastSlash(path).Some?
    ensures LastSlash(path).value == 0 ==> Parent(path) == "/" && path[1..] == Basename(path)
    ensures LastSlash(path).value != 0 ==> Absolute(Parent(path)) && path == Parent(path) + "/" + Basename(path)
    ensures LastSlash(path).value <= 255 ==> Dirname(path) == Parent(path)
    ensures forall i :: 0 <= i < |Basename(path)| ==> Basename(path)[i] != '/'
  {
    hide LastSlash;
    var i := LastSlash(path).value;
    SlashAt(path, i);
    if i == 0 {
      assert Parent(path) == path[..1];
    } else {
      assert Parent(path) == path[..i] && path[..i][0] == path[0];
    }
  }

  lemma SlashAt(p: string, i: nat)
    requires i < |p| && p[i] == '/'
    ensures p == p[..i] + "/" + p[i + 1..] && (i == 0 ==> p[..1] == "/")
  {
  }

  lemma RootParts(t: Tree, path: string, base: string)
    requires WellFormed(t) && Absolute(path) && path[1..] == base
    ensures Resolve(t, path) == Then(t, Resolve(t, "/"), Components(base))
  {
    assert "/"[1..] == "";
    hide WellFormed, Walk, Components;
    NoComponents();
    if t.root.Some? {
      RootInPool(t);
      WalkNothing(t, t.root.value);
    }
  }

  lemma WalkNothing(t: Tree, d: nat)
    requires WellFormed(t) && d < |t.nodes|
    ensures Walk(t, d, []) == Some(d)
  {
  }

  /** The only new lookup that succeeds is the one of the kept name in the
      directory of the new child. */
  lemma AddedIsFound(t: Tree, d: nat, name: string, dir: bool, e: nat, c: string)
    requires WellFormed(t) && d < |t.nodes| && AddChild(t, d, name, dir).Some? && e < |t.nodes|
    requires WellFormed(AddChild(t, d, name, dir).value) && Step(t, e, c).None?
    ensures Step(AddChild(t, d, name, dir).value, e, c) == if e == d && c == Kept(name) then Some(|t.nodes|) else None
  {
    var t' := AddChild(t, d, name, dir).value;
    if e == d {
      var a, b := t.nodes[d].children, t'.nodes[d].children;
      var slot := FreeSlot(a, 0).value;
      assert FindSlot(a, 0, c).None?;
      assert b == a[slot := Some(Child(Kept(name), |t.nodes|))];
      var r := FindSlot(b, 0, c);
      assert b[slot].Some? && b[slot].value.name == Kept(name);
      assert r.Some? ==> r.value == slot;
      assert t'.nodes[|t.nodes|] == EmptyNode(dir);
    }
  }

  /** The new node has no children. */
  lemma NewIsEmpty(t: Tree, d: nat, name: string, dir: bool, c: string)
    requires WellFormed(t) && d < |t.nodes| && AddChild(t, d, name, dir).Some?
    requires WellFormed(AddChild(t, d, name, dir).value)
    ensures Step(AddChild(t, d, name, dir).value, |t.nodes|, c) == None
  {
    assert AddChild(t, d, name, dir).value.nodes[|t.nodes|] == EmptyNode(dir);
  }

  /** A walk that failed before succeeds now exactly if it ends with the kept name
      in the directory of the new child. */
  lemma {:induction false} NewWalks(t: Tree, d: nat, name: string, dir: bool, e: nat, front: seq<string>, last: string)
    requires WellFormed(t) && d < |t.nodes| && AddChild(t, d, name, dir).Some? && e < |t.nodes|
    requires Walk(t, e, front + [last]).None?
    ensures var t' := AddChild(t, d, name, dir).value;
            && WellFormed(t') && e < |t'.nodes|
            && Walk(t', e, front + [last]) ==
               if Walk(t, e, front) == Some(d) && last == Kept(name) then Some(|t.nodes|) else None
    decreases |front|
  {
    AddChildGrows(t, d, name, dir);
    var t' := AddChild(t, d, name, dir).value;
    var cs := front + [last];
    hide WellFormed, Step, AddChild, Kept;
    if front == [] {
      assert cs == [last] && cs[1..] == [];
      AddedIsFound(t, d, name, dir, e, last);
    } else {
      assert cs[1..] == front[1..] + [last] && cs[0] == front[0];
      if Step(t, e, front[0]).Some? {
        StepStable(t, t', e, front[0]);
        NewWalks(t, d, name, dir, Step(t, e, front[0]).value, front[1..], last);
      } else {
        AddedIsFound(t, d, name, dir, e, front[0]);
        NewIsEmpty(t, d, name, dir, cs[1..][0]);
      }
    }
  }

  /** Names longer than a directory keeps are never found. */
  lemma LongNeverFound(t: Tree, d: nat, name: string)
    requires WellFormed(t) && d < |t.nodes| && |name| > NAME_KEPT
    ensures Step(t, d, name) == None
  {
    assert NodeOk(t.nodes[d], |t.nodes|, |t.mounts|);
  }

  /** After a successful create or mkdir of a path that did not resolve, the path
      resolves to the new node exactly when its base name fits the 31 characters
      a directory keeps and the directory name, cut to 255 characters, leads where
      all of it leads; otherwise it still does not resolve. */
  lemma MadeResolves(t: Tree, path: string, dir: bool)
    requires WellFormed(t) && Make(t, path, dir).Some? && Resolve(t, path).None?
    ensures var t' := Make(t, path, dir).value;
            && WellFormed(t') && |t'.nodes| == |t.nodes| + 1 && Blank(t'.nodes[|t.nodes|], dir)
            && Resolve(t', path) == if |Basename(path)| <= 31 && Resolve(t, Parent(path)) == Resolve(t, Dirname(path))
                                    then Some(|t.nodes|) else None
    ensures LastSlash(path).Some? && LastSlash(path).value <= 255 ==> Parent(path) == Dirname(path)
  {
    hide *;
    MakeIs(t, path, dir);
    AllComponents(path);
    var t', base := Make(t, path, dir).value, Basename(path);
    var d, front := Resolve(t, Dirname(path)).value, Components(Parent(path)[1..]);
    ResolveIsWalk(t, path);
    ResolveIsWalk(t', path);
    ResolveIsWalk(t, Parent(path));
    KeptIs(base);
    if base == "" {
      NoComponents();
      assert front + [] == front;
      if front == [] {
        WalkNothing(t, t.root.value);
      } else {
        var n := |front| - 1;
        assert front[..n] + [front[n]] == front;
        NewWalks(t, d, base, dir, t.root.value, front[..n], front[n]);
      }
    } else if |base| <= 255 {
      OneComponent(base);
      NewWalks(t, d, base, dir, t.root.value, front, base);
    } else {
      LongFails(t', t.root.value, front, base);
    }
  }

  lemma MakeIs(t: Tree, path: string, dir: bool)
    requires WellFormed(t) && Make(t, path, dir).Some?
    ensures Absolute(path) && t.root.Some? && Resolve(t, Dirname(path)).Some?
    ensures var d, t' := Resolve(t, Dirname(path)).value, Make(t, path, dir).value;
            && d < |t.nodes| && AddChild(t, d, Basename(path), dir) == Make(t, path, dir)
            && WellFormed(t') && t'.root == t.root
            && |t'.nodes| == |t.nodes| + 1 && Blank(t'.nodes[|t.nodes|], dir)
  {
    MakeGrows(t, path, dir);
    AbsoluteParts(t, path);
  }

  lemma AllComponents(path: string)
    requires Absolute(path)
    ensures LastSlash(path).Some? && |Parent(path)| > 0 && Absolute(Parent(path))
    ensures LastSlash(path).value <= 255 ==> Dirname(path) == Parent(path)
    ensures Components(path[1..]) == Components(Parent(path)[1..]) + Components(Basename(path))
    ensures forall i :: 0 <= i < |Components(Parent(path)[1..])| ==> Components(Parent(path)[1..])[i] != ""
    ensures forall i :: 0 <= i < |Basename(path)| ==> Basename(path)[i] != '/'
  {
    PathParts(path);
    var parent, base := Parent(path), Basename(path);
    if LastSlash(path).value == 0 {
      assert parent[1..] == "";
    } else {
      assert path[1..] == parent[1..] + "/" + base;
      ComponentsSplit(parent[1..], base);
    }
    hide LastSlash;
  }

  lemma ResolveIsWalk(t: Tree, path: string)
    requires WellFormed(t) && Absolute(path) && t.root.Some?
    ensures t.root.value < |t.nodes| && Resolve(t, path) == Walk(t, t.root.value, Components(path[1..]))
  {
  }

  lemma KeptIs(name: string)
    ensures Kept(name) == name <==> |name| <= 31
    ensures name == "" ==> Kept(name) == ""
    ensures |name| > 255 ==> |name| > 31
  {
  }

  /** A walk through a name that fills the component buffer fails. */
  lemma LongFails(t: Tree, d: nat, front: seq<string>, name: string)
    requires WellFormed(t) && d < |t.nodes| && |name| > 255 && forall i :: 0 <= i < |name| ==> name[i] != '/'
    ensures Walk(t, d, front + Components(name)) == None
  {
    hide WellFormed, Step, Components;
    LongComponent(name);
    WalkSplit(t, d, front, Components(name));
    var r := Walk(t, d, front);
    if r.Some? {
      LongNeverFound(t, r.value, name[..255]);
    }
  }

  /** The tree after vfs_init: a ramfs mounted on the root. */
  function RootOnly(): (t: Tree)
    ensures WellFormed(t)
  {
    Tree([EmptyNode(true).(mount := Some(0))], [0], Some(0))
  }

  /** In an empty root a file is made but not found when its name is too long. */
  lemma LongNameFails(name: string)
    requires |name| == NAME_KEPT + 1 && forall i :: 0 <= i < |name| ==> name[i] != '/'
    ensures Make(RootOnly(), "/" + name, false).Some? && Resolve(RootOnly(), "/" + name).None?
    ensures var t' := Make(RootOnly(), "/" + name, false).value; WellFormed(t') && Resolve(t', "/" + name).None?
  {
    var t, p := RootOnly(), "/" + name;
    LastSlashAt(p, 0);
    assert p[1..] == name == Basename(p) && Dirname(p) == "/" == Parent(p) && "/"[1..] == "";
    hide LastSlash, WellFormed, Components;
    OneComponent(name);
    NoComponents();
    ResolveIsWalk(t, "/");
    ResolveIsWalk(t, p);
    WalkOne(t, 0, name);
    WalkNothing(t, 0);
    assert AddChild(t, 0, name, false).Some?;
    MadeResolves(t, p, false);
  }

  function Slashes(n: nat): (s: string)
    ensures |s| == n && forall i :: 0 <= i < n ==> s[i] == '/'
  {
    seq(n, _ => '/')
  }

  lemma {:induction false} LeadingSlashes(n: nat, p: string)
    ensures Components(Slashes(n) + p) == Components(p)
  {
    hide Components;
    if n == 0 {
      assert Slashes(0) + p == p;
    } else {
      LeadingSlashes(n - 1, p);
      assert Slashes(n) + p == "/" + (Slashes(n - 1) + p);
      ComponentsSlash(Slashes(n - 1) + p);
    }
  }

  /** 255 slashes, then x/y. */
  function LongPath(x: string, y: string): string { Slashes(DIRNAME) + (x + "/" + y) }

  predicate Ordinary(c: string) { 0 < |c| <= NAME_KEPT && forall i :: 0 <= i < |c| ==> c[i] != '/' }

  lemma LastSlashAt(p: string, i: nat)
    requires i < |p| && p[i] == '/' && forall j :: i < j < |p| ==> p[j] != '/'
    ensures LastSlash(p) == Some(i)
  {
    assert LastSlash(p).Some?;
  }

  lemma LongPathParts(x: string, y: string)
    requires Ordinary(x) && Ordinary(y)
    ensures var p := LongPath(x, y);
            && p != "" && p[1..] == Slashes(DIRNAME - 1) + (x + "/" + y) && Basename(p) == y
            && Parent(p) != "" && Parent(p)[1..] == Slashes(DIRNAME - 1) + x
            && Dirname(p) != "" && Dirname(p)[1..] == Slashes(DIRNAME - 1) + ""
            && Absolute(p) && Absolute(Parent(p)) && Absolute(Dirname(p))
  {
    var p := LongPath(x, y);
    LastSlashAt(p, DIRNAME + |x|);
    hide LastSlash;
    assert p[1..] == Slashes(DIRNAME - 1) + (x + "/" + y);
    assert Parent(p)[1..] == Slashes(DIRNAME - 1) + x;
    assert Dirname(p)[1..] == Slashes(DIRNAME - 1) + "";
    assert p[0] == Parent(p)[0] == Dirname(p)[0] == '/';
  }

  lemma LongPathComponents(x: string, y: string)
    requires Ordinary(x) && Ordinary(y)
    ensures var s := Slashes(DIRNAME - 1);
            && Components(s + (x + "/" + y)) == [x] + [y] && Components(s + x) == [x] && Components(s + "") == []
  {
    hide Slashes, Components;
    OneComponent(x);
    OneComponent(y);
    LeadingSlashes(DIRNAME - 1, x + "/" + y);
    LeadingSlashes(DIRNAME - 1, x);
    LeadingSlashes(DIRNAME - 1, "");
    NoComponents();
    ComponentsSplit(x, y);
  }

  /** A file that lands in the wrong directory: the cut leaves only slashes, so
      y is made in the root, but the path leads through x. */
  lemma LongDirectoryFails(t: Tree, x: string, y: string)
    requires WellFormed(t) && t.root.Some? && Ordinary(x) && Ordinary(y)
    requires Make(t, LongPath(x, y), false).Some? && Walk(t, t.root.value, [x]).None?
    ensures Resolve(t, Dirname(LongPath(x, y))) == t.root
    ensures var t' := Make(t, LongPath(x, y), false).value; WellFormed(t') && Resolve(t', LongPath(x, y)).None?
  {
    hide *;
    var p := LongPath(x, y);
    LongPathParts(x, y);
    LongPathComponents(x, y);
    ResolveIsWalk(t, p);
    ResolveIsWalk(t, Parent(p));
    ResolveIsWalk(t, Dirname(p));
    WalkNothing(t, t.root.value);
    WalkSplit(t, t.root.value, [x], [y]);
    ThenNone(t, [y]);
    MakeIs(t, p, false);
    MadeResolves(t, p, false);
  }

  lemma ThenNone(t: Tree, cs: seq<string>)
    requires WellFormed(t)
    ensures Then(t, None, cs) == None
  {
  }

  lemma AbsoluteParts(t: Tree, path: string)
    requires WellFormed(t) && Resolve(t, Dirname(path)).Some?
    ensures Absolute(path)
  {
  }

  datatype Call = Call(path: string, dir: bool)

  /** A run of creates and mkdirs; a failing one changes nothing. */
  ghost function Run(t: Tree, calls: seq<Call>): (t': Tree)
    requires WellFormed(t)
    ensures WellFormed(t') && Grown(t, t')
    decreases |calls|
  {
    if calls == [] then t
    else
      var r := Make(t, calls[0].path, calls[0].dir);
      if r.None? then Run(t, calls[1..])
      else
        MakeGrows(t, calls[0].path, calls[0].dir);
        var t' := Run(r.value, calls[1..]);
        GrownTrans(t, r.value, t');
        t'
  }

  /** Resolution is stable over every run. */
  lemma StableOverRuns(t: Tree, calls: seq<Call>, path: string)
    requires WellFormed(t) && Resolve(t, path).Some?
    ensures Resolve(Run(t, calls), path) == Resolve(t, path)
  {
    ResolveStable(t, Run(t, calls), path);
  }

  // ---------------------------------------------------------------------------
  // The loops of the C functions
  // ---------------------------------------------------------------------------

  /** The character loop of ramfs_finddir. */
  method SameName(a: string, b: string) returns (same: bool)
    ensures same <==> a == b
  {
    var i := 0;
    while i < |a| && i < |b|
      invariant i <= |a| && i <= |b| && a[..i] == b[..i]
    {
      if a[i] != b[i] {
        return false;
      }
      i := i + 1;
    }
    same := i == |a| && i == |b|;
  }

  method FindChild(t: Tree, d: nat, name: string) returns (r: Option<nat>)
    requires WellFormed(t) && d < |t.nodes|
    ensures r == FindDir(t, d, name)
  {
    hide WellFormed;
    if !t.nodes[d].dir {
      return None;
    }
    var children := t.nodes[d].children;
    for i := 0 to |children|
      invariant FindSlot(children, 0, name) == FindSlot(children, i, name)
    {
      if children[i].Some? {
        var same := SameName(name, children[i].value.name);
        if same {
          return Some(children[i].value.node);
        }
      }
    }
    r := None;
  }

  /** The component loop of vfs_resolve_path. */
  method NextComponent(p: string) returns (component: string, rest: string)
    requires p != ""
    ensures component == p[..ChunkLength(p)] && rest == AfterChunk(p)
  {
    var i := 0;
    while i < |p| && p[i] != '/' && i < COMPONENT
      invariant i <= |p| && i <= COMPONENT && forall k :: 0 <= k < i ==> p[k] != '/'
    {
      i := i + 1;
    }
    ChunkIs(p, i);
    component, rest := p[..i], p[i..];
    if rest != "" && rest[0] == '/' {
      rest := rest[1..];
    }
  }

  lemma ChunkIs(p: string, n: nat)
    requires n <= |p| && n <= 255 && forall i :: 0 <= i < n ==> p[i] != '/'
    requires n == |p| || p[n] == '/' || n == 255
    ensures ChunkLength(p) == n
  {
    var m := UpToSlash(p);
    assert m < |p| ==> p[m] == '/';
  }

  /** vfs_resolve_path */
  method ResolvePath(t: Tree, path: string) returns (r: Option<nat>)
    requires WellFormed(t)
    ensures r == Resolve(t, path)
  {
    if t.root.None? || path == "" || path[0] != '/' {
      return None;
    }
    RootInPool(t);
    if |path| == 1 {
      NoComponents();
      WalkNothing(t, t.root.value);
      return t.root;
    }
    r := WalkPath(t, t.root.value, path[1..]);
  }

  method WalkPath(t: Tree, start: nat, path: string) returns (r: Option<nat>)
    requires WellFormed(t) && start < |t.nodes|
    ensures r == Walk(t, start, Components(path))
  {
    hide *;
    var current: nat, p := start, path;
    while p != ""
      invariant current < |t.nodes| && Walk(t, start, Components(path)) == Walk(t, current, Components(p))
      decreases |p|
    {
      WalkNext(t, current, p);
      var component, rest := NextComponent(p);
      if component != "" {
        var next := FindChild(t, current, component);
        if next.None? {
          return None;
        }
        current := Cross(t, next.value);
      }
      p := rest;
    }
    NoComponents();
    WalkNothing(t, current);
    r := Some(current);
  }

  lemma WalkNext(t: Tree, d: nat, p: string)
    requires WellFormed(t) && d < |t.nodes| && p != ""
    ensures var c, rest := p[..ChunkLength(p)], AfterChunk(p);
            && |rest| < |p|
            && Walk(t, d, Components(p)) == if c == "" then Walk(t, d, Components(rest))
                                            else match FindDir(t, d, c)
                                            case None => None
                                            case Some(n) => Walk(t, Cross(t, n), Components(rest))
  {
    hide WellFormed, FindDir, Cross, ChunkLength, AfterChunk, Components;
    ComponentsOf(p);
    var cs := Components(p);
    if p[..ChunkLength(p)] == "" {
      assert cs == Components(AfterChunk(p));
    } else {
      assert cs[0] == p[..ChunkLength(p)] && cs[1..] == Components(AfterChunk(p));
    }
  }

  method BaseName(path: string) returns (base: string)
    ensures base == Basename(path)
  {
    var start := 0;
    for i := 0 to |path|
      invariant start <= i && forall k :: start <= k < i ==> path[k] != '/'
      invariant start > 0 ==> path[start - 1] == '/'
    {
      if path[i] == '/' {
        start := i + 1;
      }
    }
    LastSlashIs(path, start);
    base := path[start..];
  }

  lemma LastSlashIs(p: string, start: nat)
    requires start <= |p| && forall k :: start <= k < |p| ==> p[k] != '/'
    requires start > 0 ==> p[start - 1] == '/'
    ensures LastSlash(p) == if start == 0 then None else Some(start - 1)
  {
    var r := LastSlash(p);
    assert r.Some? ==> p[r.value] == '/';
    assert start > 0 ==> p[start - 1] == '/';
  }

  /** vfs_dirname with the callers' buffer of 256 bytes. */
  method DirName(path: string) returns (dir: string)
    ensures dir == Dirname(path)
  {
    var last: Option<nat> := None;
    for i := 0 to |path|
      invariant last.Some? ==> last.value < i && path[last.value] == '/'
      invariant forall k :: (if last.Some? then last.value else -1) < k < i ==> path[k] != '/'
    {
      if path[i] == '/' {
        last := Some(i);
      }
    }
    LastSlashIs(path, if last.None? then 0 else last.value + 1);
    if last.None? {
      return ".";
    }
    var len := if last.value == 0 then 1 else last.value;
    if len >= DIRNAME + 1 {
      len := DIRNAME;
    }
    dir := path[..len];
  }

  method FirstFree(children: seq<Option<Child>>) returns (slot: Option<nat>)
    ensures slot == FreeSlot(children, 0)
  {
    for i := 0 to |children|
      invariant FreeSlot(children, 0) == FreeSlot(children, i)
    {
      if children[i].None? {
        return Some(i);
      }
    }
    slot := None;
  }
}
