/** vfs_mount of a ramfs (vfs.c, ramfs.c) and what it does to path resolution. */
module VfsMounts {
  import opened Basics
  import opened VfsTree

  /** vfs_mount: the new file system's root comes from the node pool even when
      the mount point turns out not to exist or not to be a directory. */
  function Mount(t: Tree, path: string): (r: (Tree, bool))
    requires WellFormed(t)
  {
    if |t.mounts| >= MAX_MOUNTS || |t.nodes| >= MAX_NODES then (t, false)
    else
      var root := |t.nodes|;
      var t1 := t.(nodes := t.nodes + [EmptyNode(true)]);
      if path == "/" then
        (Tree(t.nodes + [EmptyNode(true).(mount := Some(|t.mounts|))], t.mounts + [root], Some(root)), true)
      else
        match Resolve(t, path)
        case None => (t1, false)
        case Some(n) =>
          if !t.nodes[n].dir then (t1, false)
          else (Tree(t1.nodes[n := t.nodes[n].(mount := Some(|t.mounts|))], t.mounts + [root], t.root), true)
  }

  /** Children and mounted roots are younger than the nodes that lead to them, and
      a mounted root is nobody's child. */
  predicate Ascending(t: Tree) {
    && (forall n, i :: 0 <= n < |t.nodes| && 0 <= i < |t.nodes[n].children| && t.nodes[n].children[i].Some? ==>
          n < t.nodes[n].children[i].value.node)
    && (forall n :: 0 <= n < |t.nodes| && t.nodes[n].mount.Some? && t.nodes[n].mount.value < |t.mounts| ==>
          n <= t.mounts[t.nodes[n].mount.value])
    && (forall n, i :: 0 <= n < |t.nodes| && 0 <= i < |t.nodes[n].children| && t.nodes[n].children[i].Some? ==>
          t.nodes[n].children[i].value.node !in t.mounts)
  }

  /** When a mount succeeds, and the node it takes from the pool whether it succeeds
      or, for want of a directory, fails. */
  lemma MountsExactly(t: Tree, path: string)
    requires WellFormed(t)
    ensures Mount(t, path).1 <==>
            && |t.mounts| < 16 && |t.nodes| < 64
            && (path == "/" || (Resolve(t, path).Some? && t.nodes[Resolve(t, path).value].dir))
    ensures var (t', ok) := Mount(t, path);
            && |t'.nodes| == (if |t.mounts| < 16 && |t.nodes| < 64 then |t.nodes| + 1 else |t.nodes|)
            && t'.mounts == (if ok then t.mounts + [|t.nodes|] else t.mounts)
  {
    hide Resolve;
  }

  lemma MountKeeps(t: Tree, path: string)
    requires WellFormed(t) && Ascending(t)
    ensures var t' := Mount(t, path).0; WellFormed(t') && Ascending(t') && |t.nodes| <= |t'.nodes|
  {
    hide Mount, WellFormed, Ascending;
    MountWellFormed(t, path);
    MountAscending(t, path);
  }

  lemma MountWellFormed(t: Tree, path: string)
    requires WellFormed(t)
    ensures var t' := Mount(t, path).0; WellFormed(t') && |t.nodes| <= |t'.nodes|
  {
    hide Resolve;
    var t' := Mount(t, path).0;
    forall n | 0 <= n < |t'.nodes|
      ensures NodeOk(t'.nodes[n], |t'.nodes|, |t'.mounts|)
    {
      if n < |t.nodes| {
        assert NodeOk(t.nodes[n], |t.nodes|, |t.mounts|);
      }
    }
  }

  lemma MountAscending(t: Tree, path: string)
    requires WellFormed(t) && Ascending(t)
    ensures Ascending(Mount(t, path).0)
  {
    hide Resolve, Compact;
    var t' := Mount(t, path).0;
    forall n | 0 <= n < |t.nodes|
      ensures t'.nodes[n].children == t.nodes[n].children && NodeOk(t.nodes[n], |t.nodes|, |t.mounts|)
    {
    }
  }

  lemma MakeKeepsAscending(t: Tree, path: string, dir: bool)
    requires WellFormed(t) && Ascending(t) && Make(t, path, dir).Some?
    ensures Ascending(Make(t, path, dir).value)
  {
    hide Resolve;
  }

  /** A walk never leads to an older node. */
  lemma {:induction false} WalkAscends(t: Tree, d: nat, cs: seq<string>)
    requires WellFormed(t) && Ascending(t) && d < |t.nodes| && Walk(t, d, cs).Some?
    ensures d <= Walk(t, d, cs).value
    decreases |cs|
  {
    if cs != [] {
      StepAscends(t, d, cs[0]);
      hide WellFormed, Step;
      WalkAscends(t, Step(t, d, cs[0]).value, cs[1..]);
    }
  }

  lemma StepAscends(t: Tree, d: nat, c: string)
    requires WellFormed(t) && Ascending(t) && d < |t.nodes|
    ensures FindDir(t, d, c).Some? ==> d < FindDir(t, d, c).value <= Cross(t, FindDir(t, d, c).value)
  {
    var n := FindDir(t, d, c);
    assert n.Some? ==> NodeOk(t.nodes[n.value], |t.nodes|, |t.mounts|);
  }

  /** Only the mount of node `n` differs, and there is a new, empty root. */
  ghost predicate MountedAt(t: Tree, t': Tree, n: nat) {
    && n < |t.nodes| && |t'.nodes| == |t.nodes| + 1 && t'.nodes[|t.nodes|] == EmptyNode(true)
    && t'.root == t.root && t'.mounts == t.mounts + [|t.nodes|]
    && t'.nodes[n] == t.nodes[n].(mount := Some(|t.mounts|))
    && forall m :: 0 <= m < |t.nodes| && m != n ==> t'.nodes[m] == t.nodes[m]
  }

  /** Walks that end at nodes older than the mount point never meet it. */
  lemma {:induction false} WalkBelowMount(t: Tree, t': Tree, n: nat, d: nat, cs: seq<string>)
    requires WellFormed(t) && WellFormed(t') && Ascending(t) && MountedAt(t, t', n)
    requires d < |t.nodes| && Walk(t, d, cs).Some? && Walk(t, d, cs).value < n
    ensures Walk(t', d, cs) == Walk(t, d, cs)
    decreases |cs|
  {
    if cs != [] {
      WalkAscends(t, d, cs);
      var next := Step(t, d, cs[0]).value;
      StepAscends(t, d, cs[0]);
      WalkAscends(t, next, cs[1..]);
      var m := FindDir(t, d, cs[0]).value;
      assert NodeOk(t.nodes[m], |t.nodes|, |t.mounts|);
      assert Step(t', d, cs[0]) == Step(t, d, cs[0]);
      hide WellFormed, Step, Ascending;
      WalkBelowMount(t, t', n, next, cs[1..]);
    }
  }

  /** Walks never meet the mount of a mounted root. */
  lemma {:induction false} WalkPastRoot(t: Tree, t': Tree, m: nat, d: nat, cs: seq<string>)
    requires WellFormed(t) && WellFormed(t') && Ascending(t) && MountedAt(t, t', m) && m in t.mounts && d < |t.nodes|
    ensures Walk(t', d, cs) == Walk(t, d, cs)
    decreases |cs|
  {
    if cs != [] {
      StepPastRoot(t, t', m, d, cs[0]);
      hide WellFormed, Step, Ascending, MountedAt;
      if Step(t, d, cs[0]).Some? {
        WalkPastRoot(t, t', m, Step(t, d, cs[0]).value, cs[1..]);
      }
    }
  }

  lemma StepPastRoot(t: Tree, t': Tree, m: nat, d: nat, c: string)
    requires WellFormed(t) && WellFormed(t') && Ascending(t) && MountedAt(t, t', m) && m in t.mounts && d < |t.nodes|
    ensures Step(t', d, c) == Step(t, d, c)
  {
    assert NodeOk(t.nodes[d], |t.nodes|, |t.mounts|);
    var n := FindDir(t, d, c);
    assert FindDir(t', d, c) == n;
    if n.Some? {
      assert n.value != m;
      assert NodeOk(t.nodes[n.value], |t.nodes|, |t.mounts|);
    }
    hide FindSlot;
  }

  /** The components behind the first lookup that finds node `n`; none if the walk
      does not meet it. */
  function Behind(t: Tree, d: nat, cs: seq<string>, n: nat): Option<seq<string>>
    requires WellFormed(t) && d < |t.nodes|
    decreases |cs|
  {
    if cs == [] then None
    else
      match FindDir(t, d, cs[0])
      case None => None
      case Some(m) => if m == n then Some(cs[1..]) else Behind(t, Cross(t, m), cs[1..], n)
  }

  /** Where a path leads once a new root is mounted on node `n`: to that root if it
      ends there, nowhere if it goes on behind it, and where it led before if it
      does not meet the node. */
  function AfterMount(t: Tree, q: string, n: nat): Option<nat>
    requires WellFormed(t)
  {
    if t.root.None? || !Absolute(q) then None
    else
      match Behind(t, t.root.value, Components(q[1..]), n)
      case None => Resolve(t, q)
      case Some(rest) => if rest == [] then Some(|t.nodes|) else None
  }

  /** The lookup of the mount point leads to the new root, any other where it led. */
  lemma StepAfterMount(t: Tree, t': Tree, n: nat, d: nat, c: string)
    requires WellFormed(t) && WellFormed(t') && MountedAt(t, t', n) && d < |t.nodes|
    ensures Step(t', d, c) == if FindDir(t, d, c) == Some(n) then Some(|t.nodes|) else Step(t, d, c)
  {
    assert FindDir(t', d, c) == FindDir(t, d, c);
    var m := FindDir(t, d, c);
    if m.Some? {
      assert NodeOk(t.nodes[m.value], |t.nodes|, |t.mounts|);
    }
    hide FindSlot;
  }

  lemma NothingBelow(t: Tree, d: nat, cs: seq<string>)
    requires WellFormed(t) && d < |t.nodes| && t.nodes[d].children == EmptyNode(true).children
    ensures Walk(t, d, cs) == if cs == [] then Some(d) else None
  {
  }

  lemma {:induction false} WalkAfterMount(t: Tree, t': Tree, n: nat, d: nat, cs: seq<string>)
    requires WellFormed(t) && WellFormed(t') && MountedAt(t, t', n) && d < |t.nodes|
    ensures Walk(t', d, cs) == match Behind(t, d, cs, n)
                               case None => Walk(t, d, cs)
                               case Some(rest) => if rest == [] then Some(|t.nodes|) else None
    decreases |cs|
  {
    if cs != [] {
      StepAfterMount(t, t', n, d, cs[0]);
      NothingBelow(t', |t.nodes|, cs[1..]);
      hide WellFormed, FindDir, Cross;
      if FindDir(t, d, cs[0]).Some? && FindDir(t, d, cs[0]) != Some(n) {
        WalkAfterMount(t, t', n, Step(t, d, cs[0]).value, cs[1..]);
      }
    }
  }

  /** A mount on "/" leaves no path but those to the root itself. */
  lemma MountAtRoot(t: Tree)
    requires WellFormed(t) && Ascending(t) && Mount(t, "/").1
    ensures var t' := Mount(t, "/").0;
            && WellFormed(t')
            && forall q: string ::
                 Resolve(t', q) == if Absolute(q) && Components(q[1..]) == [] then Some(|t.nodes|) else None
  {
    var t' := Mount(t, "/").0;
    MountKeeps(t, "/");
    forall q: string
      ensures Resolve(t', q) == if Absolute(q) && Components(q[1..]) == [] then Some(|t.nodes|) else None
    {
      if Absolute(q) {
        NothingBelow(t', |t.nodes|, Components(q[1..]));
      }
    }
    hide WellFormed, Walk, Components;
  }

  /** A directory found below another is where its lookup crosses to exactly when
      nothing is mounted on it. */
  lemma CrossedOrNot(t: Tree, d: nat, c: string)
    requires WellFormed(t) && Ascending(t) && d < |t.nodes| && FindDir(t, d, c).Some?
    ensures var n := FindDir(t, d, c).value;
            && (t.nodes[n].mount == None <==> Cross(t, n) == n)
            && (t.nodes[n].mount != None ==> Cross(t, n) in t.mounts)
  {
    var n := FindDir(t, d, c).value;
    assert NodeOk(t.nodes[n], |t.nodes|, |t.mounts|);
    hide FindSlot;
  }

  /** A successful mount at p/c takes effect if and only if nothing was mounted on
      c.  Then p/c is the new root, nothing is found behind it, and every path that
      does not meet c resolves as before, those to older nodes among them;
      otherwise p/c goes on leading to the old root, and every path resolves as
      before. */
  lemma MountResolves(t: Tree, p: string, c: string, n: nat)
    requires WellFormed(t) && Ascending(t) && Absolute(p)
    requires c != "" && |c| <= 255 && forall i :: 0 <= i < |c| ==> c[i] != '/'
    requires Resolve(t, p).Some? && FindDir(t, Resolve(t, p).value, c) == Some(n) && Mount(t, p + "/" + c).1
    ensures var t' := Mount(t, p + "/" + c).0;
            && WellFormed(t') && n < |t.nodes|
            && Resolve(t', p + "/" + c) == Some(if t.nodes[n].mount == None then |t.nodes| else Cross(t, n))
            && (t.nodes[n].mount == None ==> forall q: string :: Resolve(t', q) == AfterMount(t, q, n))
            && (t.nodes[n].mount == None ==>
                  forall q: string | Resolve(t, q).Some? && Resolve(t, q).value < n :: Resolve(t', q) == Resolve(t, q))
            && (t.nodes[n].mount != None ==>
                  Cross(t, n) < |t.nodes| && forall q: string :: Resolve(t', q) == Resolve(t, q))
  {
    hide Resolve, Ascending, Walk, AfterMount;
    var path := p + "/" + c;
    MountKeeps(t, path);
    ResolveChild(t, p, c);
    var d := Resolve(t, p).value;
    CrossedOrNot(t, d, c);
    if t.nodes[n].mount == None {
      MountOnPlain(t, p, c, n);
    } else {
      MountOnMounted(t, path, Cross(t, n));
    }
  }

  lemma MountOnPlain(t: Tree, p: string, c: string, n: nat)
    requires WellFormed(t) && Ascending(t) && Absolute(p)
    requires c != "" && |c| <= 255 && forall i :: 0 <= i < |c| ==> c[i] != '/'
    requires Resolve(t, p).Some? && FindDir(t, Resolve(t, p).value, c) == Some(n)
    requires n < |t.nodes| && t.nodes[n].mount == None && Mount(t, p + "/" + c).1
    ensures var t' := Mount(t, p + "/" + c).0;
            && WellFormed(t')
            && Resolve(t', p + "/" + c) == Some(|t.nodes|)
            && (forall q: string :: Resolve(t', q) == AfterMount(t, q, n))
            && forall q: string | Resolve(t, q).Some? && Resolve(t, q).value < n :: Resolve(t', q) == Resolve(t, q)
  {
    hide Resolve, Mount, Ascending, Walk, MountedAt, AfterMount;
    var path := p + "/" + c;
    var t' := Mount(t, path).0;
    MountKeeps(t, path);
    ResolveChild(t, p, c);
    ResolveChild(t', p, c);
    NowhereCrossed(t, n);
    MountIsAt(t, path, n);
    var d := Resolve(t, p).value;
    StepAscends(t, d, c);
    OlderPaths(t, t', n);
    AllPaths(t, t', n);
    StepAfterMount(t, t', n, d, c);
  }

  lemma NowhereCrossed(t: Tree, n: nat)
    requires WellFormed(t) && n < |t.nodes| && t.nodes[n].mount == None
    ensures Cross(t, n) == n
  {
  }

  /** Paths to nodes older than the mount point. */
  lemma OlderPaths(t: Tree, t': Tree, n: nat)
    requires WellFormed(t) && WellFormed(t') && Ascending(t) && MountedAt(t, t', n)
    ensures forall q: string | Resolve(t, q).Some? && Resolve(t, q).value < n :: Resolve(t', q) == Resolve(t, q)
  {
    hide Ascending, Walk, Components;
    forall q: string | Resolve(t, q).Some? && Resolve(t, q).value < n
      ensures Resolve(t', q) == Resolve(t, q)
    {
      WalkBelowMount(t, t', n, t.root.value, Components(q[1..]));
    }
  }

  lemma AllPaths(t: Tree, t': Tree, n: nat)
    requires WellFormed(t) && WellFormed(t') && MountedAt(t, t', n)
    ensures forall q: string :: Resolve(t', q) == AfterMount(t, q, n)
  {
    hide Walk, Components, Behind;
    forall q: string
      ensures Resolve(t', q) == AfterMount(t, q, n)
    {
      if t.root.Some? && Absolute(q) {
        WalkAfterMount(t, t', n, t.root.value, Components(q[1..]));
      }
    }
  }

  lemma MountOnMounted(t: Tree, path: string, m: nat)
    requires WellFormed(t) && Ascending(t) && path != "/" && Resolve(t, path) == Some(m) && m in t.mounts
    requires Mount(t, path).1
    ensures var t' := Mount(t, path).0; WellFormed(t') && forall q: string :: Resolve(t', q) == Resolve(t, q)
  {
    var t' := Mount(t, path).0;
    MountKeeps(t, path);
    MountIsAt(t, path, m);
    hide Mount, Ascending, Walk, Components;
    forall q: string
      ensures Resolve(t', q) == Resolve(t, q)
    {
      if t.root.Some? && Absolute(q) {
        WalkPastRoot(t, t', m, t.root.value, Components(q[1..]));
      }
    }
  }

  lemma MountIsAt(t: Tree, path: string, n: nat)
    requires WellFormed(t) && Mount(t, path).1 && path != "/" && Resolve(t, path) == Some(n)
    ensures MountedAt(t, Mount(t, path).0, n)
  {
  }
}
