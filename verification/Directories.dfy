/** Parent creation and file writes on a plain tree without mounts, with the events they emit. */
module Directories {

  datatype Node = Dir | File(data: seq<int>)

  /** A normalised path is its list of component names. */
  type Path = seq<string>

  type Tree = map<Path, Node>

  datatype Event = DirectoryCreated(path: Path) | FileCreated(path: Path) | FileModified(path: Path)

  function Parent(p: Path): Path
    requires p != []
  {
    p[..|p| - 1]
  }

  predicate IsDir(t: Tree, p: Path) { p in t && t[p] == Dir }

  predicate SitsInDir(t: Tree, p: Path) { p in t && p != [] ==> IsDir(t, Parent(p)) }

  /** The root is a directory and everything else sits in one. */
  ghost predicate WellFormed(t: Tree) {
    IsDir(t, []) && forall p: Path {:trigger SitsInDir(t, p)} :: SitsInDir(t, p)
  }

  lemma {:induction false} AncestorsAreDirs(t: Tree, p: Path, k: nat)
    requires WellFormed(t) && p in t && k < |p|
    ensures IsDir(t, p[..k])
    decreases |p| - k
  {
    assert SitsInDir(t, p) && SitsInDir(t, p[..k + 1]);
    if k == |p| - 1 {
      assert p[..k] == Parent(p);
    } else {
      AncestorsAreDirs(t, p, k + 1);
      assert p[..k + 1][..k] == p[..k];
      assert p[..k] == Parent(p[..k + 1]);
    }
  }

  // ---------------------------------------------------------------- what directory creation means

  /** A file stands at the path or at one of its ancestors. */
  predicate Blocked(t: Tree, p: Path) {
    exists k :: 0 <= k <= |p| && p[..k] in t && t[p[..k]].File?
  }

  /** The prefixes of length at most n that are missing, parents first. */
  function Missing(t: Tree, p: Path, n: nat): seq<Path>
    requires n <= |p|
  {
    if n == 0 then [] else Missing(t, p, n - 1) + if p[..n] in t then [] else [p[..n]]
  }

  function AddDirs(t: Tree, dirs: seq<Path>): Tree {
    if dirs == [] then t else AddDirs(t, dirs[..|dirs| - 1])[dirs[|dirs| - 1] := Dir]
  }

  predicate IsPrefixOf(q: Path, p: Path, n: nat) { 1 <= |q| <= n && |q| <= |p| && q == p[..|q|] }

  /** Exactly the missing prefixes are listed. */
  lemma {:induction false} MissingIsExact(t: Tree, p: Path, n: nat, q: Path)
    requires n <= |p|
    ensures q in Missing(t, p, n) <==> IsPrefixOf(q, p, n) && q !in t
  {
    if n != 0 {
      MissingIsExact(t, p, n - 1, q);
      assert |p[..n]| == n;
    }
  }

  /** Parents come before their children. */
  lemma {:induction false} ParentsFirst(t: Tree, p: Path, n: nat)
    requires n <= |p|
    ensures forall i :: 0 <= i < |Missing(t, p, n)| ==> |Missing(t, p, n)[i]| <= n
    ensures forall i, j :: 0 <= i < j < |Missing(t, p, n)| ==> |Missing(t, p, n)[i]| < |Missing(t, p, n)[j]|
  {
    if n != 0 {
      ParentsFirst(t, p, n - 1);
      var init, d := Missing(t, p, n - 1), p[..n];
      assert |d| == n;
      assert Missing(t, p, n) == if d in t then init else init + [d];
    }
  }

  lemma {:induction false} AddDirsSnoc(t: Tree, dirs: seq<Path>, d: Path)
    ensures AddDirs(t, dirs + [d]) == AddDirs(t, dirs)[d := Dir]
  {
    assert (dirs + [d])[..|dirs|] == dirs;
  }

  /** A well-formed tree that holds the path has nothing missing on the way to it. */
  lemma {:induction false} NothingMissing(t: Tree, p: Path, n: nat, k: nat)
    requires WellFormed(t) && n <= k <= |p| && p[..k] in t
    ensures Missing(t, p, n) == []
    decreases n
  {
    if n != 0 {
      if n < k {
        AncestorsAreDirs(t, p[..k], n);
        assert p[..k][..n] == p[..n];
      }
      NothingMissing(t, p, n - 1, k);
    }
  }

  // ---------------------------------------------------------------- replaying events

  /** What events can tell about a tree: which paths exist and which are directories. */
  function Shape(t: Tree): map<Path, bool> { map p | p in t :: t[p].Dir? }

  function Replay(shape: map<Path, bool>, es: seq<Event>): map<Path, bool> {
    if es == [] then shape else
      var before, e := Replay(shape, es[..|es| - 1]), es[|es| - 1];
      match e
      case DirectoryCreated(p) => before[p := true]
      case FileCreated(p) => before[p := false]
      case FileModified(_) => before
  }

  /** An event that fits the shape it arrives at: a created path is new and its parent is there. */
  predicate Fits(shape: map<Path, bool>, e: Event) {
    match e
    case FileModified(p) => p in shape && !shape[p]
    case _ => e.path != [] && e.path !in shape && Parent(e.path) in shape && shape[Parent(e.path)]
  }

  predicate FitsAll(shape: map<Path, bool>, es: seq<Event>) {
    es == [] || (FitsAll(shape, es[..|es| - 1]) && Fits(Replay(shape, es[..|es| - 1]), es[|es| - 1]))
  }

  lemma {:induction false} ReplayAppend(shape: map<Path, bool>, a: seq<Event>, b: seq<Event>)
    ensures Replay(shape, a + b) == Replay(Replay(shape, a), b)
    ensures FitsAll(shape, a + b) <==> FitsAll(shape, a) && FitsAll(Replay(shape, a), b)
  {
    if b == [] {
      assert a + b == a;
    } else {
      var n := |b| - 1;
      assert (a + b)[..|a| + n] == a + b[..n];
      ReplayAppend(shape, a, b[..n]);
    }
  }

  predicate Creates(e: Event) { !e.FileModified? }

  /** In a fitting replay every path is reported created at most once, and only if it was not there. */
  lemma {:induction false} CreatedOnce(shape: map<Path, bool>, es: seq<Event>)
    requires FitsAll(shape, es)
    ensures forall p :: p in shape ==> p in Replay(shape, es)
    ensures forall i :: 0 <= i < |es| && Creates(es[i]) ==> es[i].path !in shape && es[i].path in Replay(shape, es)
    ensures forall i, j :: 0 <= i < j < |es| && Creates(es[i]) && Creates(es[j]) ==> es[i].path != es[j].path
  {
    if es != [] {
      var n := |es| - 1;
      CreatedOnce(shape, es[..n]);
      assert forall i :: 0 <= i < n ==> es[i] == es[..n][i];
    }
  }

  // ---------------------------------------------------------------- write_file, as a function

  datatype Written = Written(ok: bool, tree: Tree, events: seq<Event>)

  function DirEvents(dirs: seq<Path>): seq<Event> {
    seq(|dirs|, i requires 0 <= i < |dirs| => DirectoryCreated(dirs[i]))
  }

  function Write(t: Tree, path: Path, data: seq<int>): Written {
    if path == [] || Blocked(t, Parent(path)) then Written(false, t, []) else
      var dirs := Missing(t, Parent(path), |path| - 1);
      var made := AddDirs(t, dirs);
      if path in made && made[path].Dir? then Written(false, made, DirEvents(dirs))
      else
        Written(true, made[path := File(data)],
                DirEvents(dirs) + [if path in t then FileModified(path) else FileCreated(path)])
  }

  /** The tree after creating the first n missing prefixes of p. */
  ghost predicate Grown(t: Tree, t': Tree, p: Path, n: nat)
    requires n <= |p|
  {
    && WellFormed(t')
    && (forall k :: 0 <= k <= n ==> IsDir(t', p[..k]))
    && (forall q :: q in t ==> q in t' && t'[q] == t[q])
    && (forall q :: q in t' ==> q in t || IsPrefixOf(q, p, n))
  }

  lemma {:induction false} DirAdded(t: Tree, d: Path)
    requires WellFormed(t) && d != [] && IsDir(t, Parent(d)) && (d in t ==> t[d] == Dir)
    ensures WellFormed(t[d := Dir])
    ensures d !in t ==> Fits(Shape(t), DirectoryCreated(d))
  {
    var t' := t[d := Dir];
    forall q: Path ensures SitsInDir(t', q) { assert SitsInDir(t, q); }
  }

  lemma {:induction false} GrowOne(t: Tree, t': Tree, p: Path, n: nat)
    requires n < |p| && Grown(t, t', p, n)
    requires p[..n + 1] in t' ==> t'[p[..n + 1]] == Dir
    requires p[..n + 1] in t ==> p[..n + 1] in t'
    ensures Grown(t, t'[p[..n + 1] := Dir], p, n + 1)
    ensures p[..n + 1] !in t' ==> Fits(Shape(t'), DirectoryCreated(p[..n + 1]))
  {
    hide WellFormed, Fits, Shape;
    var d := p[..n + 1];
    assert Parent(d) == p[..n];
    DirAdded(t', d);
    assert IsPrefixOf(d, p, n + 1);
  }

  lemma {:induction false} ShapeAdd(t: Tree, p: Path, n: Node)
    ensures Shape(t[p := n]) == Shape(t)[p := n.Dir?]
  {
  }

  lemma {:induction false} ReplayOne(shape: map<Path, bool>, es: seq<Event>, e: Event)
    ensures FitsAll(shape, es + [e]) <==> FitsAll(shape, es) && Fits(Replay(shape, es), e)
    ensures e.DirectoryCreated? ==> Replay(shape, es + [e]) == Replay(shape, es)[e.path := true]
    ensures e.FileCreated? ==> Replay(shape, es + [e]) == Replay(shape, es)[e.path := false]
    ensures e.FileModified? ==> Replay(shape, es + [e]) == Replay(shape, es)
  {
    assert (es + [e])[..|es|] == es;
  }

  lemma {:induction false} NotYetThere(t: Tree, t': Tree, p: Path, n: nat)
    requires n < |p| && Grown(t, t', p, n)
    ensures p[..n + 1] in t' ==> p[..n + 1] in t
  {
    assert |p[..n + 1]| == n + 1;
  }

  lemma GrownStart(t: Tree, p: Path)
    requires WellFormed(t)
    ensures Grown(t, AddDirs(t, []), p, 0)
    ensures FitsAll(Shape(t), DirEvents([])) && Replay(Shape(t), DirEvents([])) == Shape(AddDirs(t, []))
  {
    assert p[..0] == [];
  }

  lemma NotBlockedAt(t: Tree, p: Path, n: nat)
    requires n <= |p| && !Blocked(t, p)
    ensures p[..n] in t ==> t[p[..n]] == Dir
  {
  }

  /** Creating the missing directories of an unblocked path, event by event. */
  lemma {:induction false} DirsGrow(t: Tree, p: Path, n: nat)
    requires WellFormed(t) && n <= |p| && !Blocked(t, p)
    ensures var dirs := Missing(t, p, n); var t' := AddDirs(t, dirs);
            && Grown(t, t', p, n)
            && FitsAll(Shape(t), DirEvents(dirs)) && Replay(Shape(t), DirEvents(dirs)) == Shape(t')
  {
    hide WellFormed, Grown, Fits, FitsAll, Replay, Shape, AddDirs, Blocked;
    if n == 0 {
      GrownStart(t, p);
    } else {
      DirsGrow(t, p, n - 1);
      var dirs, d := Missing(t, p, n - 1), p[..n];
      var t' := AddDirs(t, dirs);
      NotBlockedAt(t, p, n);
      GrownKeeps(t, t', p, n - 1, d);
      NotYetThere(t, t', p, n - 1);
      GrowOne(t, t', p, n - 1);
      if d in t {
        assert t'[d := Dir] == t' && dirs + [] == dirs;
      } else {
        AddDirsSnoc(t, dirs, d);
        ShapeAdd(t', d, Dir);
        assert DirEvents(dirs + [d]) == DirEvents(dirs) + [DirectoryCreated(d)];
        ReplayOne(Shape(t), DirEvents(dirs), DirectoryCreated(d));
      }
    }
  }

  lemma GrownKeeps(t: Tree, t': Tree, p: Path, n: nat, q: Path)
    requires n <= |p| && Grown(t, t', p, n)
    ensures q in t ==> q in t' && t'[q] == t[q]
    ensures IsDir(t', p[..n])
  {
  }

  lemma {:induction false} FileInMade(t: Tree, made: Tree, path: Path)
    requires path != [] && Grown(t, made, Parent(path), |path| - 1)
    ensures path in made ==> path in t && made[path] == t[path]
    ensures IsDir(made, Parent(path)) && WellFormed(made)
  {
    assert Parent(path)[..|path| - 1] == Parent(path);
  }

  lemma {:induction false} LeafReplaced(t: Tree, p: Path, n: Node)
    requires WellFormed(t) && p != [] && IsDir(t, Parent(p)) && (p in t ==> t[p].File?)
    ensures WellFormed(t[p := n])
  {
    var t' := t[p := n];
    forall q: Path ensures SitsInDir(t', q) { assert SitsInDir(t, q); }
  }

  lemma {:induction false} DirInTheWay(t: Tree, path: Path)
    requires WellFormed(t) && path != [] && path in t
    ensures Missing(t, Parent(path), |path| - 1) == []
  {
    AncestorsAreDirs(t, path, |path| - 1);
    var dir := Parent(path);
    assert dir[..|dir|] == dir;
    NothingMissing(t, dir, |dir|, |dir|);
  }

  /** One write: the tree stays well formed, the events fit and tell its new shape, and a failed
    * write changes nothing and reports nothing. */
  lemma {:induction false} WriteReplays(t: Tree, path: Path, data: seq<int>)
    requires WellFormed(t)
    ensures var w := Write(t, path, data);
            && WellFormed(w.tree)
            && FitsAll(Shape(t), w.events) && Replay(Shape(t), w.events) == Shape(w.tree)
            && (!w.ok ==> w.tree == t && w.events == [])
            && (w.ok ==> path in w.tree && w.tree[path] == File(data))
  {
    if path != [] && !Blocked(t, Parent(path)) {
      hide WellFormed, Grown, FitsAll, Replay, Blocked, Missing;
      var dir := Parent(path);
      var dirs := Missing(t, dir, |path| - 1);
      var made := AddDirs(t, dirs);
      DirsGrow(t, dir, |dir|);
      FileInMade(t, made, path);
      if path in made && made[path].Dir? {
        DirInTheWay(t, path);
      } else {
        LeafReplaced(made, path, File(data));
        ShapeAdd(made, path, File(data));
        ReplayOne(Shape(t), DirEvents(dirs), if path in t then FileModified(path) else FileCreated(path));
        assert path in made ==> Shape(made)[path := false] == Shape(made);
        assert path in t ==> path in made by { GrownKeeps(t, made, dir, |dir|, path); }
      }
    }
  }

  // ---------------------------------------------------------------- what a write does, path by path

  /** A file stands at a strict prefix of the path. */
  ghost predicate FileAbove(t: Tree, path: Path) {
    exists q: Path :: q < path && q in t && t[q].File?
  }

  lemma {:induction false} BlockedIsFileAbove(t: Tree, path: Path)
    requires path != []
    ensures Blocked(t, Parent(path)) <==> FileAbove(t, path)
  {
    var dir := Parent(path);
    if Blocked(t, dir) {
      var k :| 0 <= k <= |dir| && dir[..k] in t && t[dir[..k]].File?;
      assert dir[..k] == path[..k] && path[..k] < path;
    }
    if FileAbove(t, path) {
      var q: Path :| q < path && q in t && t[q].File?;
      assert dir[..|q|] == q;
    }
  }

  /** A write succeeds iff the path is not the root, no strict prefix of it is a file and it is not a
    * directory itself. For every path q: if it was there it keeps its content, unless it is the one
    * written; on success it is there iff it was or is a prefix of the path written, strict prefixes
    * are directories, and the file holds the data. */
  lemma {:induction false} WriteIs(t: Tree, path: Path, data: seq<int>, q: Path)
    requires WellFormed(t)
    ensures var w := Write(t, path, data);
            && (w.ok <==> path != [] && !FileAbove(t, path) && !IsDir(t, path))
            && (q in t && q != path ==> q in w.tree && w.tree[q] == t[q])
            && (!w.ok ==> w.tree == t)
            && (w.ok ==> (q in w.tree <==> q in t || q <= path))
            && (w.ok && q < path ==> IsDir(w.tree, q))
            && (w.ok && q == path ==> w.tree[q] == File(data))
  {
    hide Missing, FitsAll, Replay, Shape, AddDirs, FileAbove, Blocked;
    WriteReplays(t, path, data);
    if path != [] {
      BlockedIsFileAbove(t, path);
      if !Blocked(t, Parent(path)) {
        var dir := Parent(path);
        var made := AddDirs(t, Missing(t, dir, |dir|));
        DirsGrow(t, dir, |dir|);
        FileInMade(t, made, path);
        GrownExactly(t, made, dir);
        assert q <= dir ==> IsDir(made, q);
        hide WellFormed, Grown;
        assert (q < path <==> q <= dir) && (q <= path <==> q == path || q <= dir);
      }
    }
  }

  lemma {:induction false} GrownExactly(t: Tree, t': Tree, dir: Path)
    requires WellFormed(t) && Grown(t, t', dir, |dir|)
    ensures forall q: Path :: q <= dir ==> IsDir(t', q)
    ensures forall q :: q in t ==> q in t' && t'[q] == t[q]
    ensures forall q: Path :: q in t' && q !in t ==> q != [] && q <= dir
  {
    hide WellFormed;
    forall q: Path | q <= dir ensures IsDir(t', q) { assert dir[..|q|] == q; }
  }

  /** The events of a write: one for each missing strict prefix q, parents first, then one for the
    * file that says whether it was there before; none if the write fails. */
  lemma {:induction false} WriteReports(t: Tree, path: Path, data: seq<int>, q: Path)
    requires WellFormed(t)
    ensures var w := Write(t, path, data); var n := |w.events| - 1;
            && (!w.ok ==> w.events == [])
            && (w.ok ==>
                  && n >= 0 && w.events[n] == (if path in t then FileModified(path) else FileCreated(path))
                  && (forall i :: 0 <= i < n ==> w.events[i].DirectoryCreated?)
                  && (forall i, j :: 0 <= i < j < n ==> |w.events[i].path| < |w.events[j].path|)
                  && (DirectoryCreated(q) in w.events <==> q != [] && q < path && q !in t))
  {
    hide FitsAll, Replay, Shape, Blocked, AddDirs;
    WriteReplays(t, path, data);
    var w := Write(t, path, data);
    if w.ok {
      hide WellFormed, Write;
      var dir := Parent(path);
      var dirs := Missing(t, dir, |dir|);
      assert w.events == DirEvents(dirs) + [if path in t then FileModified(path) else FileCreated(path)] by { WriteEvents(t, path, data); }
      ParentsFirst(t, dir, |dir|);
      MissingIsExact(t, dir, |dir|, q);
      hide Missing;
      assert IsPrefixOf(q, dir, |dir|) <==> q != [] && q < path;
      DirEventsHold(dirs, q);
    }
  }

  lemma WriteEvents(t: Tree, path: Path, data: seq<int>)
    requires Write(t, path, data).ok
    ensures path != [] && Write(t, path, data).events
      == DirEvents(Missing(t, Parent(path), |path| - 1)) + [if path in t then FileModified(path) else FileCreated(path)]
  {
    hide Blocked, Missing, AddDirs;
  }

  lemma {:induction false} DirEventsHold(dirs: seq<Path>, q: Path)
    ensures DirectoryCreated(q) in DirEvents(dirs) <==> q in dirs
  {
    if q in dirs {
      var i :| 0 <= i < |dirs| && dirs[i] == q;
      assert DirEvents(dirs)[i] == DirectoryCreated(q);
    }
  }

  // ---------------------------------------------------------------- runs

  datatype Call = Call(path: Path, data: seq<int>)

  /** The tree and all events after a run of writes. */
  function Run(t: Tree, calls: seq<Call>): (Tree, seq<Event>) {
    if calls == [] then (t, []) else
      var (t', es) := Run(t, calls[..|calls| - 1]);
      var c := calls[|calls| - 1];
      var w := Write(t', c.path, c.data);
      (w.tree, es + w.events)
  }

  /** Over any run of writes with all events accepted: replaying the events on the initial shape
    * gives the final shape, and every path is reported created at most once, when it was new. */
  lemma {:induction false} RunReplays(t: Tree, calls: seq<Call>)
    requires WellFormed(t)
    ensures var (t', es) := Run(t, calls);
            && WellFormed(t') && FitsAll(Shape(t), es) && Replay(Shape(t), es) == Shape(t')
            && (forall i :: 0 <= i < |es| && Creates(es[i]) ==> es[i].path !in t)
            && (forall i, j :: 0 <= i < j < |es| && Creates(es[i]) && Creates(es[j]) ==> es[i].path != es[j].path)
  {
    if calls != [] {
      var n := |calls| - 1;
      RunReplays(t, calls[..n]);
      var (t', es) := Run(t, calls[..n]);
      WriteReplays(t', calls[n].path, calls[n].data);
      ReplayAppend(Shape(t), es, Write(t', calls[n].path, calls[n].data).events);
    }
    CreatedOnce(Shape(t), Run(t, calls).1);
  }

  // ---------------------------------------------------------------- the object

  class Sandbox {
    var tree: Tree
    var events: seq<Event>

    constructor (tree: Tree)
      requires WellFormed(tree)
      ensures this.tree == tree && events == []
    {
      this.tree, events := tree, [];
    }

    /** Creates the missing directories one by one; fails at a file, with the tree unchanged. */
    method CreateDirectories(path: Path) returns (ok: bool, created: seq<Path>)
      requires WellFormed(tree)
      modifies this`tree
      ensures ok <==> !Blocked(old(tree), path)
      ensures ok ==> created == Missing(old(tree), path, |path|) && tree == AddDirs(old(tree), created)
      ensures !ok ==> tree == old(tree) && created == []
      ensures ok ==> forall q: Path :: q <= path ==> IsDir(tree, q)
      ensures forall q :: q in old(tree) ==> q in tree && tree[q] == old(tree)[q]
      ensures forall q: Path :: q in tree && q !in old(tree) ==> q != [] && q <= path
    {
      ghost var t := tree;
      created := [];
      assert path[..0] == [];
      assert Grown(t, tree, path, 0);
      hide WellFormed, Grown, AddDirs;
      assert tree == AddDirs(t, []) by { AddNone(t); }
      for i := 0 to |path|
        invariant Grown(t, tree, path, i)
        invariant created == Missing(t, path, i) && tree == AddDirs(t, created)
        invariant forall k :: 0 <= k <= i && path[..k] in t ==> t[path[..k]] == Dir
      {
        var current := path[..i + 1];
        GrownKeeps(t, tree, path, i, current);
        NotYetThere(t, tree, path, i);
        if current in tree {
          if tree[current].Dir? {
            GrowOne(t, tree, path, i);
            assert tree[current := Dir] == tree;
            continue;
          }
          NothingMissing(t, path, i, i + 1);
          AddNone(t);
          return false, [];
        }
        GrowOne(t, tree, path, i);
        AddDirsSnoc(t, created, current);
        tree := tree[current := Dir];
        created := created + [current];
      }
      GrownExactly(t, tree, path);
      ok := true;
    }

    method EmitCreated(created: seq<Path>)
      modifies this`events
      ensures events == old(events) + DirEvents(created)
    {
      for i := 0 to |created|
        invariant events == old(events) + DirEvents(created)[..i]
      {
        events := events + [DirectoryCreated(created[i])];
      }
    }

    method WriteFile(path: Path, data: seq<int>) returns (ok: bool)
      requires WellFormed(tree)
      modifies this
      ensures ok == Write(old(tree), path, data).ok
      ensures tree == Write(old(tree), path, data).tree && WellFormed(tree)
      ensures events == old(events) + Write(old(tree), path, data).events
    {
      hide WellFormed, FitsAll, Replay, Blocked, Missing, AddDirs, Shape;
      WriteReplays(tree, path, data);
      var existed := path in tree;
      if path == [] { return false; }
      var created;
      ok, created := CreateDirectories(Parent(path));
      if !ok { return false; }
      EmitCreated(created);
      if path in tree && tree[path].Dir? { return false; }
      tree := tree[path := File(data)];
      events := events + [if existed then FileModified(path) else FileCreated(path)];
    }
  }

  lemma AddNone(t: Tree)
    ensures AddDirs(t, []) == t
  {
  }
}
