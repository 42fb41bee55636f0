/**
 The explicit-stack FAT directory walk of src/fs/mod.rs. A directory is named by its first cluster;
 `dir` says what reading its chain and parsing the bytes gives, `None` when the chain cannot be read.
 Nothing is assumed of `dir`: directories may be shared, and may contain themselves.
 */
module FatWalk {
  import opened Bytes

  const MAX_DEPTH := 16

  datatype DirEntry = DirEntry(name: string, isDir: bool, cluster: u32, size: u32)

  datatype Found = Found(path: string, entry: DirEntry)

  datatype Pending = Pending(path: string, cluster: u32, depth: nat)

  type Directories = nat -> Option<seq<DirEntry>>

  predicate IsSubdirectory(e: DirEntry) {
    e.isDir && e.cluster >= 2
  }

  function ChildPath(path: string, e: DirEntry): string {
    path + "/" + e.name
  }

  /* The recursive walk, sixteen levels deep */

  // Everything found below the directory at `cluster`.
  function Tree(dir: Directories, path: string, cluster: nat, depth: nat): multiset<Found>
    decreases Max(MAX_DEPTH + 1 - depth, 0), 1, 0
  {
    if depth > MAX_DEPTH || dir(cluster).None? then multiset{}
    else TreeOf(dir, path, dir(cluster).value, depth)
  }

  function TreeOf(dir: Directories, path: string, es: seq<DirEntry>, depth: nat): multiset<Found>
    requires depth <= MAX_DEPTH
    decreases Max(MAX_DEPTH + 1 - depth, 0), 0, |es|
  {
    if es == [] then multiset{} else
      multiset{Found(ChildPath(path, es[0]), es[0])}
      + (if IsSubdirectory(es[0]) && depth < MAX_DEPTH
         then Tree(dir, ChildPath(path, es[0]), es[0].cluster, depth + 1) else multiset{})
      + TreeOf(dir, path, es[1..], depth)
  }

  // The directory clusters it expands.
  function TreeClusters(dir: Directories, cluster: nat, depth: nat): multiset<nat>
    decreases Max(MAX_DEPTH + 1 - depth, 0), 1, 0
  {
    if depth > MAX_DEPTH then multiset{}
    else multiset{cluster} + if dir(cluster).None? then multiset{} else ClustersOf(dir, dir(cluster).value, depth)
  }

  function ClustersOf(dir: Directories, es: seq<DirEntry>, depth: nat): multiset<nat>
    requires depth <= MAX_DEPTH
    decreases Max(MAX_DEPTH + 1 - depth, 0), 0, |es|
  {
    if es == [] then multiset{} else
      (if IsSubdirectory(es[0]) && depth < MAX_DEPTH then TreeClusters(dir, es[0].cluster, depth + 1) else multiset{})
      + ClustersOf(dir, es[1..], depth)
  }

  // The same for the entries of the root directory, whose paths are their names.
  function RootTree(dir: Directories, es: seq<DirEntry>): multiset<Found> {
    if es == [] then multiset{} else
      multiset{Found(es[0].name, es[0])}
      + (if IsSubdirectory(es[0]) then Tree(dir, es[0].name, es[0].cluster, 1) else multiset{})
      + RootTree(dir, es[1..])
  }

  function RootClusters(dir: Directories, es: seq<DirEntry>): multiset<nat> {
    if es == [] then multiset{} else
      (if IsSubdirectory(es[0]) then TreeClusters(dir, es[0].cluster, 1) else multiset{})
      + RootClusters(dir, es[1..])
  }

  ghost predicate Single(m: multiset<nat>) {
    forall c :: m[c] <= 1
  }

  // The walk meets no directory cluster twice, and none of those marked beforehand.
  ghost predicate Unshared(dir: Directories, root: seq<DirEntry>, marked: set<nat>) {
    Single(multiset(marked) + RootClusters(dir, root))
  }

  /* What is still on the stack */

  function StackTree(dir: Directories, stack: seq<Pending>): multiset<Found> {
    if stack == [] then multiset{} else
      var p := stack[|stack| - 1];
      StackTree(dir, stack[..|stack| - 1]) + Tree(dir, p.path, p.cluster, p.depth)
  }

  function StackClusters(dir: Directories, stack: seq<Pending>): multiset<nat> {
    if stack == [] then multiset{} else
      var p := stack[|stack| - 1];
      StackClusters(dir, stack[..|stack| - 1]) + TreeClusters(dir, p.cluster, p.depth)
  }

  /* What the walk lists, in order */

  function RootFound(es: seq<DirEntry>): seq<Found> {
    if es == [] then [] else
      var e := es[|es| - 1];
      RootFound(es[..|es| - 1]) + [Found(e.name, e)]
  }

  function RootChildren(es: seq<DirEntry>): seq<Pending> {
    if es == [] then [] else
      var e := es[|es| - 1];
      RootChildren(es[..|es| - 1]) + if IsSubdirectory(e) then [Pending(e.name, e.cluster, 1)] else []
  }

  function DirFound(path: string, es: seq<DirEntry>): seq<Found> {
    if es == [] then [] else
      var e := es[|es| - 1];
      DirFound(path, es[..|es| - 1]) + [Found(ChildPath(path, e), e)]
  }

  function DirChildren(path: string, es: seq<DirEntry>, depth: nat): seq<Pending> {
    if es == [] then [] else
      var e := es[|es| - 1];
      DirChildren(path, es[..|es| - 1], depth)
      + if IsSubdirectory(e) && depth < MAX_DEPTH then [Pending(ChildPath(path, e), e.cluster, depth + 1)] else []
  }

  // What expanding `p` finds, and what it leaves to expand.
  function FoundIn(dir: Directories, p: Pending): seq<Found> {
    if dir(p.cluster).None? then [] else DirFound(p.path, dir(p.cluster).value)
  }

  function ChildrenOf(dir: Directories, p: Pending): seq<Pending> {
    if dir(p.cluster).None? then [] else DirChildren(p.path, dir(p.cluster).value, p.depth)
  }

  // Everything found in the directories expanded, one after the other.
  function Listed(dir: Directories, expanded: seq<Pending>): seq<Found> {
    if expanded == [] then [] else FoundIn(dir, expanded[0]) + Listed(dir, expanded[1..])
  }

  /* The walk */

  // The directories expanded, and those taken off the stack unexpanded, each in order.
  datatype Walked = Walked(expanded: seq<Pending>, dropped: seq<Pending>)

  predicate IsCluster(c: nat) {
    c < U32_LIMIT
  }

  ghost function AllClusters(): set<nat> {
    set c: nat | c < U32_LIMIT && IsCluster(c)
  }

  lemma VisitMore(visited: set<nat>, c: nat)
    requires c < U32_LIMIT && c !in visited
    ensures AllClusters() - (visited + {c}) < AllClusters() - visited
  {
    assert IsCluster(c);
    assert c in AllClusters() - visited;
  }

  // From a stack and the clusters visited so far: the last directory pushed goes first.
  ghost function Walk(dir: Directories, stack: seq<Pending>, visited: set<nat>): Walked
    decreases AllClusters() - visited, |stack|
  {
    if stack == [] then Walked([], []) else
      var p, rest := stack[|stack| - 1], stack[..|stack| - 1];
      var c: nat := p.cluster;
      if p.depth > MAX_DEPTH || c in visited then
        var w := Walk(dir, rest, visited);
        Walked(w.expanded, [p] + w.dropped)
      else
        VisitMore(visited, c);
        var w := Walk(dir, rest + ChildrenOf(dir, p), visited + {c});
        Walked([p] + w.expanded, w.dropped)
  }

  ghost function WalkOf(dir: Directories, root: seq<DirEntry>, marked: set<nat>): Walked {
    Walk(dir, RootChildren(root), marked)
  }

  ghost function FilesFound(dir: Directories, root: seq<DirEntry>, marked: set<nat>): seq<Found> {
    RootFound(root) + Listed(dir, WalkOf(dir, root, marked).expanded)
  }

  /* What it must satisfy */

  ghost predicate HasCluster(expanded: seq<Pending>, c: nat) {
    exists i :: 0 <= i < |expanded| && expanded[i].cluster == c
  }

  // No cluster is expanded twice, nor one visited beforehand.
  predicate OnceEach(expanded: seq<Pending>, visited: set<nat>) {
    && (forall i, j | 0 <= i < j < |expanded| :: expanded[i].cluster != expanded[j].cluster)
    && forall i | 0 <= i < |expanded| :: expanded[i].cluster as nat !in visited
  }

  // `p` is visited beforehand or its cluster is expanded, here or under another path.
  ghost predicate Settled(expanded: seq<Pending>, visited: set<nat>, p: Pending) {
    p.cluster as nat in visited || HasCluster(expanded, p.cluster)
  }

  ghost predicate AllSettled(expanded: seq<Pending>, visited: set<nat>, ps: seq<Pending>) {
    forall p | p in ps :: Settled(expanded, visited, p)
  }

  // `p` stands on the stack, or is a subdirectory found in a directory expanded.
  ghost predicate Reached(dir: Directories, stack: seq<Pending>, expanded: seq<Pending>, p: Pending) {
    p in stack || exists j :: 0 <= j < |expanded| && p in ChildrenOf(dir, expanded[j])
  }

  // What the dropped directories hold, by the recursive walk.
  function Lost(dir: Directories, dropped: seq<Pending>): multiset<Found> {
    if dropped == [] then multiset{} else
      Tree(dir, dropped[0].path, dropped[0].cluster, dropped[0].depth) + Lost(dir, dropped[1..])
  }

  // What is found or still below the stack.
  function Total(dir: Directories, found: seq<Found>, stack: seq<Pending>): multiset<Found> {
    multiset(found) + StackTree(dir, stack)
  }

  predicate Shallow(stack: seq<Pending>) {
    forall k | 0 <= k < |stack| :: stack[k].depth <= MAX_DEPTH
  }

  lemma PushPending(dir: Directories, stack: seq<Pending>, p: Pending)
    ensures StackTree(dir, stack + [p]) == StackTree(dir, stack) + Tree(dir, p.path, p.cluster, p.depth)
    ensures StackClusters(dir, stack + [p]) == StackClusters(dir, stack) + TreeClusters(dir, p.cluster, p.depth)
  {
    assert (stack + [p])[..|stack|] == stack;
  }

  lemma Regroup<T>(m: multiset<T>, f: multiset<T>, s: multiset<T>, t: multiset<T>, r: multiset<T>)
    ensures (m + f) + (s + t) + r == m + s + (f + t + r)
  {
  }

  lemma RegroupTwo<T>(s: multiset<T>, t: multiset<T>, r: multiset<T>)
    ensures (s + t) + r == s + (t + r)
  {
  }

  // Listing one entry moves it from what is left to what is found, and its subtree to the stack.
  lemma ListStep(dir: Directories, path: string, es: seq<DirEntry>, k: nat, depth: nat, found: seq<Found>,
                 stack: seq<Pending>)
    requires depth <= MAX_DEPTH && k < |es|
    ensures var e := es[k];
            var p := Pending(ChildPath(path, e), e.cluster, depth + 1);
            var stack' := if IsSubdirectory(e) && depth < MAX_DEPTH then stack + [p] else stack;
            && Total(dir, found + [Found(p.path, e)], stack') + TreeOf(dir, path, es[k + 1..], depth)
               == Total(dir, found, stack) + TreeOf(dir, path, es[k..], depth)
            && StackClusters(dir, stack') + ClustersOf(dir, es[k + 1..], depth)
               == StackClusters(dir, stack) + ClustersOf(dir, es[k..], depth)
  {
    hide Tree, TreeClusters, StackTree, StackClusters;
    var e := es[k];
    assert es[k..][1..] == es[k + 1..];
    var p := Pending(ChildPath(path, e), e.cluster, depth + 1);
    PushPending(dir, stack, p);
    var sub := IsSubdirectory(e) && depth < MAX_DEPTH;
    var t := if sub then Tree(dir, p.path, p.cluster, p.depth) else multiset{};
    var c := if sub then TreeClusters(dir, p.cluster, p.depth) else multiset{};
    Regroup(multiset(found), multiset{Found(p.path, e)}, StackTree(dir, stack), t,
            TreeOf(dir, path, es[k + 1..], depth));
    RegroupTwo(StackClusters(dir, stack), c, ClustersOf(dir, es[k + 1..], depth));
  }

  lemma RootStep(dir: Directories, es: seq<DirEntry>, k: nat, found: seq<Found>, stack: seq<Pending>)
    requires k < |es|
    ensures var e := es[k];
            var p := Pending(e.name, e.cluster, 1);
            var stack' := if IsSubdirectory(e) then stack + [p] else stack;
            && Total(dir, found + [Found(p.path, e)], stack') + RootTree(dir, es[k + 1..])
               == Total(dir, found, stack) + RootTree(dir, es[k..])
            && StackClusters(dir, stack') + RootClusters(dir, es[k + 1..])
               == StackClusters(dir, stack) + RootClusters(dir, es[k..])
  {
    hide Tree, TreeClusters, StackTree, StackClusters;
    var e := es[k];
    assert es[k..][1..] == es[k + 1..];
    var p := Pending(e.name, e.cluster, 1);
    PushPending(dir, stack, p);
    var t := if IsSubdirectory(e) then Tree(dir, p.path, p.cluster, p.depth) else multiset{};
    var c := if IsSubdirectory(e) then TreeClusters(dir, p.cluster, p.depth) else multiset{};
    Regroup(multiset(found), multiset{Found(p.path, e)}, StackTree(dir, stack), t, RootTree(dir, es[k + 1..]));
    RegroupTwo(StackClusters(dir, stack), c, RootClusters(dir, es[k + 1..]));
  }

  lemma NothingLeft(dir: Directories, root: seq<DirEntry>)
    ensures RootTree(dir, root[|root|..]) == multiset{} && RootClusters(dir, root[|root|..]) == multiset{}
    ensures RootTree(dir, root[0..]) == RootTree(dir, root) && RootClusters(dir, root[0..]) == RootClusters(dir, root)
    ensures Total(dir, [], []) == multiset{} && StackClusters(dir, []) == multiset{} && Shallow([])
  {
    assert root[0..] == root;
  }

  lemma NothingLeftOf(dir: Directories, path: string, es: seq<DirEntry>, depth: nat)
    requires depth <= MAX_DEPTH
    ensures TreeOf(dir, path, es[|es|..], depth) == multiset{} && ClustersOf(dir, es[|es|..], depth) == multiset{}
  {
  }

  lemma {:induction false} ChildrenShallow(root: seq<DirEntry>, path: string, es: seq<DirEntry>, depth: nat)
    requires depth <= MAX_DEPTH
    ensures Shallow(RootChildren(root)) && Shallow(DirChildren(path, es, depth))
    decreases |root| + |es|
  {
    if root != [] {
      ChildrenShallow(root[..|root| - 1], path, es, depth);
    }
    if es != [] {
      ChildrenShallow(root, path, es[..|es| - 1], depth);
    }
  }

  // The first loop: the root's entries are found, and its subdirectories pushed at depth 1.
  method ListRoot(root: seq<DirEntry>) returns (found: seq<Found>, stack: seq<Pending>)
    ensures found == RootFound(root) && stack == RootChildren(root)
  {
    found, stack := [], [];
    for k := 0 to |root|
      invariant found == RootFound(root[..k]) && stack == RootChildren(root[..k])
    {
      assert root[..k + 1][..k] == root[..k];
      var entry := root[k];
      found := found + [Found(entry.name, entry)];
      if entry.isDir && entry.cluster >= 2 {
        stack := stack + [Pending(entry.name, entry.cluster, 1)];
      }
    }
    assert root[..|root|] == root;
  }

  // The inner loop: the entries of the directory at `path` are found, and its subdirectories pushed.
  method ListDirectory(path: string, es: seq<DirEntry>, depth: nat, found: seq<Found>, stack: seq<Pending>)
    returns (found': seq<Found>, stack': seq<Pending>)
    ensures found' == found + DirFound(path, es) && stack' == stack + DirChildren(path, es, depth)
  {
    found', stack' := found, stack;
    for k := 0 to |es|
      invariant found' == found + DirFound(path, es[..k]) && stack' == stack + DirChildren(path, es[..k], depth)
    {
      assert es[..k + 1][..k] == es[..k];
      var entry := es[k];
      var childPath := path + "/" + entry.name;
      ConcatAssociative(found, DirFound(path, es[..k]), [Found(childPath, entry)]);
      found' := found' + [Found(childPath, entry)];
      if entry.isDir && entry.cluster >= 2 && depth < 16 {
        ConcatAssociative(stack, DirChildren(path, es[..k], depth), [Pending(childPath, entry.cluster, depth + 1)]);
        stack' := stack' + [Pending(childPath, entry.cluster, depth + 1)];
      }
    }
    assert es[..|es|] == es;
  }

  lemma RootTotal(dir: Directories, root: seq<DirEntry>)
    ensures Total(dir, RootFound(root), RootChildren(root)) == RootTree(dir, root)
    ensures StackClusters(dir, RootChildren(root)) == RootClusters(dir, root)
  {
    hide Tree, TreeClusters, RootTree, RootClusters, StackTree, StackClusters, Total;
    NothingLeft(dir, root);
    for k := 0 to |root|
      invariant Total(dir, RootFound(root[..k]), RootChildren(root[..k])) + RootTree(dir, root[k..])
                == RootTree(dir, root)
      invariant StackClusters(dir, RootChildren(root[..k])) + RootClusters(dir, root[k..]) == RootClusters(dir, root)
    {
      assert root[..k + 1][..k] == root[..k];
      assert RootChildren(root[..k]) + [] == RootChildren(root[..k]);
      RootStep(dir, root, k, RootFound(root[..k]), RootChildren(root[..k]));
    }
    assert root[..|root|] == root;
  }

  lemma DirTotal(dir: Directories, path: string, es: seq<DirEntry>, depth: nat, found: seq<Found>, stack: seq<Pending>)
    requires depth <= MAX_DEPTH
    ensures Total(dir, found + DirFound(path, es), stack + DirChildren(path, es, depth))
            == Total(dir, found, stack) + TreeOf(dir, path, es, depth)
    ensures StackClusters(dir, stack + DirChildren(path, es, depth))
            == StackClusters(dir, stack) + ClustersOf(dir, es, depth)
  {
    hide Tree, TreeClusters, StackTree, StackClusters, TreeOf, ClustersOf, Total;
    NothingLeftOf(dir, path, es, depth);
    var f, s := found, stack;
    for k := 0 to |es|
      invariant f == found + DirFound(path, es[..k]) && s == stack + DirChildren(path, es[..k], depth)
      invariant Total(dir, f, s) + TreeOf(dir, path, es[k..], depth)
                == Total(dir, found, stack) + TreeOf(dir, path, es, depth)
      invariant StackClusters(dir, s) + ClustersOf(dir, es[k..], depth)
                == StackClusters(dir, stack) + ClustersOf(dir, es, depth)
    {
      assert es[..k + 1][..k] == es[..k];
      ListStep(dir, path, es, k, depth, f, s);
      var e := es[k];
      var p := Pending(ChildPath(path, e), e.cluster, depth + 1);
      ConcatAssociative(found, DirFound(path, es[..k]), [Found(p.path, e)]);
      f := f + [Found(p.path, e)];
      if IsSubdirectory(e) && depth < MAX_DEPTH {
        ConcatAssociative(stack, DirChildren(path, es[..k], depth), [p]);
        s := s + [p];
      }
    }
    assert es[..|es|] == es;
  }

  /* Proofs, following the walk */

  lemma PopPending(dir: Directories, stack: seq<Pending>)
    requires stack != []
    ensures var p, rest := stack[|stack| - 1], stack[..|stack| - 1];
            && StackTree(dir, stack) == StackTree(dir, rest) + Tree(dir, p.path, p.cluster, p.depth)
            && StackClusters(dir, stack) == StackClusters(dir, rest) + TreeClusters(dir, p.cluster, p.depth)
  {
  }

  lemma PopShallow(stack: seq<Pending>)
    requires Shallow(stack) && stack != []
    ensures Shallow(stack[..|stack| - 1]) && stack[|stack| - 1].depth <= MAX_DEPTH
  {
  }

  lemma PushShallow(dir: Directories, stack: seq<Pending>, p: Pending)
    requires Shallow(stack) && p.depth <= MAX_DEPTH
    ensures Shallow(stack + ChildrenOf(dir, p))
  {
    hide DirChildren;
    if dir(p.cluster).Some? {
      ChildrenShallow([], p.path, dir(p.cluster).value, p.depth);
    }
  }

  // Expanding a directory lists its entries and leaves its subdirectories.
  lemma ExpandTotal(dir: Directories, rest: seq<Pending>, p: Pending)
    requires p.depth <= MAX_DEPTH
    ensures multiset(FoundIn(dir, p)) + StackTree(dir, rest + ChildrenOf(dir, p))
            == StackTree(dir, rest) + Tree(dir, p.path, p.cluster, p.depth)
    ensures multiset{p.cluster as nat} + StackClusters(dir, rest + ChildrenOf(dir, p))
            == StackClusters(dir, rest) + TreeClusters(dir, p.cluster, p.depth)
  {
    hide StackTree, StackClusters, TreeOf, ClustersOf, DirFound, DirChildren;
    if dir(p.cluster).None? {
      assert rest + [] == rest;
    } else {
      var es := dir(p.cluster).value;
      DirTotal(dir, p.path, es, p.depth, [], rest);
      assert [] + DirFound(p.path, es) == DirFound(p.path, es);
    }
  }

  /** Nothing appears or vanishes: what is listed and what the dropped directories hold is what lay below the stack. */
  lemma {:induction false} WalkConserves(dir: Directories, stack: seq<Pending>, visited: set<nat>)
    requires Shallow(stack)
    ensures var w := Walk(dir, stack, visited);
            multiset(Listed(dir, w.expanded)) + Lost(dir, w.dropped) == StackTree(dir, stack)
    decreases AllClusters() - visited, |stack|
  {
    hide StackTree, StackClusters, Tree, TreeClusters, Shallow, ChildrenOf, FoundIn, AllClusters;
    NothingStacked(dir);
    if stack != [] {
      var p, rest := stack[|stack| - 1], stack[..|stack| - 1];
      var c: nat := p.cluster;
      PopPending(dir, stack);
      PopShallow(stack);
      if c in visited {
        WalkConserves(dir, rest, visited);
      } else {
        VisitMore(visited, c);
        PushShallow(dir, rest, p);
        WalkConserves(dir, rest + ChildrenOf(dir, p), visited + {c});
        ExpandTotal(dir, rest, p);
        var w := Walk(dir, rest + ChildrenOf(dir, p), visited + {c});
        assert multiset(Listed(dir, [p] + w.expanded)) == multiset(FoundIn(dir, p)) + multiset(Listed(dir, w.expanded));
      }
    }
  }

  lemma NothingStacked(dir: Directories)
    ensures StackTree(dir, []) == multiset{} && StackClusters(dir, []) == multiset{}
  {
  }

  /** Each directory cluster is expanded at most once, however directories are shared or nested in themselves. */
  lemma {:induction false} WalkOnce(dir: Directories, stack: seq<Pending>, visited: set<nat>)
    ensures OnceEach(Walk(dir, stack, visited).expanded, visited)
    decreases AllClusters() - visited, |stack|
  {
    hide ChildrenOf, AllClusters;
    if stack != [] {
      var p, rest := stack[|stack| - 1], stack[..|stack| - 1];
      var c: nat := p.cluster;
      if p.depth > MAX_DEPTH || c in visited {
        WalkOnce(dir, rest, visited);
      } else {
        VisitMore(visited, c);
        WalkOnce(dir, rest + ChildrenOf(dir, p), visited + {c});
      }
    }
  }

  lemma SettledMore(expanded: seq<Pending>, visited: set<nat>, q: Pending, p: Pending)
    requires Settled(expanded, visited + {q.cluster as nat}, p)
    ensures Settled([q] + expanded, visited, p)
  {
    var all := [q] + expanded;
    assert all[0] == q;
    if i :| 0 <= i < |expanded| && expanded[i].cluster == p.cluster {
      assert all[i + 1] == expanded[i];
    }
  }

  /** Every directory on the stack, found in a directory expanded, or dropped has its cluster expanded or visited. */
  lemma {:induction false} WalkSettles(dir: Directories, stack: seq<Pending>, visited: set<nat>)
    requires Shallow(stack)
    ensures var w := Walk(dir, stack, visited);
            && AllSettled(w.expanded, visited, stack) && AllSettled(w.expanded, visited, w.dropped)
            && forall i | 0 <= i < |w.expanded| :: AllSettled(w.expanded, visited, ChildrenOf(dir, w.expanded[i]))
    decreases AllClusters() - visited, |stack|
  {
    hide ChildrenOf, AllClusters, Settled, Shallow;
    if stack != [] {
      var p, rest := stack[|stack| - 1], stack[..|stack| - 1];
      var c: nat := p.cluster;
      assert stack == rest + [p];
      PopShallow(stack);
      if c in visited {
        WalkSettles(dir, rest, visited);
        VisitedSettled(Walk(dir, rest, visited).expanded, visited, p);
      } else {
        VisitMore(visited, c);
        PushShallow(dir, rest, p);
        var next, w := rest + ChildrenOf(dir, p), Walk(dir, rest + ChildrenOf(dir, p), visited + {c});
        WalkSettles(dir, next, visited + {c});
        VisitedSettled(w.expanded, visited + {c}, p);
        forall q: Pending | Settled(w.expanded, visited + {c}, q)
          ensures Settled([p] + w.expanded, visited, q)
        {
          SettledMore(w.expanded, visited, p, q);
        }
      }
    }
  }

  lemma VisitedSettled(expanded: seq<Pending>, visited: set<nat>, p: Pending)
    requires p.cluster as nat in visited
    ensures Settled(expanded, visited, p)
  {
  }

  /** Nothing else is expanded: each directory expanded stood on the stack or was found in one expanded before. */
  lemma {:induction false} WalkReaches(dir: Directories, stack: seq<Pending>, visited: set<nat>, i: nat)
    requires i < |Walk(dir, stack, visited).expanded|
    ensures var w := Walk(dir, stack, visited);
            Reached(dir, stack, w.expanded[..i], w.expanded[i])
    decreases AllClusters() - visited, |stack|
  {
    hide ChildrenOf, AllClusters;
    var p, rest := stack[|stack| - 1], stack[..|stack| - 1];
    var c: nat := p.cluster;
    assert stack == rest + [p];
    if p.depth > MAX_DEPTH || c in visited {
      WalkReaches(dir, rest, visited, i);
    } else if i > 0 {
      VisitMore(visited, c);
      var w := Walk(dir, rest + ChildrenOf(dir, p), visited + {c});
      WalkReaches(dir, rest + ChildrenOf(dir, p), visited + {c}, i - 1);
      var all, x := [p] + w.expanded, w.expanded[i - 1];
      assert all[..i][0] == p;
      if j :| 0 <= j < i - 1 && x in ChildrenOf(dir, w.expanded[j]) {
        assert all[..i][j + 1] == w.expanded[j];
      }
    }
  }

  // The clusters of the directories expanded.
  function ClustersIn(expanded: seq<Pending>): multiset<nat> {
    if expanded == [] then multiset{} else multiset{expanded[0].cluster as nat} + ClustersIn(expanded[1..])
  }

  // The clusters the recursive walk expands at and below the dropped directories.
  function LostClusters(dir: Directories, dropped: seq<Pending>): multiset<nat> {
    if dropped == [] then multiset{}
    else TreeClusters(dir, dropped[0].cluster, dropped[0].depth) + LostClusters(dir, dropped[1..])
  }

  /** The same for clusters: those expanded and those below dropped directories are the ones below the stack. */
  lemma {:induction false} WalkConservesClusters(dir: Directories, stack: seq<Pending>, visited: set<nat>)
    requires Shallow(stack)
    ensures var w := Walk(dir, stack, visited);
            ClustersIn(w.expanded) + LostClusters(dir, w.dropped) == StackClusters(dir, stack)
    decreases AllClusters() - visited, |stack|
  {
    hide StackTree, StackClusters, Tree, TreeClusters, Shallow, ChildrenOf, FoundIn, AllClusters;
    NothingStacked(dir);
    if stack != [] {
      var p, rest := stack[|stack| - 1], stack[..|stack| - 1];
      var c: nat := p.cluster;
      PopPending(dir, stack);
      PopShallow(stack);
      if c in visited {
        WalkConservesClusters(dir, rest, visited);
      } else {
        VisitMore(visited, c);
        PushShallow(dir, rest, p);
        WalkConservesClusters(dir, rest + ChildrenOf(dir, p), visited + {c});
        ExpandTotal(dir, rest, p);
      }
    }
  }

  /* The whole walk */

  /**
   The walk finds exactly what the depth-16 recursive walk finds, with the same multiplicities, but for
   what lies below the directories it drops because their cluster was visited before.
   */
  lemma FoundAndLost(dir: Directories, root: seq<DirEntry>, marked: set<nat>)
    ensures multiset(FilesFound(dir, root, marked)) + Lost(dir, WalkOf(dir, root, marked).dropped)
            == RootTree(dir, root)
  {
    hide Tree, RootTree, RootClusters, StackTree, StackClusters, Walk, Lost, Listed, Shallow, RootFound, RootChildren;
    RootTotal(dir, root);
    ChildrenShallow(root, "", [], 0);
    WalkConserves(dir, RootChildren(root), marked);
    var listed := Listed(dir, WalkOf(dir, root, marked).expanded);
    assert multiset(RootFound(root) + listed) == multiset(RootFound(root)) + multiset(listed);
  }

  lemma {:induction false} LostNothingIff(dir: Directories, dropped: seq<Pending>)
    ensures Lost(dir, dropped) == multiset{}
            <==> forall p | p in dropped :: Tree(dir, p.path, p.cluster, p.depth) == multiset{}
  {
    hide Tree;
    if dropped != [] {
      LostNothingIff(dir, dropped[1..]);
      assert dropped == [dropped[0]] + dropped[1..];
      var a, b := Tree(dir, dropped[0].path, dropped[0].cluster, dropped[0].depth), Lost(dir, dropped[1..]);
      assert a <= a + b && b <= a + b;
    }
  }

  // The directory is unreadable or empty.
  predicate Barren(dir: Directories, c: nat) {
    dir(c).None? || dir(c).value == []
  }

  lemma EmptyTreeIff(dir: Directories, p: Pending)
    requires p.depth <= MAX_DEPTH
    ensures Tree(dir, p.path, p.cluster, p.depth) == multiset{} <==> Barren(dir, p.cluster)
  {
    if dir(p.cluster).Some? && dir(p.cluster).value != [] {
      var e := dir(p.cluster).value[0];
      assert Found(ChildPath(p.path, e), e) in Tree(dir, p.path, p.cluster, p.depth);
    }
  }

  /**
   Nothing is lost if and only if every directory dropped is unreadable or empty: on any other image
   some file is missing under some path.
   */
  lemma NothingLostIff(dir: Directories, root: seq<DirEntry>, marked: set<nat>)
    ensures multiset(FilesFound(dir, root, marked)) == RootTree(dir, root)
            <==> forall p | p in WalkOf(dir, root, marked).dropped :: Barren(dir, p.cluster)
  {
    hide Tree, RootTree, Walk, Lost, FilesFound, Shallow, Barren;
    var dropped := WalkOf(dir, root, marked).dropped;
    FoundAndLost(dir, root, marked);
    LostNothingIff(dir, dropped);
    ChildrenShallow(root, "", [], 0);
    DroppedShallow(dir, RootChildren(root), marked);
    forall p | p in dropped
      ensures Tree(dir, p.path, p.cluster, p.depth) == multiset{}
              <==> Barren(dir, p.cluster)
    {
      EmptyTreeIff(dir, p);
    }
    Cancel(multiset(FilesFound(dir, root, marked)), Lost(dir, dropped));
  }

  lemma Cancel<T>(a: multiset<T>, b: multiset<T>)
    ensures a + b == a <==> b == multiset{}
  {
    if a + b == a {
      forall x
        ensures b[x] == 0
      {
        assert (a + b)[x] == a[x];
      }
    }
  }

  lemma {:induction false} DroppedShallow(dir: Directories, stack: seq<Pending>, visited: set<nat>)
    requires Shallow(stack)
    ensures forall p | p in Walk(dir, stack, visited).dropped :: p.depth <= MAX_DEPTH
    decreases AllClusters() - visited, |stack|
  {
    hide ChildrenOf, AllClusters, Shallow;
    if stack != [] {
      var p, rest := stack[|stack| - 1], stack[..|stack| - 1];
      var c: nat := p.cluster;
      PopShallow(stack);
      if c in visited {
        DroppedShallow(dir, rest, visited);
      } else {
        VisitMore(visited, c);
        PushShallow(dir, rest, p);
        DroppedShallow(dir, rest + ChildrenOf(dir, p), visited + {c});
      }
    }
  }

  lemma {:induction false} ClusterCount(expanded: seq<Pending>, c: nat)
    ensures c in ClustersIn(expanded) <==> HasCluster(expanded, c)
  {
    if expanded != [] {
      ClusterCount(expanded[1..], c);
      if i :| 0 <= i < |expanded| && expanded[i].cluster as nat == c {
        assert i > 0 ==> expanded[1..][i - 1] == expanded[i];
      }
      if i :| 0 <= i < |expanded| - 1 && expanded[1..][i].cluster as nat == c {
        assert expanded[i + 1].cluster as nat == c;
      }
    }
  }

  // A cluster is visited beforehand or expanded at most once.
  lemma {:induction false} CountedOnce(expanded: seq<Pending>, visited: set<nat>, c: nat)
    requires OnceEach(expanded, visited)
    ensures (multiset(visited) + ClustersIn(expanded))[c] <= 1
  {
    if expanded != [] {
      var first: nat := expanded[0].cluster;
      assert OnceEach(expanded[1..], visited);
      CountedOnce(expanded[1..], visited, c);
      if c == first {
        ClusterCount(expanded[1..], c);
        assert c !in ClustersIn(expanded[1..]);
        assert c !in visited;
      }
    }
  }

  lemma {:induction false} DroppedCounted(dir: Directories, dropped: seq<Pending>, p: Pending)
    requires Shallow(dropped) && p in dropped
    ensures p.cluster as nat in LostClusters(dir, dropped)
  {
    if p != dropped[0] {
      DroppedCounted(dir, dropped[1..], p);
    }
  }

  // Below barren directories there are no further clusters.
  lemma {:induction false} BarrenCounted(dir: Directories, dropped: seq<Pending>, c: nat)
    requires (forall p | p in dropped :: Barren(dir, p.cluster)) && c in LostClusters(dir, dropped)
    ensures Barren(dir, c)
  {
    var p := dropped[0];
    assert Barren(dir, p.cluster);
    if c in LostClusters(dir, dropped[1..]) {
      BarrenCounted(dir, dropped[1..], c);
    } else {
      assert p.depth <= MAX_DEPTH && (dir(p.cluster).Some? ==> ClustersOf(dir, [], p.depth) == multiset{});
      assert TreeClusters(dir, p.cluster, p.depth) == multiset{p.cluster as nat};
    }
  }

  /**
   The walk finds exactly what the recursive walk finds if and only if every directory cluster that the
   recursive walk meets twice, or meets though it was marked, is unreadable or empty.
   */
  lemma EverythingFoundIff(dir: Directories, root: seq<DirEntry>, marked: set<nat>)
    ensures multiset(FilesFound(dir, root, marked)) == RootTree(dir, root)
            <==> forall c | (multiset(marked) + RootClusters(dir, root))[c] >= 2 :: Barren(dir, c)
  {
    hide RootTree, RootClusters, StackTree, StackClusters, TreeClusters, Walk, FilesFound, Shallow, Barren;
    var stack := RootChildren(root);
    RootTotal(dir, root);
    ChildrenShallow(root, "", [], 0);
    NothingLostIff(dir, root, marked);
    var met := multiset(marked) + RootClusters(dir, root);
    if forall c | met[c] >= 2 :: Barren(dir, c) {
      forall p | p in WalkOf(dir, root, marked).dropped
        ensures Barren(dir, p.cluster)
      {
        DroppedMetTwice(dir, stack, marked, p);
        assert met[p.cluster as nat] >= 2;
      }
    }
    if forall p | p in WalkOf(dir, root, marked).dropped :: Barren(dir, p.cluster) {
      forall c | met[c] >= 2
        ensures Barren(dir, c)
      {
        MetTwiceBarren(dir, stack, marked, c);
      }
    }
  }

  lemma MetTwiceBarren(dir: Directories, stack: seq<Pending>, visited: set<nat>, c: nat)
    requires Shallow(stack) && forall p | p in Walk(dir, stack, visited).dropped :: Barren(dir, p.cluster)
    requires (multiset(visited) + StackClusters(dir, stack))[c] >= 2
    ensures Barren(dir, c)
  {
    hide StackClusters, TreeClusters, Walk, Shallow, OnceEach, Barren;
    var w := Walk(dir, stack, visited);
    WalkConservesClusters(dir, stack, visited);
    WalkOnce(dir, stack, visited);
    CountedOnce(w.expanded, visited, c);
    var once, lost := multiset(visited) + ClustersIn(w.expanded), LostClusters(dir, w.dropped);
    assert multiset(visited) + StackClusters(dir, stack) == once + lost;
    BarrenCounted(dir, w.dropped, c);
  }

  lemma DroppedMetTwice(dir: Directories, stack: seq<Pending>, visited: set<nat>, p: Pending)
    requires Shallow(stack) && p in Walk(dir, stack, visited).dropped
    ensures (multiset(visited) + StackClusters(dir, stack))[p.cluster as nat] >= 2
  {
    hide StackClusters, TreeClusters, Walk, Shallow;
    var w := Walk(dir, stack, visited);
    WalkConservesClusters(dir, stack, visited);
    WalkSettles(dir, stack, visited);
    DroppedShallow(dir, stack, visited);
    ShallowEach(w.dropped);
    DroppedCounted(dir, w.dropped, p);
    ClusterCount(w.expanded, p.cluster);
    assert Settled(w.expanded, visited, p);
    var m, e, l := multiset(visited), ClustersIn(w.expanded), LostClusters(dir, w.dropped);
    assert m + StackClusters(dir, stack) == (m + e) + l;
  }

  lemma ShallowEach(ps: seq<Pending>)
    requires forall p | p in ps :: p.depth <= MAX_DEPTH
    ensures Shallow(ps)
  {
  }

  /** In particular nothing is lost when the recursive walk meets no directory cluster twice, nor a marked one. */
  lemma UnsharedFindsAll(dir: Directories, root: seq<DirEntry>, marked: set<nat>)
    requires Unshared(dir, root, marked)
    ensures multiset(FilesFound(dir, root, marked)) == RootTree(dir, root)
  {
    hide RootTree, RootClusters, FilesFound;
    EverythingFoundIff(dir, root, marked);
  }

  /* When no entry is hidden under every path */

  // Every chain of different directories from `c` down ends at depth sixteen; `above` have been met before.
  predicate Enclosed(dir: Directories, c: nat, depth: nat, above: set<nat>)
    decreases MAX_DEPTH - depth
  {
    dir(c).None?
    || forall e | e in dir(c).value && IsSubdirectory(e) ::
         e.cluster as nat in above + {c} || (depth < MAX_DEPTH && Enclosed(dir, e.cluster, depth + 1, above + {c}))
  }

  predicate ShortChains(dir: Directories, root: seq<DirEntry>, marked: set<nat>) {
    forall e | e in root && IsSubdirectory(e) :: e.cluster as nat in marked || Enclosed(dir, e.cluster, 1, marked)
  }

  // Entries one below the other, from the root on, however deep.
  predicate Chain(dir: Directories, root: seq<DirEntry>, es: seq<DirEntry>) {
    && es != [] && es[0] in root
    && forall k | 0 <= k < |es| - 1 ::
         IsSubdirectory(es[k]) && dir(es[k].cluster).Some? && es[k + 1] in dir(es[k].cluster).value
  }

  lemma {:induction false} EnclosedMore(dir: Directories, c: nat, depth: nat, above: set<nat>, more: set<nat>)
    requires Enclosed(dir, c, depth, above) && above <= more
    ensures Enclosed(dir, c, depth, more)
    decreases MAX_DEPTH - depth
  {
    if dir(c).Some? {
      forall e | e in dir(c).value && IsSubdirectory(e) && e.cluster as nat !in more + {c}
        ensures depth < MAX_DEPTH && Enclosed(dir, e.cluster, depth + 1, more + {c})
      {
        EnclosedMore(dir, e.cluster, depth + 1, above + {c}, more + {c});
      }
    }
  }

  ghost predicate AllEnclosed(dir: Directories, stack: seq<Pending>, visited: set<nat>) {
    forall p | p in stack :: p.cluster as nat in visited || Enclosed(dir, p.cluster, p.depth, visited)
  }

  // Every subdirectory in the directory at `c` is visited beforehand or expanded.
  ghost predicate SubdirectoriesMet(dir: Directories, expanded: seq<Pending>, visited: set<nat>, c: nat) {
    dir(c).Some? ==>
      forall e | e in dir(c).value && IsSubdirectory(e) ::
          e.cluster as nat in visited || HasCluster(expanded, e.cluster)
  }

  lemma {:induction false} ChildIsEntry(dir: Directories, path: string, es: seq<DirEntry>, depth: nat, q: Pending)
    ensures q in DirChildren(path, es, depth)
            ==> depth < MAX_DEPTH && q.depth == depth + 1
                && exists e :: e in es && IsSubdirectory(e) && e.cluster == q.cluster
    ensures forall e | e in es && IsSubdirectory(e) && depth < MAX_DEPTH ::
              Pending(ChildPath(path, e), e.cluster, depth + 1) in DirChildren(path, es, depth)
  {
    hide ChildPath;
    if es != [] {
      var n := |es| - 1;
      ChildIsEntry(dir, path, es[..n], depth, q);
      assert es == es[..n] + [es[n]];
    }
  }

  lemma ExpandEnclosed(dir: Directories, rest: seq<Pending>, p: Pending, visited: set<nat>)
    requires AllEnclosed(dir, rest, visited) && Enclosed(dir, p.cluster, p.depth, visited)
    ensures AllEnclosed(dir, rest + ChildrenOf(dir, p), visited + {p.cluster as nat})
  {
    hide DirChildren, Enclosed;
    var c: nat := p.cluster;
    forall q | q in rest + ChildrenOf(dir, p) && q.cluster as nat !in visited + {c}
      ensures Enclosed(dir, q.cluster, q.depth, visited + {c})
    {
      if q in rest {
        EnclosedMore(dir, q.cluster, q.depth, visited, visited + {c});
      } else {
        ChildEnclosed(dir, p, q, visited);
      }
    }
  }

  lemma ChildEnclosed(dir: Directories, p: Pending, q: Pending, visited: set<nat>)
    requires q in ChildrenOf(dir, p) && Enclosed(dir, p.cluster, p.depth, visited)
    requires q.cluster as nat !in visited + {p.cluster as nat}
    ensures Enclosed(dir, q.cluster, q.depth, visited + {p.cluster as nat})
  {
    hide DirChildren;
    ChildIsEntry(dir, p.path, dir(p.cluster).value, p.depth, q);
  }

  // The subdirectories of a directory expanded are visited by then, or pushed.
  lemma SubdirectoriesPushed(dir: Directories, rest: seq<Pending>, p: Pending, visited: set<nat>,
                             expanded: seq<Pending>)
    requires Enclosed(dir, p.cluster, p.depth, visited)
    requires AllSettled(expanded, visited + {p.cluster as nat}, rest + ChildrenOf(dir, p))
    ensures SubdirectoriesMet(dir, [p] + expanded, visited, p.cluster)
  {
    hide DirChildren;
    if dir(p.cluster).Some? {
      forall e | e in dir(p.cluster).value && IsSubdirectory(e)
        ensures e.cluster as nat in visited || HasCluster([p] + expanded, e.cluster)
      {
        var q := Pending(ChildPath(p.path, e), e.cluster, p.depth + 1);
        ChildIsEntry(dir, p.path, dir(p.cluster).value, p.depth, q);
        if e.cluster as nat in visited + {p.cluster as nat} {
          VisitedSettled(expanded, visited + {p.cluster as nat}, q);
        } else {
          assert q in ChildrenOf(dir, p);
          assert q in rest + ChildrenOf(dir, p);
        }
        assert Settled(expanded, visited + {p.cluster as nat}, q);
        SettledMore(expanded, visited, p, q);
      }
    }
  }

  lemma {:induction false} EnclosedMeetsAll(dir: Directories, stack: seq<Pending>, visited: set<nat>)
    requires Shallow(stack) && AllEnclosed(dir, stack, visited)
    ensures var w := Walk(dir, stack, visited);
            forall i | 0 <= i < |w.expanded| :: SubdirectoriesMet(dir, w.expanded, visited, w.expanded[i].cluster)
    decreases AllClusters() - visited, |stack|
  {
    hide ChildrenOf, AllClusters, Enclosed, Shallow, SubdirectoriesMet, AllSettled;
    if stack != [] {
      var p, rest := stack[|stack| - 1], stack[..|stack| - 1];
      var c: nat := p.cluster;
      assert stack == rest + [p];
      PopShallow(stack);
      if c in visited {
        EnclosedMeetsAll(dir, rest, visited);
        assert Walk(dir, stack, visited).expanded == Walk(dir, rest, visited).expanded;
      } else {
        VisitMore(visited, c);
        PushShallow(dir, rest, p);
        ExpandEnclosed(dir, rest, p, visited);
        var next := rest + ChildrenOf(dir, p);
        var w := Walk(dir, next, visited + {c});
        EnclosedMeetsAll(dir, next, visited + {c});
        WalkSettles(dir, next, visited + {c});
        SubdirectoriesPushed(dir, rest, p, visited, w.expanded);
        var all := [p] + w.expanded;
        assert Walk(dir, stack, visited).expanded == all;
        forall i | 0 <= i < |all|
          ensures SubdirectoriesMet(dir, all, visited, all[i].cluster)
        {
          if i > 0 {
            assert all[i] == w.expanded[i - 1];
            MetMore(dir, w.expanded, visited, p, all[i].cluster);
          }
        }
        assert forall i | 0 <= i < |all| :: SubdirectoriesMet(dir, all, visited, all[i].cluster);
      }
    }
  }

  lemma MetMore(dir: Directories, expanded: seq<Pending>, visited: set<nat>, p: Pending, c: nat)
    requires SubdirectoriesMet(dir, expanded, visited + {p.cluster as nat}, c)
    ensures SubdirectoriesMet(dir, [p] + expanded, visited, c)
  {
    if dir(c).Some? {
      forall e | e in dir(c).value && IsSubdirectory(e)
        ensures e.cluster as nat in visited || HasCluster([p] + expanded, e.cluster)
      {
        SettledMore(expanded, visited, p, Pending("", e.cluster, 0));
      }
    }
  }

  // The entry stands in the root or in a directory expanded.
  ghost predicate InExpanded(dir: Directories, root: seq<DirEntry>, expanded: seq<Pending>, e: DirEntry) {
    || e in root
    || exists i :: 0 <= i < |expanded| && dir(expanded[i].cluster).Some? && e in dir(expanded[i].cluster).value
  }

  lemma {:induction false} EntryFound(path: string, es: seq<DirEntry>, e: DirEntry)
    requires e in es
    ensures Found(ChildPath(path, e), e) in DirFound(path, es) && Found(e.name, e) in RootFound(es)
  {
    hide ChildPath;
    var n := |es| - 1;
    assert es == es[..n] + [es[n]];
    if e in es[..n] {
      EntryFound(path, es[..n], e);
    }
  }

  lemma {:induction false} ListedHolds(dir: Directories, expanded: seq<Pending>, i: nat, x: Found)
    requires i < |expanded| && x in FoundIn(dir, expanded[i])
    ensures x in Listed(dir, expanded)
  {
    hide FoundIn;
    if i > 0 {
      ListedHolds(dir, expanded[1..], i - 1, x);
    }
  }

  lemma ExpandedIsFound(dir: Directories, root: seq<DirEntry>, marked: set<nat>, e: DirEntry)
    requires InExpanded(dir, root, WalkOf(dir, root, marked).expanded, e)
    ensures exists x :: x in FilesFound(dir, root, marked) && x.entry == e
  {
    hide Walk, Listed, RootFound, DirFound, ChildPath, RootChildren;
    var expanded := WalkOf(dir, root, marked).expanded;
    if e in root {
      EntryFound("", root, e);
      assert Found(e.name, e) in FilesFound(dir, root, marked);
    } else {
      var i :| 0 <= i < |expanded| && dir(expanded[i].cluster).Some? && e in dir(expanded[i].cluster).value;
      EntryFound(expanded[i].path, dir(expanded[i].cluster).value, e);
      ListedHolds(dir, expanded, i, Found(ChildPath(expanded[i].path, e), e));
    }
  }

  lemma {:induction false} RootChildIsEntry(root: seq<DirEntry>)
    ensures forall q | q in RootChildren(root) ::
              q.depth == 1 && exists e :: e in root && IsSubdirectory(e) && e.cluster == q.cluster
    ensures forall e | e in root && IsSubdirectory(e) :: Pending(e.name, e.cluster, 1) in RootChildren(root)
  {
    if root != [] {
      var n := |root| - 1;
      RootChildIsEntry(root[..n]);
      assert root == root[..n] + [root[n]];
    }
  }

  // Marked directories hold nothing that the root does not hold.
  predicate MarkedAreRoot(dir: Directories, root: seq<DirEntry>, marked: set<nat>) {
    forall c | c in marked :: dir(c).None? || forall e | e in dir(c).value :: e in root
  }

  lemma {:induction false} ChainInExpanded(dir: Directories, root: seq<DirEntry>, marked: set<nat>, es: seq<DirEntry>,
                                           k: nat)
    requires ShortChains(dir, root, marked) && MarkedAreRoot(dir, root, marked) && Chain(dir, root, es) && k < |es|
    ensures InExpanded(dir, root, WalkOf(dir, root, marked).expanded, es[k])
  {
    hide Walk, RootChildren, Enclosed, Shallow;
    if k > 0 {
      ChainInExpanded(dir, root, marked, es, k - 1);
      var stack, w, e := RootChildren(root), WalkOf(dir, root, marked), es[k - 1];
      RootChildIsEntry(root);
      ChildrenShallow(root, "", [], 0);
      EnclosedMeetsAll(dir, stack, marked);
      WalkSettles(dir, stack, marked);
      assert e in root ==> Settled(w.expanded, marked, Pending(e.name, e.cluster, 1));
      assert e.cluster as nat in marked || HasCluster(w.expanded, e.cluster);
    }
  }

  /**
   When every chain of different directories is at most sixteen long, whatever is shared and whatever loops,
   every entry at any depth is listed under some path.
   */
  lemma NoEntryHidden(dir: Directories, root: seq<DirEntry>, marked: set<nat>, es: seq<DirEntry>)
    requires ShortChains(dir, root, marked) && MarkedAreRoot(dir, root, marked) && Chain(dir, root, es)
    ensures exists x :: x in FilesFound(dir, root, marked) && x.entry == es[|es| - 1]
  {
    ChainInExpanded(dir, root, marked, es, |es| - 1);
    ExpandedIsFound(dir, root, marked, es[|es| - 1]);
  }

  // Clusters 0 and 1 hold no directory, and nothing lies below depth 16.
  predicate Proper(p: Pending) {
    2 <= p.cluster && 1 <= p.depth <= 16
  }

  lemma ChildrenProper(dir: Directories, p: Pending)
    requires Proper(p)
    ensures forall q | q in ChildrenOf(dir, p) :: Proper(q)
  {
    hide DirChildren;
    if dir(p.cluster).Some? {
      forall q | q in ChildrenOf(dir, p)
        ensures Proper(q)
      {
        ChildIsEntry(dir, p.path, dir(p.cluster).value, p.depth, q);
      }
    }
  }

  lemma {:induction false} ExpandedProper(dir: Directories, stack: seq<Pending>, visited: set<nat>)
    requires forall p | p in stack :: Proper(p)
    ensures forall p | p in Walk(dir, stack, visited).expanded :: Proper(p)
    decreases AllClusters() - visited, |stack|
  {
    hide ChildrenOf, AllClusters, Proper;
    if stack != [] {
      var p, rest := stack[|stack| - 1], stack[..|stack| - 1];
      var c: nat := p.cluster;
      if p.depth > MAX_DEPTH || c in visited {
        ExpandedProper(dir, rest, visited);
      } else {
        VisitMore(visited, c);
        ChildrenProper(dir, p);
        ExpandedProper(dir, rest + ChildrenOf(dir, p), visited + {c});
      }
    }
  }

  /** Nothing but proper directories is expanded: clusters from 2 on, at depths from 1 to 16. */
  lemma WalkExpandsProper(dir: Directories, root: seq<DirEntry>, marked: set<nat>)
    ensures forall p | p in WalkOf(dir, root, marked).expanded :: Proper(p)
  {
    hide Walk, RootChildren;
    RootChildIsEntry(root);
    ExpandedProper(dir, RootChildren(root), marked);
  }

  /** The stack walk ends on every image, and lists the root and the directories expanded, in order. */
  method WalkDirectories(dir: Directories, root: seq<DirEntry>, marked: set<nat>) returns (found: seq<Found>)
    ensures found == FilesFound(dir, root, marked)
  {
    hide RootFound, RootChildren, DirFound, DirChildren, Walk, Listed, AllClusters;
    var stack;
    found, stack := ListRoot(root);
    var visited: set<nat> := marked;
    while |stack| > 0
      invariant found + Listed(dir, Walk(dir, stack, visited).expanded) == FilesFound(dir, root, marked)
      decreases AllClusters() - visited, |stack|
    {
      WalkTurn(dir, stack, visited);
      var p := stack[|stack| - 1];
      var cluster: nat := p.cluster;
      stack := stack[..|stack| - 1];
      if p.depth > 16 || cluster in visited {
        continue;
      }
      VisitMore(visited, cluster);
      visited := visited + {cluster};
      var entries := dir(cluster);
      if entries.None? {
        assert stack + [] == stack && found + [] == found;
        continue;
      }
      ConcatAssociative(found, FoundIn(dir, p), Listed(dir, Walk(dir, stack + ChildrenOf(dir, p), visited).expanded));
      found, stack := ListDirectory(p.path, entries.value, p.depth, found, stack);
    }
    WalkTurn(dir, [], visited);
    assert found + [] == found;
  }

  lemma WalkTurn(dir: Directories, stack: seq<Pending>, visited: set<nat>)
    ensures Listed(dir, Walk(dir, stack, visited).expanded) ==
      if stack == [] then [] else
        var p, rest := stack[|stack| - 1], stack[..|stack| - 1];
        if p.depth > MAX_DEPTH || p.cluster as nat in visited then Listed(dir, Walk(dir, rest, visited).expanded)
        else FoundIn(dir, p) + Listed(dir, Walk(dir, rest + ChildrenOf(dir, p), visited + {p.cluster as nat}).expanded)
  {
    hide FoundIn, ChildrenOf;
  }

  /* An image that loses a file */

  const A_ENTRY := DirEntry("A", true, 2, 0)
  const B_ENTRY := DirEntry("B", true, 10, 0)
  const S_ENTRY := DirEntry("S", true, 3, 0)
  const D_ENTRY := DirEntry("D", true, 4, 0)
  const FILE := DirEntry("file", false, 5, 1)

  // A/S and B/B/.../B/S are one directory, sixteen levels down by the second path; it holds D, and D a file.
  function SharedDeep(): Directories {
    (c: nat) =>
      if c == 2 || c == 24 then Some([S_ENTRY])
      else if c == 3 then Some([D_ENTRY])
      else if c == 4 then Some([FILE])
      else if 10 <= c < 24 then Some([DirEntry("B", true, c + 1, 0)])
      else None
  }

  lemma OneEntry(path: string, e: DirEntry, depth: nat)
    ensures DirFound(path, [e]) == [Found(ChildPath(path, e), e)]
    ensures DirChildren(path, [e], depth)
            == if IsSubdirectory(e) && depth < MAX_DEPTH then [Pending(ChildPath(path, e), e.cluster, depth + 1)]
              else []
  {
    assert [e][..0] == [];
  }

  lemma WalkUnfold(dir: Directories, rest: seq<Pending>, p: Pending, visited: set<nat>)
    ensures Walk(dir, [], visited) == Walked([], [])
    ensures Walk(dir, rest + [p], visited) ==
      if p.depth > MAX_DEPTH || p.cluster as nat in visited then
        var w := Walk(dir, rest, visited);
        Walked(w.expanded, [p] + w.dropped)
      else
        var w := Walk(dir, rest + ChildrenOf(dir, p), visited + {p.cluster as nat});
        Walked([p] + w.expanded, w.dropped)
  {
    hide ChildrenOf;
    assert (rest + [p])[..|rest|] == rest;
  }

  lemma TwoRootEntries(a: DirEntry, b: DirEntry)
    requires IsSubdirectory(a) && IsSubdirectory(b)
    ensures RootFound([a, b]) == [Found(a.name, a), Found(b.name, b)]
    ensures RootChildren([a, b]) == [Pending(a.name, a.cluster, 1), Pending(b.name, b.cluster, 1)]
  {
    assert [a, b][..1] == [a] && [a][..0] == [];
    assert RootFound([a]) == [Found(a.name, a)] && RootChildren([a]) == [Pending(a.name, a.cluster, 1)];
  }

  // The walk down the long path, with A still at the bottom of the stack.
  lemma {:induction false} DownTheLongPath(path: string, k: u32, visited: set<nat>)
    requires 10 <= k <= 24 && 2 !in visited && 3 !in visited && 4 !in visited
             && forall c | k <= c <= 24 :: c !in visited
    ensures var w := Walk(SharedDeep(), [Pending("A", 2, 1), Pending(path, k, k - 9)], visited);
            w.dropped == [Pending("A/S", 3, 2)] && !HasCluster(w.expanded, 4)
    decreases 24 - k
  {
    hide DirChildren, DirFound, Walk;
    var dir, a, p := SharedDeep(), Pending("A", 2, 1), Pending(path, k, k - 9);
    assert [a, p] == [a] + [p];
    WalkUnfold(dir, [a], p, visited);
    if k < 24 {
      var e := DirEntry("B", true, k + 1, 0);
      OneEntry(path, e, k - 9);
      var q := Pending(ChildPath(path, e), k + 1, k - 8);
      assert [a] + ChildrenOf(dir, p) == [a, q];
      DownTheLongPath(q.path, k + 1, visited + {k as nat});
      NoSuchCluster(p, Walk(dir, [a, q], visited + {k as nat}).expanded);
    } else {
      OneEntry(path, S_ENTRY, 15);
      assert [a] + ChildrenOf(dir, p) == [a, Pending(ChildPath(path, S_ENTRY), 3, 16)];
      AtTheBottom(ChildPath(path, S_ENTRY), visited + {24});
      NoSuchCluster(p, Walk(dir, [a, Pending(ChildPath(path, S_ENTRY), 3, 16)], visited + {24}).expanded);
    }
  }

  lemma NoSuchCluster(p: Pending, expanded: seq<Pending>)
    requires p.cluster != 4 && !HasCluster(expanded, 4)
    ensures !HasCluster([p] + expanded, 4)
  {
    forall i | 0 <= i < |[p] + expanded|
      ensures ([p] + expanded)[i].cluster != 4
    {
      assert i > 0 ==> ([p] + expanded)[i] == expanded[i - 1];
    }
  }

  // S at depth 16 is expanded, and D in it is too deep; A/S is then dropped.
  lemma AtTheBottom(path: string, visited: set<nat>)
    requires 2 !in visited && 3 !in visited
    ensures var w := Walk(SharedDeep(), [Pending("A", 2, 1), Pending(path, 3, 16)], visited);
            w.dropped == [Pending("A/S", 3, 2)] && !HasCluster(w.expanded, 4)
  {
    hide DirChildren, DirFound, Walk;
    var dir, a, s := SharedDeep(), Pending("A", 2, 1), Pending(path, 3, 16);
    var again := Pending("A/S", 3, 2);
    assert [a, s] == [a] + [s] && [a] == [] + [a] && [again] == [] + [again];
    OneEntry(path, D_ENTRY, 16);
    OneEntry("A", S_ENTRY, 1);
    assert "A" + "/" + "S" == "A/S";
    assert [a] + ChildrenOf(dir, s) == [a] && [] + ChildrenOf(dir, a) == [again];
    WalkUnfold(dir, [], again, visited + {3} + {2});
    WalkUnfold(dir, [], a, visited + {3});
    WalkUnfold(dir, [a], s, visited);
    assert Walk(dir, [a, s], visited) == Walked([s, a], [again]);
  }

  lemma {:induction false} ListedIn(dir: Directories, expanded: seq<Pending>, x: Found)
    requires x in Listed(dir, expanded)
    ensures exists i :: 0 <= i < |expanded| && x in FoundIn(dir, expanded[i])
  {
    hide FoundIn;
    if x !in FoundIn(dir, expanded[0]) {
      ListedIn(dir, expanded[1..], x);
      var i :| 0 <= i < |expanded| - 1 && x in FoundIn(dir, expanded[1..][i]);
      assert expanded[i + 1] == expanded[1..][i];
    }
  }

  lemma OnlyInD(p: Pending, x: Found)
    requires p.cluster != 4 && x in FoundIn(SharedDeep(), p)
    ensures x.entry != FILE
  {
    hide DirFound;
    var es := SharedDeep()(p.cluster);
    if es.Some? {
      OneEntry(p.path, es.value[0], 0);
    }
  }

  /**
   Sharing can hide files from the walk altogether: a file in A/S/D, four levels down, is listed under no
   path because S was first met at depth 16 under another one.
   */
  lemma SharedDirectoryHidesFile()
    ensures var dir, root := SharedDeep(), [A_ENTRY, B_ENTRY];
            && Found("A/S/D/file", FILE) in RootTree(dir, root)
            && forall x | x in FilesFound(dir, root, {}) :: x.entry != FILE
  {
    hide DirChildren, DirFound, Walk, Listed, FoundIn, RootChildren, RootFound, RootTree;
    var dir, root := SharedDeep(), [A_ENTRY, B_ENTRY];
    TwoRootEntries(A_ENTRY, B_ENTRY);
    DownTheLongPath("B", 10, {});
    var expanded := WalkOf(dir, root, {}).expanded;
    forall x | x in FilesFound(dir, root, {})
      ensures x.entry != FILE
    {
      if x in Listed(dir, expanded) {
        ListedIn(dir, expanded, x);
        var i :| 0 <= i < |expanded| && x in FoundIn(dir, expanded[i]);
        OnlyInD(expanded[i], x);
      } else {
        assert x in RootFound(root);
      }
    }
    InTheTree();
  }

  lemma TreeHolds(dir: Directories, path: string, c: nat, depth: nat, e: DirEntry, x: Found)
    requires depth <= MAX_DEPTH && dir(c) == Some([e])
    requires x == Found(ChildPath(path, e), e)
             || (IsSubdirectory(e) && depth < MAX_DEPTH && x in Tree(dir, ChildPath(path, e), e.cluster, depth + 1))
    ensures x in Tree(dir, path, c, depth)
  {
    assert Tree(dir, path, c, depth) == TreeOf(dir, path, [e], depth);
  }

  lemma InTheTree()
    ensures Found("A/S/D/file", FILE) in RootTree(SharedDeep(), [A_ENTRY, B_ENTRY])
  {
    hide Tree, TreeOf;
    var dir, x := SharedDeep(), Found("A/S/D/file", FILE);
    assert "A" + "/" + "S" == "A/S" && "A/S" + "/" + "D" == "A/S/D" && "A/S/D" + "/" + "file" == "A/S/D/file";
    TreeHolds(dir, "A/S/D", 4, 3, FILE, x);
    TreeHolds(dir, "A/S", 3, 2, D_ENTRY, x);
    TreeHolds(dir, "A", 2, 1, S_ENTRY, x);
    assert x in Tree(dir, A_ENTRY.name, A_ENTRY.cluster, 1);
  }
}
