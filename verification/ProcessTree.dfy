/** The process tree built from the flat PID-to-PPID table, and its flattening for display. */
module ProcessTree {
  import opened Graphs
  import opened Processes
  import opened Sorting

  datatype Table = Table(stats: map<Pid, ProcStats>, ppids: map<Pid, Pid>) {
    /** An unresolved parent counts as 0. */
    function Parent(pid: Pid): Pid {
      if pid in ppids then ppids[pid] else 0
    }

    function Name(pid: Pid): string {
      if pid in stats then stats[pid].comm else ""
    }

    /** A root's parent is 0 or not tracked. */
    predicate IsRoot(pid: Pid) {
      pid in stats && (Parent(pid) == 0 || Parent(pid) !in stats)
    }

    function Roots(): set<Pid> {
      set p | p in stats && IsRoot(p)
    }

    function Kids(pid: Pid): set<Pid> {
      set c | c in stats && Parent(c) == pid
    }

    /** `k` steps up the parent chain. */
    ghost function Ancestor(pid: Pid, k: nat): Pid
      decreases k
    {
      if k == 0 then pid else Ancestor(Parent(pid), k - 1)
    }

    /** The parent chain of `pid` stays among the tracked processes for `k` steps. */
    ghost predicate Climbs(pid: Pid, k: nat) {
      forall i: nat :: i <= k ==> Ancestor(pid, i) in stats
    }

    /** The parent chain of `pid` passes through `n` further tracked processes and then leaves. */
    ghost predicate ChainLeaves(pid: Pid, n: nat) {
      Climbs(pid, n) && Ancestor(pid, n + 1) !in stats
    }

    /** `pid` is its own ancestor through tracked processes only. */
    ghost predicate OnParentCycle(pid: Pid) {
      exists k: nat :: k > 0 && Ancestor(pid, k) == pid && Climbs(pid, k)
    }
  }

  datatype Label = Label(pid: Pid, ppid: Pid, comm: string, alerts: nat, totalOpens: nat)

  datatype ProcessNode = ProcessNode(info: Label, children: seq<ProcessNode>)

  function LabelOf(t: Table, pid: Pid): Label {
    if pid in t.stats
    then var s := t.stats[pid]; Label(pid, s.ppid, s.comm, s.alerts, s.totalOpens)
    else Label(pid, 0, "<unknown>", 0, 0)
  }

  // ----- what a tree over the table is -----

  /** Comparison by process name. */
  function ByName(t: Table): (Pid, Pid) -> bool {
    (a: Pid, b: Pid) => Leq(t.Name(a), t.Name(b))
  }

  lemma ByNameIsTotal(t: Table)
    ensures TotalPreorder(ByName(t))
  {
    forall a: Pid, b: Pid ensures ByName(t)(a, b) || ByName(t)(b, a) {
      LeqTotal(t.Name(a), t.Name(b));
    }
    forall a: Pid, b: Pid, c: Pid | ByName(t)(a, b) && ByName(t)(b, c) ensures ByName(t)(a, c) {
      LeqTransitive(t.Name(a), t.Name(b), t.Name(c));
    }
  }

  /** `pids` lists `members`, each once, in name order. */
  ghost predicate DisplayList(t: Table, pids: seq<Pid>, members: set<Pid>) {
    && Lists(pids, members)
    && SortedBy(ByName(t), pids)
  }

  function Tops(nodes: seq<ProcessNode>): (r: seq<Pid>)
    ensures |r| == |nodes| && forall i :: 0 <= i < |r| ==> r[i] == nodes[i].info.pid
  {
    seq(|nodes|, i requires 0 <= i < |nodes| => nodes[i].info.pid)
  }

  /** A node shows its process and has exactly the processes it is the parent of as children. */
  ghost predicate IsNode(t: Table, node: ProcessNode) {
    && node.info == LabelOf(t, node.info.pid)
    && DisplayList(t, Tops(node.children), t.Kids(node.info.pid))
    && forall c :: c in node.children ==> IsNode(t, c)
  }

  ghost predicate IsForest(t: Table, forest: seq<ProcessNode>) {
    && DisplayList(t, Tops(forest), t.Roots())
    && forall c :: c in forest ==> IsNode(t, c)
  }

  // ----- parent chains -----

  lemma {:induction false} AncestorSplit(t: Table, pid: Pid, j: nat, k: nat)
    ensures t.Ancestor(pid, j + k) == t.Ancestor(t.Ancestor(pid, j), k)
    decreases j
  {
    if j > 0 {
      AncestorSplit(t, t.Parent(pid), j - 1, k);
    }
  }

  /** One step up from a cycle is still on it. */
  lemma ParentOnCycle(t: Table, c: Pid)
    requires t.OnParentCycle(c)
    ensures c in t.stats && t.Parent(c) in t.stats && t.OnParentCycle(t.Parent(c))
  {
    var k: nat :| k > 0 && t.Ancestor(c, k) == c && t.Climbs(c, k);
    assert t.Ancestor(c, 0) in t.stats && t.Ancestor(c, 1) in t.stats;
    AncestorSplit(t, c, k, 1);
    assert t.Ancestor(t.Parent(c), k) == t.Parent(c);
    forall i: nat | i <= k ensures t.Ancestor(t.Parent(c), i) in t.stats {
      assert t.Ancestor(t.Parent(c), i) == t.Ancestor(c, i + 1);
    }
  }

  lemma {:induction false} AncestorOnCycle(t: Table, c: Pid, k: nat)
    requires t.OnParentCycle(c)
    ensures t.OnParentCycle(t.Ancestor(c, k)) && t.Ancestor(c, k) in t.stats
    decreases k
  {
    ParentOnCycle(t, c);
    if k > 0 {
      AncestorOnCycle(t, t.Parent(c), k - 1);
    }
  }

  /** From any ancestor on, the climb goes on. */
  lemma ClimbFrom(t: Table, pid: Pid, i: nat, k: nat, n: nat)
    requires t.Climbs(pid, n) && i + k <= n
    ensures t.Climbs(t.Ancestor(pid, i), k)
  {
    forall m: nat | m <= k ensures t.Ancestor(t.Ancestor(pid, i), m) in t.stats {
      AncestorSplit(t, pid, i, m);
    }
  }

  /** If an ancestor is met twice, every later one is on a cycle. */
  lemma RepetitionIsCycle(t: Table, pid: Pid, i: nat, j: nat, n: nat)
    requires i < j <= n && t.Climbs(pid, n) && t.Ancestor(pid, i) == t.Ancestor(pid, j)
    ensures t.OnParentCycle(t.Ancestor(pid, n))
  {
    hide t.Climbs, t.Ancestor;
    ClimbFrom(t, pid, i, j - i, n);
    AncestorSplit(t, pid, i, j - i);
    AncestorSplit(t, pid, i, n - i);
    AncestorOnCycle(t, t.Ancestor(pid, i), n - i);
  }

  ghost predicate AncestorWithin(t: Table, pid: Pid, n: nat, p: Pid) {
    exists i: nat :: i <= n && t.Ancestor(pid, i) == p
  }

  /** `n + 1` ancestors that repeat nothing are `n + 1` processes. */
  lemma {:induction false} DistinctAncestors(t: Table, pid: Pid, n: nat) returns (members: set<Pid>)
    requires forall i: nat, j: nat :: i < j <= n ==> t.Ancestor(pid, i) != t.Ancestor(pid, j)
    ensures |members| == n + 1
    ensures forall p :: p in members ==> AncestorWithin(t, pid, n, p)
    decreases n
  {
    var last := t.Ancestor(pid, n);
    if n == 0 {
      members := {last};
    } else {
      var earlier := DistinctAncestors(t, pid, n - 1);
      assert last !in earlier;
      members := earlier + {last};
    }
    forall p | p in members ensures AncestorWithin(t, pid, n, p) {
      if p != last {
        var i: nat :| i <= n - 1 && t.Ancestor(pid, i) == p;
      }
    }
  }

  /** A climb that does not end on a cycle repeats nothing, so it is shorter than the table. */
  lemma ClimbShorterThanTable(t: Table, pid: Pid, n: nat)
    requires t.Climbs(pid, n) && !t.OnParentCycle(t.Ancestor(pid, n))
    ensures n < |t.stats|
  {
    forall i: nat, j: nat | i < j <= n ensures t.Ancestor(pid, i) != t.Ancestor(pid, j) {
      if t.Ancestor(pid, i) == t.Ancestor(pid, j) {
        RepetitionIsCycle(t, pid, i, j, n);
        assert false;
      }
    }
    var members := DistinctAncestors(t, pid, n);
    SubsetCardinality(members, t.stats.Keys);
  }

  lemma ChainShorterThanTable(t: Table, pid: Pid, n: nat)
    requires t.ChainLeaves(pid, n)
    ensures n < |t.stats|
  {
    AncestorSplit(t, pid, n, 1);
    var last := t.Ancestor(pid, n);
    assert t.Ancestor(last, 1) == t.Ancestor(t.Parent(last), 0);
    if t.OnParentCycle(last) {
      ParentOnCycle(t, last);
      assert false;
    }
    ClimbShorterThanTable(t, pid, n);
  }

  // ----- building -----

  type ChildrenMap = map<Pid, seq<Pid>>

  function ChildIds(children: ChildrenMap, pid: Pid): seq<Pid> {
    if pid in children then children[pid] else []
  }

  ghost predicate ChildrenIndex(t: Table, children: ChildrenMap) {
    forall p :: DisplayList(t, ChildIds(children, p), t.Kids(p))
  }

  /** Going up from `pid`, through tracked processes only, one comes to `x`. */
  ghost predicate Below(t: Table, pid: Pid, x: Pid) {
    exists k: nat :: k > 0 && t.Ancestor(pid, k) == x && t.Climbs(pid, k)
  }

  lemma ChildBelow(t: Table, c: Pid, x: Pid)
    requires c in t.stats && t.Parent(c) in t.stats
    ensures Below(t, c, t.Parent(c))
    ensures Below(t, t.Parent(c), x) ==> Below(t, c, x)
  {
    assert t.Ancestor(c, 1) == t.Ancestor(t.Parent(c), 0);
    forall i: nat | i <= 1 ensures t.Ancestor(c, i) in t.stats {
      assert i == 0 || i == 1;
    }
    if Below(t, t.Parent(c), x) {
      var k: nat :| k > 0 && t.Ancestor(t.Parent(c), k) == x && t.Climbs(t.Parent(c), k);
      assert t.Ancestor(c, k + 1) == x;
      forall i: nat | i <= k + 1 ensures t.Ancestor(c, i) in t.stats {
        if i > 0 {
          assert t.Ancestor(c, i) == t.Ancestor(t.Parent(c), i - 1);
        }
      }
    }
  }

  /** Only a process 0 on a cycle puts a root on one. */
  lemma RootOffCycle(t: Table, root: Pid)
    requires !t.OnParentCycle(0) && t.IsRoot(root)
    ensures !t.OnParentCycle(root)
  {
    if t.OnParentCycle(root) {
      ParentOnCycle(t, root);
      assert false;
    }
  }

  /** What the recursion knows on its way down: the processes passed are tracked and above this one. */
  ghost predicate WayDown(t: Table, pid: Pid, passed: set<Pid>) {
    && pid in t.stats && !t.OnParentCycle(pid)
    && pid !in passed && passed <= t.stats.Keys && forall x :: x in passed ==> Below(t, pid, x)
  }

  lemma OneStepDown(t: Table, pid: Pid, passed: set<Pid>, c: Pid)
    requires WayDown(t, pid, passed) && c in t.Kids(pid)
    ensures WayDown(t, c, passed + {pid}) && |passed + {pid}| == |passed| + 1 <= |t.stats|
  {
    if t.OnParentCycle(c) {
      ParentOnCycle(t, c);
      assert false;
    }
    if c in passed + {pid} {
      ChildBelow(t, c, c);
      assert Below(t, c, c) && t.OnParentCycle(c);
      assert false;
    }
    forall x | x in passed + {pid} ensures Below(t, c, x) {
      ChildBelow(t, c, x);
    }
    SubsetCardinality(passed + {pid}, t.stats.Keys);
  }

  /** The recursion goes one step away from the root each time and never meets a process twice. */
  function Build(t: Table, children: ChildrenMap, pid: Pid, ghost passed: set<Pid>): (node: ProcessNode)
    requires ChildrenIndex(t, children) && WayDown(t, pid, passed)
    ensures node.info.pid == pid && IsNode(t, node)
    decreases |t.stats| - |passed|
  {
    hide WayDown;
    var ids := ChildIds(children, pid);
    assert DisplayList(t, ids, t.Kids(pid));
    assert forall i :: 0 <= i < |ids| ==> ids[i] in t.Kids(pid);
    assert forall c :: c in t.Kids(pid) ==> WayDown(t, c, passed + {pid}) && |passed| < |passed + {pid}| <= |t.stats| by {
      forall c | c in t.Kids(pid) ensures WayDown(t, c, passed + {pid}) && |passed| < |passed + {pid}| <= |t.stats| {
        OneStepDown(t, pid, passed, c);
      }
    }
    var kids := seq(|ids|, i requires 0 <= i < |ids| => Build(t, children, ids[i], passed + {pid}));
    assert Tops(kids) == ids;
    ProcessNode(LabelOf(t, pid), kids)
  }

  /** The roots among `pids`, in their order. */
  function FilterRoots(t: Table, pids: seq<Pid>): (r: seq<Pid>)
    ensures forall p :: p in r <==> p in pids && t.IsRoot(p)
    ensures NoDuplicates(pids) ==> NoDuplicates(r)
  {
    if pids == [] then []
    else
      var rest := FilterRoots(t, pids[1..]);
      assert forall p :: p in pids <==> p == pids[0] || p in pids[1..];
      assert NoDuplicates(pids) ==> pids[0] !in pids[1..] && NoDuplicates(pids[1..]);
      if t.IsRoot(pids[0]) then [pids[0]] + rest else rest
  }

  lemma SortedIsDisplayList(t: Table, pids: seq<Pid>, members: set<Pid>)
    requires Lists(pids, members)
    ensures DisplayList(t, Sort(ByName(t), pids), members)
  {
    ByNameIsTotal(t);
    SortKeepsElements(ByName(t), pids);
  }

  /** The first loop: every tracked PID is listed and filed under its parent. */
  method FileUnderParents(t: Table) returns (allPids: seq<Pid>, children: ChildrenMap)
    ensures Lists(allPids, t.stats.Keys)
    ensures forall p :: Lists(ChildIds(children, p), t.Kids(p))
  {
    allPids, children := [], map[];
    var todo := t.stats.Keys;
    while todo != {}
      invariant todo <= t.stats.Keys
      invariant Lists(allPids, t.stats.Keys - todo)
      invariant forall p :: Lists(ChildIds(children, p), t.Kids(p) - todo)
    {
      var pid :| pid in todo;
      var parent := t.Parent(pid);
      ListsOneMore(allPids, t.stats.Keys - todo, pid);
      assert t.stats.Keys - (todo - {pid}) == t.stats.Keys - todo + {pid};
      assert forall p :: t.Kids(p) - (todo - {pid}) == if p == parent then t.Kids(p) - todo + {pid} else t.Kids(p) - todo;
      ListsOneMore(ChildIds(children, parent), t.Kids(parent) - todo, pid);
      todo := todo - {pid};
      allPids := allPids + [pid];
      children := children[parent := ChildIds(children, parent) + [pid]];
    }
    assert t.stats.Keys - todo == t.stats.Keys;
    assert forall p :: t.Kids(p) - todo == t.Kids(p);
  }

  /** The recursion ends unless process 0 is tracked and its own ancestor. */
  method BuildProcessTree(t: Table) returns (forest: seq<ProcessNode>)
    requires !t.OnParentCycle(0)
    ensures IsForest(t, forest)
  {
    var allPids, unsorted := FileUnderParents(t);
    var children: ChildrenMap := map p | p in unsorted :: Sort(ByName(t), unsorted[p]);
    forall p ensures DisplayList(t, ChildIds(children, p), t.Kids(p)) {
      SortedIsDisplayList(t, ChildIds(unsorted, p), t.Kids(p));
    }
    var roots := Sort(ByName(t), FilterRoots(t, allPids));
    SortedIsDisplayList(t, FilterRoots(t, allPids), t.Roots());
    RootsStart(t, roots);
    forest := seq(|roots|, i requires 0 <= i < |roots| => Build(t, children, roots[i], {}));
    assert Tops(forest) == roots;
  }

  lemma RootsStart(t: Table, roots: seq<Pid>)
    requires !t.OnParentCycle(0) && DisplayList(t, roots, t.Roots())
    ensures forall i :: 0 <= i < |roots| ==> WayDown(t, roots[i], {})
  {
    forall i | 0 <= i < |roots| ensures WayDown(t, roots[i], {}) {
      assert roots[i] in t.Roots();
      RootOffCycle(t, roots[i]);
    }
  }

  // ----- what the tree contains -----

  datatype Row = Row(depth: nat, info: Label)

  /** Preorder with depths. */
  function Flatten(forest: seq<ProcessNode>, depth: nat): seq<Row> {
    if forest == [] then []
    else [Row(depth, forest[0].info)] + Flatten(forest[0].children, depth + 1) + Flatten(forest[1..], depth)
  }

  /** `walk` pushes a node and then, one level deeper, its children. */
  method Walk(node: ProcessNode, depth: nat, out0: seq<Row>) returns (out: seq<Row>)
    ensures out == out0 + Flatten([node], depth)
    decreases node
  {
    out := out0 + [Row(depth, node.info)];
    for i := 0 to |node.children|
      invariant out == out0 + [Row(depth, node.info)] + Flatten(node.children[..i], depth + 1)
    {
      out := Walk(node.children[i], depth + 1, out);
      FlattenAppend(node.children[..i], [node.children[i]], depth + 1);
      assert node.children[..i + 1] == node.children[..i] + [node.children[i]];
    }
    assert node.children[..|node.children|] == node.children;
    assert Flatten([node], depth) == [Row(depth, node.info)] + Flatten(node.children, depth + 1);
  }

  method FlattenTree(tree: seq<ProcessNode>) returns (result: seq<Row>)
    ensures result == Flatten(tree, 0)
  {
    result := [];
    for i := 0 to |tree|
      invariant result == Flatten(tree[..i], 0)
    {
      result := Walk(tree[i], 0, result);
      FlattenAppend(tree[..i], [tree[i]], 0);
      assert tree[..i + 1] == tree[..i] + [tree[i]];
    }
    assert tree[..|tree|] == tree;
  }

  lemma {:induction false} FlattenAppend(a: seq<ProcessNode>, b: seq<ProcessNode>, depth: nat)
    ensures Flatten(a + b, depth) == Flatten(a, depth) + Flatten(b, depth)
  {
    if a == [] {
      assert a + b == b;
    } else {
      assert (a + b)[0] == a[0] && (a + b)[1..] == a[1..] + b;
      FlattenAppend(a[1..], b, depth);
    }
  }

  function NodeCount(forest: seq<ProcessNode>): nat {
    if forest == [] then 0 else 1 + NodeCount(forest[0].children) + NodeCount(forest[1..])
  }

  lemma {:induction false} OneRowPerNode(forest: seq<ProcessNode>, depth: nat)
    ensures |Flatten(forest, depth)| == NodeCount(forest)
    decreases forest
  {
    if forest != [] {
      OneRowPerNode(forest[0].children, depth + 1);
      OneRowPerNode(forest[1..], depth);
    }
  }

  // ----- the flattening can be undone -----

  /** Reads the forest at level `depth` off the front of a display list. */
  function Rebuild(rows: seq<Row>, depth: nat): (r: (seq<ProcessNode>, seq<Row>))
    ensures |r.1| <= |rows|
    decreases |rows|
  {
    if rows == [] || rows[0].depth != depth then ([], rows)
    else
      var (children, afterNode) := Rebuild(rows[1..], depth + 1);
      var (siblings, rest) := Rebuild(afterNode, depth);
      ([ProcessNode(rows[0].info, children)] + siblings, rest)
  }

  lemma FlattenUnfolds(forest: seq<ProcessNode>, depth: nat, tail: seq<Row>)
    requires forest != []
    ensures Flatten(forest, depth) + tail
         == [Row(depth, forest[0].info)] + (Flatten(forest[0].children, depth + 1) + (Flatten(forest[1..], depth) + tail))
  {
  }

  lemma FlattenHeadDepth(forest: seq<ProcessNode>, depth: nat)
    ensures Flatten(forest, depth) != [] ==> Flatten(forest, depth)[0].depth == depth
  {
  }

  lemma {:induction false} RebuildUndoesFlatten(forest: seq<ProcessNode>, depth: nat, tail: seq<Row>)
    requires tail != [] ==> tail[0].depth < depth
    ensures Rebuild(Flatten(forest, depth) + tail, depth) == (forest, tail)
    decreases forest
  {
    if forest == [] {
      assert Flatten(forest, depth) + tail == tail;
    } else {
      var node, others := forest[0], forest[1..];
      var afterNode := Flatten(others, depth) + tail;
      var kidRows := Flatten(node.children, depth + 1);
      FlattenUnfolds(forest, depth, tail);
      FlattenHeadDepth(others, depth);
      RebuildUndoesFlatten(node.children, depth + 1, afterNode);
      RebuildUndoesFlatten(others, depth, tail);
      RebuildFromPieces([Row(depth, node.info)] + (kidRows + afterNode), depth, node, kidRows, afterNode, others, tail);
      assert [node] + others == forest;
    }
  }

  lemma RebuildFromPieces(rows: seq<Row>, depth: nat, node: ProcessNode, kidRows: seq<Row>, afterNode: seq<Row>,
                          siblings: seq<ProcessNode>, tail: seq<Row>)
    requires rows == [Row(depth, node.info)] + (kidRows + afterNode)
    requires Rebuild(kidRows + afterNode, depth + 1) == (node.children, afterNode)
    requires Rebuild(afterNode, depth) == (siblings, tail)
    ensures Rebuild(rows, depth) == ([node] + siblings, tail)
  {
    assert rows[1..] == kidRows + afterNode;
  }

  lemma FlattenDeterminesForest(a: seq<ProcessNode>, b: seq<ProcessNode>)
    requires Flatten(a, 0) == Flatten(b, 0)
    ensures a == b
  {
    RebuildUndoesFlatten(a, 0, []);
    RebuildUndoesFlatten(b, 0, []);
    assert Flatten(a, 0) + [] == Flatten(a, 0);
    assert Flatten(b, 0) + [] == Flatten(b, 0);
  }

  // ----- process 0 -----

  /** On a parent cycle there is always one more process below. */
  lemma {:induction false} NoFiniteNodeOnCycle(t: Table, node: ProcessNode)
    requires t.OnParentCycle(node.info.pid)
    ensures !IsNode(t, node)
    decreases node
  {
    if IsNode(t, node) {
      var child := ChildOnCycle(t, node.info.pid);
      assert child in t.Kids(node.info.pid) && child in Tops(node.children);
      var i :| 0 <= i < |node.children| && Tops(node.children)[i] == child;
      assert node.children[i] in node.children;
      NoFiniteNodeOnCycle(t, node.children[i]);
      assert false;
    }
  }

  lemma ChildOnCycle(t: Table, pid: Pid) returns (child: Pid)
    requires t.OnParentCycle(pid)
    ensures child in t.stats && t.Parent(child) == pid && t.OnParentCycle(child)
  {
    var k: nat :| k > 0 && t.Ancestor(pid, k) == pid && t.Climbs(pid, k);
    child := t.Ancestor(pid, k - 1);
    AncestorSplit(t, pid, k - 1, 1);
    assert t.Parent(child) == t.Ancestor(child, 1) == pid by {
      assert t.Ancestor(child, 1) == t.Ancestor(t.Parent(child), 0);
    }
    forall i: nat | i <= k ensures t.Ancestor(child, i) in t.stats {
      if i > 0 {
        assert t.Ancestor(child, i) == t.Ancestor(pid, i - 1);
      }
    }
    assert t.Ancestor(child, k) == t.Ancestor(pid, k - 1);
  }

  lemma ForestWithoutCycle(t: Table) returns (forest: seq<ProcessNode>)
    requires !t.OnParentCycle(0)
    ensures IsForest(t, forest)
  {
    var parents := set p | p in t.stats :: t.Parent(p);
    var children: ChildrenMap := map p | p in parents :: Sort(ByName(t), ListOf(t.Kids(p)));
    forall p ensures DisplayList(t, ChildIds(children, p), t.Kids(p)) {
      if p in parents {
        SortedIsDisplayList(t, ListOf(t.Kids(p)), t.Kids(p));
      } else {
        assert t.Kids(p) == {};
      }
    }
    var roots := Sort(ByName(t), ListOf(t.Roots()));
    SortedIsDisplayList(t, ListOf(t.Roots()), t.Roots());
    RootsStart(t, roots);
    forest := seq(|roots|, i requires 0 <= i < |roots| => Build(t, children, roots[i], {}));
    assert Tops(forest) == roots;
  }

  /** A tree exists, and so the recursion has a result, unless process 0 is its own ancestor: a process whose parent
      is 0 counts as a root even when 0 is tracked, so only then does a cycle start from the root list. */
  lemma ForestExistsIff(t: Table)
    ensures (exists forest :: IsForest(t, forest)) <==> !t.OnParentCycle(0)
  {
    if !t.OnParentCycle(0) {
      var forest := ForestWithoutCycle(t);
    } else {
      var child := ChildOnCycle(t, 0);
      forall forest ensures !IsForest(t, forest) {
        if IsForest(t, forest) {
          assert child in t.Roots() && child in Tops(forest);
          var i :| 0 <= i < |forest| && Tops(forest)[i] == child;
          assert forest[i] in forest;
          NoFiniteNodeOnCycle(t, forest[i]);
          assert false;
        }
      }
    }
  }

  /** A tracked process 0 with no recorded parent is its own child. */
  lemma TrackedZeroHasNoTree(t: Table, forest: seq<ProcessNode>)
    requires 0 in t.stats && 0 !in t.ppids
    ensures !IsForest(t, forest)
  {
    assert t.Ancestor(0, 1) == t.Ancestor(0, 0) == 0;
    assert t.OnParentCycle(0);
    ForestExistsIff(t);
  }

  // ----- the rows of the tree -----

  /** Distinct correct subtrees of tracked processes. */
  ghost predicate Siblings(t: Table, nodes: seq<ProcessNode>) {
    && NoDuplicates(Tops(nodes))
    && forall c :: c in nodes ==> IsNode(t, c) && c.info.pid in t.stats
  }

  lemma TopsMember(nodes: seq<ProcessNode>, c: ProcessNode)
    requires c in nodes
    ensures c.info.pid in Tops(nodes)
  {
    var i :| 0 <= i < |nodes| && nodes[i] == c;
    assert Tops(nodes)[i] == c.info.pid;
  }

  lemma ForestIsSiblings(t: Table, forest: seq<ProcessNode>)
    requires IsForest(t, forest)
    ensures Siblings(t, forest)
  {
    forall c | c in forest ensures c.info.pid in t.stats {
      TopsMember(forest, c);
    }
  }

  lemma ChildrenAreSiblings(t: Table, node: ProcessNode)
    requires IsNode(t, node)
    ensures Siblings(t, node.children)
  {
    forall c | c in node.children ensures c.info.pid in t.stats {
      TopsMember(node.children, c);
    }
  }

  lemma OtherSiblings(t: Table, nodes: seq<ProcessNode>)
    requires Siblings(t, nodes) && nodes != []
    ensures IsNode(t, nodes[0]) && nodes[0].info.pid in t.stats
    ensures Siblings(t, nodes[1..]) && nodes[0].info.pid !in Tops(nodes[1..])
    ensures forall p :: p in Tops(nodes) <==> p == nodes[0].info.pid || p in Tops(nodes[1..])
  {
    assert Tops(nodes) == [nodes[0].info.pid] + Tops(nodes[1..]);
    forall c | c in nodes[1..] ensures c in nodes {
    }
    assert nodes[0] in nodes;
  }

  /** As many steps up as the row is below level `d`, through tracked processes, there is one of the tops. */
  ghost predicate TrueRow(t: Table, tops: seq<Pid>, d: nat, row: Row) {
    && row.info == LabelOf(t, row.info.pid)
    && row.depth >= d && t.Climbs(row.info.pid, row.depth - d)
    && t.Ancestor(row.info.pid, row.depth - d) in tops
  }

  lemma {:induction false} RowsAreTrue(t: Table, nodes: seq<ProcessNode>, d: nat, row: Row)
    requires Siblings(t, nodes) && row in Flatten(nodes, d)
    ensures TrueRow(t, Tops(nodes), d, row)
    decreases nodes
  {
    var node := nodes[0];
    OtherSiblings(t, nodes);
    if row in Flatten(node.children, d + 1) {
      ChildrenAreSiblings(t, node);
      RowsAreTrue(t, node.children, d + 1, row);
      ChildRowBelow(t, node, d, row);
    } else if row in Flatten(nodes[1..], d) {
      RowsAreTrue(t, nodes[1..], d, row);
    } else {
      assert t.Ancestor(row.info.pid, 0) == node.info.pid;
    }
  }

  lemma ChildRowBelow(t: Table, node: ProcessNode, d: nat, row: Row)
    requires IsNode(t, node) && node.info.pid in t.stats && TrueRow(t, Tops(node.children), d + 1, row)
    ensures TrueRow(t, [node.info.pid], d, row)
  {
    var k := row.depth - (d + 1);
    var kid := t.Ancestor(row.info.pid, k);
    assert kid in t.Kids(node.info.pid);
    AncestorSplit(t, row.info.pid, k, 1);
    assert t.Ancestor(kid, 1) == t.Ancestor(t.Parent(kid), 0);
    forall i: nat | i <= k + 1 ensures t.Ancestor(row.info.pid, i) in t.stats {
      assert i <= k || i == k + 1;
    }
  }

  /** Whoever descends from one of the tops is shown. */
  lemma {:induction false} DescendantsAreShown(t: Table, nodes: seq<ProcessNode>, d: nat, row: Row)
    requires Siblings(t, nodes) && TrueRow(t, Tops(nodes), d, row)
    ensures row in Flatten(nodes, d)
    decreases nodes
  {
    var node := nodes[0];
    OtherSiblings(t, nodes);
    var k := row.depth - d;
    if t.Ancestor(row.info.pid, k) != node.info.pid {
      DescendantsAreShown(t, nodes[1..], d, row);
    } else if k > 0 {
      var kid := t.Ancestor(row.info.pid, k - 1);
      AncestorSplit(t, row.info.pid, k - 1, 1);
      assert t.Parent(kid) == t.Ancestor(kid, 1) by {
        assert t.Ancestor(kid, 1) == t.Ancestor(t.Parent(kid), 0);
      }
      assert kid in t.Kids(node.info.pid) && kid in Tops(node.children);
      ChildrenAreSiblings(t, node);
      DescendantsAreShown(t, node.children, d + 1, row);
    } else {
      assert t.Ancestor(row.info.pid, 0) == row.info.pid;
      assert row == Row(d, node.info);
    }
  }

  lemma {:induction false} NoRowTwice(t: Table, nodes: seq<ProcessNode>, d: nat)
    requires Siblings(t, nodes)
    ensures NoDuplicates(Flatten(nodes, d))
    decreases nodes
  {
    if nodes != [] {
      var node, others := nodes[0], nodes[1..];
      var kidRows, otherRows := Flatten(node.children, d + 1), Flatten(others, d);
      OtherSiblings(t, nodes);
      ChildrenAreSiblings(t, node);
      NoRowTwice(t, node.children, d + 1);
      NoRowTwice(t, others, d);
      forall row | row in kidRows ensures row.depth > d && row !in otherRows {
        RowsAreTrue(t, node.children, d + 1, row);
        ChildRowBelow(t, node, d, row);
        if row in otherRows {
          RowsAreTrue(t, others, d, row);
          assert false;
        }
      }
      if Row(d, node.info) in otherRows {
        RowsAreTrue(t, others, d, Row(d, node.info));
        assert false;
      }
      assert Flatten(nodes, d) == [Row(d, node.info)] + kidRows + otherRows;
      JoinDistinct(Row(d, node.info), kidRows, otherRows);
    }
  }

  lemma JoinDistinct(head: Row, a: seq<Row>, b: seq<Row>)
    requires NoDuplicates(a) && NoDuplicates(b) && head !in a && head !in b
    requires forall x :: x in a ==> x !in b
    ensures NoDuplicates([head] + a + b)
  {
    var rows := [head] + a + b;
    forall i, j | 0 <= i < j < |rows| ensures rows[i] != rows[j] {
      if i == 0 {
        assert rows[j] in a || rows[j] in b;
      } else if j < 1 + |a| {
        assert a[i - 1] != a[j - 1];
      } else if i < 1 + |a| {
        assert rows[i] in a && rows[j] in b;
      } else {
        assert b[i - 1 - |a|] != b[j - 1 - |a|];
      }
    }
  }

  /** Among siblings, roots or children, the names ascend. */
  lemma SiblingsByName(t: Table, nodes: seq<ProcessNode>, members: set<Pid>, i: nat, j: nat)
    requires DisplayList(t, Tops(nodes), members) && members <= t.stats.Keys && i < j < |nodes|
    ensures var a, b := nodes[i].info.pid, nodes[j].info.pid;
            a != b && a in t.stats && b in t.stats && Leq(t.stats[a].comm, t.stats[b].comm)
  {
    assert Tops(nodes)[i] in Tops(nodes) && Tops(nodes)[j] in Tops(nodes);
    assert ByName(t)(Tops(nodes)[i], Tops(nodes)[j]);
    hide Leq;
  }

  // ----- what the tree shows -----

  /** `d` steps up from `pid`, through tracked processes, there is a root. */
  ghost predicate PlacedAt(t: Table, pid: Pid, d: nat) {
    t.Climbs(pid, d) && t.IsRoot(t.Ancestor(pid, d))
  }

  lemma RowsOfForest(t: Table, forest: seq<ProcessNode>)
    requires IsForest(t, forest)
    ensures forall row :: row in Flatten(forest, 0) <==>
              PlacedAt(t, row.info.pid, row.depth) && row.info == LabelOf(t, row.info.pid)
    ensures NoDuplicates(Flatten(forest, 0))
  {
    ForestIsSiblings(t, forest);
    NoRowTwice(t, forest, 0);
    forall row: Row
      ensures row in Flatten(forest, 0) <==> PlacedAt(t, row.info.pid, row.depth) && row.info == LabelOf(t, row.info.pid)
    {
      assert t.Ancestor(row.info.pid, row.depth) in t.Roots() <==> t.IsRoot(t.Ancestor(row.info.pid, row.depth));
      if row in Flatten(forest, 0) {
        RowsAreTrue(t, forest, 0, row);
      } else if TrueRow(t, Tops(forest), 0, row) {
        DescendantsAreShown(t, forest, 0, row);
      }
    }
  }

  /** The parent of a root is 0 or not tracked, whichever is next on the chain. */
  lemma PlacedUnderParent(t: Table, pid: Pid, d: nat)
    ensures PlacedAt(t, pid, d) <==> t.Climbs(pid, d) && (t.Ancestor(pid, d + 1) == 0 || t.Ancestor(pid, d + 1) !in t.stats)
  {
    AncestorSplit(t, pid, d, 1);
    var top := t.Ancestor(pid, d);
    assert t.Ancestor(top, 1) == t.Ancestor(t.Parent(top), 0);
  }

  function PidsOf(rows: seq<Row>): (r: seq<Pid>)
    ensures |r| == |rows| && forall i :: 0 <= i < |r| ==> r[i] == rows[i].info.pid
  {
    seq(|rows|, i requires 0 <= i < |rows| => rows[i].info.pid)
  }

  lemma PidsOfMember(rows: seq<Row>, p: Pid)
    ensures p in PidsOf(rows) <==> exists row :: row in rows && row.info.pid == p
  {
    if p in PidsOf(rows) {
      var i :| 0 <= i < |rows| && PidsOf(rows)[i] == p;
      assert rows[i] in rows;
    }
    if row :| row in rows && row.info.pid == p {
      var i :| 0 <= i < |rows| && rows[i] == row;
      assert PidsOf(rows)[i] == p;
    }
  }

  lemma ShownIffPlaced(t: Table, forest: seq<ProcessNode>, pid: Pid)
    requires IsForest(t, forest)
    ensures pid in PidsOf(Flatten(forest, 0)) <==> exists d: nat :: PlacedAt(t, pid, d)
  {
    RowsOfForest(t, forest);
    PidsOfMember(Flatten(forest, 0), pid);
    if d: nat :| PlacedAt(t, pid, d) {
      assert Row(d, LabelOf(t, pid)) in Flatten(forest, 0);
    }
  }

  ghost predicate Trapped(t: Table, pid: Pid) {
    forall k: nat :: t.Ancestor(pid, k) in t.stats
  }

  lemma {:induction false} FirstExit(t: Table, pid: Pid, k: nat) returns (n: nat)
    requires pid in t.stats && t.Ancestor(pid, k) !in t.stats
    ensures t.ChainLeaves(pid, n)
    decreases k
  {
    assert t.Ancestor(pid, 0) == pid;
    if t.Climbs(pid, k - 1) {
      n := k - 1;
    } else {
      var i: nat :| i <= k - 1 && t.Ancestor(pid, i) !in t.stats;
      n := FirstExit(t, pid, i);
    }
  }

  /** A process has two places only below a process 0 whose own chain leaves the table. */
  lemma SecondPlace(t: Table, pid: Pid, k: nat, l: nat)
    requires k < l && PlacedAt(t, pid, k) && PlacedAt(t, pid, l) && !t.OnParentCycle(0)
    ensures 0 in t.stats && t.Ancestor(pid, k) in t.Kids(0) && !Trapped(t, 0)
  {
    PlacedUnderParent(t, pid, k);
    PlacedUnderParent(t, pid, l);
    AncestorSplit(t, pid, k, 1);
    var top, up := t.Ancestor(pid, k), l - k;
    assert t.Ancestor(pid, k + 1) in t.stats && t.Ancestor(pid, k + 1) == 0;
    assert t.Ancestor(top, 1) == t.Ancestor(t.Parent(top), 0);
    AncestorSplit(t, pid, k + 1, up);
    ClimbFrom(t, pid, k + 1, up - 1, l);
    ZeroComesNotBack(t, up);
  }

  lemma ZeroComesNotBack(t: Table, up: nat)
    requires up > 0 && t.Climbs(0, up - 1) && !t.OnParentCycle(0) && (t.Ancestor(0, up) == 0 || t.Ancestor(0, up) !in t.stats)
    ensures t.Ancestor(0, up) !in t.stats && !Trapped(t, 0)
  {
    if t.Ancestor(0, up) in t.stats {
      assert false;
    }
  }

  lemma ChildOfZeroHasTwoPlaces(t: Table, c: Pid) returns (d: nat)
    requires 0 in t.stats && c in t.Kids(0) && !Trapped(t, 0)
    ensures d > 0 && PlacedAt(t, c, 0) && PlacedAt(t, c, d)
  {
    var k: nat :| t.Ancestor(0, k) !in t.stats;
    var n := FirstExit(t, 0, k);
    d := n + 1;
    forall i: nat | i <= d ensures t.Ancestor(c, i) in t.stats {
      if i > 0 {
        assert t.Ancestor(c, i) == t.Ancestor(0, i - 1);
      }
    }
    assert t.Ancestor(c, d + 1) == t.Ancestor(0, n + 1);
    assert t.Ancestor(c, 1) == t.Ancestor(0, 0);
    PlacedUnderParent(t, c, 0);
    PlacedUnderParent(t, c, d);
  }

  /** No process is listed twice, except when process 0 is tracked, has children, and its chain leaves the table:
      then its children are roots as well as its children. */
  lemma NoPidTwiceIff(t: Table, forest: seq<ProcessNode>)
    requires IsForest(t, forest)
    ensures NoDuplicates(PidsOf(Flatten(forest, 0))) <==> 0 !in t.stats || t.Kids(0) == {} || Trapped(t, 0)
  {
    var rows := Flatten(forest, 0);
    RowsOfForest(t, forest);
    if 0 in t.stats && t.Kids(0) != {} && !Trapped(t, 0) {
      var c :| c in t.Kids(0);
      var d := ChildOfZeroHasTwoPlaces(t, c);
      var a, b := Row(0, LabelOf(t, c)), Row(d, LabelOf(t, c));
      assert a in rows && b in rows;
      var i :| 0 <= i < |rows| && rows[i] == a;
      var j :| 0 <= j < |rows| && rows[j] == b;
      assert PidsOf(rows)[i] == PidsOf(rows)[j] && i != j;
    } else {
      ForestExistsIff(t);
      forall i, j | 0 <= i < j < |rows| ensures PidsOf(rows)[i] != PidsOf(rows)[j] {
        var a, b := rows[i], rows[j];
        assert a in rows && b in rows;
        if a.info.pid == b.info.pid {
          assert a.depth != b.depth;
          if a.depth < b.depth {
            SecondPlace(t, a.info.pid, a.depth, b.depth);
          } else {
            SecondPlace(t, a.info.pid, b.depth, a.depth);
          }
          assert false;
        }
      }
    }
  }

  /** The tree shows each tracked process below each root on its parent chain, once and at the depth the chain
      says, and no other process; it is never as deep as the table is large. If process 0 is not tracked, these
      are the processes whose chain leaves the table, each of them once. */
  lemma ForestIsExact(t: Table, forest: seq<ProcessNode>)
    requires IsForest(t, forest)
    ensures forall row :: row in Flatten(forest, 0) <==>
              PlacedAt(t, row.info.pid, row.depth) && row.info == LabelOf(t, row.info.pid)
    ensures NoDuplicates(Flatten(forest, 0))
    ensures forall row :: row in Flatten(forest, 0) ==> row.depth < |t.stats|
    ensures 0 !in t.stats ==> NoDuplicates(PidsOf(Flatten(forest, 0)))
    ensures 0 !in t.stats ==> forall pid, d: nat :: PlacedAt(t, pid, d) <==> t.ChainLeaves(pid, d)
  {
    RowsOfForest(t, forest);
    ForestExistsIff(t);
    forall row | row in Flatten(forest, 0) ensures row.depth < |t.stats| {
      RootOffCycle(t, t.Ancestor(row.info.pid, row.depth));
      ClimbShorterThanTable(t, row.info.pid, row.depth);
    }
    NoPidTwiceIff(t, forest);
    if 0 !in t.stats {
      forall pid, d: nat ensures PlacedAt(t, pid, d) <==> t.ChainLeaves(pid, d) {
        PlacedUnderParent(t, pid, d);
      }
    }
  }

  // ----- what is missing from the tree -----

  /** A tracked process is missing from the tree exactly when its parent chain neither leaves the table nor passes
      through process 0. */
  lemma MissingIffTrapped(t: Table, forest: seq<ProcessNode>, pid: Pid)
    requires IsForest(t, forest) && pid in t.stats
    ensures pid !in PidsOf(Flatten(forest, 0)) <==> Trapped(t, pid) && !Below(t, pid, 0)
  {
    ShownIffPlaced(t, forest, pid);
    if d: nat :| PlacedAt(t, pid, d) {
      PlacedUnderParent(t, pid, d);
      if Trapped(t, pid) {
        assert t.Climbs(pid, d + 1);
        assert Below(t, pid, 0);
      }
    } else if !Trapped(t, pid) {
      var k: nat :| t.Ancestor(pid, k) !in t.stats;
      var n := FirstExit(t, pid, k);
      PlacedUnderParent(t, pid, n);
      assert false;
    } else if Below(t, pid, 0) {
      var k: nat :| k > 0 && t.Ancestor(pid, k) == 0 && t.Climbs(pid, k);
      PlacedUnderParent(t, pid, k - 1);
      assert false;
    }
  }

  lemma TrappedMeetsCycle(t: Table, pid: Pid) returns (p: Pid)
    requires Trapped(t, pid)
    ensures t.OnParentCycle(p)
  {
    var n := |t.stats|;
    assert t.Climbs(pid, n);
    p := t.Ancestor(pid, n);
    if !t.OnParentCycle(p) {
      ClimbShorterThanTable(t, pid, n);
      assert false;
    }
  }

  /** Every tracked process is in the tree exactly when no tracked process is its own ancestor. */
  lemma CompleteIffAcyclic(t: Table, forest: seq<ProcessNode>)
    requires IsForest(t, forest)
    ensures (forall p :: p in PidsOf(Flatten(forest, 0)) <==> p in t.stats) <==> forall p :: !t.OnParentCycle(p)
  {
    var shown := PidsOf(Flatten(forest, 0));
    forall p | p in shown ensures p in t.stats {
      ShownIffPlaced(t, forest, p);
      assert t.Ancestor(p, 0) in t.stats;
    }
    if p :| t.OnParentCycle(p) {
      forall k: nat ensures t.Ancestor(p, k) in t.stats && t.Ancestor(p, k) != 0 {
        AncestorOnCycle(t, p, k);
        ForestExistsIff(t);
      }
      assert t.Ancestor(p, 0) in t.stats;
      MissingIffTrapped(t, forest, p);
    } else {
      forall p | p in t.stats ensures p in shown {
        MissingIffTrapped(t, forest, p);
        if p !in shown {
          var q := TrappedMeetsCycle(t, p);
          assert false;
        }
      }
    }
  }
}
