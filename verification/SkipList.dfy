/** The skip list behind a memtable: sorted levels, insertion link by link, and searches that run
    while a node is being linked. */
module SkipLists {
  import opened Options
  import opened Keys

  const MAX_HEIGHT := 12

  /** Nodes are numbered in the order they are allocated; node 0 is the head, whose key is not used. */
  type Node = nat

  const HEAD: Node := 0

  /** next[n][l] is the node after n at level l. */
  datatype Nodes = Nodes(keys: seq<UserKey>, next: seq<seq<Option<Node>>>, maxHeight: nat)

  ghost predicate Shape(s: Nodes) {
    && |s.keys| == |s.next| > 0 && |s.next[HEAD]| == MAX_HEIGHT && 1 <= s.maxHeight <= MAX_HEIGHT
  }

  /** `list` is what the links at level `l` lead through, in key order. */
  ghost predicate IsLevel(s: Nodes, l: nat, list: seq<Node>)
    requires Shape(s) && l < MAX_HEIGHT
  {
    && (forall i :: 0 <= i < |list| ==> HEAD < list[i] < |s.keys| && l < |s.next[list[i]]|)
    && s.next[HEAD][l] == At(list, 0)
    && (forall i :: 0 <= i < |list| ==> s.next[list[i]][l] == At(list, i + 1))
    && (forall i, j :: 0 <= i < j < |list| ==> s.keys[list[i]] < s.keys[list[j]])
  }

  function At(list: seq<Node>, i: nat): Option<Node> {
    if i < |list| then Some(list[i]) else None
  }

  ghost predicate Sublist(a: seq<Node>, b: seq<Node>) {
    forall n :: n in a ==> n in b
  }

  /** Every level is sorted, a sublist of the level below, and empty above the height. */
  ghost predicate LevelsOk(s: Nodes, lists: seq<seq<Node>>) {
    && Shape(s) && |lists| == MAX_HEIGHT
    && (forall l :: 0 <= l < MAX_HEIGHT ==> IsLevel(s, l, lists[l]))
    && (forall l :: 0 < l < MAX_HEIGHT ==> Sublist(lists[l], lists[l - 1]))
    && (forall l :: s.maxHeight <= l < MAX_HEIGHT ==> lists[l] == [])
  }

  /** A node that a search may stand on at a level. */
  ghost predicate OnLevel(s: Nodes, list: seq<Node>, x: Node) {
    x == HEAD || x in list
  }

  /** The place in the list of the node after x. */
  ghost function Rank(list: seq<Node>, x: Node): (r: nat)
    requires x == HEAD || x in list
    ensures r <= |list|
    ensures x != HEAD ==> r > 0 && list[r - 1] == x
    ensures x == HEAD ==> r == 0
  {
    if x == HEAD then 0
    else
      var i :| 0 <= i < |list| && list[i] == x;
      i + 1
  }

  lemma NextIs(s: Nodes, l: nat, list: seq<Node>, x: Node)
    requires Shape(s) && l < MAX_HEIGHT && IsLevel(s, l, list) && OnLevel(s, list, x)
    ensures x < |s.next| && l < |s.next[x]| && s.next[x][l] == At(list, Rank(list, x))
  {
  }

  // ---------------------------------------------------------------------------------------------
  // Searching
  // ---------------------------------------------------------------------------------------------

  predicate KeyIsAfterNode(s: Nodes, key: UserKey, n: Option<Node>)
    requires n.Some? ==> n.value < |s.keys|
  {
    n.Some? && s.keys[n.value] < key
  }

  /** The first node of the list whose key is not before `key`. */
  ghost predicate LowerBound(s: Nodes, list: seq<Node>, key: UserKey, r: Option<Node>)
    requires forall n :: n in list ==> n < |s.keys|
  {
    match r
    case None => forall n :: n in list ==> s.keys[n] < key
    case Some(n) => n in list && s.keys[n] >= key && forall m :: m in list && s.keys[m] >= key ==>
      s.keys[n] <= s.keys[m]
  }

  /** The last node of the list whose key is before `key`, or the head. */
  ghost predicate LastBefore(s: Nodes, list: seq<Node>, key: UserKey, x: Node)
    requires forall n :: n in list ==> n < |s.keys|
  {
    && OnLevel(s, list, x) && (x != HEAD ==> s.keys[x] < key)
    && forall n :: n in list && s.keys[n] < key ==> x != HEAD && s.keys[n] <= s.keys[x]
  }

  lemma KeyOrder(s: Nodes, l: nat, list: seq<Node>, i: nat, j: nat)
    requires Shape(s) && l < MAX_HEIGHT && IsLevel(s, l, list) && i < |list| && j < |list|
    ensures i < j <==> s.keys[list[i]] < s.keys[list[j]]
    ensures i == j <==> s.keys[list[i]] == s.keys[list[j]]
  {
  }

  lemma StopsAtLastBefore(s: Nodes, l: nat, list: seq<Node>, key: UserKey, x: Node)
    requires Shape(s) && l < MAX_HEIGHT && IsLevel(s, l, list) && OnLevel(s, list, x) && (x != HEAD ==> s.keys[x] < key)
    requires var next := At(list, Rank(list, x)); !(next.Some? && s.keys[next.value] < key)
    ensures LastBefore(s, list, key, x) && LowerBound(s, list, key, At(list, Rank(list, x)))
  {
    var r := Rank(list, x);
    forall i | 0 <= i < |list|
      ensures s.keys[list[i]] < key <==> i < r
      ensures i < r ==> x != HEAD && s.keys[list[i]] <= s.keys[x]
      ensures i >= r ==> r < |list| && s.keys[list[r]] <= s.keys[list[i]]
    {
      if r > 0 {
        KeyOrder(s, l, list, i, r - 1);
      }
      if r < |list| {
        KeyOrder(s, l, list, r, i);
      }
    }
  }

  lemma RankAfter(s: Nodes, l: nat, list: seq<Node>, x: Node)
    requires Shape(s) && l < MAX_HEIGHT && IsLevel(s, l, list) && OnLevel(s, list, x) && Rank(list, x) < |list|
    ensures Rank(list, list[Rank(list, x)]) == Rank(list, x) + 1
  {
    KeyOrder(s, l, list, Rank(list, list[Rank(list, x)]) - 1, Rank(list, x));
  }

  // ---------------------------------------------------------------------------------------------
  // Linking
  // ---------------------------------------------------------------------------------------------

  /** One level's link step: x points at what follows prev, and then prev points at x. */
  function Linked(s: Nodes, l: nat, prev: Node, x: Node): Nodes
    requires prev < |s.next| && x < |s.next| && l < |s.next[prev]| && l < |s.next[x]| && prev != x
  {
    s.(next := s.next[x := s.next[x][l := s.next[prev][l]]][prev := s.next[prev][l := Some(x)]])
  }

  ghost function Inserted(list: seq<Node>, prev: Node, x: Node): seq<Node>
    requires prev == HEAD || prev in list
  {
    var r := Rank(list, prev);
    list[..r] + [x] + list[r..]
  }

  lemma LinkedAt(s: Nodes, l: nat, prev: Node, x: Node)
    requires Shape(s) && prev < |s.next| && x < |s.next| && l < |s.next[prev]| && l < |s.next[x]| && prev != x
    ensures var t := Linked(s, l, prev, x);
            && t.keys == s.keys && t.maxHeight == s.maxHeight && Shape(t)
            && (forall n :: 0 <= n < |s.next| ==> |t.next[n]| == |s.next[n]|)
            && t.next[prev][l] == Some(x) && t.next[x][l] == s.next[prev][l]
            && (forall n :: 0 <= n < |s.next| && n != prev && n != x ==> t.next[n] == s.next[n])
            && (forall n, k :: 0 <= n < |s.next| && 0 <= k < |s.next[n]| && k != l ==> t.next[n][k] == s.next[n][k])
  {
  }

  /** The new node's place in the order of the list. */
  lemma NewKeyPlace(s: Nodes, l: nat, list: seq<Node>, prev: Node, x: Node, i: nat)
    requires Shape(s) && l < MAX_HEIGHT && IsLevel(s, l, list) && x < |s.keys| && i < |list|
    requires LastBefore(s, list, s.keys[x], prev) && forall n :: n in list ==> s.keys[n] != s.keys[x]
    ensures i < Rank(list, prev) ==> s.keys[list[i]] < s.keys[x]
    ensures i >= Rank(list, prev) ==> s.keys[x] < s.keys[list[i]]
  {
    var r := Rank(list, prev);
    assert list[i] in list;
    if r > 0 {
      KeyOrder(s, l, list, i, r - 1);
    }
  }

  ghost function KeysOf(s: Nodes, list: seq<Node>): (ks: seq<UserKey>)
    requires forall i :: 0 <= i < |list| ==> list[i] < |s.keys|
    ensures |ks| == |list| && forall i :: 0 <= i < |list| ==> ks[i] == s.keys[list[i]]
  {
    seq(|list|, i requires 0 <= i < |list| => s.keys[list[i]])
  }

  ghost predicate Sorted(ks: seq<UserKey>) {
    forall i, j :: 0 <= i < j < |ks| ==> ks[i] < ks[j]
  }

  lemma SortedInsert(ks: seq<UserKey>, r: nat, k: UserKey)
    requires Sorted(ks) && r <= |ks| && (forall i :: 0 <= i < r ==> ks[i] < k)
             && (forall i :: r <= i < |ks| ==> k < ks[i])
    ensures Sorted(ks[..r] + [k] + ks[r..])
  {
  }

  lemma InsertedSorted(s: Nodes, l: nat, list: seq<Node>, prev: Node, x: Node)
    requires Shape(s) && l < MAX_HEIGHT && IsLevel(s, l, list) && x < |s.keys|
    requires LastBefore(s, list, s.keys[x], prev) && forall n :: n in list ==> s.keys[n] != s.keys[x]
    ensures var longer := Inserted(list, prev, x);
            (forall i :: 0 <= i < |longer| ==> longer[i] < |s.keys|) && Sorted(KeysOf(s, longer))
  {
    var r := Rank(list, prev);
    forall i | 0 <= i < |list|
      ensures i < r ==> s.keys[list[i]] < s.keys[x]
      ensures i >= r ==> s.keys[x] < s.keys[list[i]]
    {
      NewKeyPlace(s, l, list, prev, x, i);
    }
    hide LastBefore, Rank, IsLevel;
    ghost var ks := KeysOf(s, list);
    assert Sorted(ks) by {
      LevelKeysSorted(s, l, list);
    }
    SortedInsert(ks, r, s.keys[x]);
    InsertedKeys(s, list, r, x);
  }

  lemma LevelKeysSorted(s: Nodes, l: nat, list: seq<Node>)
    requires Shape(s) && l < MAX_HEIGHT && IsLevel(s, l, list)
    ensures (forall i :: 0 <= i < |list| ==> list[i] < |s.keys|) && Sorted(KeysOf(s, list))
  {
  }

  lemma InsertedKeys(s: Nodes, list: seq<Node>, r: nat, x: Node)
    requires r <= |list| && x < |s.keys| && forall i :: 0 <= i < |list| ==> list[i] < |s.keys|
    ensures var longer := list[..r] + [x] + list[r..];
            && (forall i :: 0 <= i < |longer| ==> longer[i] < |s.keys|)
            && KeysOf(s, longer) == KeysOf(s, list)[..r] + [s.keys[x]] + KeysOf(s, list)[r..]
  {
  }

  /** The links of the longer list. */
  lemma InsertedLinks(s: Nodes, t: Nodes, l: nat, list: seq<Node>, prev: Node, x: Node, i: nat)
    requires Shape(s) && l < MAX_HEIGHT && IsLevel(s, l, list) && OnLevel(s, list, prev) && HEAD < x < |s.keys|
             && x !in list
    requires prev < |s.next| && l < |s.next[prev]| && l < |s.next[x]| && prev != x && t == Linked(s, l, prev, x)
    requires i < |list| + 1
    ensures var longer := Inserted(list, prev, x);
            |longer| == |list| + 1 && HEAD < longer[i] < |t.next| && l < |t.next[longer[i]]|
              && t.next[longer[i]][l] == At(longer, i + 1)
  {
    hide Linked, Rank;
    LinkedAt(s, l, prev, x);
    NextIs(s, l, list, prev);
    var r, longer := Rank(list, prev), Inserted(list, prev, x);
    if i != r {
      var k := if i < r then i else i - 1;
      assert longer[i] == list[k] && list[k] in list;
      if r > 0 {
        KeyOrder(s, l, list, k, r - 1);
      }
    }
  }

  /** Linking a new node after its predecessor at a level keeps the level sorted. */
  lemma LinkKeepsLevel(s: Nodes, l: nat, list: seq<Node>, prev: Node, x: Node, t: Nodes)
    requires Shape(s) && l < MAX_HEIGHT && IsLevel(s, l, list) && HEAD < x < |s.keys| && x !in list && l < |s.next[x]|
    requires LastBefore(s, list, s.keys[x], prev) && forall n :: n in list ==> s.keys[n] != s.keys[x]
    requires prev < |s.next| && l < |s.next[prev]| && prev != x && t == Linked(s, l, prev, x) && Shape(t)
    ensures IsLevel(t, l, Inserted(list, prev, x))
  {
    NextIs(s, l, list, prev);
    LinkedAt(s, l, prev, x);
    InsertedSorted(s, l, list, prev, x);
    var longer := Inserted(list, prev, x);
    forall i | 0 <= i < |longer|
      ensures HEAD < longer[i] < |t.keys| && l < |t.next[longer[i]]| && t.next[longer[i]][l] == At(longer, i + 1)
    {
      InsertedLinks(s, t, l, list, prev, x, i);
    }
    assert t.next[HEAD][l] == At(longer, 0) by {
      FirstLink(s, t, l, list, prev, x);
    }
    hide LastBefore, Linked, Rank, Inserted;
    assert KeysOf(t, longer) == KeysOf(s, longer);
    forall i, j | 0 <= i < j < |longer| ensures t.keys[longer[i]] < t.keys[longer[j]] {
      assert KeysOf(s, longer)[i] < KeysOf(s, longer)[j];
    }
  }

  lemma FirstLink(s: Nodes, t: Nodes, l: nat, list: seq<Node>, prev: Node, x: Node)
    requires Shape(s) && l < MAX_HEIGHT && IsLevel(s, l, list) && OnLevel(s, list, prev) && HEAD < x < |s.keys|
    requires prev < |s.next| && l < |s.next[prev]| && l < |s.next[x]| && prev != x && t == Linked(s, l, prev, x)
    ensures t.next[HEAD][l] == At(Inserted(list, prev, x), 0)
  {
    LinkedAt(s, l, prev, x);
    hide Linked;
  }

  /** It leaves the other levels as they are. */
  lemma LinkLeavesLevels(s: Nodes, l: nat, prev: Node, x: Node, k: nat, list: seq<Node>)
    requires Shape(s) && l < MAX_HEIGHT && prev < |s.next| && x < |s.next| && l < |s.next[prev]| && l < |s.next[x]|
             && prev != x
    requires k < MAX_HEIGHT && k != l && IsLevel(s, k, list)
    ensures IsLevel(Linked(s, l, prev, x), k, list)
  {
    LinkedAt(s, l, prev, x);
    hide Linked;
  }

  // ---------------------------------------------------------------------------------------------
  // One writer and a reader, step by step
  // ---------------------------------------------------------------------------------------------

  /** An insertion has linked its node at the levels below `level`. */
  datatype Writer = Idle | Linking(x: Node, level: nat, prev: seq<Node>)

  /** A search for the first key not before the target; `seen` lists the nodes inserted before it began. */
  datatype Search = NoSearch | Searching(target: UserKey, x: Node, level: nat, seen: seq<Node>)
          | Found(target: UserKey, result: Option<Node>, seen: seq<Node>)

  datatype System = System(nodes: Nodes, lists: seq<seq<Node>>, writer: Writer, search: Search)

  datatype Step = BeginInsert(key: UserKey, height: nat, prev: seq<Node>) | Link | BeginSearch(target: UserKey)
          | SearchOn

  /** The writer's node is linked below its level and nowhere else, and its predecessors are right. */
  ghost predicate WriterOk(st: System)
    requires LevelsOk(st.nodes, st.lists)
  {
    match st.writer
    case Idle => true
    case Linking(x, level, prev) =>
      && HEAD < x < |st.nodes.keys| && level < |st.nodes.next[x]| == |prev| <= st.nodes.maxHeight
      && (forall l :: 0 <= l < MAX_HEIGHT ==> (x in st.lists[l] <==> l < level))
      && (forall l :: level <= l < |prev| ==> LastBefore(st.nodes, st.lists[l], st.nodes.keys[x], prev[l]))
      && (forall n :: n in st.lists[0] && n != x ==> st.nodes.keys[n] != st.nodes.keys[x])
  }

  ghost predicate SearchOk(st: System)
    requires LevelsOk(st.nodes, st.lists)
  {
    match st.search
    case NoSearch => true
    case Searching(target, x, level, seen) =>
      && level < MAX_HEIGHT && OnLevel(st.nodes, st.lists[level], x) && (x != HEAD ==> st.nodes.keys[x] < target)
      && Sublist(seen, st.lists[0])
    case Found(target, result, seen) =>
      && Sublist(seen, st.lists[0])
      && (result.Some? ==> result.value in st.lists[0] && st.nodes.keys[result.value] >= target)
      && (forall n :: n in seen && st.nodes.keys[n] >= target ==>
        result.Some? && st.nodes.keys[result.value] <= st.nodes.keys[n])
  }

  ghost predicate Inv(st: System) {
    LevelsOk(st.nodes, st.lists) && WriterOk(st) && SearchOk(st)
  }

  ghost predicate Enabled(st: System, step: Step)
    requires Inv(st)
  {
    match step
    case BeginInsert(key, height, prev) =>
      && st.writer == Idle && 1 <= height <= MAX_HEIGHT && |prev| == height
      && (forall n :: n in st.lists[0] ==> st.nodes.keys[n] != key)
      && (forall l :: 0 <= l < height ==> LastBefore(st.nodes, st.lists[l], key, prev[l]))
    case Link => st.writer.Linking?
    case BeginSearch(_) => true
    case SearchOn => st.search.Searching?
  }

  /** A new node, not linked anywhere yet. */
  function Allocated(s: Nodes, key: UserKey, height: nat): Nodes {
    Nodes(s.keys + [key], s.next + [seq(height, _ => None)], if height > s.maxHeight then height else s.maxHeight)
  }

  ghost function DoLink(st: System): System
    requires Inv(st) && st.writer.Linking?
  {
    var w := st.writer;
    var l := w.level;
    LinkPossible(st);
    System(Linked(st.nodes, l, w.prev[l], w.x), st.lists[l := Inserted(st.lists[l], w.prev[l], w.x)],
           if l + 1 == |w.prev| then Idle else w.(level := l + 1), st.search)
  }

  /** One step of FindGreaterOrEqual: read a link, then move on, move down or stop. */
  ghost function DoSearch(st: System): Search
    requires Inv(st) && st.search.Searching?
  {
    var q := st.search;
    NextIs(st.nodes, q.level, st.lists[q.level], q.x);
    var next := st.nodes.next[q.x][q.level];
    if KeyIsAfterNode(st.nodes, q.target, next) then q.(x := next.value)
    else if q.level == 0 then Found(q.target, next, q.seen)
    else q.(level := q.level - 1)
  }

  ghost function Do(st: System, step: Step): System
    requires Inv(st) && Enabled(st, step)
  {
    match step
    case BeginInsert(key, height, prev) =>
      st.(nodes := Allocated(st.nodes, key, height), writer := Linking(|st.nodes.keys|, 0, prev))
    case Link => DoLink(st)
    case BeginSearch(target) => st.(search := Searching(target, HEAD, st.nodes.maxHeight - 1, st.lists[0]))
    case SearchOn => st.(search := DoSearch(st))
  }

  lemma LinkPossible(st: System)
    requires Inv(st) && st.writer.Linking?
    ensures var w := st.writer;
            && w.level < MAX_HEIGHT && w.prev[w.level] < |st.nodes.next| && w.x < |st.nodes.next|
            && w.level < |st.nodes.next[w.prev[w.level]]| && w.level < |st.nodes.next[w.x]| && w.prev[w.level] != w.x
            && OnLevel(st.nodes, st.lists[w.level], w.prev[w.level])
  {
    var w := st.writer;
    assert LastBefore(st.nodes, st.lists[w.level], st.nodes.keys[w.x], w.prev[w.level]);
    NextIs(st.nodes, w.level, st.lists[w.level], w.prev[w.level]);
  }

  // ---------------------------------------------------------------------------------------------
  // Every step keeps the invariant
  // ---------------------------------------------------------------------------------------------

  lemma AllocateKeepsLevel(s: Nodes, key: UserKey, height: nat, l: nat, list: seq<Node>)
    requires Shape(s) && l < MAX_HEIGHT && IsLevel(s, l, list) && 1 <= height <= MAX_HEIGHT
    ensures Shape(Allocated(s, key, height)) && IsLevel(Allocated(s, key, height), l, list)
  {
    var t := Allocated(s, key, height);
    assert forall n :: 0 <= n < |s.keys| ==> t.keys[n] == s.keys[n] && t.next[n] == s.next[n];
  }

  lemma BeginInsertKeepsInv(st: System, key: UserKey, height: nat, prev: seq<Node>)
    requires Inv(st) && Enabled(st, BeginInsert(key, height, prev))
    ensures Inv(Do(st, BeginInsert(key, height, prev)))
  {
    var t := Do(st, BeginInsert(key, height, prev));
    forall l | 0 <= l < MAX_HEIGHT ensures IsLevel(t.nodes, l, t.lists[l]) && |st.nodes.keys| !in t.lists[l] {
      AllocateKeepsLevel(st.nodes, key, height, l, st.lists[l]);
      assert IsLevel(st.nodes, l, st.lists[l]);
    }
    BeginWriterOk(st, t, key, height, prev);
    BeginSearchOk(st, t);
  }

  ghost predicate Extends(t: Nodes, s: Nodes) {
    s.keys <= t.keys
  }

  lemma BeginWriterOk(st: System, t: System, key: UserKey, height: nat, prev: seq<Node>)
    requires Inv(st) && Enabled(st, BeginInsert(key, height, prev)) && t == Do(st, BeginInsert(key, height, prev))
             && LevelsOk(t.nodes, t.lists)
    requires forall l :: 0 <= l < MAX_HEIGHT ==> |st.nodes.keys| !in t.lists[l]
    ensures WriterOk(t)
  {
    assert forall n :: 0 <= n < |st.nodes.keys| ==> t.nodes.keys[n] == st.nodes.keys[n];
    forall l | 0 <= l < height ensures LastBefore(t.nodes, t.lists[l], t.nodes.keys[|st.nodes.keys|], prev[l]) {
      assert LastBefore(st.nodes, st.lists[l], key, prev[l]);
      assert IsLevel(st.nodes, l, st.lists[l]);
    }
    assert IsLevel(st.nodes, 0, st.lists[0]);
  }

  lemma BeginSearchOk(st: System, t: System)
    requires Inv(st) && LevelsOk(t.nodes, t.lists) && t.lists == st.lists && t.search == st.search
             && Extends(t.nodes, st.nodes)
    ensures SearchOk(t)
  {
    assert forall n :: 0 <= n < |st.nodes.keys| ==> t.nodes.keys[n] == st.nodes.keys[n];
    assert IsLevel(st.nodes, 0, st.lists[0]);
    if st.search.Searching? {
      assert IsLevel(st.nodes, st.search.level, st.lists[st.search.level]);
    }
  }

  lemma InsertedMembers(list: seq<Node>, prev: Node, x: Node)
    requires prev == HEAD || prev in list
    ensures forall n :: n in Inserted(list, prev, x) <==> n in list || n == x
  {
    var r := Rank(list, prev);
    assert list == list[..r] + list[r..];
  }

  /** The node being linked may be linked at its level. */
  lemma LinkFits(st: System)
    requires Inv(st) && st.writer.Linking?
    ensures var w := st.writer;
            && Shape(st.nodes) && |st.lists| == MAX_HEIGHT && w.level < |w.prev| <= MAX_HEIGHT
            && w.level < MAX_HEIGHT && HEAD < w.x < |st.nodes.keys| && IsLevel(st.nodes, w.level, st.lists[w.level])
            && w.x !in st.lists[w.level] && LastBefore(st.nodes, st.lists[w.level], st.nodes.keys[w.x], w.prev[w.level])
            && (forall n :: n in st.lists[w.level] ==> st.nodes.keys[n] != st.nodes.keys[w.x])
  {
    var w := st.writer;
    forall n | n in st.lists[w.level] ensures n in st.lists[0] {
      DownTo(st.nodes, st.lists, w.level, 0, n);
    }
  }

  lemma LinkKeepsEachLevel(st: System, k: nat)
    requires Inv(st) && st.writer.Linking? && k < MAX_HEIGHT
    ensures var t := DoLink(st); Shape(t.nodes) && |t.lists| == MAX_HEIGHT && IsLevel(t.nodes, k, t.lists[k])
  {
    assert IsLevel(st.nodes, k, st.lists[k]);
    hide Linked, Inserted, IsLevel, LastBefore, LevelsOk, WriterOk, SearchOk, Sublist, Inv;
    LinkPossible(st);
    LinkFits(st);
    var w, t := st.writer, DoLink(st);
    LinkedAt(st.nodes, w.level, w.prev[w.level], w.x);
    if k == w.level {
      LinkKeepsLevel(st.nodes, k, st.lists[k], w.prev[k], w.x, t.nodes);
    } else {
      LinkLeavesLevels(st.nodes, w.level, w.prev[w.level], w.x, k, st.lists[k]);
    }
  }

  lemma SublistsWith(lists: seq<seq<Node>>, l: nat, x: Node, longer: seq<Node>, k: nat)
    requires l < |lists| && 0 < k < |lists| && Sublist(lists[k], lists[k - 1])
    requires forall j :: 0 <= j < |lists| ==> (x in lists[j] <==> j < l)
    requires forall n :: n in longer <==> n in lists[l] || n == x
    ensures Sublist(lists[l := longer][k], lists[l := longer][k - 1])
  {
    var lists' := lists[l := longer];
    forall n | n in lists'[k] ensures n in lists'[k - 1] {
      if n != x {
        assert n in lists[k];
      }
    }
  }

  lemma LinkKeepsSublists(st: System, k: nat)
    requires Inv(st) && st.writer.Linking? && 0 < k < MAX_HEIGHT
    ensures var t := DoLink(st); |t.lists| == MAX_HEIGHT && Sublist(t.lists[k], t.lists[k - 1])
  {
    var w := st.writer;
    assert Sublist(st.lists[k], st.lists[k - 1]) && |st.lists| == MAX_HEIGHT && w.level < MAX_HEIGHT;
    assert forall j :: 0 <= j < MAX_HEIGHT ==> (w.x in st.lists[j] <==> j < w.level);
    hide Linked, Inserted, LastBefore, IsLevel, Sublist, LevelsOk, WriterOk, SearchOk, Inv;
    LinkPossible(st);
    InsertedMembers(st.lists[w.level], w.prev[w.level], w.x);
    SublistsWith(st.lists, w.level, w.x, Inserted(st.lists[w.level], w.prev[w.level], w.x), k);
  }

  lemma LinkKeepsLevels(st: System)
    requires Inv(st) && st.writer.Linking?
    ensures var t := DoLink(st); LevelsOk(t.nodes, t.lists) && t.nodes.keys == st.nodes.keys
  {
    var t := DoLink(st);
    assert t.nodes.keys == st.nodes.keys && t.nodes.maxHeight == st.nodes.maxHeight;
    assert forall l :: t.nodes.maxHeight <= l < MAX_HEIGHT ==> t.lists[l] == [];
    hide Linked, Inserted, LastBefore, IsLevel, Sublist, DoLink, WriterOk, SearchOk;
    forall k | 0 <= k < MAX_HEIGHT
      ensures Shape(t.nodes) && |t.lists| == MAX_HEIGHT && IsLevel(t.nodes, k, t.lists[k]) {
      LinkKeepsEachLevel(st, k);
    }
    LinkKeepsEachLevel(st, 0);
    forall k | 0 < k < MAX_HEIGHT ensures Sublist(t.lists[k], t.lists[k - 1]) {
      LinkKeepsSublists(st, k);
    }
  }

  /** A node of a level is in every level below. */
  lemma {:induction false} DownTo(s: Nodes, lists: seq<seq<Node>>, l: nat, k: nat, n: Node)
    requires LevelsOk(s, lists) && k <= l < MAX_HEIGHT && n in lists[l]
    ensures n in lists[k]
    decreases l
  {
    if k < l {
      assert Sublist(lists[l], lists[l - 1]);
      DownTo(s, lists, l - 1, k, n);
    }
  }

  /** What a link step changes, apart from the links. */
  ghost predicate LinkStep(st: System, t: System) {
    && st.writer.Linking? && |st.lists| == |t.lists| == MAX_HEIGHT && st.writer.level < |st.writer.prev| <= MAX_HEIGHT
    && t.nodes.keys == st.nodes.keys && t.search == st.search && t.nodes.maxHeight == st.nodes.maxHeight
    && |t.nodes.next| == |st.nodes.next|
    && (forall n :: 0 <= n < |st.nodes.next| ==> |t.nodes.next[n]| == |st.nodes.next[n]|)
    && (forall k :: 0 <= k < MAX_HEIGHT && k != st.writer.level ==> t.lists[k] == st.lists[k])
    && (forall n :: n in t.lists[st.writer.level] <==> n in st.lists[st.writer.level] || n == st.writer.x)
    && t.writer == if st.writer.level + 1 == |st.writer.prev| then Idle else st.writer.(level := st.writer.level + 1)
  }

  lemma LinkBounds(st: System)
    requires Inv(st) && st.writer.Linking?
    ensures Shape(st.nodes) && |st.lists| == MAX_HEIGHT && st.writer.level < |st.writer.prev| <= MAX_HEIGHT
  {
  }

  lemma LinkIsStep(st: System)
    requires Inv(st) && st.writer.Linking?
    ensures LinkStep(st, DoLink(st))
  {
    hide Linked, Inserted, IsLevel, LastBefore, LevelsOk, WriterOk, SearchOk, Sublist, Inv;
    LinkPossible(st);
    LinkBounds(st);
    var w := st.writer;
    InsertedMembers(st.lists[w.level], w.prev[w.level], w.x);
    LinkedAt(st.nodes, w.level, w.prev[w.level], w.x);
  }

  lemma LinkWriterOk(st: System, t: System)
    requires Inv(st) && LinkStep(st, t) && LevelsOk(t.nodes, t.lists)
    ensures WriterOk(t)
  {
    var w := st.writer;
    if t.writer.Linking? {
      forall k | t.writer.level <= k < |w.prev| ensures LastBefore(t.nodes, t.lists[k], t.nodes.keys[w.x], w.prev[k]) {
        assert LastBefore(st.nodes, st.lists[k], st.nodes.keys[w.x], w.prev[k]);
      }
    }
  }

  lemma LinkSearchOk(st: System, t: System)
    requires Inv(st) && LinkStep(st, t) && LevelsOk(t.nodes, t.lists)
    ensures SearchOk(t)
  {
    assert Sublist(st.lists[0], t.lists[0]);
    hide IsLevel, WriterOk;
  }

  lemma LinkKeepsInv(st: System)
    requires Inv(st) && st.writer.Linking?
    ensures Inv(DoLink(st))
  {
    LinkKeepsLevels(st);
    LinkIsStep(st);
    hide LevelsOk, WriterOk, SearchOk, LinkStep, DoLink;
    LinkWriterOk(st, DoLink(st));
    LinkSearchOk(st, DoLink(st));
  }

  /** A search step keeps the invariant; when it stops, the answer is exact for the list as it is at
      that moment. */
  lemma SearchKeepsInv(st: System)
    requires Inv(st) && st.search.Searching?
    ensures Inv(st.(search := DoSearch(st)))
    ensures DoSearch(st).Found? ==> LowerBound(st.nodes, st.lists[0], st.search.target, DoSearch(st).result)
  {
    var q := st.search;
    var list := st.lists[q.level];
    NextIs(st.nodes, q.level, list, q.x);
    var next := st.nodes.next[q.x][q.level];
    if !KeyIsAfterNode(st.nodes, q.target, next) {
      if q.level == 0 {
        StopsAtLastBefore(st.nodes, 0, list, q.target, q.x);
      } else {
        assert Sublist(list, st.lists[q.level - 1]);
      }
    }
  }

  lemma DoKeepsInv(st: System, step: Step)
    requires Inv(st) && Enabled(st, step)
    ensures Inv(Do(st, step))
  {
    match step
    case BeginInsert(key, height, prev) => BeginInsertKeepsInv(st, key, height, prev);
    case Link => LinkKeepsInv(st);
    case BeginSearch(target) => assert Sublist(st.lists[0], st.lists[0]);
    case SearchOn => SearchKeepsInv(st);
  }

  ghost predicate Legal(start: System, steps: seq<Step>)
    requires Inv(start)
    decreases |steps|, 0
  {
    steps == [] || (Legal(start, steps[..|steps| - 1])
      && Enabled(After(start, steps[..|steps| - 1]), steps[|steps| - 1]))
  }

  /** The state after a run: any interleaving of link steps and search steps. */
  ghost function After(start: System, steps: seq<Step>): (s: System)
    requires Inv(start) && Legal(start, steps)
    ensures Inv(s)
    decreases |steps|, 1
  {
    if steps == [] then start
    else
      var before := After(start, steps[..|steps| - 1]);
      DoKeepsInv(before, steps[|steps| - 1]);
      Do(before, steps[|steps| - 1])
  }

  /** A search that ran during insertions finds a key at or after its target that is no later than
      any such key inserted before it began. */
  lemma SearchMissesNothing(start: System, steps: seq<Step>)
    requires Inv(start) && Legal(start, steps) && After(start, steps).search.Found?
    ensures var st := After(start, steps);
            var q := st.search;
            && (q.result.Some? ==> q.result.value in st.lists[0] && st.nodes.keys[q.result.value] >= q.target)
            && (forall n :: n in q.seen && st.nodes.keys[n] >= q.target ==>
                  q.result.Some? && st.nodes.keys[q.result.value] <= st.nodes.keys[n])
  {
  }

  // ---------------------------------------------------------------------------------------------
  // The list, used by one thread
  // ---------------------------------------------------------------------------------------------

  ghost function KeySet(s: Nodes, list: seq<Node>): set<UserKey>
    requires forall n :: n in list ==> n < |s.keys|
  {
    set n | n in list :: s.keys[n]
  }

  class SkipList {
    var nodes: Nodes
    ghost var lists: seq<seq<Node>>

    ghost predicate Valid()
      reads this
    {
      LevelsOk(nodes, lists)
    }

    /** The inserted keys. */
    ghost function Keys(): set<UserKey>
      requires Valid()
      reads this
    {
      assert IsLevel(nodes, 0, lists[0]);
      KeySet(nodes, lists[0])
    }

    constructor (anyKey: UserKey)
      ensures Valid() && lists[0] == []
    {
      nodes := Nodes([anyKey], [seq(MAX_HEIGHT, _ => None)], 1);
      lists := seq(MAX_HEIGHT, _ => []);
    }

    /** The first node at or after the key, and the last node before it at each level. */
    method FindGreaterOrEqual(key: UserKey) returns (r: Option<Node>, prev: seq<Node>)
      requires Valid()
      ensures LevelsOk(nodes, lists) && LowerBound(nodes, lists[0], key, r)
      ensures |prev| == nodes.maxHeight && forall l :: 0 <= l < |prev| ==> LastBefore(nodes, lists[l], key, prev[l])
    {
      hide LastBefore, LowerBound, Rank;
      var x: Node, level: nat := HEAD, nodes.maxHeight - 1;
      prev := seq(nodes.maxHeight, _ => HEAD);
      while true
        invariant 0 <= level < nodes.maxHeight && OnLevel(nodes, lists[level], x)
                  && (x != HEAD ==> x < |nodes.keys| && nodes.keys[x] < key)
        invariant |prev| == nodes.maxHeight
        invariant forall l :: level < l < nodes.maxHeight ==> LastBefore(nodes, lists[l], key, prev[l])
        decreases level, |lists[level]| - Rank(lists[level], x)
      {
        hide IsLevel;
        NextIs(nodes, level, lists[level], x);
        var next := nodes.next[x][level];
        if KeyIsAfterNode(nodes, key, next) {
          RankAfter(nodes, level, lists[level], x);
          x := next.value;
        } else {
          StopsAtLastBefore(nodes, level, lists[level], key, x);
          prev := prev[level := x];
          if level == 0 {
            return next, prev;
          }
          assert Sublist(lists[level], lists[level - 1]);
          level := level - 1;
        }
      }
    }

    /** The last node before the key, or the head. */
    method FindLessThan(key: UserKey) returns (x: Node)
      requires Valid()
      ensures LevelsOk(nodes, lists) && LastBefore(nodes, lists[0], key, x)
    {
      x := HEAD;
      var level: nat := nodes.maxHeight - 1;
      while true
        invariant 0 <= level < nodes.maxHeight && OnLevel(nodes, lists[level], x)
                  && (x != HEAD ==> x < |nodes.keys| && nodes.keys[x] < key)
        decreases level, |lists[level]| - Rank(lists[level], x)
      {
        hide LastBefore, LowerBound;
        NextIs(nodes, level, lists[level], x);
        var next := nodes.next[x][level];
        if next.None? || nodes.keys[next.value] >= key {
          StopsAtLastBefore(nodes, level, lists[level], key, x);
          if level == 0 {
            return;
          }
          assert Sublist(lists[level], lists[level - 1]);
          level := level - 1;
        } else {
          RankAfter(nodes, level, lists[level], x);
          x := next.value;
        }
      }
    }

    /** The last node, or the head of an empty list. */
    method FindLast() returns (x: Node)
      requires Valid()
      ensures LevelsOk(nodes, lists) && x == if lists[0] == [] then HEAD else lists[0][|lists[0]| - 1]
    {
      x := HEAD;
      var level := nodes.maxHeight - 1;
      while true
        invariant 0 <= level < nodes.maxHeight && OnLevel(nodes, lists[level], x)
        decreases level, |lists[level]| - Rank(lists[level], x)
      {
        NextIs(nodes, level, lists[level], x);
        var next := nodes.next[x][level];
        if next.None? {
          if level == 0 {
            return;
          }
          assert Sublist(lists[level], lists[level - 1]);
          level := level - 1;
        } else {
          RankAfter(nodes, level, lists[level], x);
          x := next.value;
        }
      }
    }

    /** Insert, with the height that was drawn. */
    method Insert(key: UserKey, height: nat)
      requires Valid() && 1 <= height <= MAX_HEIGHT && key !in Keys()
      modifies this
      ensures Valid() && Keys() == old(Keys()) + {key}
      ensures old(nodes.keys) <= nodes.keys && Sublist(old(lists[0]), lists[0])
    {
      var x, prev := FindGreaterOrEqual(key);
      ghost var st := System(nodes, lists, Idle, NoSearch);
      prev := TrimPrev(prev, key, height);
      NewKey(nodes, lists, key);
      BeginInsertKeepsInv(st, key, height, prev);
      st := Do(st, BeginInsert(key, height, prev));
      var node := |nodes.keys|;
      nodes := Allocated(nodes, key, height);
      for i := 0 to height
        invariant Inv(st) && st.nodes == nodes && lists == old(lists) && |nodes.keys| > node
                  && nodes.keys == old(nodes.keys) + [key]
        invariant st.writer == if i == height then Idle else Linking(node, i, prev)
        invariant forall n :: n in st.lists[0] <==> n in old(lists[0]) || (i > 0 && n == node)
      {
        hide Linked, Inserted, IsLevel, LastBefore;
        LinkPossible(st);
        LinkIsStep(st);
        LinkKeepsInv(st);
        nodes := Linked(nodes, i, prev[i], node);
        st := DoLink(st);
      }
      lists := st.lists;
      KeysGrow(nodes, old(nodes), lists[0], old(lists[0]), node, key);
    }

    /** The predecessors at the new node's levels: the head above the current height. */
    method TrimPrev(prev: seq<Node>, key: UserKey, height: nat) returns (r: seq<Node>)
      requires Valid() && |prev| == nodes.maxHeight && 1 <= height <= MAX_HEIGHT
      requires forall l :: 0 <= l < |prev| ==> LastBefore(nodes, lists[l], key, prev[l])
      ensures |r| == height && LevelsOk(nodes, lists) && forall l :: 0 <= l < height ==>
              LastBefore(nodes, lists[l], key, r[l])
    {
      r := if height <= |prev| then prev[..height] else prev;
      while |r| < height
        invariant |r| <= height && forall l :: 0 <= l < |r| ==> LastBefore(nodes, lists[l], key, r[l])
        invariant |r| < height ==> |r| >= nodes.maxHeight
      {
        r := r + [HEAD];
      }
    }
  }

  lemma NewKey(s: Nodes, lists: seq<seq<Node>>, key: UserKey)
    requires LevelsOk(s, lists)
    requires IsLevel(s, 0, lists[0]) && forall i :: 0 <= i < |lists[0]| ==> s.keys[lists[0][i]] != key
    ensures forall n :: n in lists[0] ==> s.keys[n] != key
  {
  }

  lemma KeysGrow(s: Nodes, was: Nodes, list: seq<Node>, before: seq<Node>, x: Node, key: UserKey)
    requires s.keys == was.keys + [key] && x == |was.keys| && (forall n :: n in before ==> n < |was.keys|)
    requires forall n :: n in list <==> n in before || n == x
    ensures (forall n :: n in list ==> n < |s.keys|) && KeySet(s, list) == KeySet(was, before) + {key}
  {
    forall n | n in list ensures n < |s.keys| && s.keys[n] in KeySet(was, before) + {key} {
      if n in before {
        assert was.keys[n] in KeySet(was, before);
      }
    }
    forall k | k in KeySet(was, before) + {key} ensures k in KeySet(s, list) {
      if k in KeySet(was, before) {
        var n :| n in before && was.keys[n] == k;
        assert n in list && s.keys[n] == k;
      } else {
        assert x in list && s.keys[x] == key;
      }
    }
  }
}
