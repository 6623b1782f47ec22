/** The `draw_menu` template tag's pure part: wrapping menu items in nodes,
    annotating each node with the flags the template reads, and listing the
    nodes in tree order. */
module DrawMenu {
  import opened Wrappers
  import opened MenuItems
  import Sorting

  /** A menu item and the four presentation flags of the `Node` dataclass. */
  datatype Node = Node(item: Item, isParent: bool, hidden: bool, isLastChild: bool, isActive: bool)

  /** Nodes keyed by the id of the item they wrap. */
  type NodeMap = map<int, Node>

  /** Why annotation can fail: a node names a parent id that has no node, and
      the lookup of that parent's item dereferences `None`. */
  datatype AnnotateError = MissingParent

  /** The node the dataclass builds for an item: every flag at its default. */
  function FreshNode(item: Item): Node {
    Node(item, isParent := false, hidden := true, isLastChild := false, isActive := false)
  }

  /** Every node is stored under the id of its own item. */
  predicate WellKeyed(m: NodeMap) {
    forall k :: k in m ==> m[k].item.id == k
  }

  /** The items the nodes wrap, under the same keys. */
  function ItemsOf(m: NodeMap): Store {
    map k | k in m :: m[k].item
  }

  /** The ids of a sequence of items. */
  function IdsOf(items: seq<Item>): set<int> {
    set i | 0 <= i < |items| :: items[i].id
  }

  /** `items[i]` is the last item of the sequence carrying its id. */
  predicate LastWithId(items: seq<Item>, i: int)
    requires 0 <= i < |items|
  {
    forall j :: i < j < |items| ==> items[j].id != items[i].id
  }

  /** One fresh node per item id; when several items share an id, the latest
      one wins, as a repeated assignment to a dictionary key does. */
  function TreeToNodes(items: seq<Item>): (r: NodeMap)
    ensures r.Keys == IdsOf(items)
    ensures WellKeyed(r)
    ensures forall k :: k in r ==> !r[k].isParent && r[k].hidden && !r[k].isLastChild && !r[k].isActive
    ensures forall i :: 0 <= i < |items| && LastWithId(items, i) ==> r[items[i].id].item == items[i]
  {
    if |items| == 0 then map[]
    else
      var init := items[..|items| - 1];
      var last := items[|items| - 1];
      IdsOfSnoc(items);
      LastWithIdOfInit(items);
      TreeToNodes(init)[last.id := FreshNode(last)]
  }

  lemma IdsOfSnoc(items: seq<Item>)
    requires |items| > 0
    ensures IdsOf(items) == IdsOf(items[..|items| - 1]) + {items[|items| - 1].id}
  {
  }

  lemma LastWithIdOfInit(items: seq<Item>)
    requires |items| > 0
    ensures forall i :: 0 <= i < |items| - 1 && LastWithId(items, i) ==>
      LastWithId(items[..|items| - 1], i) && items[..|items| - 1][i] == items[i] && items[i].id != items[|items| - 1].id
  {
  }

  /** The index of the first item with id `id`, or `|items|` when none has
      it. A dictionary lists its keys in the order they were first inserted,
      so this is an id's place among the values of the node dictionary. */
  function FirstIndex(items: seq<Item>, id: int): (i: nat)
    ensures i <= |items|
    ensures i < |items| ==> items[i].id == id
    ensures forall j :: 0 <= j < i ==> items[j].id != id
    ensures id in IdsOf(items) ==> i < |items|
  {
    if |items| == 0 then 0
    else if items[0].id == id then 0
    else
      var rest := FirstIndex(items[1..], id);
      assert forall j :: 1 <= j <= rest ==> items[1..][j - 1] == items[j];
      1 + rest
  }

  /** The node dictionary's key order as a rank on ids. */
  function InsertionRank(items: seq<Item>): int -> int {
    k => FirstIndex(items, k)
  }

  /** Python truthiness of an optional id: `None` and `0` are both false. */
  predicate Truthy(p: MaybeId) {
    p.Id? && p.id != 0
  }

  /** The node's parent test passes but the parent has no node. */
  predicate DanglingParent(m: NodeMap, n: Node) {
    Truthy(n.item.parent) && n.item.parent.id !in m
  }

  /** Some node's parent test passes on a parent that has no node. */
  predicate SomeParentDangles(m: NodeMap) {
    exists k :: k in m && DanglingParent(m, m[k])
  }

  /** The last-child test: the node's right bound sits one below its parent's. */
  predicate LastChildTest(m: NodeMap, n: Node)
    requires !DanglingParent(m, n)
  {
    Truthy(n.item.parent) && n.item.rgt == m[n.item.parent.id].item.rgt - 1
  }

  /** The flags the first pass over the nodes sets on `n`; a flag is only ever
      switched on (or, for `hidden`, off), never reset. */
  function FlagNode(m: NodeMap, n: Node, activeId: MaybeId): Node
    requires !DanglingParent(m, n)
  {
    n.(isParent := n.isParent || n.item.rgt - n.item.lft > 1,
       isLastChild := n.isLastChild || LastChildTest(m, n),
       isActive := n.isActive || activeId == Id(n.item.id),
       hidden := n.hidden && activeId != Id(n.item.id))
  }

  /** The upward walk: starting at `start`, clear `hidden` on each node reached
      by following parent links, until a link leads out of the map. */
  method RevealAncestors(m: NodeMap, start: MaybeId) returns (r: NodeMap)
    requires ParentsPrecede(ItemsOf(m))
    ensures r.Keys == m.Keys
    ensures forall k :: k in m ==>
      r[k] == m[k].(hidden := m[k].hidden && k !in Ancestors(ItemsOf(m), start))
  {
    ghost var items := ItemsOf(m);
    ghost var visited: set<int> := {};
    r := m;
    var ancestor := start;
    while ancestor.Id? && ancestor.id in r
      invariant r.Keys == m.Keys
      invariant Ancestors(items, start) == visited + Ancestors(items, ancestor)
      invariant forall k :: k in m ==> r[k] == m[k].(hidden := m[k].hidden && k !in visited)
      decreases if ancestor.Id? && ancestor.id in m then m[ancestor.id].item.lft + 1 else 0
    {
      var a := ancestor.id;
      r := r[a := r[a].(hidden := false)];
      visited := visited + {a};
      ancestor := r[a].item.parent;
      assert items[a] == m[a].item;
    }
  }

  /** `a` is `m` after the annotation pass: each flag is its old value or its
      test (`isParent` from the bounds alone, `isLastChild` from the parent's
      right bound, `isActive` for the node whose id is `activeId`), and
      `hidden` is cleared on the active node and its ancestors. */
  predicate AnnotatedFrom(m: NodeMap, activeId: MaybeId, a: NodeMap)
    requires !SomeParentDangles(m)
    requires ParentsPrecede(ItemsOf(m))
  {
    && a.Keys == m.Keys
    && forall k :: k in m ==>
      && a[k].item == m[k].item
      && a[k].isParent == (m[k].isParent || m[k].item.rgt - m[k].item.lft > 1)
      && a[k].isLastChild == (m[k].isLastChild || LastChildTest(m, m[k]))
      && a[k].isActive == (m[k].isActive || activeId == Id(k))
      && a[k].hidden == (m[k].hidden && k !in Ancestors(ItemsOf(m), activeId))
  }

  /** The annotation pass of the template tag. It fails exactly when some
      node's parent test passes on a parent id that has no node. */
  method Annotate(m: NodeMap, activeId: MaybeId) returns (r: Result<NodeMap, AnnotateError>)
    requires WellKeyed(m)
    requires ParentsPrecede(ItemsOf(m))
    ensures r.Failure? <==> SomeParentDangles(m)
    ensures m == map[] ==> r == Success(m)
    ensures r.Success? ==> AnnotatedFrom(m, activeId, r.value)
  {
    if SomeParentDangles(m) {
      return Failure(MissingParent);
    }
    var flagged := map k | k in m :: FlagNode(m, m[k], activeId);
    assert ItemsOf(flagged) == ItemsOf(m);
    if activeId.Id? && activeId.id in m {
      var revealed := RevealAncestors(flagged, m[activeId.id].item.parent);
      assert Ancestors(ItemsOf(m), activeId) == {activeId.id} + Ancestors(ItemsOf(m), m[activeId.id].item.parent);
      r := Success(revealed);
    } else {
      r := Success(flagged);
    }
  }

  /** When no node is active, annotation leaves every `hidden` flag alone. */
  lemma AnnotationWithoutActive(m: NodeMap, activeId: MaybeId, a: NodeMap)
    requires !SomeParentDangles(m)
    requires ParentsPrecede(ItemsOf(m))
    requires AnnotatedFrom(m, activeId, a)
    requires !(activeId.Id? && activeId.id in m)
    ensures forall k :: k in m ==> a[k].hidden == m[k].hidden
  {
    assert Ancestors(ItemsOf(m), activeId) == {};
  }

  /** Annotating freshly built nodes gives each flag exactly by its test. */
  lemma AnnotationOfFresh(m: NodeMap, activeId: MaybeId, a: NodeMap)
    requires WellKeyed(m)
    requires !SomeParentDangles(m)
    requires ParentsPrecede(ItemsOf(m))
    requires forall k :: k in m ==> !m[k].isParent && m[k].hidden && !m[k].isLastChild && !m[k].isActive
    requires AnnotatedFrom(m, activeId, a)
    ensures forall k :: k in m ==> !DanglingParent(m, a[k]) && ExactFlags(m, activeId, a[k])
  {
  }

  /** The flags a fresh node ends up with: each one holds exactly when its
      test does, and `hidden` is cleared exactly on the active trail. */
  predicate ExactFlags(m: NodeMap, activeId: MaybeId, n: Node)
    requires !DanglingParent(m, n)
    requires ParentsPrecede(ItemsOf(m))
  {
    && (n.isParent <==> n.item.rgt - n.item.lft > 1)
    && (n.isLastChild <==> LastChildTest(m, n))
    && (n.isActive <==> activeId == Id(n.item.id))
    && (n.hidden <==> n.item.id !in Ancestors(ItemsOf(m), activeId))
  }

  /** The left bound, the key the nodes are listed by. */
  function NodeLft(n: Node): int {
    n.item.lft
  }

  /** The template's node list: nodes built from `items`, annotated for
      `activeId`, and listed once each in ascending `lft` order. */
  method MenuNodes(items: seq<Item>, activeId: MaybeId) returns (r: Result<seq<Node>, AnnotateError>)
    requires ParentsPrecede(ItemsOf(TreeToNodes(items)))
    ensures r.Failure? <==> SomeParentDangles(TreeToNodes(items))
    ensures r.Success? ==> Sorting.SortedBy(r.value, NodeLft)
    ensures r.Success? ==> forall i, j :: 0 <= i < j < |r.value| && NodeLft(r.value[i]) == NodeLft(r.value[j]) ==>
      FirstIndex(items, r.value[i].item.id) < FirstIndex(items, r.value[j].item.id)
    ensures r.Success? ==> forall i, j :: 0 <= i < j < |r.value| ==> r.value[i].item.id != r.value[j].item.id
    ensures r.Success? ==> forall k :: k in IdsOf(items) ==>
      exists i :: 0 <= i < |r.value| && r.value[i].item.id == k
    ensures r.Success? ==> forall i :: 0 <= i < |r.value| ==>
      var m := TreeToNodes(items);
      && r.value[i].item.id in m
      && r.value[i].item == m[r.value[i].item.id].item
      && !DanglingParent(m, r.value[i])
      && ExactFlags(m, activeId, r.value[i])
  {
    var m := TreeToNodes(items);
    var annotated := Annotate(m, activeId);
    if annotated.Failure? {
      return Failure(annotated.error);
    }
    var a := annotated.value;
    AnnotationOfFresh(m, activeId, a);
    var s := ListByLft(a, InsertionRank(items), |items|);
    forall i | 0 <= i < |s|
      ensures s[i].item.id in m && s[i].item == m[s[i].item.id].item
      ensures !DanglingParent(m, s[i]) && ExactFlags(m, activeId, s[i])
    {
      var k := s[i].item.id;
      assert s[i] == a[k] && a[k].item == m[k].item;
    }
    r := Success(s);
  }

  /** The nodes of a well-keyed map as a list, each once, by ascending `lft`:
      the `sorted(…, key=lambda x: x.item.lft)` step. `rank` is the order the
      dictionary lists the nodes in; the sort is stable, so nodes with equal
      `lft` keep that order. */
  method ListByLft(a: NodeMap, rank: int -> int, n: int) returns (s: seq<Node>)
    requires WellKeyed(a)
    requires forall k :: k in a ==> 0 <= rank(k) < n
    requires forall k, l :: k in a && l in a && rank(k) == rank(l) ==> k == l
    ensures Sorting.SortedBy(s, NodeLft)
    ensures forall i, j :: 0 <= i < j < |s| && NodeLft(s[i]) == NodeLft(s[j]) ==>
      rank(s[i].item.id) < rank(s[j].item.id)
    ensures forall i :: 0 <= i < |s| ==> s[i].item.id in a && s[i] == a[s[i].item.id]
    ensures forall i, j :: 0 <= i < j < |s| ==> s[i].item.id != s[j].item.id
    ensures forall k :: k in a ==> exists i :: 0 <= i < |s| && s[i].item.id == k
  {
    KeysRanked(a, rank, n);
    var ks := Sorting.SortByThenRank(a.Keys, LftKey(ItemsOf(a)), rank, n);
    s := NodesAt(a, ks);
    ListedByKeys(a, rank, ks, s);
  }

  /** The nodes stored under the keys `ks`, in the same order. */
  function NodesAt(a: NodeMap, ks: seq<int>): (s: seq<Node>)
    requires forall i :: 0 <= i < |ks| ==> ks[i] in a
    ensures |s| == |ks| && forall i :: 0 <= i < |s| ==> ks[i] in a && s[i] == a[ks[i]]
  {
    seq(|ks|, i requires 0 <= i < |ks| => a[ks[i]])
  }

  /** The rank bounds and distinctness on a map carry over to its key set. */
  lemma KeysRanked(a: NodeMap, rank: int -> int, n: int)
    requires forall k :: k in a ==> 0 <= rank(k) < n
    requires forall k, l :: k in a && l in a && rank(k) == rank(l) ==> k == l
    ensures forall k :: k in a.Keys ==> 0 <= rank(k) < n
    ensures forall k, l :: k in a.Keys && l in a.Keys && rank(k) == rank(l) ==> k == l
  {
  }

  /** Listing the nodes stored under a sorted, duplicate-free listing of all
      keys lists every node once, in the same order. */
  lemma ListedByKeys(a: NodeMap, rank: int -> int, ks: seq<int>, s: seq<Node>)
    requires WellKeyed(a)
    requires Sorting.SortedByThenRank(ks, LftKey(ItemsOf(a)), rank) && Sorting.Distinct(ks)
    requires forall k :: k in ks <==> k in a
    requires |s| == |ks| && forall i :: 0 <= i < |s| ==> ks[i] in a && s[i] == a[ks[i]]
    ensures Sorting.SortedBy(s, NodeLft)
    ensures forall i, j :: 0 <= i < j < |s| && NodeLft(s[i]) == NodeLft(s[j]) ==>
      rank(s[i].item.id) < rank(s[j].item.id)
    ensures forall i :: 0 <= i < |s| ==> s[i].item.id in a && s[i] == a[s[i].item.id]
    ensures forall i, j :: 0 <= i < j < |s| ==> s[i].item.id != s[j].item.id
    ensures forall k :: k in a ==> exists i :: 0 <= i < |s| && s[i].item.id == k
  {
    assert forall i :: 0 <= i < |s| ==> s[i].item.id == ks[i] && NodeLft(s[i]) == LftKey(ItemsOf(a))(ks[i]);
    forall k | k in a
      ensures exists i :: 0 <= i < |s| && s[i].item.id == k
    {
      var i :| 0 <= i < |ks| && ks[i] == k;
      assert s[i].item.id == k;
    }
  }
}
