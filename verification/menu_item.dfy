/** A menu item of the nested-set table, the constraints the database keeps on
    its bounds, and what its cascading parent link does when a row is deleted. */
module MenuItems {
  import opened Wrappers

  /** One row of the menu table: primary key, display name, the nested-set
      bounds `lft`/`rgt` and the optional link to the parent row. */
  datatype Item = Item(id: int, name: string, lft: int, rgt: int, parent: MaybeId)

  /** The table, rows keyed by primary key. */
  type Store = map<int, Item>

  /** Length bound of the `name` column. */
  const MaxNameLength: nat := 100

  /** The column types (two non-negative integers, a bounded name) and the
      three check constraints `check_left`, `check_right` and `node_okay`. */
  predicate ValidItem(it: Item) {
    && |it.name| <= MaxNameLength
    && 0 <= it.lft && 0 <= it.rgt
    && it.lft > 0
    && it.rgt > 1
    && it.lft < it.rgt
  }

  /** `check_right` adds nothing to the other two constraints: a positive left
      bound below the right bound already puts the right bound at 2 or more. */
  lemma RightCheckImplied(it: Item)
    ensures ValidItem(it) <==> (|it.name| <= MaxNameLength && 0 < it.lft < it.rgt)
  {
  }

  /** Whether row `k` names a parent that is itself a row of the store. */
  predicate HasParentIn(s: Store, k: int)
    requires k in s
  {
    s[k].parent.Id? && s[k].parent.id in s
  }

  /** A table the database accepts: keys are the rows' ids, every row meets
      the check constraints and every parent link points at an existing row. */
  predicate ValidStore(s: Store) {
    forall k :: k in s ==>
      && s[k].id == k
      && ValidItem(s[k])
      && (s[k].parent.Id? ==> s[k].parent.id in s)
  }

  /** Parent links go strictly downward in `lft`, so following them always
      terminates; bounds are non-negative as their column type demands. */
  predicate ParentsPrecede(s: Store) {
    forall k :: k in s ==>
      && 0 <= s[k].lft
      && (HasParentIn(s, k) ==> s[s[k].parent.id].lft < s[k].lft)
  }

  /** The left bound of row `k`, the key rows are listed by. */
  function LftKey(s: Store): int -> int {
    k => if k in s then s[k].lft else 0
  }

  /** The rows whose parent link points into `ids`. */
  function ChildrenOf(s: Store, ids: set<int>): set<int> {
    set k | k in s && s[k].parent.Id? && s[k].parent.id in ids
  }

  lemma ChildrenOfMonotone(s: Store, a: set<int>, b: set<int>)
    requires a <= b
    ensures ChildrenOf(s, a) <= ChildrenOf(s, b)
  {
  }

  lemma StrictSubsetSmaller(a: set<int>, b: set<int>)
    requires a < b
    ensures |a| < |b|
  {
    assert (b - a) + a == b;
    assert |b - a| + |a| == |b|;
    assert b - a != {};
  }

  /** The least superset of `acc` that contains every child of its members:
      what a cascading delete of the rows `acc` removes. */
  function Closure(s: Store, acc: set<int>): (r: set<int>)
    requires acc <= s.Keys
    ensures acc <= r <= s.Keys
    ensures ChildrenOf(s, r) <= r
    decreases |s.Keys - acc|
  {
    var next := acc + ChildrenOf(s, acc);
    if next == acc then acc
    else
      StrictSubsetSmaller(s.Keys - next, s.Keys - acc);
      Closure(s, next)
  }

  /** The closure is the LEAST child-closed superset: any set containing `acc`
      and the children of its own members contains the closure. */
  lemma {:induction false} ClosureLeast(s: Store, acc: set<int>, d: set<int>)
    requires acc <= s.Keys
    requires acc <= d
    requires ChildrenOf(s, d) <= d
    ensures Closure(s, acc) <= d
    decreases |s.Keys - acc|
  {
    var next := acc + ChildrenOf(s, acc);
    if next != acc {
      ChildrenOfMonotone(s, acc, d);
      StrictSubsetSmaller(s.Keys - next, s.Keys - acc);
      ClosureLeast(s, next, d);
    }
  }

  /** More roots, a larger closure. */
  lemma ClosureMonotone(s: Store, a: set<int>, b: set<int>)
    requires a <= b <= s.Keys
    ensures Closure(s, a) <= Closure(s, b)
  {
    ClosureLeast(s, a, Closure(s, b));
  }

  /** Rows removed when row `id` is deleted: it and, transitively, every row
      whose parent is removed (the `CASCADE` rule of the parent link). */
  function CascadeSet(s: Store, id: int): set<int>
    requires id in s
  {
    Closure(s, {id})
  }

  /** Deleting row `id`. No bounds of surviving rows are renumbered. */
  function CascadeDelete(s: Store, id: int): (r: Store)
    requires id in s
    ensures id !in r
    ensures forall k :: k in r ==> k in s && r[k] == s[k]
    ensures forall k :: k in s ==> (k in r <==> k !in CascadeSet(s, id))
    ensures forall k :: k in r && HasParentIn(s, k) ==> s[k].parent.id in r
  {
    map k | k in s && k !in CascadeSet(s, id) :: s[k]
  }

  /** `t` is `s` with some rows removed and none changed. */
  predicate SubStore(t: Store, s: Store) {
    forall k :: k in t ==> k in s && t[k] == s[k]
  }

  /** Deleting from a reduced table never reaches beyond what deleting the
      same roots from the full table would: the cascade of a row of `t`
      lying inside a child-closed `Closure(s, acc)` stays inside it. */
  lemma CascadeWithinClosure(s: Store, t: Store, acc: set<int>, id: int)
    requires SubStore(t, s)
    requires acc <= s.Keys
    requires id in t && id in Closure(s, acc)
    ensures CascadeSet(t, id) <= Closure(s, acc)
  {
    var c := Closure(s, acc);
    forall k | k in ChildrenOf(t, c)
      ensures k in c
    {
      assert t[k] == s[k];
      assert k in ChildrenOf(s, c);
    }
    ClosureLeast(t, {id}, c);
  }

  /** A valid table stays valid after a delete: no surviving row is left with
      a parent link to a removed row. */
  lemma CascadeDeletePreservesValid(s: Store, id: int)
    requires id in s
    requires ValidStore(s)
    ensures ValidStore(CascadeDelete(s, id))
  {
  }

  /** `start` and the rows reached from it by following parent links while
      the link stays inside the store (ancestor-or-self). */
  function Ancestors(s: Store, start: MaybeId): (r: set<int>)
    requires ParentsPrecede(s)
    ensures r <= s.Keys
    decreases if start.Id? && start.id in s then s[start.id].lft + 1 else 0
  {
    if start.Id? && start.id in s then
      var next := s[start.id].parent;
      assert next.Id? && next.id in s ==> 0 <= s[next.id].lft < s[start.id].lft;
      {start.id} + Ancestors(s, next)
    else
      {}
  }

  /** Where `n` steps along parent links from `start` lead, or `NoId` once a
      step leaves the store. */
  function ParentIterate(s: Store, start: MaybeId, n: nat): MaybeId
    decreases n
  {
    if n == 0 then start
    else if start.Id? && start.id in s then ParentIterate(s, s[start.id].parent, n - 1)
    else NoId
  }

  lemma {:induction false} AncestorIsIterate(s: Store, start: MaybeId, k: int) returns (n: nat)
    requires ParentsPrecede(s)
    requires k in Ancestors(s, start)
    ensures ParentIterate(s, start, n) == Id(k)
    decreases if start.Id? && start.id in s then s[start.id].lft + 1 else 0
  {
    if start == Id(k) {
      n := 0;
    } else {
      var next := s[start.id].parent;
      assert next.Id? && next.id in s ==> 0 <= s[next.id].lft < s[start.id].lft;
      var m := AncestorIsIterate(s, next, k);
      n := m + 1;
    }
  }

  lemma {:induction false} IterateIsAncestor(s: Store, start: MaybeId, n: nat, k: int)
    requires ParentsPrecede(s)
    requires k in s && ParentIterate(s, start, n) == Id(k)
    ensures k in Ancestors(s, start)
    decreases n
  {
    if n > 0 {
      IterateIsAncestor(s, s[start.id].parent, n - 1, k);
    }
  }

  /** A row belongs to the ancestor set of `start` exactly when some finite
      number of parent steps from `start` reaches it inside the store. */
  lemma AncestorsAreIterates(s: Store, start: MaybeId, k: int)
    requires ParentsPrecede(s)
    ensures k in Ancestors(s, start) <==> exists n: nat :: k in s && ParentIterate(s, start, n) == Id(k)
  {
    if k in Ancestors(s, start) {
      var n := AncestorIsIterate(s, start, k);
    }
    if n: nat :| k in s && ParentIterate(s, start, n) == Id(k) {
      IterateIsAncestor(s, start, n, k);
    }
  }

  lemma {:induction false} AncestorInCascade(s: Store, id: int, k: int)
    requires ParentsPrecede(s)
    requires id in s && k in s
    requires id in Ancestors(s, Id(k))
    ensures k in CascadeSet(s, id)
    decreases s[k].lft
  {
    if k != id {
      var p := s[k].parent.id;
      AncestorInCascade(s, id, p);
      assert k in ChildrenOf(s, CascadeSet(s, id));
    }
  }

  /** Deleting `id` removes exactly the rows that have `id` among their
      ancestors-or-self: the cascade is the subtree of `id` by parent links. */
  lemma CascadeIsDescendants(s: Store, id: int, k: int)
    requires ParentsPrecede(s)
    requires id in s
    ensures k in CascadeSet(s, id) <==> k in s && id in Ancestors(s, Id(k))
  {
    var d := set j | j in s && id in Ancestors(s, Id(j));
    forall j | j in ChildrenOf(s, d)
      ensures j in d
    {
      assert Ancestors(s, s[j].parent) <= Ancestors(s, Id(j));
    }
    ClosureLeast(s, {id}, d);
    if k in s && id in Ancestors(s, Id(k)) {
      AncestorInCascade(s, id, k);
    }
  }
}
