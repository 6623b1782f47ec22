/** The admin list page's `child_position` column and its bulk-delete action. */
module Admin {
  import opened Wrappers
  import opened MenuItems
  import Sorting
  import Decimal

  /** A 1-based rank among siblings and the number of siblings: the pair the
      column is given, if any. */
  datatype Position = Position(position: int, total: int)

  /** The column text: `"position/total"`, or nothing when there is no pair. */
  function ChildPosition(values: Option<Position>): (r: Option<string>)
    ensures r.Some? <==> values.Some?
    ensures values.Some? ==> ParsePosition(r.value) == values
    ensures values.Some? ==> forall t :: ParsePosition(t) == values ==> t == r.value
  {
    match values
    case None => None
    case Some(p) =>
      var text := Decimal.IntToString(p.position) + "/" + Decimal.IntToString(p.total);
      ColumnRoundTrip(p, text);
      ColumnTextUnique(p);
      Some(text)
  }

  /** The first index of `c` in `s`, or `|s|` when it does not occur. */
  function IndexOf(s: string, c: char): (i: nat)
    ensures i <= |s|
    ensures i < |s| ==> s[i] == c
    ensures forall j :: 0 <= j < i ==> s[j] != c
  {
    if |s| == 0 then 0 else if s[0] == c then 0 else 1 + IndexOf(s[1..], c)
  }

  /** Reads a column text back into the pair it shows. */
  function ParsePosition(text: string): Option<Position> {
    var i := IndexOf(text, '/');
    if i < |text| && Decimal.IsNumeral(text[..i]) && Decimal.IsNumeral(text[i + 1..]) then
      Some(Position(Decimal.NumeralValue(text[..i]), Decimal.NumeralValue(text[i + 1..])))
    else
      None
  }

  lemma ColumnRoundTrip(p: Position, text: string)
    requires text == Decimal.IntToString(p.position) + "/" + Decimal.IntToString(p.total)
    ensures ParsePosition(text) == Some(p)
  {
    var a := Decimal.IntToString(p.position);
    var b := Decimal.IntToString(p.total);
    assert forall j :: 0 <= j < |a| ==> text[j] == a[j] && a[j] != '/';
    assert text[|a|] == '/';
    assert IndexOf(text, '/') == |a|;
    assert text[..|a|] == a;
    assert text[|a| + 1..] == b;
    Decimal.IntRoundTrip(p.position);
    Decimal.IntRoundTrip(p.total);
  }

  /** The only text that reads back as `p` is the column text of `p`: no
      leading zeros, no `-0`, no other separator. */
  lemma ColumnTextUnique(p: Position)
    ensures forall t :: ParsePosition(t) == Some(p) ==>
      t == Decimal.IntToString(p.position) + "/" + Decimal.IntToString(p.total)
  {
    forall t | ParsePosition(t) == Some(p)
      ensures t == Decimal.IntToString(p.position) + "/" + Decimal.IntToString(p.total)
    {
      var i := IndexOf(t, '/');
      Decimal.NumeralIsText(t[..i]);
      Decimal.NumeralIsText(t[i + 1..]);
      assert t == t[..i] + "/" + t[i + 1..];
    }
  }

  /** The ids a sequence lists. */
  function ElementsOf(xs: seq<int>): set<int> {
    set x | x in xs
  }

  /** The table facts the delete loop keeps, for the rows `roots` deleted so
      far: rows are only removed, never changed; no surviving row has lost
      its parent; and all that is gone lies in the child-closure of `roots`. */
  predicate TableFacts(s: Store, roots: set<int>, t: Store)
    requires roots <= s.Keys
  {
    && SubStore(t, s)
    && (forall k :: k in t && HasParentIn(s, k) ==> s[k].parent.id in t)
    && (forall k :: k in s && k !in t ==> k in Closure(s, roots))
  }

  /** Deleting a row that is still present keeps the table facts, with the
      row added to the roots. */
  lemma DeleteStep(s: Store, roots: set<int>, t: Store, id: int)
    requires roots <= s.Keys
    requires id in t
    requires TableFacts(s, roots, t)
    ensures TableFacts(s, roots + {id}, CascadeDelete(t, id))
  {
    var t' := CascadeDelete(t, id);
    ClosureMonotone(s, roots, roots + {id});
    CascadeWithinClosure(s, t, roots + {id}, id);
    forall k | k in t' && HasParentIn(s, k)
      ensures s[k].parent.id in t'
    {
      assert HasParentIn(t, k);
    }
  }

  /** After the loop: a table from which every selected row is gone and whose
      survivors all keep their parents has lost the selection's whole
      child-closure. */
  lemma LoopExit(s: Store, selection: set<int>, roots: set<int>, r: Store)
    requires roots <= selection <= s.Keys
    requires TableFacts(s, roots, r)
    requires forall k :: k in selection ==> k !in r
    ensures forall k :: k in s ==> (k in r <==> k !in Closure(s, selection))
    ensures forall k :: k in s ==> (k in r <==> k !in Closure(s, roots))
  {
    var gone := s.Keys - r.Keys;
    forall k | k in ChildrenOf(s, gone)
      ensures k in gone
    {
      assert HasParentIn(s, k);
    }
    forall k | k in selection
      ensures k in gone
    {
      assert k in s && k !in r;
    }
    ClosureLeast(s, selection, gone);
    ClosureMonotone(s, roots, selection);
  }

  /** The delete calls made while visiting `order[..i]`: distinct, in
      ascending key order, each one an element of the visited prefix. */
  predicate CallsSoFar(order: seq<int>, i: nat, deleted: seq<int>, key: int -> int)
    requires i <= |order|
  {
    && (forall a :: 0 <= a < |deleted| ==> deleted[a] in order[..i])
    && Sorting.Distinct(deleted)
    && Sorting.SortedBy(deleted, key)
  }

  /** Visiting `order[i]` and deleting it keeps `CallsSoFar`. */
  lemma AppendVisited(order: seq<int>, i: nat, deleted: seq<int>, key: int -> int)
    requires i < |order|
    requires Sorting.Distinct(order) && Sorting.SortedBy(order, key)
    requires CallsSoFar(order, i, deleted, key)
    ensures CallsSoFar(order, i + 1, deleted + [order[i]], key)
  {
  }

  /** Visiting `order[i]` and skipping it keeps `CallsSoFar`. */
  lemma SkipVisited(order: seq<int>, i: nat, deleted: seq<int>, key: int -> int)
    requires i < |order|
    requires CallsSoFar(order, i, deleted, key)
    ensures CallsSoFar(order, i + 1, deleted, key)
  {
  }

  /** Of the visited ids `order[..i]`, exactly those that the cascades of the
      deletes made before them had not swept away were deleted: a visited id
      is in `deleted` just when it is outside the child-closure of the ids
      deleted earlier in the visit. */
  predicate DeletesUnswept(s: Store, order: seq<int>, i: nat, deleted: seq<int>)
    requires i <= |order|
    requires ElementsOf(deleted) <= s.Keys
  {
    forall j :: 0 <= j < i ==>
      (order[j] in deleted <==> order[j] !in Closure(s, ElementsOf(deleted) * ElementsOf(order[..j])))
  }

  /** The deletes made before visiting `order[j]`, for `j <= i`, are the same
      whether or not `order[i]` is then deleted. */
  lemma EarlierDeletes(order: seq<int>, i: nat, deleted: seq<int>, key: int -> int, j: nat)
    requires j <= i < |order|
    requires Sorting.Distinct(order)
    requires CallsSoFar(order, i, deleted, key)
    ensures ElementsOf(deleted + [order[i]]) * ElementsOf(order[..j]) == ElementsOf(deleted) * ElementsOf(order[..j])
    ensures j == i ==> ElementsOf(deleted) * ElementsOf(order[..j]) == ElementsOf(deleted)
  {
    assert ElementsOf(deleted + [order[i]]) == ElementsOf(deleted) + {order[i]};
    assert order[i] !in ElementsOf(order[..j]) by {
      forall a | 0 <= a < j
        ensures order[..j][a] != order[i]
      {
        assert order[..j][a] == order[a];
      }
    }
    if j == i {
      forall x | x in ElementsOf(deleted)
        ensures x in ElementsOf(order[..i])
      {
        var a :| 0 <= a < |deleted| && deleted[a] == x;
      }
    }
  }

  /** Every id deleted so far was visited, so none is left in the table. */
  lemma RootsGone(order: seq<int>, i: nat, deleted: seq<int>, r: Store, key: int -> int)
    requires i <= |order|
    requires CallsSoFar(order, i, deleted, key)
    requires forall j :: 0 <= j < i ==> order[j] !in r
    ensures forall k :: k in ElementsOf(deleted) ==> k !in r
  {
    forall k | k in ElementsOf(deleted)
      ensures k !in r
    {
      var a :| 0 <= a < |deleted| && deleted[a] == k;
      var b :| 0 <= b < i && order[b] == k;
    }
  }

  /** The loop of the bulk delete action over the ordered selection: each id
      is looked up again in the current table and, if still present, deleted
      with its cascade; `deleted` lists the ids actually deleted. */
  method DeleteInOrder(s: Store, selection: set<int>, order: seq<int>) returns (r: Store, deleted: seq<int>)
    requires selection <= s.Keys
    requires Sorting.SortedBy(order, LftKey(s)) && Sorting.Distinct(order)
    requires forall j :: 0 <= j < |order| ==> order[j] in selection
    ensures ElementsOf(deleted) <= selection
    ensures TableFacts(s, ElementsOf(deleted), r)
    ensures forall j :: 0 <= j < |order| ==> order[j] !in r
    ensures CallsSoFar(order, |order|, deleted, LftKey(s))
    ensures DeletesUnswept(s, order, |order|, deleted)
  {
    r := s;
    deleted := [];
    var i := 0;
    while i < |order|
      invariant 0 <= i <= |order|
      invariant ElementsOf(deleted) <= selection
      invariant TableFacts(s, ElementsOf(deleted), r)
      invariant forall j :: 0 <= j < i ==> order[j] !in r
      invariant CallsSoFar(order, i, deleted, LftKey(s))
      invariant forall k :: k in s ==> (k in r <==> k !in Closure(s, ElementsOf(deleted)))
      invariant DeletesUnswept(s, order, i, deleted)
    {
      var id := order[i];
      if id in r {
        DeleteStep(s, ElementsOf(deleted), r, id);
        assert ElementsOf(deleted + [id]) == ElementsOf(deleted) + {id};
        AppendVisited(order, i, deleted, LftKey(s));
        forall j | 0 <= j < i + 1
          ensures order[j] in deleted + [id] <==> order[j] !in Closure(s, ElementsOf(deleted + [id]) * ElementsOf(order[..j]))
        {
          EarlierDeletes(order, i, deleted, LftKey(s), j);
          assert j < i ==> order[j] != id;
        }
        r := CascadeDelete(r, id);
        deleted := deleted + [id];
        RootsGone(order, i + 1, deleted, r, LftKey(s));
        LoopExit(s, ElementsOf(deleted), ElementsOf(deleted), r);
      } else {
        SkipVisited(order, i, deleted, LftKey(s));
        EarlierDeletes(order, i, deleted, LftKey(s), i);
      }
      i := i + 1;
    }
  }

  /** The bulk delete action: orders the selected rows by ascending `lft`
      (`order`) and runs the delete loop over them. The result is the table
      without the child-closure of the whole selection, which is also the
      child-closure of the rows actually deleted: a skipped row had already
      been swept away by an earlier cascade. */
  method DeleteQueryset(s: Store, selection: set<int>) returns (r: Store, order: seq<int>, deleted: seq<int>)
    requires selection <= s.Keys
    ensures Sorting.SortedBy(order, LftKey(s))
    ensures Sorting.Distinct(order)
    ensures forall k :: k in order <==> k in selection
    ensures Sorting.SortedBy(deleted, LftKey(s))
    ensures Sorting.Distinct(deleted)
    ensures forall a :: 0 <= a < |deleted| ==> deleted[a] in selection
    ensures forall k :: k in selection ==> k !in r
    ensures SubStore(r, s)
    ensures forall k :: k in s ==> (k in r <==> k !in Closure(s, selection))
    ensures forall k :: k in s ==> (k in r <==> k !in Closure(s, ElementsOf(deleted)))
    ensures DeletesUnswept(s, order, |order|, deleted)
  {
    order := Sorting.SortBy(selection, LftKey(s));
    r, deleted := DeleteInOrder(s, selection, order);
    forall k | k in selection
      ensures k !in r
    {
      var j :| 0 <= j < |order| && order[j] == k;
    }
    forall a | 0 <= a < |deleted|
      ensures deleted[a] in selection
    {
      assert deleted[a] in ElementsOf(deleted);
    }
    LoopExit(s, selection, ElementsOf(deleted), r);
  }
}
