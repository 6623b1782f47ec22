# Menu maker: a Dafny model of the menu tree logic

The menu maker stores a navigation menu as a table of `MenuItem` rows in the
nested-set encoding: each row has a `name`, a pair of integer bounds `lft`
and `rgt`, and an optional `parent` link. This project models three pieces of
that system:

- the row and its database rules (`menu_maker/models.py`):
  - the non-negative bound columns;
  - the three check constraints `check_left`, `check_right` and `node_okay`;
  - the `parent` foreign key, whose `CASCADE` rule deletes the children of a
    deleted row, transitively;
- the pure part of the `draw_menu` template tag
  (`menu_maker/templatetags/draw_menu.py`):
  - wrapping items in `Node`s keyed by id;
  - annotating each node with `is_parent`, `is_last_child`, `is_active` and
    `hidden`, which includes the upward walk from the active node;
  - listing the nodes by ascending `lft`;
- two parts of the admin page (`menu_maker/admin.py`):
  - the `child_position` column text;
  - the bulk `delete_queryset` action.

Files:

- `wrappers.dfy`: `Option`, `Result` and `MaybeId`. `MaybeId` is an optional
  integer id.
- `menu_item.dfy`: module `MenuItems`. It holds the row, the validity
  predicates, the cascade closure, cascading delete and the ancestor set.
- `sorting.dfy`: module `Sorting`. It sorts a finite set by an integer key.
- `decimal.dfy`: module `Decimal`. It renders integers as decimal text and
  reads them back.
- `draw_menu.dfy`: module `DrawMenu`.
- `admin.dfy`: module `Admin`.
- `sample_menu.dfy`: module `SampleMenu`. It holds a slice of the sample menu
  table as a concrete value.

Modelling choices:

- The database table is a `map<int, Item>` keyed by primary key.
- The `Node` dataclass is an immutable datatype. The in-place flag updates
  become functions and methods that return a new map.
- An optional id is `MaybeId`: `NoId` stands for Python's `None`.
- Python truthiness is kept where the code relies on it:
  - `if node.item.parent_id:` is false both for `None` and for id `0`
    (`Truthy`);
  - the upward walk uses `dict.get`, so it follows a parent link to key `0`
    when that key exists.
- When a node has a truthy parent id with no node in the map, annotation
  raises: `.item` is read on the `None` that `dict.get` returns, and the
  following `or None` comes too late to help. The model returns
  `Failure(MissingParent)` in that case. Annotation fails exactly when such
  a node exists.
- The upward walk loops forever on a cycle of parent links. The model
  therefore requires `ParentsPrecede`: every parent in the map has a smaller
  `lft` than its child, and bounds are non-negative. A table whose parent
  links agree with its nested intervals satisfies this, and so does the
  sample table.
- The source only ever sets a flag to `True` (or `hidden` to `False`).
  `Annotate` therefore states each flag as "old value or test". For freshly
  built nodes, which is what `draw_menu` passes in, this becomes an exact
  if-and-only-if (`ExactFlags`).
- Deleting a row is modelled as the `CASCADE` rule of `models.py:11`: the
  row goes, and so does every row whose parent is gone, transitively
  (`Closure`). The modelled code renumbers no bounds on delete.
- A Python dictionary lists its values in the order their keys were first
  inserted, and `sorted` is stable. So the template's list orders nodes by
  `lft`, and nodes with equal `lft` by where their id first appears in the
  items (`FirstIndex`).
- The column text is `str()` of each number: digits without leading zeros,
  after a minus sign for negatives. `IsNumeral` accepts exactly that form,
  so a text that reads back as a pair is the column text of that pair.

No modelled code renumbers bounds. The admin class overrides no
`save_model`, and `MenuItem` defines no `save`, `delete`, `get_position` or
`get_tree`. Delete is the plain foreign-key cascade, and the surviving rows
keep their bounds. No modelled code enforces the global nested-set
invariants either: unique bounds, proper nesting, and width equal to twice
the subtree size. The model does not assume them. The operations assume
none of the check constraints either; `ValidItem` and `ValidStore` state
them, and `CascadeDeletePreservesValid` shows a delete keeps them. The walk,
the annotation and the node list assume only that parents lie to the left
of their children (`ParentsPrecede`).

## Model

| member | source | states |
|---|---|---|
| MenuItems.RightCheckImplied | menu_maker/models.py:8-26 | A row meets the constraints exactly when its name fits and `0 < lft < rgt`. `rgt > 1` adds nothing. |
| MenuItems.Closure | menu_maker/models.py:11 | The cascade set contains the deleted roots, stays inside the table and contains every child of its members. |
| MenuItems.ClosureLeast | menu_maker/models.py:11 | The cascade set is the least set with those properties: the cascade removes nothing that is not a transitive child. |
| MenuItems.ClosureMonotone | menu_maker/models.py:11 | Deleting more roots cascades at least as far. |
| MenuItems.CascadeDelete | menu_maker/models.py:11 | Deleting a row removes exactly that row's cascade set. Every other row survives unchanged. No survivor keeps a parent link to a removed row. |
| MenuItems.CascadeWithinClosure | menu_maker/models.py:11 | A cascade run on a table with rows already removed never reaches beyond the cascade of the same roots in the full table. |
| MenuItems.CascadeDeletePreservesValid | menu_maker/models.py:9-27 | A table that meets the constraints and has no dangling parent links still does after a cascading delete. |
| MenuItems.CascadeIsDescendants | menu_maker/models.py:11 | A row is removed with `id` exactly when `id` is the row itself or one of its ancestors by parent links. |
| MenuItems.AncestorsAreIterates | menu_maker/templatetags/draw_menu.py:51-54 | A row is in the walk's set exactly when some finite number of parent steps from the start reaches it without leaving the map. |
| DrawMenu.TreeToNodes | menu_maker/templatetags/draw_menu.py:10-26 | Gives one node per distinct item id, keyed by that id, with the default flags: not parent, not last child, not active, hidden. When ids repeat, the last item with that id wins. |
| DrawMenu.RevealAncestors | menu_maker/templatetags/draw_menu.py:51-54 | The walk clears `hidden` exactly on the start and its ancestors inside the map. It changes nothing else. |
| DrawMenu.Annotate | menu_maker/templatetags/draw_menu.py:29-54 | Fails exactly when a node has a truthy parent id missing from the map. An empty map comes back untouched. Otherwise the result keeps the keys and items, and each flag is its old value or its test: `is_parent` when `rgt - lft > 1`; `is_last_child` when a truthy parent exists and `rgt == parent.rgt - 1`; `is_active` when the id equals `active_id`. `hidden` is cleared on the active node's ancestor trail. |
| DrawMenu.AnnotationOfFresh | menu_maker/templatetags/draw_menu.py:13-54 | For nodes with the default flags, each flag after annotation holds exactly when its test does, and a node stays hidden exactly when it is off the active trail. |
| DrawMenu.AnnotationWithoutActive | menu_maker/templatetags/draw_menu.py:48-49 | When no node has the active id, annotation changes no `hidden` flag. |
| DrawMenu.ListByLft | menu_maker/templatetags/draw_menu.py:64 | Lists every node of the map exactly once, in ascending `lft`. Nodes with equal `lft` keep the dictionary's order, given as a rank, as the stable `sorted` does. |
| DrawMenu.MenuNodes | menu_maker/templatetags/draw_menu.py:61-64 | The template's list: fails exactly as annotation does. Otherwise it holds one node per item id in ascending `lft`, each with the exact flags. Nodes with equal `lft` come in the order their ids first appear in the items. |
| Sorting.SortBy | menu_maker/templatetags/draw_menu.py:64 | Lists every element of a set exactly once, in non-decreasing key order. |
| Sorting.SortByThenRank | menu_maker/templatetags/draw_menu.py:64 | Lists every element of a set exactly once, by key and, among equal keys, by rank: the result of a stable sort by key of the elements listed by rank. |
| Decimal.IntRoundTrip | menu_maker/admin.py:17 | The decimal text of an integer, as an f-string writes it, reads back as that integer. |
| Decimal.NumeralIsText | menu_maker/admin.py:17 | Every text in `str()`'s integer form is the text of the integer it spells: no leading zeros, no `-0`. |
| Admin.ChildPosition | menu_maker/admin.py:13-17 | Gives text exactly when a position pair is given. That text reads back as `position/total` into the same pair, and it is the only text that does. |
| Admin.ColumnTextUnique | menu_maker/admin.py:17 | The only text that reads back as a pair is `f"{position}/{total}"` for that pair. |
| Admin.DeleteInOrder | menu_maker/admin.py:21-24 | Visits the ordered selection and looks each id up again. A visited id is deleted exactly when the cascades of the earlier deletes have not swept it away. An id swept away that way is skipped, as when `.first()` returns nothing. Deletes happen at most once per id, in ascending `lft`. Afterwards no visited id is in the table and nothing outside the cascade of the deleted ids is gone. |
| Admin.DeleteQueryset | menu_maker/admin.py:19-24 | Orders the selection by ascending `lft`. Each selected id is deleted exactly when no earlier delete's cascade swept it away. Afterwards no selected row remains and survivors are unchanged. The rows removed are exactly the transitive children of the selection. They are also exactly the transitive children of the rows actually deleted. |
| SampleMenu.SampleIsValid | website/management/commands/load_sample.py:5-27 | The Clothing > Women's > Dresses slice of the sample table meets the constraints, has no dangling parent links and has parents to the left of their children. |
| SampleMenu.SampleTrail | website/management/commands/load_sample.py:5-27 | In that slice, the walk from Evening Gowns reaches Dresses, Women's and Clothing. |
| SampleMenu.SampleCascade | website/management/commands/load_sample.py:5-27 | In that slice, deleting Dresses also removes its two children and leaves Women's and Clothing. |

## Left out

- The `draw_menu` tag's wrapper (`draw_menu.py:57-69`) is not modelled. It reads the active id from the URL resolver and queries the database. The model takes the query result (`items`) and the active id as parameters.
- `MenuItem.objects.get_tree`, `MenuItem.get_position`, and the insert/move/delete renumbering that the tests exercise are not modelled. Their code is not part of the modelled files. `child_position` therefore takes the pair (or its absence) as a parameter.
- Database enforcement of the check constraints and of the foreign key is not modelled. `ValidItem`/`ValidStore` state the rules instead, and the operations do not assume them beyond `ParentsPrecede`.
- The ORM, the admin plumbing, the form (`position >= -1`), the views, the URL routing and the sample loader's database writes are not modelled. Only the loader's data table is reused, as a slice, in `SampleMenu`.
- MenuItems.ValidItem: the database's upper bound on `PositiveIntegerField` (2147483647 on most backends) is not modelled. Bounds are unbounded integers.
- DrawMenu.Annotate: requires `ParentsPrecede` on the whole map: bounds are non-negative and every parent lies to the left of its child, as in any nested-set table. That order is what makes the upward walk terminate in the model. The source needs nothing of the kind. It walks only the active node's trail, and loops forever only on a cycle of parent links along that trail. So the model also leaves out maps whose `lft` order disagrees with their parent links, and maps with a cycle off the trail.
- DrawMenu.RevealAncestors: requires `ParentsPrecede`, for the same reason as DrawMenu.Annotate.
- DrawMenu.AnnotationWithoutActive: requires `ParentsPrecede` because it speaks of `Annotate`'s result, although the source does not walk at all when the active id is absent.
- DrawMenu.AnnotationOfFresh: requires `ParentsPrecede`, for the same reason as DrawMenu.Annotate.
- DrawMenu.MenuNodes: requires `ParentsPrecede` of the built nodes, for the same reason as DrawMenu.Annotate.
- MenuItems.Ancestors: requires `ParentsPrecede` as its termination measure. The same holds for the lemmas about it: MenuItems.AncestorsAreIterates and MenuItems.CascadeIsDescendants.
- Admin.DeleteQueryset: the queryset is taken as the set of selected ids present in the table when the loop starts. Lazy re-evaluation of the queryset and concurrent writers are not modelled.
