# Materialized-path tree model

This project models the tree model of `src/Gzero/EloquentTree/Model/Tree.php`. That file is an Eloquent model that stores a hierarchy in one flat table. Each record carries three tree columns:

- `path`: the ids from the root down to the record itself, each followed by `/`, for example `1/2/3/`;
- `parent_id`: the id of the immediate parent, or null for a root;
- `level`: the depth, 0 for a root.

The model has three parts:

- **Attachment** (`setAsRoot`, `setChildOf`, `setSiblingOf`, `_handleNewNodes`). These are methods on a `Tree` object. The object holds the model's attributes, Eloquent's `exists` flag and the `_parent` cache. A `Store` object stands in for the table: its rows by primary key and the auto-increment counter. Each attachment first saves a model that does not yet exist, which gives it its key. It then assigns the three columns and saves again. Each method states the new attributes as a function of the reference node and the new rows as `Saved(old rows, attributes, existed)`: the one row written and nothing else.
- **Path helper** (`_extractPath`). It is PHP's `explode` on `/` followed by `array_pop`, written as `Explode` and `ExtractPath` over strings.
- **Queries** (`isRoot`, `getParent`, `getRoot`, `getChildren`, `getDescendants`, `getAncestors`, `fetchTree`). Each query is the filter it sends to the table, over the map of rows.
  - `ParseId` models SQL's comparison of a path segment with the integer key column.
  - `LIKE 'x%'` is a prefix test.
  - A query that orders by `level` returns a set of ids. The `Listing` predicate says which sequences are that set listed in order of level.

A well-formed store (`TreeInvariant.WellFormed`) is one where every row sits where its parent column says:

- a root's path is `id/` and its level is 0;
- any other row's path is its parent's path followed by `id/`, and its level is one more than the parent's.

On such a store:

- the path is the lineage written out;
- `_extractPath` returns the lineage;
- `getDescendants`, `getChildren`, `getAncestors`, `getRoot` and `fetchTree` return what their names promise;
- the level-ordered results of `getAncestors` and `fetchTree` start at the root, and in any level-ordered result a parent comes before its children (`getChildren` is unordered);
- `setAsRoot` keeps the store well formed for a node without children, and so does `setChildOf(p)` when `p` is another node whose object still holds its stored row (the reference is read from the object, not from the table);
- `setSiblingOf` keeps it well formed only when the sibling's id is a single digit.

Where the code does something its names or doc comments do not suggest, the model follows the code:

- **The sibling strip removes one digit.** `preg_replace('/\d\/$/', '', ...)` removes a single digit and the `/`, not the whole last id. Attaching id 4 beside sibling `1/23/` stores `1/24/` with parent 1 (`TreeModel.MultiDigitSiblingPath`, `TreeInvariant.MultiDigitSiblingBreaksStore`). PCRE's `$` also matches before a final line feed, and `Paths.StripDigitDelimiter` models that case.
- **`fetchTree(r)` includes the root.** `LIKE 'r/%'` matches `r/` itself, as the doc comment "with root node" says.
- **A malformed path is not reported as an error.** The queries filter on whatever the split yields.
- **Root tests use truthiness.** `isRoot` uses `empty()` and `getParent` tests the parent column's truthiness, so a parent id of 0 counts as no parent.
- **A query on a never-saved model compares with null.** The model assumes the query builder turns `= null` into `IS NULL`, so `getChildren` of such a model returns the roots.

The database is the `Store` object passed to each method. A query that loads a model (`first()`) allocates a new `Tree`.

## Model

| member | source | states |
|---|---|---|
| Decimal.NatToString | src/Gzero/EloquentTree/Model/Tree.php:102 | the text of an id is a non-empty run of digits, one character exactly when the id is below 10 |
| Decimal.ParseNatToString | src/Gzero/EloquentTree/Model/Tree.php:166 | a path segment written from an id compares equal to exactly that id in the key column |
| Decimal.NatToStringInjective | src/Gzero/EloquentTree/Model/Tree.php:67 | two ids with the same text are the same id |
| Paths.Explode | src/Gzero/EloquentTree/Model/Tree.php:221 | explode yields at least one piece, no piece contains `/`, and joining the pieces with `/` gives back the input |
| Paths.ExplodeImplode | src/Gzero/EloquentTree/Model/Tree.php:221 | explode inverts implode for `/`-free pieces |
| Paths.ExtractJoin | src/Gzero/EloquentTree/Model/Tree.php:219-224 | `_extractPath` of `id1/…/idk/` built from `/`-free ids returns exactly `[id1, …, idk]` |
| Paths.ExtractPathAfterJoin | src/Gzero/EloquentTree/Model/Tree.php:219-224 | a path that starts with a built chain extracts to that chain followed by the extraction of the rest |
| Paths.ExtractPathRoundTrip | src/Gzero/EloquentTree/Model/Tree.php:219-224 | rebuilding the extracted ids gives back the path if and only if the path is empty or ends with `/` |
| Paths.StripAfterChain | src/Gzero/EloquentTree/Model/Tree.php:102 | on a built path whose last id ends in a digit, the regex removes that one digit and the final `/` |
| TreeModel.RootPathSegments | src/Gzero/EloquentTree/Model/Tree.php:64-72 | a root's path extracts to its own id alone, and level 0 is the segment count minus one |
| TreeModel.ChildPathSegments | src/Gzero/EloquentTree/Model/Tree.php:84 | the child path has the parent's path as a prefix and extracts to the parent's ids plus the child's id |
| TreeModel.ChildLevelTracksDepth | src/Gzero/EloquentTree/Model/Tree.php:84-86 | if the parent's level is its segment count minus one, so is the child's |
| TreeModel.ChildOfRootLevel | src/Gzero/EloquentTree/Model/Tree.php:81-89 | a child of a root extracts to `[root, child]`, and its level 1 is the segment count minus one |
| TreeModel.SiblingPathSegments | src/Gzero/EloquentTree/Model/Tree.php:101-102 | the sibling's ids are kept except the last, which loses its final digit and is followed by the new id |
| TreeModel.SiblingSharesAncestors | src/Gzero/EloquentTree/Model/Tree.php:101-104 | when the sibling's own id is a single digit, the new path has the sibling's ancestor prefix followed by the new id |
| TreeModel.MultiDigitSiblingPath | src/Gzero/EloquentTree/Model/Tree.php:102 | the sibling of `1/23/` that gets id 4 is given path `1/24/`, which extracts to `["1", "24"]` |
| TreeModel.AsRoot | src/Gzero/EloquentTree/Model/Tree.php:66-69 | the columns setAsRoot assigns: path `id/`, parent null, level 0 |
| TreeModel.AsChildOf | src/Gzero/EloquentTree/Model/Tree.php:84-86 | the columns setChildOf(p) assigns: path p's path then `id/`, parent p's key, level p's level plus one |
| TreeModel.AsSiblingOf | src/Gzero/EloquentTree/Model/Tree.php:101-104 | the columns setSiblingOf(s) assigns: s's path through the one-digit strip then `id/`, s's parent, s's level |
| TreeModel.IsRoot | src/Gzero/EloquentTree/Model/Tree.php:114-117 | isRoot as `empty()` of the parent column: true when it is null or 0 |
| TreeModel.Children | src/Gzero/EloquentTree/Model/Tree.php:142-145 | the filter `parent_id = this.id`; the result is a set of stored keys |
| TreeModel.Descendants | src/Gzero/EloquentTree/Model/Tree.php:152-157 | the filter `path LIKE this.path%` and `id != this.id`; the result is a set of stored keys and never holds the node's own key |
| TreeModel.Ancestors | src/Gzero/EloquentTree/Model/Tree.php:164-169 | the filter `id IN _extractPath()` and `id != this.id`; the result is a set of stored keys and never holds the node's own key |
| TreeModel.GetRoot | src/Gzero/EloquentTree/Model/Tree.php:176-185 | the node itself when it is a root; otherwise the stored row, if any, named by the first extracted id |
| TreeModel.FetchTree | src/Gzero/EloquentTree/Model/Tree.php:187-198 | the filter `path LIKE 'r/%'`; the result is a set of stored keys and holds r itself when r is stored as a root |
| TreeModel.Listing | src/Gzero/EloquentTree/Model/Tree.php:156 | a result of an `orderBy(level, 'ASC')` query: each selected row once, nothing else, levels non-decreasing |
| Paths.ExtractPath | src/Gzero/EloquentTree/Model/Tree.php:219-224 | `_extractPath`: explode on `/`, then drop the last piece; no extracted id contains `/` |
| Paths.StripDigitDelimiter | src/Gzero/EloquentTree/Model/Tree.php:102 | `preg_replace('/\d\/$/', '', s)`: it removes either nothing or exactly one digit and the `/`, never a whole multi-digit id |
| Decimal.ParseId | src/Gzero/EloquentTree/Model/Tree.php:166 | how the key column compares with a path segment: a run of digits names the id it spells, any other text names no row |
| EloquentTree.Tree.constructor | src/Gzero/EloquentTree/Model/Tree.php:4 | a new model does not exist, has no key, no parent and an empty parent cache; its null path and level read as `""` and 0 |
| TreeInvariant.LineageFacts | src/Gzero/EloquentTree/Model/Tree.php:81-89 | in a well-formed store a row's path is its lineage written out, the lineage ends with the row, and the level is the lineage length minus one |
| TreeInvariant.LineageSegments | src/Gzero/EloquentTree/Model/Tree.php:219-224 | `_extractPath` of a stored row returns the texts of its lineage, root first |
| TreeInvariant.LineagePathPrefix | src/Gzero/EloquentTree/Model/Tree.php:84 | every row on a lineage has a path that is a prefix of the path at its end |
| TreeInvariant.WellFormedRootIff | src/Gzero/EloquentTree/Model/Tree.php:114-117 | in a well-formed store, isRoot holds if and only if the parent column is null, if and only if the level is 0 |
| TreeInvariant.ParentOnLineage | src/Gzero/EloquentTree/Model/Tree.php:124-134 | the parent lookup of a non-root row finds a stored row one level up, whose lineage is this row's lineage without its last id |
| TreeInvariant.PrefixOnLineage | src/Gzero/EloquentTree/Model/Tree.php:154 | a row whose path starts with another row's path has that row on its lineage |
| TreeInvariant.DescendantsOnLineage | src/Gzero/EloquentTree/Model/Tree.php:152-157 | getDescendants returns exactly the other rows whose lineage passes through this row |
| TreeInvariant.DescendantsBySegments | src/Gzero/EloquentTree/Model/Tree.php:152-157 | getDescendants returns exactly the other rows whose extracted path contains this row's id |
| TreeInvariant.ChildrenAreNextLevel | src/Gzero/EloquentTree/Model/Tree.php:142-145 | getChildren returns exactly the descendants one level below |
| TreeInvariant.UnsavedChildrenAreRoots | src/Gzero/EloquentTree/Model/Tree.php:142-145 | getChildren of a never-saved model returns exactly the roots |
| TreeInvariant.AncestorsOnLineage | src/Gzero/EloquentTree/Model/Tree.php:164-169 | getAncestors returns exactly the lineage without the row itself |
| TreeInvariant.AncestorsListedRootFirst | src/Gzero/EloquentTree/Model/Tree.php:164-169 | any level-ordered result of getAncestors has one row per level above this one, the j-th being the row named by the j-th extracted id |
| TreeInvariant.GetRootIsLineageHead | src/Gzero/EloquentTree/Model/Tree.php:176-185 | getRoot returns the head of the lineage: a stored root whose path is a prefix of this row's path |
| TreeInvariant.FetchTreeByRoot | src/Gzero/EloquentTree/Model/Tree.php:194-198 | fetchTree(r) returns exactly the rows whose lineage starts at r |
| TreeInvariant.FetchTreeIsRootAndDescendants | src/Gzero/EloquentTree/Model/Tree.php:187-198 | fetchTree of a root returns the root together with its descendants |
| TreeInvariant.FetchTreeListsRootFirst | src/Gzero/EloquentTree/Model/Tree.php:194-198 | any level-ordered result of fetchTree of a root starts with that root |
| TreeInvariant.ListingParentsFirst | src/Gzero/EloquentTree/Model/Tree.php:156 | in any level-ordered result a parent comes before each of its children |
| TreeInvariant.ListingExists | src/Gzero/EloquentTree/Model/Tree.php:156 | every selection of rows has a level-ordered result |
| TreeInvariant.FreshIsLeaf | src/Gzero/EloquentTree/Model/Tree.php:207-211 | a key not yet handed out is no row's parent |
| TreeInvariant.AsRootKeepsWellFormed | src/Gzero/EloquentTree/Model/Tree.php:64-72 | making a childless row a root keeps the store well formed |
| TreeInvariant.AsChildKeepsWellFormed | src/Gzero/EloquentTree/Model/Tree.php:81-89 | making a childless row a child of another stored row keeps the store well formed |
| TreeInvariant.SiblingAsParentChild | src/Gzero/EloquentTree/Model/Tree.php:98-107 | for a one-digit sibling, setSiblingOf computes what setAsRoot computes when the sibling is a root, else what setChildOf of the sibling's parent computes |
| TreeInvariant.AsSiblingKeepsWellFormed | src/Gzero/EloquentTree/Model/Tree.php:98-107 | attaching a childless row beside a one-digit sibling keeps the store well formed |
| TreeInvariant.MoveLeavesSubtreeStale | src/Gzero/EloquentTree/Model/Tree.php:81-89 | moving a row that has a child leaves the child's path naming the old parent path, so the store stops being well formed: there is no cascading update |
| TreeInvariant.MultiDigitSiblingBreaksStore | src/Gzero/EloquentTree/Model/Tree.php:98-107 | attaching 4 beside sibling 23 under root 1 turns a well-formed store into one that is not |
| EloquentTree.Saved | src/Gzero/EloquentTree/Model/Tree.php:70 | a save adds a key only when it inserts, and afterwards the row under the model's key, if any, holds exactly its attributes |
| EloquentTree.SavedTouchesOneRow | src/Gzero/EloquentTree/Model/Tree.php:66-70 | a save leaves every other row unchanged |
| EloquentTree.SavedAgain | src/Gzero/EloquentTree/Model/Tree.php:83-87 | saving the same attributes a second time leaves the rows unchanged |
| EloquentTree.SaveAsRootKeepsWellFormed | src/Gzero/EloquentTree/Model/Tree.php:64-72 | setAsRoot's save of a fresh key or of a childless row keeps a well-formed store well formed |
| EloquentTree.SaveAsChildKeepsWellFormed | src/Gzero/EloquentTree/Model/Tree.php:81-89 | setChildOf's save under another row as stored keeps a well-formed store well formed |
| EloquentTree.SaveAsSiblingKeepsWellFormed | src/Gzero/EloquentTree/Model/Tree.php:98-107 | setSiblingOf's save beside a stored row with a one-digit key keeps a well-formed store well formed |
| EloquentTree.Store.Insert | src/Gzero/EloquentTree/Model/Tree.php:210 | an insert stores the row under the next auto-increment key, which was not in use, and advances the counter |
| EloquentTree.Store.Update | src/Gzero/EloquentTree/Model/Tree.php:70 | an update replaces the row with the model's key if there is one and otherwise changes nothing |
| EloquentTree.Tree.Load | src/Gzero/EloquentTree/Model/Tree.php:128-129 | a model loaded by `first()` exists and holds exactly the row's columns, with an empty parent cache |
| EloquentTree.Tree.Save | src/Gzero/EloquentTree/Model/Tree.php:70 | a model that does not exist is inserted under the next key and then exists; one that exists updates its row |
| EloquentTree.Tree.HandleNewNodes | src/Gzero/EloquentTree/Model/Tree.php:207-211 | a model that does not exist is inserted, which gives it the next key; an existing model and the table are left alone |
| EloquentTree.Tree.SetAsRoot | src/Gzero/EloquentTree/Model/Tree.php:64-72 | the node exists afterwards with path `id/`, no parent and level 0, its key is kept or freshly assigned, and only its row is written |
| EloquentTree.Tree.SetChildOf | src/Gzero/EloquentTree/Model/Tree.php:81-89 | path is the parent's path followed by `id/`, parent is the reference's key, and level is one more than the reference's, with the reference's columns read after the node was created; only the node's row is written |
| EloquentTree.Tree.SetSiblingOf | src/Gzero/EloquentTree/Model/Tree.php:98-107 | path is the sibling's path with one digit and `/` removed and then `id/`, and parent and level are the sibling's; only the node's row is written |
| EloquentTree.Tree.GetParent | src/Gzero/EloquentTree/Model/Tree.php:124-134 | with a falsy parent column it returns nothing; with a filled cache it returns the cached object; otherwise it returns a newly loaded object for the parent row, or nothing if there is no such row, and caches the result |
| EloquentTree.Tree.GetRoot | src/Gzero/EloquentTree/Model/Tree.php:176-185 | on a root it returns this very object; otherwise it returns a newly loaded object for the row named by the first extracted id, or nothing |
| Scenarios.BuildFamily | src/Gzero/EloquentTree/Model/Tree.php:64-107 | on an empty table, a root, a child, a grandchild and a sibling of the child get keys 1 to 4 and paths `1/`, `1/2/`, `1/2/3/` and `1/4/`, and the table is well formed |
| Scenarios.FamilyAttachments | src/Gzero/EloquentTree/Model/Tree.php:64-107 | the columns the three attachments compute in that build |
| Scenarios.FamilyChildren | src/Gzero/EloquentTree/Model/Tree.php:142-145 | the children of root 1 in that table are 2 and 4 |
| Scenarios.FamilyDescendants | src/Gzero/EloquentTree/Model/Tree.php:152-157 | the descendants of 1 are 2, 3 and 4, and the only descendant of 2 is 3 |
| Scenarios.FamilyAncestors | src/Gzero/EloquentTree/Model/Tree.php:164-169 | the ancestors of 3 are 1 and 2 |
| Scenarios.FamilyRoot | src/Gzero/EloquentTree/Model/Tree.php:176-185 | the root of 3 is row 1 |
| Scenarios.FamilyFetchTree | src/Gzero/EloquentTree/Model/Tree.php:194-198 | fetchTree(1) returns all four rows, the root included |
| Scenarios.ChildOfTwice | src/Gzero/EloquentTree/Model/Tree.php:81-89 | a second setChildOf with the same unchanged parent changes neither the node's columns nor the table |
| Scenarios.AsRootTwice | src/Gzero/EloquentTree/Model/Tree.php:64-72 | a second setAsRoot changes neither the node's columns nor the table |
| Scenarios.SiblingOfTwice | src/Gzero/EloquentTree/Model/Tree.php:98-107 | a second setSiblingOf with the same unchanged sibling changes neither the node's columns nor the table |
| Scenarios.StaleParentCache | src/Gzero/EloquentTree/Model/Tree.php:124-134 | after a move, getParent still returns the object it cached for the old parent, although the parent column names the new one |

## Left out

- Framework lifecycle: `boot`, the `Observer` and `__resetBootedStaticProperty` (Tree.php:33-36, 53-57). They are framework hooks and are not modelled. The observer class is not part of this model.
- Column-name indirection: `getTreeColumn` and `$_tree_cols` (Tree.php:23-27, 45-51). The model uses typed fields named after the columns.
- The unused `$_children` field (Tree.php:17).
- The commented-out code at Tree.php:225-313 (`buildTree` and its helpers). It is dead code.
- Query builders: `getChildren`, `getDescendants`, `getAncestors` and `fetchTree` return builders, modelled here as the set of selected ids. The `orderBy(level)` is the `Listing` predicate. SQL leaves the order among rows of equal level open, and so does the model.
- SQL `LIKE` wildcards and escaping. Path texts are digits and `/` only, so `LIKE 'x%'` is a prefix test.
- Decimal.ParseId: does not model numeric coercion of non-digit text. It matches no row for a segment that is not all digits, whereas SQL would coerce a text such as `12abc`. Such segments never arise from the attachment methods.
- EloquentTree.Tree.Save: writes every tree column. Eloquent writes only the attributes changed since the model was loaded. The two differ only when the row was changed through another instance in the meantime.
- EloquentTree.Tree.Valid: ties `exists` to a present key, so a model built with an explicit key and then saved for the first time is not covered.
- EloquentTree.Tree.SetSiblingOf: a null `level` is stored as 0. A never-saved model's null `path` and `level` are held as `""` and 0 (`TreeModel.Node` has no null level). Concatenation and `+ 1` treat null the same way, so setAsRoot and setChildOf are exact. But setSiblingOf copies the sibling's level as it is (Tree.php:104). Beside a never-saved sibling the source stores NULL, and the model stores 0.
- TreeModel.Descendants: for a never-saved model, the model assumes the builder turns `id != null` (Tree.php:155) into `IS NOT NULL`. Some framework versions reject a null value for `!=` instead. The framework's query builder is not part of this model.
- TreeModel.Ancestors: the same assumption for `id != null` at Tree.php:167.
- Ids are unbounded naturals and levels unbounded integers. The auto-increment never wraps, and PHP integer overflow is not modelled.
- The attachment methods return `$this` in the source. Here they return nothing, and the caller keeps the object.
- Concurrency, transactions and failed or rejected saves in the backing store.
