/**
 * The values of the tree model: a node's three tree columns, what each
 * attachment operation assigns to them, and each relationship query as the
 * filter it sends to the store (a map from id to row).
 */
module TreeModel {
  import opened Options
  import opened Decimal
  import opened Paths

  type Id = nat

  /**
   * The attributes of one record: its primary key (None before the first
   * save), the materialized path, the parent id column and the level.
   */
  datatype Node = Node(key: Option<Id>, path: string, parent: Option<Id>, level: int)

  /** The text of an id inside a path. */
  function IdText(k: Id): string {
    NatToString(k)
  }

  /** The texts of a chain of ids, in order. */
  function Texts(ids: seq<Id>): (ts: seq<string>)
    ensures |ts| == |ids|
  {
    seq(|ids|, i requires 0 <= i < |ids| => IdText(ids[i]))
  }

  // ---------------------------------------------------------------------
  // Attachment: the columns setAsRoot, setChildOf and setSiblingOf assign
  // ---------------------------------------------------------------------

  function RootPath(k: Id): string {
    IdText(k) + [Delimiter]
  }

  function ChildPath(parentPath: string, k: Id): string {
    parentPath + IdText(k) + [Delimiter]
  }

  function SiblingPath(siblingPath: string, k: Id): string {
    StripDigitDelimiter(siblingPath) + IdText(k) + [Delimiter]
  }

  /** The record `k` becomes under setAsRoot. */
  function AsRoot(k: Id): Node {
    Node(Some(k), RootPath(k), None, 0)
  }

  /** The record `k` becomes under setChildOf(p). */
  function AsChildOf(k: Id, p: Node): Node {
    Node(Some(k), ChildPath(p.path, k), p.key, p.level + 1)
  }

  /** The record `k` becomes under setSiblingOf(s). */
  function AsSiblingOf(k: Id, s: Node): Node {
    Node(Some(k), SiblingPath(s.path, k), s.parent, s.level)
  }

  // ---------------------------------------------------------------------
  // Relationship queries
  // ---------------------------------------------------------------------

  /** PHP truthiness of an integer id column: null and 0 are false. */
  predicate Truthy(v: Option<Id>) {
    v.Some? && v.value != 0
  }

  /** isRoot: the parent column is empty(), so a parent id of 0 counts as no parent, exactly like null. */
  predicate IsRoot(n: Node) {
    !Truthy(n.parent)
  }

  /** `where id = k ->first()`. */
  function Find(rows: map<Id, Node>, k: Id): Option<Node> {
    if k in rows then Some(rows[k]) else None
  }

  // An unsaved node has a null key. The model assumes the query builder
  // turns `col = null` into `col IS NULL` and `col != null` into
  // `col IS NOT NULL`, which is what comparing two Option values gives.

  /** getChildren: `parent_id = this.id`. */
  function Children(n: Node, rows: map<Id, Node>): (r: set<Id>)
    ensures r <= rows.Keys
  {
    set k | k in rows && rows[k].parent == n.key
  }

  /** getDescendants: `path LIKE this.path%` and `id != this.id`. */
  function Descendants(n: Node, rows: map<Id, Node>): (r: set<Id>)
    ensures r <= rows.Keys
    ensures n.key.Some? ==> n.key.value !in r
  {
    set k | k in rows && n.path <= rows[k].path && Some(k) != n.key
  }

  /** getAncestors: `id IN _extractPath()` and `id != this.id`. */
  function Ancestors(n: Node, rows: map<Id, Node>): (r: set<Id>)
    ensures r <= rows.Keys
    ensures n.key.Some? ==> n.key.value !in r
  {
    var segs := ExtractPath(n.path);
    set k | k in rows && (exists i :: 0 <= i < |segs| && ParseId(segs[i]) == Some(k)) && Some(k) != n.key
  }

  /** getRoot: the node itself when it is a root, else the row named by the first extracted id. */
  function GetRoot(n: Node, rows: map<Id, Node>): (r: Option<Node>)
    ensures IsRoot(n) ==> r == Some(n)
    ensures !IsRoot(n) && r.Some? ==> r.value in rows.Values
  {
    if IsRoot(n) then Some(n)
    else
      var segs := ExtractPath(n.path);
      if segs == [] then None
      else match ParseId(segs[0])
        case None => None
        case Some(k) => Find(rows, k)
  }

  /** fetchTree(rootId): `path LIKE 'rootId/%'`, which also matches the root's own path `rootId/`. */
  function FetchTree(rootId: Id, rows: map<Id, Node>): (r: set<Id>)
    ensures r <= rows.Keys
    ensures rootId in rows && rows[rootId].path == RootPath(rootId) ==> rootId in r
  {
    set k | k in rows && RootPath(rootId) <= rows[k].path
  }

  /** Non-decreasing level, the `orderBy(level, 'ASC')` every ordered query adds. */
  ghost predicate OrderedByLevel(s: seq<Node>) {
    forall i, j :: 0 <= i < j < |s| ==> s[i].level <= s[j].level
  }

  ghost predicate ListsRow(s: seq<Node>, k: Id) {
    exists i :: 0 <= i < |s| && s[i].key == Some(k)
  }

  /** `s` is a result the store may return for the selected ids, ordered by level. */
  ghost predicate Listing(s: seq<Node>, rows: map<Id, Node>, ids: set<Id>) {
    && (forall i :: 0 <= i < |s| ==> s[i].key.Some? && s[i].key.value in ids && s[i].key.value in rows && rows[s[i].key.value] == s[i])
    && (forall k :: k in ids ==> ListsRow(s, k))
    && (forall i, j :: 0 <= i < j < |s| ==> s[i].key != s[j].key)
    && OrderedByLevel(s)
  }

  // ---------------------------------------------------------------------
  // Properties of the attachment computations on their own
  // ---------------------------------------------------------------------

  lemma Assoc4<T>(a: seq<T>, b: seq<T>, c: seq<T>, d: seq<T>)
    ensures a + (b + c + d) == a + b + c + d
  {
  }

  lemma TextsSlashFree(ids: seq<Id>)
    ensures AllSlashFree(Texts(ids))
  {
    forall i | 0 <= i < |ids|
      ensures SlashFree(Texts(ids)[i])
    {
      var t := IdText(ids[i]);
      assert forall j :: 0 <= j < |t| ==> t[j] != Delimiter;
    }
  }

  lemma IdTextSlashFree(k: Id)
    ensures SlashFree(IdText(k))
  {
    TextsSlashFree([k]);
    assert Texts([k])[0] == IdText(k);
  }

  /** A root's path extracts to its own id alone. */
  lemma RootPathSegments(k: Id)
    ensures ExtractPath(RootPath(k)) == [IdText(k)]
    ensures AsRoot(k).level == |ExtractPath(AsRoot(k).path)| - 1
  {
    IdTextSlashFree(k);
    assert JoinPath([IdText(k)]) == RootPath(k);
    ExtractJoin([IdText(k)]);
  }

  /**
   * The child path extends the parent's path by exactly the child's id:
   * the parent's path is a prefix and the extracted ids gain one element.
   */
  lemma ChildPathSegments(parentPath: string, k: Id)
    requires WellTerminated(parentPath)
    ensures parentPath <= ChildPath(parentPath, k)
    ensures ExtractPath(ChildPath(parentPath, k)) == ExtractPath(parentPath) + [IdText(k)]
  {
    var ids := ExtractPath(parentPath);
    ExtractPathRoundTrip(parentPath);
    IdTextSlashFree(k);
    JoinPathAppend(ids, [IdText(k)]);
    assert JoinPath([IdText(k)]) == IdText(k) + [Delimiter];
    assert ChildPath(parentPath, k) == JoinPath(ids + [IdText(k)]);
    ExtractJoin(ids + [IdText(k)]);
  }

  /** Level tracks depth: if the parent's level is its id count minus one, so is the child's. */
  lemma ChildLevelTracksDepth(k: Id, p: Node)
    requires WellTerminated(p.path) && p.level == |ExtractPath(p.path)| - 1
    ensures AsChildOf(k, p).level == |ExtractPath(AsChildOf(k, p).path)| - 1
  {
    ChildPathSegments(p.path, k);
  }

  /** For a child of a root, the level is the number of segments minus one, that is 1. */
  lemma ChildOfRootLevel(k: Id, r: Id)
    ensures ExtractPath(AsChildOf(k, AsRoot(r)).path) == [IdText(r), IdText(k)]
    ensures AsChildOf(k, AsRoot(r)).level == |ExtractPath(AsChildOf(k, AsRoot(r)).path)| - 1 == 1
  {
    RootPathSegments(r);
    ChildPathSegments(RootPath(r), k);
  }

  /**
   * What setSiblingOf really computes: for a sibling path built from ids
   * whose last id ends with a digit, the new path keeps the sibling's
   * ancestors and replaces the last id by that id minus its final digit,
   * followed by the new id.
   */
  lemma SiblingPathSegments(segs: seq<string>, k: Id)
    requires |segs| >= 1 && AllSlashFree(segs)
    requires |segs[|segs| - 1]| >= 1 && IsDigit(segs[|segs| - 1][|segs[|segs| - 1]| - 1])
    ensures var last := segs[|segs| - 1];
      ExtractPath(SiblingPath(JoinPath(segs), k)) == segs[..|segs| - 1] + [last[..|last| - 1] + IdText(k)]
  {
    var init, last := segs[..|segs| - 1], segs[|segs| - 1];
    assert segs == init + [last];
    StripAfterChain(init, last);
    JoinPathAppend(init, [last[..|last| - 1] + IdText(k)]);
    IdTextSlashFree(k);
    var t := last[..|last| - 1] + IdText(k);
    assert SlashFree(last[..|last| - 1]) by {
      assert forall c :: c in last[..|last| - 1] ==> c in last;
    }
    assert SlashFree(t);
    var head, stem := JoinPath(init), last[..|last| - 1];
    assert StripDigitDelimiter(JoinPath(segs)) == head + stem;
    assert JoinPath([t]) == t + [Delimiter];
    assert JoinPath(init + [t]) == head + (stem + IdText(k) + [Delimiter]);
    Assoc4(head, stem, IdText(k), [Delimiter]);
    assert SiblingPath(JoinPath(segs), k) == JoinPath(init + [t]);
    ExtractJoin(init + [t]);
  }

  /**
   * When the sibling's own id is a single digit, the new path has the same
   * ancestor prefix as the sibling's path, followed by the new id.
   */
  lemma SiblingSharesAncestors(siblingPath: string, s: Id, k: Id)
    requires WellTerminated(siblingPath)
    requires |ExtractPath(siblingPath)| >= 1
    requires ExtractPath(siblingPath)[|ExtractPath(siblingPath)| - 1] == IdText(s)
    requires s < 10
    ensures var segs := ExtractPath(siblingPath);
      ExtractPath(SiblingPath(siblingPath, k)) == segs[..|segs| - 1] + [IdText(k)]
  {
    var segs := ExtractPath(siblingPath);
    ExtractPathRoundTrip(siblingPath);
    SiblingPathSegments(segs, k);
    assert IdText(s)[..0] + IdText(k) == IdText(k);
  }

  /**
   * With a several-digit sibling id the strip removes only its last digit:
   * the sibling of `1/23/` that gets id 4 is stored as `1/24/`.
   */
  lemma MultiDigitSiblingPath()
    ensures SiblingPath(ChildPath(RootPath(1), 23), 4) == "1/24/"
    ensures ExtractPath(SiblingPath(ChildPath(RootPath(1), 23), 4)) == ["1", "24"]
  {
    assert IdText(1) == "1";
    assert IdText(23) == "23";
    assert IdText(4) == "4";
    assert ChildPath(RootPath(1), 23) == "1/23/";
    assert StripDigitDelimiter("1/23/") == "1/2";
    assert JoinPath(["1", "24"]) == "1/24/";
    assert AllSlashFree(["1", "24"]);
    ExtractJoin(["1", "24"]);
  }
}
