/**
 * A store whose every row sits where its parent says: the row's path is the
 * parent's path followed by its own id, its level is one more than the
 * parent's, and a row without a parent has path `id/` and level 0. The
 * lemmas show what the relationship queries return on such a store and
 * which attachments keep it in that shape.
 */
module TreeInvariant {
  import opened Options
  import opened Decimal
  import opened Paths
  import opened TreeModel

  ghost predicate Placed(rows: map<Id, Node>, k: Id)
    requires k in rows
  {
    var n := rows[k];
    && n.key == Some(k)
    && k >= 1
    && match n.parent
       case None => n.path == RootPath(k) && n.level == 0
       case Some(p) => p in rows && n.path == ChildPath(rows[p].path, k) && n.level == rows[p].level + 1
  }

  ghost predicate WellFormed(rows: map<Id, Node>) {
    && (forall k :: k in rows ==> rows[k].key == Some(k))
    && (forall k {:trigger Placed(rows, k)} :: k in rows ==> Placed(rows, k))
  }

  /** No row names `k` as its parent. */
  ghost predicate IsLeaf(rows: map<Id, Node>, k: Id) {
    forall j :: j in rows ==> rows[j].parent != Some(k)
  }

  /** The ids from the root down to `k`, following the parent column. */
  ghost function Lineage(rows: map<Id, Node>, k: Id): seq<Id>
    requires WellFormed(rows) && k in rows
    decreases |rows[k].path|
  {
    assert Placed(rows, k);
    match rows[k].parent
    case None => [k]
    case Some(p) => Lineage(rows, p) + [k]
  }

  /**
   * The stored path of a well-placed row is exactly its lineage written out,
   * and the level is the lineage length minus one.
   */
  lemma {:induction false} LineageFacts(rows: map<Id, Node>, k: Id)
    requires WellFormed(rows) && k in rows
    ensures var l := Lineage(rows, k);
      && |l| == rows[k].level + 1
      && l[|l| - 1] == k
      && rows[k].path == JoinPath(Texts(l))
    decreases |rows[k].path|
  {
    assert Placed(rows, k);
    var l := Lineage(rows, k);
    match rows[k].parent
    case None =>
      assert l == [k];
      assert Texts(l) == [IdText(k)];
      assert JoinPath([IdText(k)]) == RootPath(k);
    case Some(p) =>
      LineageFacts(rows, p);
      var lp := Lineage(rows, p);
      assert l == lp + [k];
      assert Texts(l) == Texts(lp) + [IdText(k)];
      JoinPathAppend(Texts(lp), [IdText(k)]);
      assert JoinPath([IdText(k)]) == IdText(k) + [Delimiter];
  }

  /** The j-th id of a lineage is a stored row at depth j whose own lineage is the first j + 1 ids. */
  lemma {:induction false} LineageAt(rows: map<Id, Node>, k: Id, j: nat)
    requires WellFormed(rows) && k in rows && j < |Lineage(rows, k)|
    ensures var l := Lineage(rows, k);
      l[j] in rows && rows[l[j]].level == j && Lineage(rows, l[j]) == l[..j + 1]
    decreases |rows[k].path|
  {
    assert Placed(rows, k);
    LineageFacts(rows, k);
    var l := Lineage(rows, k);
    if j == |l| - 1 {
      assert l[..j + 1] == l;
    } else {
      var p := rows[k].parent.value;
      var lp := Lineage(rows, p);
      assert l == lp + [k];
      LineageAt(rows, p, j);
      assert l[j] == lp[j];
      assert l[..j + 1] == lp[..j + 1];
    }
  }

  /** `_extractPath` of a well-placed row returns the ids of its lineage, root first. */
  lemma LineageSegments(rows: map<Id, Node>, k: Id)
    requires WellFormed(rows) && k in rows
    ensures ExtractPath(rows[k].path) == Texts(Lineage(rows, k))
  {
    LineageFacts(rows, k);
    TextsSlashFree(Lineage(rows, k));
    ExtractJoin(Texts(Lineage(rows, k)));
  }

  /**
   * getParent on a well-formed store: a row that is not a root finds its
   * parent row, one level up, whose lineage is this row's lineage without
   * its last id.
   */
  lemma ParentOnLineage(rows: map<Id, Node>, k: Id)
    requires WellFormed(rows) && k in rows && rows[k].parent.Some?
    ensures var p := rows[k].parent.value;
      && p in rows
      && Find(rows, p) == Some(rows[p])
      && rows[p].level == rows[k].level - 1
      && Lineage(rows, p) == Lineage(rows, k)[..|Lineage(rows, k)| - 1]
  {
    assert Placed(rows, k);
    var p := rows[k].parent.value;
    assert Lineage(rows, k) == Lineage(rows, p) + [k];
  }

  /** In a well-formed store a row is a root (isRoot) iff its parent column is null iff its level is 0. */
  lemma WellFormedRootIff(rows: map<Id, Node>, k: Id)
    requires WellFormed(rows) && k in rows
    ensures IsRoot(rows[k]) <==> rows[k].parent.None?
    ensures IsRoot(rows[k]) <==> rows[k].level == 0
  {
    assert Placed(rows, k);
    if rows[k].parent.Some? {
      var p := rows[k].parent.value;
      assert Placed(rows, p);
      LineageFacts(rows, p);
    }
  }

  /** Every row on a lineage has a path that is a prefix of the path at its end. */
  lemma LineagePathPrefix(rows: map<Id, Node>, k: Id, j: nat)
    requires WellFormed(rows) && k in rows && j < |Lineage(rows, k)|
    ensures Lineage(rows, k)[j] in rows
    ensures rows[Lineage(rows, k)[j]].path <= rows[k].path
  {
    LineageFacts(rows, k);
    var l := Lineage(rows, k);
    LineageAt(rows, k, j);
    var a := l[j];
    LineageFacts(rows, a);
    var front, back := Texts(l[..j + 1]), Texts(l[j + 1..]);
    assert Texts(l) == front + back by {
      assert l == l[..j + 1] + l[j + 1..];
    }
    JoinPathAppend(front, back);
    assert rows[a].path == JoinPath(front);
    assert rows[k].path == rows[a].path + JoinPath(back);
  }

  lemma LineageLevels(rows: map<Id, Node>, k: Id, i: nat, j: nat)
    requires WellFormed(rows) && k in rows
    requires i < |Lineage(rows, k)| && j < |Lineage(rows, k)|
    ensures Lineage(rows, k)[i] == Lineage(rows, k)[j] <==> i == j
  {
    LineageAt(rows, k, i);
    LineageAt(rows, k, j);
  }

  /** A row whose path starts with another row's path lies below it: that row is on its lineage. */
  lemma PrefixOnLineage(rows: map<Id, Node>, m: Id, k: Id)
    requires WellFormed(rows) && m in rows && k in rows
    requires rows[m].path <= rows[k].path
    ensures m in Lineage(rows, k)
  {
    LineageFacts(rows, k);
    LineageFacts(rows, m);
    LineageSegments(rows, k);
    var lk, lm := Lineage(rows, k), Lineage(rows, m);
    var t := rows[k].path[|rows[m].path|..];
    assert rows[k].path == rows[m].path + t;
    TextsSlashFree(lm);
    ExtractPathAfterJoin(Texts(lm), t);
    var i := |lm| - 1;
    assert Texts(lk)[i] == Texts(lm)[i] == IdText(m);
    NatToStringInjective(lk[i], m);
  }

  /** getDescendants on a well-formed store: exactly the other rows whose lineage passes through this one. */
  lemma DescendantsOnLineage(rows: map<Id, Node>, m: Id, k: Id)
    requires WellFormed(rows) && m in rows
    ensures k in Descendants(rows[m], rows) <==> k in rows && k != m && m in Lineage(rows, k)
  {
    assert Placed(rows, m);
    if k in rows && k != m {
      var lk := Lineage(rows, k);
      if m in lk {
        var j :| 0 <= j < |lk| && lk[j] == m;
        LineagePathPrefix(rows, k, j);
      }
      if rows[m].path <= rows[k].path {
        PrefixOnLineage(rows, m, k);
      }
    }
  }

  /**
   * getDescendants in terms of the stored text: the other rows whose
   * extracted path contains this row's id.
   */
  lemma DescendantsBySegments(rows: map<Id, Node>, m: Id, k: Id)
    requires WellFormed(rows) && m in rows
    ensures k in Descendants(rows[m], rows) <==> k in rows && k != m && IdText(m) in ExtractPath(rows[k].path)
  {
    DescendantsOnLineage(rows, m, k);
    if k in rows {
      LineageFacts(rows, k);
      LineageSegments(rows, k);
      var lk := Lineage(rows, k);
      if IdText(m) in Texts(lk) {
        var i :| 0 <= i < |lk| && Texts(lk)[i] == IdText(m);
        NatToStringInjective(lk[i], m);
      }
      if m in lk {
        var i :| 0 <= i < |lk| && lk[i] == m;
        assert Texts(lk)[i] == IdText(m);
      }
    }
  }

  /** getChildren on a well-formed store: the descendants exactly one level below. */
  lemma ChildrenAreNextLevel(rows: map<Id, Node>, m: Id, k: Id)
    requires WellFormed(rows) && m in rows
    ensures k in Children(rows[m], rows) <==> k in Descendants(rows[m], rows) && rows[k].level == rows[m].level + 1
  {
    assert Placed(rows, m);
    DescendantsOnLineage(rows, m, k);
    if k in rows {
      assert Placed(rows, k);
      LineageFacts(rows, k);
      LineageFacts(rows, m);
      var lk := Lineage(rows, k);
      if rows[k].parent == Some(m) {
        assert lk == Lineage(rows, m) + [k];
        assert lk[|lk| - 2] == m;
      }
      if k != m && m in lk && rows[k].level == rows[m].level + 1 {
        var j :| 0 <= j < |lk| && lk[j] == m;
        LineageAt(rows, k, j);
        assert j == |lk| - 2;
        assert rows[k].parent.Some?;
        var p := rows[k].parent.value;
        assert lk == Lineage(rows, p) + [k];
      }
    }
  }

  /** getChildren of a model that was never saved (null key) returns the roots. */
  lemma UnsavedChildrenAreRoots(rows: map<Id, Node>, n: Node, k: Id)
    requires WellFormed(rows) && n.key.None?
    ensures k in Children(n, rows) <==> k in rows && IsRoot(rows[k])
  {
    if k in rows {
      WellFormedRootIff(rows, k);
    }
  }

  /** getAncestors on a well-formed store: the lineage of this row without the row itself. */
  lemma AncestorsOnLineage(rows: map<Id, Node>, m: Id, k: Id)
    requires WellFormed(rows) && m in rows
    ensures k in Ancestors(rows[m], rows) <==> k in Lineage(rows, m) && k != m
  {
    assert Placed(rows, m);
    LineageFacts(rows, m);
    LineageSegments(rows, m);
    var lm := Lineage(rows, m);
    var segs := ExtractPath(rows[m].path);
    assert segs == Texts(lm);
    if k in lm {
      var i :| 0 <= i < |lm| && lm[i] == k;
      LineageAt(rows, m, i);
      ParseNatToString(k);
      assert ParseId(segs[i]) == Some(k);
    }
    if exists i :: 0 <= i < |segs| && ParseId(segs[i]) == Some(k) {
      var i :| 0 <= i < |segs| && ParseId(segs[i]) == Some(k);
      ParseNatToString(lm[i]);
      assert lm[i] == k;
    }
  }

  ghost function Levels(s: seq<Node>): (lv: seq<int>)
    ensures |lv| == |s| && forall i :: 0 <= i < |s| ==> lv[i] == s[i].level
  {
    if s == [] then [] else [s[0].level] + Levels(s[1..])
  }

  ghost predicate Attained(lv: seq<int>, v: int) {
    exists i :: 0 <= i < |lv| && lv[i] == v
  }

  lemma {:induction false} IncreasingCoverAt(lv: seq<int>, n: int, i: int)
    requires forall a :: 0 <= a < |lv| ==> 0 <= lv[a] < n
    requires forall a, b :: 0 <= a < b < |lv| ==> lv[a] < lv[b]
    requires forall v :: 0 <= v < n ==> Attained(lv, v)
    requires 0 <= i < |lv|
    ensures lv[i] == i
    decreases i
  {
    if i > 0 {
      IncreasingCoverAt(lv, n, i - 1);
    }
    assert lv[i] >= i;
    assert Attained(lv, i);
    var m :| 0 <= m < |lv| && lv[m] == i;
    assert m >= i;
  }

  /** A strictly increasing sequence of values below n that takes every value below n is 0, 1, ..., n-1. */
  lemma IncreasingCover(lv: seq<int>, n: int)
    requires forall a :: 0 <= a < |lv| ==> 0 <= lv[a] < n
    requires forall a, b :: 0 <= a < b < |lv| ==> lv[a] < lv[b]
    requires forall v :: 0 <= v < n ==> Attained(lv, v)
    ensures |lv| == n || (n < 0 && lv == [])
    ensures forall i :: 0 <= i < |lv| ==> lv[i] == i
  {
    forall i | 0 <= i < |lv|
      ensures lv[i] == i
    {
      IncreasingCoverAt(lv, n, i);
    }
    if |lv| > 0 {
      assert lv[|lv| - 1] == |lv| - 1;
    }
    if n > 0 {
      assert Attained(lv, n - 1);
    }
  }

  /** An ancestor sits on the lineage at the position given by its level, above this row. */
  lemma AncestorPosition(rows: map<Id, Node>, m: Id, a: Id)
    requires WellFormed(rows) && m in rows && a in Ancestors(rows[m], rows)
    ensures a in rows && 0 <= rows[a].level < rows[m].level
    ensures rows[a].level < |Lineage(rows, m)| && Lineage(rows, m)[rows[a].level] == a
  {
    AncestorsOnLineage(rows, m, a);
    LineageFacts(rows, m);
    var l := Lineage(rows, m);
    var j :| 0 <= j < |l| && l[j] == a;
    LineageAt(rows, m, j);
  }

  /** Every lineage position above this row holds an ancestor. */
  lemma AncestorAtLevel(rows: map<Id, Node>, m: Id, v: nat)
    requires WellFormed(rows) && m in rows && v < rows[m].level
    ensures v < |Lineage(rows, m)| && Lineage(rows, m)[v] in Ancestors(rows[m], rows)
  {
    LineageFacts(rows, m);
    var l := Lineage(rows, m);
    LineageLevels(rows, m, v, rows[m].level);
    AncestorsOnLineage(rows, m, l[v]);
  }

  /** Two ancestors on the same level are the same row. */
  lemma AncestorLevelUnique(rows: map<Id, Node>, m: Id, x: Id, y: Id)
    requires WellFormed(rows) && m in rows
    requires x in Ancestors(rows[m], rows) && y in Ancestors(rows[m], rows)
    requires x in rows && y in rows && rows[x].level == rows[y].level
    ensures x == y
  {
    AncestorPosition(rows, m, x);
    AncestorPosition(rows, m, y);
  }

  lemma ListedLevelsIncrease(rows: map<Id, Node>, m: Id, s: seq<Node>, a: int, b: int)
    requires WellFormed(rows) && m in rows
    requires Listing(s, rows, Ancestors(rows[m], rows))
    requires 0 <= a < b < |s|
    ensures s[a].level < s[b].level
  {
    var x, y := s[a].key.value, s[b].key.value;
    assert s[a].key != s[b].key && s[a].level <= s[b].level;
    assert s[a] == rows[x] && s[b] == rows[y];
    assert x in Ancestors(rows[m], rows) && y in Ancestors(rows[m], rows);
    if rows[x].level == rows[y].level {
      AncestorLevelUnique(rows, m, x, y);
    }
  }

  lemma ListedAtLevel(rows: map<Id, Node>, m: Id, s: seq<Node>, v: nat) returns (i: int)
    requires WellFormed(rows) && m in rows
    requires Listing(s, rows, Ancestors(rows[m], rows))
    requires v < rows[m].level
    ensures 0 <= i < |s| && s[i].level == v
  {
    AncestorAtLevel(rows, m, v);
    var l := Lineage(rows, m);
    assert ListsRow(s, l[v]);
    i :| 0 <= i < |s| && s[i].key == Some(l[v]);
    LineageAt(rows, m, v);
    assert s[i] == rows[l[v]];
  }

  /**
   * Any result getAncestors may return on a well-formed store lists the
   * ancestors root first, one per level: as many as the row's level, the
   * j-th being the row named by the j-th id of the path.
   */
  lemma AncestorsListedRootFirst(rows: map<Id, Node>, m: Id, s: seq<Node>)
    requires WellFormed(rows) && m in rows
    requires Listing(s, rows, Ancestors(rows[m], rows))
    ensures |s| == rows[m].level
    ensures |Lineage(rows, m)| == |ExtractPath(rows[m].path)| == |s| + 1
    ensures forall j :: 0 <= j < |s| ==> s[j].key == Some(Lineage(rows, m)[j])
    ensures forall j :: 0 <= j < |s| ==> s[j].key.Some? && IdText(s[j].key.value) == ExtractPath(rows[m].path)[j]
  {
    LineageFacts(rows, m);
    LineageSegments(rows, m);
    var l := Lineage(rows, m);
    var n := rows[m].level;
    var lv := Levels(s);
    forall i | 0 <= i < |s|
      ensures 0 <= lv[i] < n && s[i].key == Some(l[lv[i]])
    {
      AncestorPosition(rows, m, s[i].key.value);
    }
    forall a, b | 0 <= a < b < |s|
      ensures lv[a] < lv[b]
    {
      ListedLevelsIncrease(rows, m, s, a, b);
    }
    forall v | 0 <= v < n
      ensures Attained(lv, v)
    {
      var i := ListedAtLevel(rows, m, s, v);
    }
    IncreasingCover(lv, n);
  }

  /**
   * getRoot on a well-formed store: the head of the lineage, a root row
   * whose path is a prefix of this row's path.
   */
  lemma GetRootIsLineageHead(rows: map<Id, Node>, m: Id)
    requires WellFormed(rows) && m in rows
    ensures var r := Lineage(rows, m)[0];
      && r in rows
      && IsRoot(rows[r])
      && rows[r].path <= rows[m].path
      && GetRoot(rows[m], rows) == Some(rows[r])
  {
    LineageFacts(rows, m);
    LineageSegments(rows, m);
    var l := Lineage(rows, m);
    var r := l[0];
    LineageAt(rows, m, 0);
    WellFormedRootIff(rows, r);
    WellFormedRootIff(rows, m);
    LineagePathPrefix(rows, m, 0);
    assert Placed(rows, m);
    if !IsRoot(rows[m]) {
      assert ExtractPath(rows[m].path)[0] == IdText(r);
      ParseNatToString(r);
    }
  }

  lemma SegmentPrefix(x: string, y: string, z: string)
    requires SlashFree(x) && SlashFree(y)
    ensures x + [Delimiter] <= y + [Delimiter] + z <==> x == y
  {
    var w := y + [Delimiter] + z;
    if x + [Delimiter] <= w {
      var t := w[|x| + 1..];
      assert w == x + [Delimiter] + t;
      ExplodeSegment(x, t);
      ExplodeSegment(y, z);
      assert Explode(w)[0] == x && Explode(w)[0] == y;
    }
  }

  /** fetchTree(r) on a well-formed store: exactly the rows whose lineage starts at r. */
  lemma FetchTreeByRoot(rows: map<Id, Node>, r: Id, k: Id)
    requires WellFormed(rows)
    ensures k in FetchTree(r, rows) <==> k in rows && Lineage(rows, k)[0] == r
  {
    if k in rows {
      LineageFacts(rows, k);
      var l := Lineage(rows, k);
      TextsSlashFree(l);
      IdTextSlashFree(r);
      var rest := JoinPath(Texts(l)[1..]);
      assert rows[k].path == IdText(l[0]) + [Delimiter] + rest;
      SegmentPrefix(IdText(r), IdText(l[0]), rest);
      if IdText(r) == IdText(l[0]) {
        NatToStringInjective(r, l[0]);
      }
    }
  }

  /** fetchTree of a root returns the root itself together with its descendants. */
  lemma FetchTreeIsRootAndDescendants(rows: map<Id, Node>, r: Id)
    requires WellFormed(rows) && r in rows && IsRoot(rows[r])
    ensures r in FetchTree(r, rows)
    ensures FetchTree(r, rows) == Descendants(rows[r], rows) + {r}
  {
    WellFormedRootIff(rows, r);
    assert Placed(rows, r);
    assert rows[r].path == RootPath(r);
  }

  /** Any result fetchTree(r) may return for a root r starts with that root. */
  lemma FetchTreeListsRootFirst(rows: map<Id, Node>, r: Id, s: seq<Node>)
    requires WellFormed(rows) && r in rows && IsRoot(rows[r])
    requires Listing(s, rows, FetchTree(r, rows))
    ensures |s| >= 1 && s[0] == rows[r]
  {
    FetchTreeIsRootAndDescendants(rows, r);
    WellFormedRootIff(rows, r);
    assert ListsRow(s, r);
    var i :| 0 <= i < |s| && s[i].key == Some(r);
    assert s[0].level <= s[i].level == 0;
    var k := s[0].key.value;
    FetchTreeByRoot(rows, r, k);
    LineageFacts(rows, k);
    WellFormedRootIff(rows, k);
    assert Lineage(rows, k) == [k];
  }

  /** In any level-ordered result over a well-formed store a parent comes before its children. */
  lemma ListingParentsFirst(rows: map<Id, Node>, ids: set<Id>, s: seq<Node>)
    requires WellFormed(rows) && Listing(s, rows, ids)
    ensures forall i, j :: 0 <= i < |s| && 0 <= j < |s| && s[i].key.Some? && s[j].parent == s[i].key ==> i < j
  {
    forall i, j | 0 <= i < |s| && 0 <= j < |s| && s[i].key.Some? && s[j].parent == s[i].key
      ensures i < j
    {
      assert Placed(rows, s[j].key.value);
      assert s[j].level == s[i].level + 1;
    }
  }

  lemma {:induction false} LowestLevelExists(rows: map<Id, Node>, ids: set<Id>)
    requires ids != {} && ids <= rows.Keys
    ensures exists k :: k in ids && forall j :: j in ids ==> rows[k].level <= rows[j].level
    decreases |ids|
  {
    var x :| x in ids;
    if ids != {x} {
      LowestLevelExists(rows, ids - {x});
      var y :| y in ids - {x} && forall j :: j in ids - {x} ==> rows[y].level <= rows[j].level;
      if rows[x].level < rows[y].level {
        assert forall j :: j in ids ==> rows[x].level <= rows[j].level;
      } else {
        assert forall j :: j in ids ==> rows[y].level <= rows[j].level;
      }
    } else {
      assert forall j :: j in ids ==> rows[x].level <= rows[j].level;
    }
  }

  /** A lowest row put in front of a listing of the others lists them all. */
  lemma ListingCons(rows: map<Id, Node>, ids: set<Id>, k: Id, t: seq<Node>)
    requires k in ids && k in rows && rows[k].key == Some(k)
    requires forall j :: j in ids ==> j in rows && rows[k].level <= rows[j].level
    requires Listing(t, rows, ids - {k})
    ensures Listing([rows[k]] + t, rows, ids)
  {
    var s := [rows[k]] + t;
    forall j | j in ids
      ensures ListsRow(s, j)
    {
      if j == k {
        assert s[0].key == Some(k);
      } else {
        assert ListsRow(t, j);
        var i :| 0 <= i < |t| && t[i].key == Some(j);
        assert s[i + 1].key == Some(j);
      }
    }
    forall i, j | 0 <= i < j < |s|
      ensures s[i].key != s[j].key && s[i].level <= s[j].level
    {
      if i > 0 {
        assert s[i] == t[i - 1] && s[j] == t[j - 1];
      } else {
        assert t[j - 1].key.value in ids - {k};
      }
    }
  }

  /** Every selection of rows has a result ordered by level, so the ordering lemmas are about real results. */
  lemma {:induction false} ListingExists(rows: map<Id, Node>, ids: set<Id>)
    requires forall k :: k in ids ==> k in rows && rows[k].key == Some(k)
    ensures exists s :: Listing(s, rows, ids)
    decreases |ids|
  {
    if ids == {} {
      assert Listing([], rows, ids);
    } else {
      LowestLevelExists(rows, ids);
      var k :| k in ids && forall j :: j in ids ==> rows[k].level <= rows[j].level;
      ListingExists(rows, ids - {k});
      var t: seq<Node> :| Listing(t, rows, ids - {k});
      ListingCons(rows, ids, k, t);
    }
  }

  // ---------------------------------------------------------------------
  // Attachment and the store shape
  // ---------------------------------------------------------------------

  /** A key the store has not yet handed out is nobody's parent. */
  lemma FreshIsLeaf(rows: map<Id, Node>, k: Id)
    requires WellFormed(rows) && k !in rows
    ensures IsLeaf(rows, k)
  {
    forall j | j in rows
      ensures rows[j].parent != Some(k)
    {
      assert Placed(rows, j);
    }
  }

  /** setAsRoot on a row without children keeps the store well formed. */
  lemma AsRootKeepsWellFormed(rows: map<Id, Node>, k: Id)
    requires WellFormed(rows) && k >= 1 && IsLeaf(rows, k)
    ensures WellFormed(rows[k := AsRoot(k)])
  {
    var rows' := rows[k := AsRoot(k)];
    forall j | j in rows'
      ensures Placed(rows', j)
    {
      if j != k {
        assert Placed(rows, j);
      }
    }
  }

  /** setChildOf(p) on a row without children, p another stored row, keeps the store well formed. */
  lemma AsChildKeepsWellFormed(rows: map<Id, Node>, k: Id, p: Id)
    requires WellFormed(rows) && k >= 1 && IsLeaf(rows, k) && p in rows && p != k
    ensures WellFormed(rows[k := AsChildOf(k, rows[p])])
  {
    assert Placed(rows, p);
    var rows' := rows[k := AsChildOf(k, rows[p])];
    forall j | j in rows'
      ensures Placed(rows', j)
    {
      if j != k {
        assert Placed(rows, j);
      }
    }
  }

  /**
   * In a well-formed store, setSiblingOf(s) for a one-digit key s computes
   * what setAsRoot computes when s is a root, and otherwise what
   * setChildOf computes for s's parent.
   */
  lemma SiblingAsParentChild(rows: map<Id, Node>, s: Id, k: Id)
    requires WellFormed(rows) && s in rows && s < 10
    ensures rows[s].parent.None? ==> AsSiblingOf(k, rows[s]) == AsRoot(k)
    ensures rows[s].parent.Some? ==>
      rows[s].parent.value in rows && AsSiblingOf(k, rows[s]) == AsChildOf(k, rows[rows[s].parent.value])
  {
    assert Placed(rows, s);
    var sib := rows[s];
    assert |IdText(s)| == 1;
    var d := IdText(s)[0];
    assert IsDigit(d);
    match sib.parent {
      case None =>
        assert sib.path == [d] + [Delimiter];
        assert StripDigitDelimiter(sib.path) == [];
        assert SiblingPath(sib.path, k) == RootPath(k);
      case Some(p) =>
        assert sib.path == rows[p].path + [d] + [Delimiter];
        assert StripDigitDelimiter(sib.path) == rows[p].path;
        assert SiblingPath(sib.path, k) == ChildPath(rows[p].path, k);
        assert Placed(rows, p);
    }
  }

  /**
   * setSiblingOf(s) on a row without children keeps the store well formed
   * when s's own id is a single digit, so that the strip removes exactly
   * s's segment.
   */
  lemma AsSiblingKeepsWellFormed(rows: map<Id, Node>, k: Id, s: Id)
    requires WellFormed(rows) && k >= 1 && IsLeaf(rows, k) && s in rows && s < 10
    ensures WellFormed(rows[k := AsSiblingOf(k, rows[s])])
  {
    SiblingAsParentChild(rows, s, k);
    match rows[s].parent {
      case None =>
        AsRootKeepsWellFormed(rows, k);
      case Some(p) =>
        AsChildKeepsWellFormed(rows, k, p);
    }
  }

  /** Building through the attachments from an empty store: root 1, child 2 of 1, grandchild 3 of 2, root 4. */
  lemma ChainAndRootWellFormed()
    ensures WellFormed(map[1 := AsRoot(1), 2 := AsChildOf(2, AsRoot(1)), 3 := AsChildOf(3, AsChildOf(2, AsRoot(1))), 4 := AsRoot(4)])
  {
    var r0: map<Id, Node> := map[];
    AsRootKeepsWellFormed(r0, 1);
    var r1 := r0[1 := AsRoot(1)];
    FreshIsLeaf(r1, 4);
    AsRootKeepsWellFormed(r1, 4);
    var r2 := r1[4 := AsRoot(4)];
    FreshIsLeaf(r2, 2);
    AsChildKeepsWellFormed(r2, 2, 1);
    var r3 := r2[2 := AsChildOf(2, r2[1])];
    FreshIsLeaf(r3, 3);
    AsChildKeepsWellFormed(r3, 3, 2);
    var r4 := r3[3 := AsChildOf(3, r3[2])];
    assert r4 == map[1 := AsRoot(1), 2 := AsChildOf(2, AsRoot(1)), 3 := AsChildOf(3, AsChildOf(2, AsRoot(1))), 4 := AsRoot(4)];
  }

  /**
   * Attachment does not cascade: moving a row that has a child under another
   * root leaves the child's path naming the old parent path, and the store is
   * no longer well formed.
   */
  lemma MoveLeavesSubtreeStale()
    ensures var rows := map[1 := AsRoot(1), 2 := AsChildOf(2, AsRoot(1)), 3 := AsChildOf(3, AsChildOf(2, AsRoot(1))), 4 := AsRoot(4)];
      && WellFormed(rows)
      && !WellFormed(rows[2 := AsChildOf(2, rows[4])])
  {
    ChainAndRootWellFormed();
    var rows := map[1 := AsRoot(1), 2 := AsChildOf(2, AsRoot(1)), 3 := AsChildOf(3, AsChildOf(2, AsRoot(1))), 4 := AsRoot(4)];
    assert IdText(1) == "1" && IdText(4) == "4";
    var moved := rows[2 := AsChildOf(2, rows[4])];
    assert moved[3].path[0] == '1';
    assert ChildPath(moved[2].path, 3)[0] == '4';
    assert !Placed(moved, 3);
  }

  /**
   * The one-digit strip breaks the store for a sibling with a two-digit id:
   * attaching 4 beside 23 under root 1 stores path 1/24/ with parent 1.
   */
  lemma MultiDigitSiblingBreaksStore()
    ensures var rows := map[1 := AsRoot(1), 23 := AsChildOf(23, AsRoot(1))];
      && WellFormed(rows)
      && !WellFormed(rows[4 := AsSiblingOf(4, rows[23])])
  {
    var r0: map<Id, Node> := map[];
    AsRootKeepsWellFormed(r0, 1);
    var r1 := r0[1 := AsRoot(1)];
    FreshIsLeaf(r1, 23);
    AsChildKeepsWellFormed(r1, 23, 1);
    var rows := r1[23 := AsChildOf(23, r1[1])];
    assert rows == map[1 := AsRoot(1), 23 := AsChildOf(23, AsRoot(1))];
    var after := rows[4 := AsSiblingOf(4, rows[23])];
    MultiDigitSiblingPath();
    assert |after[4].path| == 5;
    assert after[4].parent == Some(1);
    assert IdText(1) == "1" && IdText(4) == "4";
    assert |ChildPath(after[1].path, 4)| == 4;
    assert !Placed(after, 4);
  }
}
