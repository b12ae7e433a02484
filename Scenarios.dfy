/**
 * Client code over the model objects: building a small tree through the
 * attachment methods, repeating an attachment, and the parent cache after
 * a move.
 */
module Scenarios {
  import opened Options
  import opened Decimal
  import opened Paths
  import opened TreeModel
  import opened TreeInvariant
  import opened EloquentTree

  const Root1: Node := Node(Some(1), "1/", None, 0)
  const Child2: Node := Node(Some(2), "1/2/", Some(1), 1)
  const Grandchild3: Node := Node(Some(3), "1/2/3/", Some(2), 2)
  const Sibling4: Node := Node(Some(4), "1/4/", Some(1), 1)

  /** The table after building root 1, its child 2, grandchild 3 and sibling 4 of the child. */
  function Family(): map<Id, Node> {
    map[1 := Root1, 2 := Child2, 3 := Grandchild3, 4 := Sibling4]
  }

  lemma FamilyTexts()
    ensures IdText(1) == "1" && IdText(2) == "2" && IdText(3) == "3" && IdText(4) == "4"
  {
  }

  /** The columns each attachment assigns in that build. */
  lemma FamilyAttachments()
    ensures AsRoot(1) == Root1
    ensures AsChildOf(2, Root1) == Child2
    ensures AsChildOf(3, Child2) == Grandchild3
    ensures AsSiblingOf(4, Child2) == Sibling4
  {
    FamilyTexts();
    assert StripDigitDelimiter("1/2/") == "1/";
  }

  lemma FamilyWellFormed()
    ensures WellFormed(Family())
  {
    FamilyTexts();
    var rows := Family();
    assert Placed(rows, 1) && Placed(rows, 2) && Placed(rows, 3) && Placed(rows, 4);
  }

  lemma FamilyChildren()
    ensures Children(Root1, Family()) == {2, 4}
  {
    var c := Children(Root1, Family());
    assert forall k :: k in c <==> k == 2 || k == 4;
  }

  lemma FamilyDescendants()
    ensures Descendants(Root1, Family()) == {2, 3, 4}
    ensures Descendants(Child2, Family()) == {3}
  {
    assert "1/" <= "1/2/" && "1/" <= "1/2/3/" && "1/" <= "1/4/";
    assert "1/2/" <= "1/2/3/" && !("1/2/" <= "1/");
    assert !("1/2/" <= "1/4/") by {
      assert "1/2/"[2] != "1/4/"[2];
    }
    var d1, d2 := Descendants(Root1, Family()), Descendants(Child2, Family());
    assert forall k :: k in d1 <==> k == 2 || k == 3 || k == 4;
    assert forall k :: k in d2 <==> k == 3;
  }

  lemma FamilyLineage()
    ensures WellFormed(Family()) && Lineage(Family(), 3) == [1, 2, 3]
  {
    FamilyWellFormed();
    var rows := Family();
    assert Lineage(rows, 1) == [1];
    assert Lineage(rows, 2) == [1, 2];
  }

  lemma FamilyAncestors()
    ensures Ancestors(Grandchild3, Family()) == {1, 2}
  {
    FamilyLineage();
    var rows := Family();
    var a := Ancestors(rows[3], rows);
    forall k
      ensures k in a <==> k == 1 || k == 2
    {
      AncestorsOnLineage(rows, 3, k);
    }
  }

  lemma FamilyRoot()
    ensures TreeModel.GetRoot(Grandchild3, Family()) == Some(Root1)
  {
    FamilyLineage();
    GetRootIsLineageHead(Family(), 3);
  }

  lemma FamilyFetchTree()
    ensures FetchTree(1, Family()) == {1, 2, 3, 4}
  {
    FamilyTexts();
    assert "1/" <= "1/" && "1/" <= "1/2/" && "1/" <= "1/2/3/" && "1/" <= "1/4/";
    var t := FetchTree(1, Family());
    assert forall k :: k in t <==> 1 <= k <= 4;
  }

  /**
   * Each node created by its attachment call on an empty table: the keys
   * are handed out in order and the columns are the materialized paths.
   */
  method BuildFamily() returns (root: Tree, child: Tree, grandchild: Tree, sibling: Tree, db: Store)
    ensures root.Attributes() == Root1 && child.Attributes() == Child2
    ensures grandchild.Attributes() == Grandchild3 && sibling.Attributes() == Sibling4
    ensures db.rows == Family() && WellFormed(db.rows)
  {
    FamilyAttachments();
    db := new Store();
    root := new Tree();
    root.SetAsRoot(db);
    assert root.Attributes() == Root1 && db.rows == map[1 := Root1] && db.nextId == 2;
    child := new Tree();
    child.SetChildOf(root, db);
    assert child.Attributes() == Child2 && db.rows == map[1 := Root1, 2 := Child2] && db.nextId == 3;
    grandchild := new Tree();
    grandchild.SetChildOf(child, db);
    assert grandchild.Attributes() == Grandchild3 && db.nextId == 4;
    assert db.rows == map[1 := Root1, 2 := Child2, 3 := Grandchild3];
    sibling := new Tree();
    sibling.SetSiblingOf(child, db);
    assert sibling.Attributes() == Sibling4;
    assert db.rows == Family();
    FamilyWellFormed();
  }

  /** setChildOf(p) a second time, with p unchanged, changes neither the node nor the table. */
  method ChildOfTwice(t: Tree, p: Tree, db: Store) returns (once: Node, twice: Node, rowsOnce: map<Id, Node>, rowsTwice: map<Id, Node>)
    requires t.Valid() && p.Valid() && db.Valid() && t != p
    modifies t, db
    ensures once == twice && rowsOnce == rowsTwice
    ensures once.key.Some? && once == AsChildOf(once.key.value, old(p.Attributes()))
  {
    ghost var rows0, was := db.rows, t.persisted;
    t.SetChildOf(p, db);
    once, rowsOnce := t.Attributes(), db.rows;
    t.SetChildOf(p, db);
    twice, rowsTwice := t.Attributes(), db.rows;
    SavedAgain(rows0, once, was);
  }

  /** setAsRoot a second time changes neither the node nor the table. */
  method AsRootTwice(t: Tree, db: Store) returns (once: Node, twice: Node, rowsOnce: map<Id, Node>, rowsTwice: map<Id, Node>)
    requires t.Valid() && db.Valid()
    modifies t, db
    ensures once == twice && rowsOnce == rowsTwice
    ensures once.key.Some? && once == AsRoot(once.key.value)
  {
    ghost var rows0, was := db.rows, t.persisted;
    t.SetAsRoot(db);
    once, rowsOnce := t.Attributes(), db.rows;
    t.SetAsRoot(db);
    twice, rowsTwice := t.Attributes(), db.rows;
    SavedAgain(rows0, once, was);
  }

  /** setSiblingOf(s) a second time, with s unchanged, changes neither the node nor the table. */
  method SiblingOfTwice(t: Tree, s: Tree, db: Store) returns (once: Node, twice: Node, rowsOnce: map<Id, Node>, rowsTwice: map<Id, Node>)
    requires t.Valid() && s.Valid() && db.Valid() && t != s
    modifies t, db
    ensures once == twice && rowsOnce == rowsTwice
    ensures once.key.Some? && once == AsSiblingOf(once.key.value, old(s.Attributes()))
  {
    ghost var rows0, was := db.rows, t.persisted;
    t.SetSiblingOf(s, db);
    once, rowsOnce := t.Attributes(), db.rows;
    t.SetSiblingOf(s, db);
    twice, rowsTwice := t.Attributes(), db.rows;
    SavedAgain(rows0, once, was);
  }

  /** Two roots, 1 and 2, and a node 3 attached under root 1. */
  method TwoRootsAndChild() returns (r1: Tree, r2: Tree, c: Tree, db: Store)
    ensures db.Valid() && c.Valid() && r2.Valid()
    ensures r2.key == Some(2) && 2 in db.rows
    ensures c.parent == Some(1) && 1 in db.rows && db.rows[1].key == Some(1)
    ensures c.parentCache == null && c != r2
    ensures fresh(c) && fresh(db)
  {
    db := new Store();
    r1 := new Tree();
    r1.SetAsRoot(db);
    r2 := new Tree();
    r2.SetAsRoot(db);
    assert r1.key == Some(1) && r2.key == Some(2);
    c := new Tree();
    c.SetChildOf(r1, db);
  }

  /**
   * The parent cache outlives a move: a node that read its parent under
   * root 1 and is then attached under root 2 still gets the object for
   * row 1 from getParent, although its parent column says 2.
   */
  method StaleParentCache() returns (c: Tree, cached: Tree?, db: Store)
    ensures c.parent == Some(2) && Find(db.rows, 2).Some?
    ensures cached != null && cached.key == Some(1)
  {
    var r1, r2;
    r1, r2, c, db := TwoRootsAndChild();
    var first := c.GetParent(db);
    assert first != null && first.key == Some(1);
    c.SetChildOf(r2, db);
    assert c.parentCache == first && c.parent == Some(2);
    cached := c.GetParent(db);
  }
}
