/**
 * The model objects and the table they are saved to. A `Store` stands in
 * for the table: its rows by primary key and the next auto-increment value.
 * A `Tree` is one model instance: its attributes, Eloquent's `exists` flag
 * and the parent object cached by its first getParent. The attachment
 * methods assign the three tree columns and save this one node.
 */
module EloquentTree {
  import opened Options
  import opened Paths
  import opened TreeModel
  import opened TreeInvariant

  /**
   * The rows after saving the attributes `n`: an insert (the model did not
   * exist) adds the row, an update replaces the row with n's key when there
   * is one and otherwise matches nothing.
   */
  function Saved(rows: map<Id, Node>, n: Node, existed: bool): (r: map<Id, Node>)
    requires n.key.Some?
    ensures r.Keys == if existed then rows.Keys else rows.Keys + {n.key.value}
    ensures n.key.value in r <==> !existed || n.key.value in rows
    ensures n.key.value in r ==> r[n.key.value] == n
  {
    if !existed || n.key.value in rows then rows[n.key.value := n] else rows
  }

  /** A save touches no row but its own: there is no cascading update of descendants. */
  lemma SavedTouchesOneRow(rows: map<Id, Node>, n: Node, existed: bool, j: Id)
    requires n.key.Some? && j in rows && j != n.key.value
    ensures j in Saved(rows, n, existed) && Saved(rows, n, existed)[j] == rows[j]
  {
  }

  /** Saving the same attributes again leaves the rows as they are. */
  lemma SavedAgain(rows: map<Id, Node>, n: Node, existed: bool)
    requires n.key.Some?
    ensures Saved(Saved(rows, n, existed), n, true) == Saved(rows, n, existed)
  {
    var r := Saved(rows, n, existed);
    if n.key.value in r {
      assert r[n.key.value := n] == r;
    }
  }

  /**
   * The key an attachment saves under keeps a well-formed store well
   * formed when it is a fresh key (the node did not exist) or the key of a
   * row without children (the node existed).
   */
  ghost predicate Attachable(rows: map<Id, Node>, k: Id, existed: bool) {
    if existed then IsLeaf(rows, k) else k >= 1 && k !in rows
  }

  /** setAsRoot's save keeps a well-formed store well formed. */
  lemma SaveAsRootKeepsWellFormed(rows: map<Id, Node>, k: Id, existed: bool)
    requires WellFormed(rows) && Attachable(rows, k, existed)
    ensures WellFormed(Saved(rows, AsRoot(k), existed))
  {
    if !existed {
      FreshIsLeaf(rows, k);
    }
    if k in rows {
      assert Placed(rows, k);
    }
    if !existed || k in rows {
      AsRootKeepsWellFormed(rows, k);
    }
  }

  /** setChildOf(p)'s save, p another stored row as the table holds it, keeps a well-formed store well formed. */
  lemma SaveAsChildKeepsWellFormed(rows: map<Id, Node>, k: Id, existed: bool, p: Node)
    requires WellFormed(rows) && Attachable(rows, k, existed)
    requires p.key.Some? && p.key.value in rows && rows[p.key.value] == p && p.key != Some(k)
    ensures WellFormed(Saved(rows, AsChildOf(k, p), existed))
  {
    if !existed {
      FreshIsLeaf(rows, k);
    }
    if k in rows {
      assert Placed(rows, k);
    }
    if !existed || k in rows {
      AsChildKeepsWellFormed(rows, k, p.key.value);
    }
  }

  /** setSiblingOf(s)'s save, s a stored row with a one-digit key, keeps a well-formed store well formed. */
  lemma SaveAsSiblingKeepsWellFormed(rows: map<Id, Node>, k: Id, existed: bool, s: Node)
    requires WellFormed(rows) && Attachable(rows, k, existed)
    requires s.key.Some? && s.key.value in rows && rows[s.key.value] == s && s.key.value < 10
    ensures WellFormed(Saved(rows, AsSiblingOf(k, s), existed))
  {
    if !existed {
      FreshIsLeaf(rows, k);
    }
    if k in rows {
      assert Placed(rows, k);
    }
    if !existed || k in rows {
      AsSiblingKeepsWellFormed(rows, k, s.key.value);
    }
  }

  class Store {
    /** The table, by primary key. */
    var rows: map<Id, Node>
    /** The value the next insert takes as its key. */
    var nextId: Id

    ghost predicate Valid()
      reads this
    {
      && nextId >= 1
      && forall k :: k in rows ==> 1 <= k < nextId && rows[k].key == Some(k)
    }

    constructor()
      ensures Valid() && rows == map[] && nextId == 1
    {
      rows := map[];
      nextId := 1;
    }

    /** INSERT: the row gets the next auto-increment key. */
    method Insert(n: Node) returns (k: Id)
      requires Valid()
      modifies this
      ensures Valid()
      ensures k == old(nextId) && k !in old(rows)
      ensures rows == old(rows)[k := n.(key := Some(k))]
      ensures nextId == old(nextId) + 1
    {
      k := nextId;
      rows := rows[k := n.(key := Some(k))];
      nextId := nextId + 1;
    }

    /** UPDATE ... WHERE id = key: replaces the row with that key, if any. */
    method Update(n: Node)
      requires Valid() && n.key.Some?
      modifies this`rows
      ensures Valid()
      ensures rows == Saved(old(rows), n, true)
    {
      if n.key.value in rows {
        rows := rows[n.key.value := n];
      }
    }
  }

  class Tree {
    /** The primary key; None until the first save. */
    var key: Option<Id>
    /** Eloquent's `exists`: the model has been inserted or loaded. */
    var persisted: bool
    var path: string
    var parent: Option<Id>
    var level: int
    /** `_parent`: the object the first successful getParent loaded. */
    var parentCache: Tree?

    ghost predicate Valid()
      reads this
    {
      persisted == key.Some?
    }

    /** The record this model would write. */
    function Attributes(): Node
      reads this
    {
      Node(key, path, parent, level)
    }

    /** A new model, not yet saved: null columns read as "" and 0. */
    constructor()
      ensures Valid() && !persisted
      ensures Attributes() == Node(None, [], None, 0) && parentCache == null
    {
      key := None;
      persisted := false;
      path := [];
      parent := None;
      level := 0;
      parentCache := null;
    }

    /** A model loaded from a row, as `first()` returns it. */
    constructor Load(n: Node)
      requires n.key.Some?
      ensures Valid() && persisted
      ensures Attributes() == n && parentCache == null
    {
      key := n.key;
      persisted := true;
      path := n.path;
      parent := n.parent;
      level := n.level;
      parentCache := null;
    }

    /** save(): insert with a fresh key when the model does not exist, else update its row. */
    method Save(db: Store)
      requires Valid() && db.Valid()
      modifies this`key, this`persisted, db
      ensures Valid() && db.Valid() && persisted
      ensures key == if old(persisted) then old(key) else Some(old(db.nextId))
      ensures !old(persisted) ==> key.value !in old(db.rows)
      ensures db.nextId == if old(persisted) then old(db.nextId) else old(db.nextId) + 1
      ensures db.rows == Saved(old(db.rows), Attributes(), old(persisted))
    {
      if persisted {
        db.Update(Attributes());
      } else {
        var k := db.Insert(Attributes());
        key := Some(k);
        persisted := true;
      }
    }

    /** _handleNewNodes: a model that does not exist yet is saved first, which gives it its key. */
    method HandleNewNodes(db: Store)
      requires Valid() && db.Valid()
      modifies this`key, this`persisted, db
      ensures Valid() && db.Valid() && persisted
      ensures old(persisted) ==> key == old(key) && db.rows == old(db.rows) && db.nextId == old(db.nextId)
      ensures !old(persisted) ==>
        && key == Some(old(db.nextId))
        && key.value !in old(db.rows)
        && db.rows == old(db.rows)[key.value := Attributes()]
        && db.nextId == old(db.nextId) + 1
    {
      if !persisted {
        Save(db);
      }
    }

    /**
     * setAsRoot: path `id/`, no parent, level 0, saved. Only this node's row
     * changes (SaveAsRootKeepsWellFormed: the store stays well formed when
     * the node has no children).
     */
    method SetAsRoot(db: Store)
      requires Valid() && db.Valid()
      modifies this`key, this`persisted, this`path, this`parent, this`level, db
      ensures Valid() && db.Valid() && persisted
      ensures key == if old(persisted) then old(key) else Some(old(db.nextId))
      ensures db.nextId == if old(persisted) then old(db.nextId) else old(db.nextId) + 1
      ensures Attributes() == AsRoot(key.value)
      ensures db.rows == Saved(old(db.rows), Attributes(), old(persisted))
    {
      HandleNewNodes(db);
      var k := key.value;
      path := IdText(k) + [Delimiter];
      parent := None;
      level := 0;
      Save(db);
    }

    /**
     * setChildOf(p): path `p.path + id/`, parent p's key, level one more
     * than p's, saved. The columns of p are read after this node has been
     * created, so when p is this very object its new key is the one used.
     */
    method SetChildOf(p: Tree, db: Store)
      requires Valid() && p.Valid() && db.Valid()
      modifies this`key, this`persisted, this`path, this`parent, this`level, db
      ensures Valid() && db.Valid() && persisted
      ensures key == if old(persisted) then old(key) else Some(old(db.nextId))
      ensures db.nextId == if old(persisted) then old(db.nextId) else old(db.nextId) + 1
      ensures Attributes() == AsChildOf(key.value, old(p.Attributes()).(key := p.key))
      ensures p != this ==> p.Attributes() == old(p.Attributes())
      ensures db.rows == Saved(old(db.rows), Attributes(), old(persisted))
    {
      HandleNewNodes(db);
      var k := key.value;
      path := p.path + IdText(k) + [Delimiter];
      parent := p.key;
      level := p.level + 1;
      Save(db);
    }

    /**
     * setSiblingOf(s): path s.path with its last digit and `/` removed,
     * then `id/`; s's parent and level; saved. The path keeps s's ancestor
     * prefix only when s's own key is a single digit.
     */
    method SetSiblingOf(s: Tree, db: Store)
      requires Valid() && s.Valid() && db.Valid()
      modifies this`key, this`persisted, this`path, this`parent, this`level, db
      ensures Valid() && db.Valid() && persisted
      ensures key == if old(persisted) then old(key) else Some(old(db.nextId))
      ensures db.nextId == if old(persisted) then old(db.nextId) else old(db.nextId) + 1
      ensures Attributes() == AsSiblingOf(key.value, old(s.Attributes()))
      ensures s != this ==> s.Attributes() == old(s.Attributes())
      ensures db.rows == Saved(old(db.rows), Attributes(), old(persisted))
    {
      HandleNewNodes(db);
      var k := key.value;
      path := StripDigitDelimiter(s.path) + IdText(k) + [Delimiter];
      parent := s.parent;
      level := s.level;
      Save(db);
    }

    /**
     * getParent: nothing when the parent column is falsy; otherwise the
     * cached object if there is one, else the parent row loaded as a new
     * object and cached (a miss is not cached). The cache is never cleared,
     * so after a later attachment it may name the old parent.
     */
    method GetParent(db: Store) returns (r: Tree?)
      requires db.Valid()
      modifies this`parentCache
      ensures !Truthy(parent) ==> r == null && parentCache == old(parentCache)
      ensures Truthy(parent) && old(parentCache) != null ==> r == old(parentCache) && parentCache == r
      ensures Truthy(parent) && old(parentCache) == null ==>
        && parentCache == r
        && (r == null <==> parent.value !in db.rows)
        && (r != null ==> fresh(r) && r.Valid() && Some(r.Attributes()) == Find(db.rows, parent.value) && r.parentCache == null)
    {
      if Truthy(parent) {
        if parentCache == null {
          var found := Find(db.rows, parent.value);
          if found.Some? {
            r := new Tree.Load(found.value);
          } else {
            r := null;
          }
          parentCache := r;
        } else {
          r := parentCache;
        }
      } else {
        r := null;
      }
    }

    /**
     * getRoot: this very object when it is a root, else the row named by
     * the first id of its path, loaded as a new object.
     */
    method GetRoot(db: Store) returns (r: Tree?)
      requires db.Valid()
      ensures IsRoot(Attributes()) ==> r == this
      ensures !IsRoot(Attributes()) ==> r != this && (r == null <==> TreeModel.GetRoot(Attributes(), db.rows).None?)
      ensures r != null ==> Some(r.Attributes()) == TreeModel.GetRoot(Attributes(), db.rows)
      ensures r != null && r != this ==> fresh(r) && r.Valid()
    {
      if IsRoot(Attributes()) {
        r := this;
      } else {
        var found := TreeModel.GetRoot(Attributes(), db.rows);
        if found.Some? {
          r := new Tree.Load(found.value);
        } else {
          r := null;
        }
      }
    }
  }
}
