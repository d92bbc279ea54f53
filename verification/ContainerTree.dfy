/** readHierarchy: rebuilding the tree of container objects from the tables. */
module ContainerTree {
  import opened Optional
  import opened Orders
  import opened Containers
  import Text

  // ------------------------------------------------- latest version of each file

  /** ORDER BY file_id, file_version DESC. */
  predicate Before(a: File, b: File) {
    if a.fileId == b.fileId then a.version >= b.version else Text.LexLeq(a.fileId, b.fileId)
  }

  lemma BeforeIsTotalPreorder()
    ensures TotalPreorder(Before)
  {
    forall a, b
      ensures Before(a, b) || Before(b, a)
    {
      Text.LexTotal(a.fileId, b.fileId);
    }
    forall a, b, c | Before(a, b) && Before(b, c)
      ensures Before(a, c)
    {
      if a.fileId == c.fileId && a.fileId != b.fileId {
        Text.LexAntisymmetric(a.fileId, b.fileId);
      } else if a.fileId != b.fileId && b.fileId != c.fileId {
        Text.LexTransitive(a.fileId, b.fileId, c.fileId);
      }
    }
  }

  ghost predicate Ordered(rows: seq<File>) {
    forall i, j :: 0 <= i < j < |rows| ==> Before(rows[i], rows[j])
  }

  /** The rows the loop keeps: those whose file_id differs from the one before. */
  function Latest(rows: seq<File>): seq<File> {
    if rows == [] then []
    else
      var n := |rows| - 1;
      Latest(rows[..n]) + if n == 0 || rows[n - 1].fileId != rows[n].fileId then [rows[n]] else []
  }

  ghost predicate Covered(kept: seq<File>, r: File) {
    exists k :: k in kept && k.fileId == r.fileId && k.version >= r.version
  }

  /** Exactly one row per file_id that occurs in rows, and that row has its maximal version. */
  ghost predicate OneOfEachLatest(kept: seq<File>, rows: set<File>) {
    && (forall i, j :: 0 <= i < j < |kept| ==> kept[i].fileId != kept[j].fileId)
    && (forall k :: k in kept ==> k in rows)
    && (forall r {:trigger Covered(kept, r)} :: r in rows ==> Covered(kept, r))
  }

  lemma KeepNew(kept: seq<File>, rows: set<File>, last: File)
    requires OneOfEachLatest(kept, rows) && forall k :: k in kept ==> k.fileId != last.fileId
    ensures OneOfEachLatest(kept + [last], rows + {last})
  {
    forall r | r in rows + {last}
      ensures Covered(kept + [last], r)
    {
      if r == last {
        assert last in kept + [last];
      } else {
        assert Covered(kept, r);
        var k :| k in kept && k.fileId == r.fileId && k.version >= r.version;
        assert k in kept + [last];
      }
    }
  }

  lemma SkipOlder(kept: seq<File>, rows: set<File>, newer: File, last: File)
    requires OneOfEachLatest(kept, rows) && newer in rows
    requires newer.fileId == last.fileId && newer.version >= last.version
    ensures OneOfEachLatest(kept, rows + {last})
  {
    assert Covered(kept, newer);
    var k :| k in kept && k.fileId == newer.fileId && k.version >= newer.version;
    assert Covered(kept, last);
  }

  lemma {:induction false} LatestKeepsMaximal(rows: seq<File>)
    requires Ordered(rows)
    ensures OneOfEachLatest(Latest(rows), Elements(rows))
  {
    if rows == [] {
      assert OneOfEachLatest(Latest([]), Elements([]));
    } else {
      var init, last := rows[..|rows| - 1], rows[|rows| - 1];
      LatestStep(rows);
      hide *;
      LatestKeepsMaximal(init);
      if |rows| == 1 || rows[|rows| - 2].fileId != last.fileId {
        NewId(Latest(init), rows);
        KeepNew(Latest(init), Elements(init), last);
      } else {
        SkipOlder(Latest(init), Elements(init), rows[|rows| - 2], last);
      }
    }
  }

  /** The rows that are kept stay in their order. */
  lemma {:induction false} LatestIsOrdered(rows: seq<File>)
    requires Ordered(rows)
    ensures Ordered(Latest(rows)) && forall r :: r in Latest(rows) ==> r in rows
  {
    if rows != [] {
      var n := |rows| - 1;
      LatestIsOrdered(rows[..n]);
      hide Before;
      forall r | r in Latest(rows[..n])
        ensures Before(r, rows[n])
      {
        assert r in rows[..n];
      }
    }
  }

  lemma LatestStep(rows: seq<File>)
    requires Ordered(rows) && rows != []
    ensures var init, last := rows[..|rows| - 1], rows[|rows| - 1];
            var isNew := |rows| == 1 || rows[|rows| - 2].fileId != last.fileId;
            && Ordered(init) && Elements(rows) == Elements(init) + {last}
            && Latest(rows) == (if isNew then Latest(init) + [last] else Latest(init))
            && (!isNew ==> rows[|rows| - 2] in Elements(init) && rows[|rows| - 2].version >= last.version)
  {
    var init, last := rows[..|rows| - 1], rows[|rows| - 1];
    assert rows == init + [last];
    if |rows| > 1 && rows[|rows| - 2].fileId == last.fileId {
      assert Before(rows[|rows| - 2], last) && init[|rows| - 2] in Elements(init);
    }
  }

  lemma NewId(kept: seq<File>, rows: seq<File>)
    requires Ordered(rows) && rows != [] && OneOfEachLatest(kept, Elements(rows[..|rows| - 1]))
    requires |rows| == 1 || rows[|rows| - 2].fileId != rows[|rows| - 1].fileId
    ensures forall k :: k in kept ==> k.fileId != rows[|rows| - 1].fileId
  {
    forall k | k in kept
      ensures k.fileId != rows[|rows| - 1].fileId
    {
      assert k in Elements(rows[..|rows| - 1]);
      hide OneOfEachLatest, Ordered;
      NotBackAgain(rows, k);
    }
  }

  /** Once the order has left a file_id it does not come back to it. */
  lemma NotBackAgain(rows: seq<File>, r: File)
    requires Ordered(rows) && |rows| > 1 && r in rows[..|rows| - 1]
    requires rows[|rows| - 2].fileId != rows[|rows| - 1].fileId
    ensures r.fileId != rows[|rows| - 1].fileId
  {
    var n := |rows| - 1;
    var i :| 0 <= i < n && rows[i] == r;
    if i < n - 1 && r.fileId == rows[n].fileId {
      Text.LexAntisymmetric(r.fileId, rows[n - 1].fileId);
    }
  }

  // ------------------------------------------------------------ trees as values

  datatype Tree = Tree(id: string, row: Row, files: seq<File>, children: seq<Tree>)

  function FilesIn(db: Db, id: string): set<File> {
    set f | f in db.files && db.files[f] == Some(id)
  }

  function RootIds(ts: seq<Tree>): seq<string> {
    seq(|ts|, i requires 0 <= i < |ts| => ts[i].id)
  }

  /** What readHierarchy is to return: the rows of a container and, in any order, of its children. */
  ghost predicate IsHierarchy(db: Db, t: Tree, includeFiles: bool) {
    && t.id in db.containers && t.row == db.containers[t.id]
    && (if includeFiles then OneOfEachLatest(t.files, FilesIn(db, t.id)) && Ordered(t.files) else t.files == [])
    && Distinct(RootIds(t.children)) && Elements(RootIds(t.children)) == Children(db, t.id)
    && forall i :: 0 <= i < |t.children| ==> IsHierarchy(db, t.children[i], includeFiles)
  }

  function Ids(t: Tree): seq<string> {
    [t.id] + IdsOfAll(t.children)
  }

  function IdsOfAll(ts: seq<Tree>): seq<string> {
    if ts == [] then [] else Ids(ts[0]) + IdsOfAll(ts[1..])
  }

  /** id and everything below it. */
  ghost predicate Below(db: Db, c: string, id: string) {
    c in db.containers && exists n: nat :: Up(db, c, n) == Some(id)
  }

  lemma BelowSteps(db: Db, c: string, id: string)
    requires ParentsExist(db) && id in db.containers
    ensures Below(db, c, id) <==> c == id || exists x :: x in Children(db, id) && Below(db, c, x)
  {
    if Below(db, c, id) && c != id {
      var n: nat :| Up(db, c, n) == Some(id);
      assert Up(db, c, 0) == Some(c);
      var x := Up(db, c, n - 1).value;
      assert x in Children(db, id) && Below(db, c, x);
    }
    if c == id {
      assert Up(db, c, 0) == Some(id);
    }
    forall x | x in Children(db, id) && Below(db, c, x)
      ensures Below(db, c, id)
    {
      var n: nat :| Up(db, c, n) == Some(x);
      assert Up(db, c, n + 1) == Some(id);
    }
  }

  /** Walking up from c one meets id at one height only. */
  lemma {:induction false} OneHeight(db: Db, c: string, id: string, m: nat, n: nat)
    requires Acyclic(db) && id in db.containers && Up(db, c, m) == Up(db, c, n) == Some(id)
    ensures m == n
    decreases m > n
  {
    if m > n {
      OneHeight(db, c, id, n, m);
    } else {
      UpAdds(db, c, m, n - m);
    }
  }

  /** In a forest no container lies below two siblings, nor above one of its own children. */
  lemma BranchesAreDisjoint(db: Db, id: string, x: string, y: string, c: string)
    requires Acyclic(db) && id in db.containers && x in Children(db, id) && Below(db, c, x)
    ensures c != id
    ensures y in Children(db, id) && Below(db, c, y) ==> x == y
  {
    var m: nat :| Up(db, c, m) == Some(x);
    assert Up(db, c, m + 1) == Some(id);
    if y in Children(db, id) && Below(db, c, y) {
      var n: nat :| Up(db, c, n) == Some(y);
      assert Up(db, c, n + 1) == Some(id);
      OneHeight(db, c, id, m + 1, n + 1);
    }
  }

  lemma {:induction false} HierarchyIsComplete(db: Db, t: Tree, includeFiles: bool)
    requires Forest(db) && IsHierarchy(db, t, includeFiles)
    ensures Distinct(Ids(t))
    ensures forall c :: c in Elements(Ids(t)) <==> Below(db, c, t.id)
    decreases t, 1
  {
    HierarchiesAreComplete(db, t.id, t.children, includeFiles);
    var below := IdsOfAll(t.children);
    forall c
      ensures c in Elements(below) ==> c != t.id
      ensures c in Elements(Ids(t)) <==> Below(db, c, t.id)
    {
      assert c in Elements(Ids(t)) <==> c == t.id || c in Elements(below);
      BelowSteps(db, c, t.id);
      forall x | x in Children(db, t.id) && Below(db, c, x)
        ensures c != t.id
      {
        BranchesAreDisjoint(db, t.id, x, x, c);
      }
    }
    assert t.id !in Elements(below);
    DistinctConcat([t.id], below);
  }

  lemma {:induction false} HierarchiesAreComplete(db: Db, id: string, ts: seq<Tree>, includeFiles: bool)
    requires Forest(db) && id in db.containers
    requires forall i :: 0 <= i < |ts| ==> IsHierarchy(db, ts[i], includeFiles)
    requires Distinct(RootIds(ts)) && Elements(RootIds(ts)) <= Children(db, id)
    ensures Distinct(IdsOfAll(ts))
    ensures forall c :: c in Elements(IdsOfAll(ts)) <==> exists x :: x in Elements(RootIds(ts)) && Below(db, c, x)
    decreases ts, 0
  {
    if ts != [] {
      var t, rest := ts[0], ts[1..];
      assert RootIds(ts) == [t.id] + RootIds(rest);
      DistinctTail(RootIds(ts));
      assert RootIds(ts)[1..] == RootIds(rest);
      HierarchyIsComplete(db, t, includeFiles);
      HierarchiesAreComplete(db, id, rest, includeFiles);
      forall c | c in Elements(Ids(t)) && c in Elements(IdsOfAll(rest))
        ensures false
      {
        var x :| x in Elements(RootIds(rest)) && Below(db, c, x);
        BranchesAreDisjoint(db, id, t.id, x, c);
      }
      DistinctConcat(Ids(t), IdsOfAll(rest));
    }
  }

  /** Node n is t itself or somewhere under it. */
  predicate IsPart(n: Tree, t: Tree) {
    n == t || exists i :: 0 <= i < |t.children| && IsPart(n, t.children[i])
  }

  lemma {:induction false} PartsAreRows(db: Db, t: Tree, includeFiles: bool, n: Tree)
    requires IsHierarchy(db, t, includeFiles) && IsPart(n, t)
    ensures n.id in db.containers && n.row == db.containers[n.id]
    ensures forall c :: c in RootIds(n.children) <==> c in db.containers && db.containers[c].parent == Some(n.id)
    ensures if includeFiles then OneOfEachLatest(n.files, FilesIn(db, n.id)) && Ordered(n.files) else n.files == []
    decreases t
  {
    if n == t {
      forall c
        ensures c in RootIds(n.children) <==> c in db.containers && db.containers[c].parent == Some(n.id)
      {
        InElements(c, RootIds(n.children));
        assert c in Children(db, n.id) <==> c in db.containers && db.containers[c].parent == Some(n.id);
      }
    } else {
      var i :| 0 <= i < |t.children| && IsPart(n, t.children[i]);
      hide RootIds, OneOfEachLatest;
      PartsAreRows(db, t.children[i], includeFiles, n);
    }
  }

  lemma {:induction false} EveryIdIsAPart(ts: seq<Tree>, c: string)
    requires c in IdsOfAll(ts)
    ensures exists i, n :: 0 <= i < |ts| && IsPart(n, ts[i]) && n.id == c
    decreases ts
  {
    var t, rest := ts[0], ts[1..];
    if c == t.id {
      assert IsPart(t, ts[0]) && t.id == c;
    } else if c in IdsOfAll(t.children) {
      EveryIdIsAPart(t.children, c);
      var i, n :| 0 <= i < |t.children| && IsPart(n, t.children[i]) && n.id == c;
      assert IsPart(n, ts[0]);
    } else {
      EveryIdIsAPart(rest, c);
      var i, n :| 0 <= i < |rest| && IsPart(n, rest[i]) && n.id == c;
      assert rest[i] == ts[i + 1];
    }
  }

  /** Every container below the root is a node of the hierarchy, with its own row, its own files and its
      own children under it. */
  lemma HierarchyHasEveryRow(db: Db, t: Tree, includeFiles: bool, c: string)
    requires Forest(db) && IsHierarchy(db, t, includeFiles) && Below(db, c, t.id)
    ensures exists n :: IsPart(n, t) && n.id == c && n.row == db.containers[c]
              && (forall k :: k in RootIds(n.children) <==> k in db.containers && db.containers[k].parent == Some(c))
              && if includeFiles
                 then OneOfEachLatest(n.files, set f | f in db.files && db.files[f] == Some(c)) && Ordered(n.files)
                 else n.files == []
  {
    HierarchyIsComplete(db, t, includeFiles);
    assert c in Elements(Ids(t));
    InElements(c, Ids(t));
    assert IdsOfAll([t]) == Ids(t) + IdsOfAll([t][1..]);
    EveryIdIsAPart([t], c);
    var i, n :| 0 <= i < |[t]| && IsPart(n, [t][i]) && n.id == c;
    hide IsHierarchy, Forest, Below, OneOfEachLatest, RootIds;
    PartsAreRows(db, t, includeFiles, n);
  }

  // ----------------------------------------------------------- trees as objects

  /** ngamsContainer. */
  class Container {
    var containerId: string
    var containerName: string
    var containerSize: int
    var ingestionDate: Option<string>
    var parentContainer: Container?
    var filesInfo: seq<File>
    var containers: seq<Container>

    ghost var Repr: set<Container>

    /** This object and the ones under it are the tree t, and each of those under it links back to
        the very object that lists it. */
    ghost predicate Is(t: Tree)
      reads this, Repr
      decreases t
    {
      && this in Repr
      && containerId == t.id && containerName == t.row.name && containerSize == t.row.size
      && ingestionDate == t.row.ingested && filesInfo == t.files
      && |containers| == |t.children|
      && (forall i :: 0 <= i < |containers| ==> containers[i] in Repr && containers[i].Repr <= Repr && this !in containers[i].Repr)
      && (forall i, j :: 0 <= i < j < |containers| ==> containers[i].Repr !! containers[j].Repr)
      && (forall i :: 0 <= i < |containers| ==> containers[i].parentContainer == this && containers[i].Is(t.children[i]))
    }

    /** The parent link is an object with the parent's id, or null. */
    ghost predicate LinksTo(parent: Option<string>)
      reads this, parentContainer
    {
      if Sanitized(parent).Some? then parentContainer != null && parentContainer.containerId == parent.value
      else parentContainer == null
    }

    constructor ()
      ensures containerId == "" && containerName == "" && containerSize == -1 && ingestionDate == None
      ensures parentContainer == null && filesInfo == [] && containers == [] && Repr == {this}
    {
      containerId, containerName, containerSize, ingestionDate := "", "", -1, None;
      parentContainer, filesInfo, containers := null, [], [];
      Repr := {this};
    }

    method AddFileInfo(file: File)
      modifies this`filesInfo
      ensures filesInfo == old(filesInfo) + [file]
    {
      filesInfo := filesInfo + [file];
    }

    method SetParentContainer(parent: Container)
      modifies this`parentContainer
      ensures parentContainer == parent
    {
      parentContainer := parent;
    }

    method AddContainer(container: Container, ghost t: Tree, ghost child: Tree)
      requires this in Repr && container in container.Repr && Repr !! container.Repr
      requires Is(t) && container.Is(child)
      modifies this`containers, this`Repr, container`parentContainer
      ensures containers == old(containers) + [container]
      ensures Repr == old(Repr) + container.Repr
      ensures Is(t.(children := t.children + [child]))
    {
      containers := containers + [container];
      Repr := Repr + container.Repr;
      container.SetParentContainer(this);
      assert container.Is(child);
      assert forall i :: 0 <= i < |t.children| ==> container !in containers[i].Repr;
    }
  }

  /** read: the container alone, with a stub for its parent that has only an id. */
  method Read(db: ContainerDb, containerId: string) returns (cont: Container?)
    ensures cont == null <==> containerId !in db.containers
    ensures cont != null ==>
              && fresh(cont) && cont.Repr == {cont}
              && cont.Is(Tree(containerId, db.containers[containerId], [], []))
              && cont.LinksTo(db.containers[containerId].parent)
              && (cont.parentContainer != null ==> fresh(cont.parentContainer) && cont.parentContainer != cont)
  {
    if containerId !in db.containers {
      return null;
    }
    var row := db.containers[containerId];
    var c := new Container();
    c.containerId := containerId;
    c.containerName := row.name;
    c.containerSize := row.size;
    if row.parent.Some? && row.parent.value != "" {
      var parentContainer := new Container();
      parentContainer.containerId := row.parent.value;
      c.SetParentContainer(parentContainer);
    }
    c.ingestionDate := row.ingested;
    cont := c;
  }

  /** The file rows of a container in the order asked for; rows that tie come in any order. */
  method SelectFiles(db: ContainerDb, containerId: string) returns (rows: seq<File>)
    ensures Ordered(rows) && Elements(rows) == FilesIn(db.Value(), containerId)
  {
    rows := [];
    var left := set f | f in db.files && db.files[f] == Some(containerId);
    assert left == FilesIn(db.Value(), containerId);
    BeforeIsTotalPreorder();
    while left != {}
      invariant Ordered(rows) && Elements(rows) + left == FilesIn(db.Value(), containerId)
      invariant forall r, f :: r in rows && f in left ==> Before(r, f)
    {
      LeastExists(Before, left);
      assert exists f :: f in left && forall g :: g in left ==> Before(f, g) by {
        var f :| Orders.IsLeast(Before, f, left);
      }
      var f :| f in left && forall g :: g in left ==> Before(f, g);
      assert Elements(rows + [f]) == Elements(rows) + {f};
      rows := rows + [f];
      left := left - {f};
    }
  }

  ghost function Ancestors(db: Db, id: string): set<string> {
    set a | a in db.containers && exists n: nat :: n > 0 && Up(db, id, n) == Some(a)
  }

  /** Going down one level leaves fewer containers that are not above. */
  lemma ChildHasMoreAncestors(db: Db, id: string, child: string)
    requires Forest(db) && id in db.containers && child in Children(db, id)
    ensures id in db.containers.Keys - Ancestors(db, id)
    ensures db.containers.Keys - Ancestors(db, child) < db.containers.Keys - Ancestors(db, id)
  {
    assert Up(db, child, 0) == Some(child);
    assert Up(db, child, 1) == Some(id);
    assert id in Ancestors(db, child);
    forall a | a in Ancestors(db, id)
      ensures a in Ancestors(db, child)
    {
      var n: nat :| n > 0 && Up(db, id, n) == Some(a);
      UpAdds(db, child, 1, n);
    }
  }

  lemma LatestOfNone(rows: seq<File>)
    ensures Latest(rows[..0]) == []
  {
  }

  lemma LatestNext(rows: seq<File>, i: nat)
    requires i < |rows|
    ensures Latest(rows[..i + 1])
         == Latest(rows[..i]) + if i == 0 || rows[i - 1].fileId != rows[i].fileId then [rows[i]] else []
  {
    assert rows[..i + 1][..i] == rows[..i];
  }

  /** The first half of readHierarchy: the latest version of each file in the container. */
  method AddLatestFiles(db: ContainerDb, c: Container)
    requires c.filesInfo == []
    modifies c`filesInfo
    ensures OneOfEachLatest(c.filesInfo, FilesIn(db.Value(), c.containerId)) && Ordered(c.filesInfo)
  {
    hide *;
    var res := SelectFiles(db, c.containerId);
    LatestKeepsMaximal(res);
    LatestIsOrdered(res);
    LatestOfNone(res);
    var prevFileId: Option<string> := None;
    for i := 0 to |res|
      invariant c.filesInfo == Latest(res[..i])
      invariant prevFileId == if i == 0 then None else Some(res[i - 1].fileId)
    {
      LatestNext(res, i);
      if prevFileId != Some(res[i].fileId) {
        prevFileId := Some(res[i].fileId);
        c.AddFileInfo(res[i]);
      }
    }
    assert res[..|res|] == res;
  }

  /** tree is the hierarchy of its container but for the children in left. */
  ghost predicate Growing(db: Db, tree: Tree, includeFiles: bool, left: set<string>) {
    && tree.id in db.containers && tree.row == db.containers[tree.id]
    && (if includeFiles then OneOfEachLatest(tree.files, FilesIn(db, tree.id)) && Ordered(tree.files) else tree.files == [])
    && left <= Children(db, tree.id)
    && Distinct(RootIds(tree.children)) && Elements(RootIds(tree.children)) == Children(db, tree.id) - left
    && forall i :: 0 <= i < |tree.children| ==> IsHierarchy(db, tree.children[i], includeFiles)
  }

  lemma Grows(db: Db, tree: Tree, includeFiles: bool, left: set<string>, child: Tree)
    requires Growing(db, tree, includeFiles, left) && child.id in left && IsHierarchy(db, child, includeFiles)
    ensures Growing(db, tree.(children := tree.children + [child]), includeFiles, left - {child.id})
  {
    hide OneOfEachLatest;
    assert RootIds(tree.children + [child]) == RootIds(tree.children) + [child.id];
    DistinctAppend(RootIds(tree.children), child.id);
  }

  lemma Grown(db: Db, tree: Tree, includeFiles: bool)
    requires Forest(db) && Growing(db, tree, includeFiles, {})
    ensures IsHierarchy(db, tree, includeFiles)
    ensures Distinct(Ids(tree)) && forall c :: c in Elements(Ids(tree)) <==> Below(db, c, tree.id)
  {
    hide OneOfEachLatest, Forest;
    HierarchyIsComplete(db, tree, includeFiles);
  }

  /** Terminates because each level down has one more container above it. The result, null for an
      unknown id, is the tree (a ghost copy of it) of everything below the id, each object once. */
  method ReadHierarchy(db: ContainerDb, containerId: string, includeFiles: bool) returns (container: Container?, ghost tree: Tree)
    requires Forest(db.Value())
    ensures container == null <==> containerId !in db.containers
    ensures container != null ==>
              && fresh(container.Repr) && container.Is(tree) && container.LinksTo(db.containers[containerId].parent)
              && tree.id == containerId && IsHierarchy(db.Value(), tree, includeFiles)
              && Distinct(Ids(tree)) && (forall c :: c in Elements(Ids(tree)) <==> Below(db.Value(), c, containerId))
    decreases db.containers.Keys - Ancestors(db.Value(), containerId), 1
  {
    hide OneOfEachLatest, Ordered, Forest, Growing, IsHierarchy, Below, Distinct, Elements, FilesIn, Ids, Ancestors;
    var c := Read(db, containerId);
    tree := Tree(containerId, Row(None, "", 0, None), [], []);
    if c == null {
      // The two queries below find nothing in a forest, and the result is None.
      return null, tree;
    }
    container := c;
    tree := tree.(row := db.containers[containerId]);
    if includeFiles {
      AddLatestFiles(db, c);
      tree := tree.(files := c.filesInfo);
    }
    var left := set k | k in db.containers && db.containers[k].parent == Some(containerId);
    StartsGrowing(db.Value(), tree, includeFiles, left);
    while left != {}
      invariant left <= Children(db.Value(), containerId) && tree.id == containerId
      invariant fresh(c.Repr) && c.Is(tree) && c.LinksTo(db.containers[containerId].parent)
      invariant Growing(db.Value(), tree, includeFiles, left)
    {
      var r :| r in left;
      tree := AddSubtree(db, c, tree, r, includeFiles, left);
      left := left - {r};
    }
    Grown(db.Value(), tree, includeFiles);
  }

  /** The body of the loop over the children: reads one and hangs it under c. */
  method AddSubtree(db: ContainerDb, c: Container, ghost tree: Tree, r: string, includeFiles: bool, ghost left: set<string>)
    returns (ghost tree': Tree)
    requires Forest(db.Value()) && tree.id in db.containers && r in left && left <= Children(db.Value(), tree.id)
    requires c.Is(tree) && Growing(db.Value(), tree, includeFiles, left)
    modifies c`containers, c`Repr
    ensures fresh(c.Repr - old(c.Repr)) && c.Is(tree') && tree'.id == tree.id
    ensures Growing(db.Value(), tree', includeFiles, left - {r})
    decreases db.containers.Keys - Ancestors(db.Value(), tree.id), 0
  {
    hide OneOfEachLatest, Ordered, Forest, Growing, IsHierarchy, Below, Distinct, Elements, FilesIn, Ids;
    ChildHasMoreAncestors(db.Value(), tree.id, r);
    var child, childTree := ReadHierarchy(db, r, includeFiles);
    Grows(db.Value(), tree, includeFiles, left, childTree);
    tree' := tree.(children := tree.children + [childTree]);
    c.AddContainer(child, tree, childTree);
  }

  lemma StartsGrowing(db: Db, tree: Tree, includeFiles: bool, left: set<string>)
    requires tree.id in db.containers && tree.row == db.containers[tree.id] && tree.children == []
    requires if includeFiles then OneOfEachLatest(tree.files, FilesIn(db, tree.id)) && Ordered(tree.files) else tree.files == []
    requires left == Children(db, tree.id)
    ensures Growing(db, tree, includeFiles, left)
  {
    assert RootIds(tree.children) == [];
  }
}
