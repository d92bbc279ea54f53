/** The ngas_containers and ngas_files tables, and what creating and destroying containers keeps. */
module Containers {
  import opened Optional
  import opened Orders

  datatype Row = Row(parent: Option<string>, name: string, size: int, ingested: Option<string>)

  /** The primary key of ngas_files. */
  datatype File = File(diskId: string, fileId: string, version: int)

  /** files tells for every row of ngas_files the container it is in. */
  datatype Db = Db(containers: map<string, Row>, files: map<File, Option<string>>)

  datatype Failure = NoSuchParent | NameTaken | HasChildren

  datatype Result<T> = Ok(value: T) | Error(failure: Failure)

  // --------------------------------------------------------------- operations

  function Children(db: Db, id: string): set<string> {
    set c | c in db.containers && db.containers[c].parent == Some(id)
  }

  function Sanitized(parent: Option<string>): Option<string> {
    if parent == Some("") then None else parent
  }

  predicate NameInUse(db: Db, parent: string, name: string) {
    exists c :: c in Children(db, parent) && db.containers[c].name == name
  }

  /** newId is the new UUID. */
  function Create(db: Db, name: string, size: int, ingested: Option<string>, parent: Option<string>,
                  parentKnownToExist: bool, newId: string): (Db, Result<string>)
  {
    var p := Sanitized(parent);
    if p.Some? && !parentKnownToExist && p.value !in db.containers then (db, Error(NoSuchParent))
    else if p.Some? && NameInUse(db, p.value, name) then (db, Error(NameTaken))
    else (db.(containers := db.containers[newId := Row(p, name, size, ingested)]), Ok(newId))
  }

  function Destroy(db: Db, id: string, checkForChildren: bool): (Db, Result<()>) {
    if checkForChildren && Children(db, id) != {} then (db, Error(HasChildren))
    else
      var files := map f | f in db.files :: if db.files[f] == Some(id) then None else db.files[f];
      (Db(db.containers - {id}, files), Ok(()))
  }

  class ContainerDb {
    var containers: map<string, Row>
    var files: map<File, Option<string>>

    ghost function Value(): Db
      reads this
    {
      Db(containers, files)
    }

    method CreateContainer(name: string, size: int, ingested: Option<string>, parentContainerId: Option<string>,
                           parentKnownToExist: bool, newId: string) returns (result: Result<string>)
      modifies this`containers
      ensures (Value(), result)
           == Create(old(Value()), name, size, ingested, parentContainerId, parentKnownToExist, newId)
    {
      var parent := if parentContainerId == Some("") then None else parentContainerId;
      if parent.Some? && !parentKnownToExist {
        if parent.value !in containers {
          return Error(NoSuchParent);
        }
      }
      if parent.Some? {
        var res := set c | c in containers && containers[c].parent == parent && containers[c].name == name;
        assert res != {} <==> NameInUse(Value(), parent.value, name) by {
          assert forall c :: c in res <==> c in Children(Value(), parent.value) && containers[c].name == name;
        }
        if res != {} {
          return Error(NameTaken);
        }
      }
      containers := containers[newId := Row(parent, name, size, ingested)];
      result := Ok(newId);
    }

    method DestroySingleContainer(containerId: string, checkForChildren: bool) returns (result: Result<()>)
      modifies this
      ensures (Value(), result) == Destroy(old(Value()), containerId, checkForChildren)
    {
      if checkForChildren {
        var res := set c | c in containers && containers[c].parent == Some(containerId);
        if res != {} {
          return Error(HasChildren);
        }
      }
      files := map f | f in files :: if files[f] == Some(containerId) then None else files[f];
      containers := containers - {containerId};
      result := Ok(());
    }
  }

  // --------------------------------------------------------------- the forest

  /** The container n parents above c, if there is one. */
  ghost function Up(db: Db, c: string, n: nat): Option<string> {
    if n == 0 then Some(c)
    else
      var below := Up(db, c, n - 1);
      if below.Some? && below.value in db.containers then db.containers[below.value].parent else None
  }

  ghost predicate ParentsExist(db: Db) {
    forall c :: c in db.containers && db.containers[c].parent.Some? ==> db.containers[c].parent.value in db.containers
  }

  ghost predicate Acyclic(db: Db) {
    forall c, n: nat :: c in db.containers && n > 0 ==> Up(db, c, n) != Some(c)
  }

  ghost predicate SiblingNamesUnique(db: Db) {
    forall c, d :: (c in db.containers && d in db.containers && c != d
                    && db.containers[c].parent.Some? && db.containers[c].parent == db.containers[d].parent) ==>
                     db.containers[c].name != db.containers[d].name
  }

  ghost predicate FilesPlaced(db: Db) {
    forall f :: f in db.files && db.files[f].Some? ==> db.files[f].value in db.containers
  }

  ghost predicate Forest(db: Db) {
    ParentsExist(db) && Acyclic(db) && SiblingNamesUnique(db) && FilesPlaced(db)
  }

  lemma {:induction false} UpAdds(db: Db, c: string, m: nat, n: nat)
    ensures Up(db, c, m + n) == if Up(db, c, m).Some? then Up(db, Up(db, c, m).value, n) else None
  {
    if n > 0 {
      UpAdds(db, c, m, n - 1);
    }
  }

  lemma {:induction false} UpStaysInside(db: Db, c: string, n: nat)
    requires ParentsExist(db) && c in db.containers && Up(db, c, n).Some?
    ensures Up(db, c, n).value in db.containers
  {
    if n > 0 {
      UpStaysInside(db, c, n - 1);
    }
  }

  /** A new container is above no old one, so the old chains of parents stay as they were. */
  lemma {:induction false} UpAfterCreate(db: Db, db': Db, newId: string, c: string, n: nat)
    requires ParentsExist(db) && newId !in db.containers && c in db.containers
    requires newId in db'.containers && db'.containers == db.containers[newId := db'.containers[newId]]
    ensures Up(db', c, n) == Up(db, c, n)
  {
    if n > 0 {
      UpAfterCreate(db, db', newId, c, n - 1);
      if Up(db, c, n - 1).Some? {
        UpStaysInside(db, c, n - 1);
      }
    }
  }

  lemma NobodysParent(db: Db, id: string)
    requires Children(db, id) == {}
    ensures forall c :: c in db.containers ==> db.containers[c].parent != Some(id)
  {
    forall c | c in db.containers
      ensures db.containers[c].parent != Some(id)
    {
      assert c !in Children(db, id);
    }
  }

  lemma {:induction false} UpAfterDestroy(db: Db, db': Db, id: string, c: string, n: nat)
    requires Children(db, id) == {} && c in db.containers && c != id
    requires db'.containers == db.containers - {id}
    ensures Up(db', c, n) == Up(db, c, n) && Up(db, c, n) != Some(id)
  {
    if n > 0 {
      UpAfterDestroy(db, db', id, c, n - 1);
      NobodysParent(db, id);
    }
  }

  /** Creation fails for a named parent that is not there, unless it is said to exist, and for a name that
      a container under the parent has; otherwise the new row, and nothing else, is added. */
  lemma CreateSucceedsIff(db: Db, name: string, size: int, ingested: Option<string>, parent: Option<string>,
                          parentKnownToExist: bool, newId: string)
    ensures var (db', result) := Create(db, name, size, ingested, parent, parentKnownToExist, newId);
            var named := parent.Some? && parent.value != "";
            var orphan := named && !parentKnownToExist && parent.value !in db.containers;
            var taken := named && exists c :: c in db.containers && db.containers[c].parent == parent && db.containers[c].name == name;
            && (result == Error(NoSuchParent) <==> orphan)
            && (result == Error(NameTaken) <==> !orphan && taken)
            && (result.Ok? <==> !orphan && !taken)
            && (result.Error? ==> db' == db)
            && (result.Ok? ==>
                  && result.value == newId && db'.files == db.files
                  && db'.containers.Keys == db.containers.Keys + {newId}
                  && db'.containers[newId] == Row(if named then parent else None, name, size, ingested)
                  && forall c :: c in db.containers && c != newId ==> db'.containers[c] == db.containers[c])
  {
    if parent.Some? {
      forall c
        ensures c in Children(db, parent.value) <==> c in db.containers && db.containers[c].parent == parent
      {
      }
    }
  }

  /** createContainer keeps the forest exactly when parentKnownToExist is not set for a parent that
      does not exist; when it fails it changes nothing. */
  lemma CreateKeepsForestIff(db: Db, name: string, size: int, ingested: Option<string>, parent: Option<string>,
                             parentKnownToExist: bool, newId: string)
    requires Forest(db) && newId !in db.containers
    ensures var (db', result) := Create(db, name, size, ingested, parent, parentKnownToExist, newId);
            && (Forest(db') <==> !parentKnownToExist || Sanitized(parent).None? || Sanitized(parent).value in db.containers)
            && (result.Error? ==> db' == db)
  {
    var p := Sanitized(parent);
    var (db', result) := Create(db, name, size, ingested, parent, parentKnownToExist, newId);
    if p.Some? && p.value !in db.containers {
      assert Children(db, p.value) == {};
      if parentKnownToExist {
        assert db'.containers[newId].parent == p;
        if p.value == newId {
          assert Up(db', newId, 0) == Some(newId);
          assert Up(db', newId, 1) == Some(newId);
        }
      }
    } else if result.Ok? {
      CreateKeepsAcyclic(db, db', newId);
      assert forall c :: c in db.containers ==> db'.containers[c] == db.containers[c];
      if p.Some? {
        forall c | c in db.containers && db.containers[c].parent == p
          ensures db.containers[c].name != name
        {
          assert c in Children(db, p.value);
        }
      }
    }
  }

  lemma CreateKeepsAcyclic(db: Db, db': Db, newId: string)
    requires ParentsExist(db) && Acyclic(db) && newId !in db.containers
    requires newId in db'.containers && db'.containers == db.containers[newId := db'.containers[newId]]
    requires db'.containers[newId].parent.Some? ==> db'.containers[newId].parent.value in db.containers
    ensures Acyclic(db')
  {
    forall c, n: nat | c in db'.containers && n > 0
      ensures Up(db', c, n) != Some(c)
    {
      if c != newId {
        UpAfterCreate(db, db', newId, c, n);
      } else {
        var p := db'.containers[newId].parent;
        assert Up(db', newId, 0) == Some(newId) && Up(db', newId, 1) == p;
        UpAdds(db', newId, 1, n - 1);
        if p.Some? {
          UpAfterCreate(db, db', newId, p.value, n - 1);
          if Up(db, p.value, n - 1).Some? {
            UpStaysInside(db, p.value, n - 1);
          }
        }
      }
    }
  }

  /** destroySingleContainer keeps the forest exactly when it checks for children or there are none;
      then no file and no container refers to what it destroyed. */
  lemma DestroyKeepsForestIff(db: Db, id: string, checkForChildren: bool)
    requires Forest(db)
    ensures var (db', result) := Destroy(db, id, checkForChildren);
            && (Forest(db') <==> checkForChildren || Children(db, id) == {})
            && (result.Ok? <==> !checkForChildren || Children(db, id) == {})
            && (result.Error? ==> db' == db)
            && (result.Ok? ==>
                  && db'.containers.Keys == db.containers.Keys - {id} && db'.files.Keys == db.files.Keys
                  && (forall f :: f in db.files ==> db'.files[f] == if db.files[f] == Some(id) then None else db.files[f]))
  {
    var (db', result) := Destroy(db, id, checkForChildren);
    if Children(db, id) == {} {
      forall c, n: nat | c in db'.containers && n > 0
        ensures Up(db', c, n) != Some(c)
      {
        UpAfterDestroy(db, db', id, c, n);
      }
      NobodysParent(db, id);
    } else if !checkForChildren {
      var c :| c in Children(db, id);
      assert Up(db, c, 0) == Some(c);
      assert Up(db, c, 1) == Some(id);
      assert c != id && c in db'.containers && db'.containers[c].parent == Some(id);
    }
  }

  // --------------------------------------------------------------------- runs

  datatype Op =
    | CreateOp(name: string, size: int, ingested: Option<string>, parent: Option<string>, known: bool, newId: string)
    | DestroyOp(id: string)

  /** UUIDs do not clash, and parentKnownToExist is passed only when it is true. */
  predicate Allowed(db: Db, op: Op) {
    match op
    case CreateOp(_, _, _, parent, known, newId) =>
      newId !in db.containers && (known && Sanitized(parent).Some? ==> Sanitized(parent).value in db.containers)
    case DestroyOp(_) => true
  }

  function Step(db: Db, op: Op): Db {
    match op
    case CreateOp(name, size, ingested, parent, known, newId) => Create(db, name, size, ingested, parent, known, newId).0
    case DestroyOp(id) => Destroy(db, id, true).0
  }

  ghost predicate AllowedRun(db: Db, ops: seq<Op>)
    decreases |ops|
  {
    ops == [] || (Allowed(db, ops[0]) && AllowedRun(Step(db, ops[0]), ops[1..]))
  }

  ghost function Run(db: Db, ops: seq<Op>): Db
    decreases |ops|
  {
    if ops == [] then db else Run(Step(db, ops[0]), ops[1..])
  }

  /** Any sequence of creations and checked destructions keeps the forest. */
  lemma {:induction false} RunKeepsForest(db: Db, ops: seq<Op>)
    requires Forest(db) && AllowedRun(db, ops)
    ensures Forest(Run(db, ops))
    decreases |ops|
  {
    hide Forest, Create, Destroy;
    if ops != [] {
      match ops[0] {
        case CreateOp(name, size, ingested, parent, known, newId) =>
          CreateKeepsForestIff(db, name, size, ingested, parent, known, newId);
        case DestroyOp(id) =>
          DestroyKeepsForestIff(db, id, true);
      }
      RunKeepsForest(Step(db, ops[0]), ops[1..]);
    }
  }
}
