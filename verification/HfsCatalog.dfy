/** The catalog: files and folders are made, moved and removed by editing records and threads one by one. */
module HfsCatalog {
  import opened CatalogPaths
  import opened CatalogRecords
  import opened Collections
  import opened Wrappers

  datatype Op =
    | NewFile(parent: nat, name: string)
    | NewFolder(parent: nat, name: string)
    | Remove(key: Key)
    | Move(source: Key, parent: nat, name: string)

  class Catalog {
    var tree: Tree
    var nextCatalogID: nat
    var fileCount: int
    var folderCount: int

    constructor (tree: Tree, nextCatalogID: nat, fileCount: int, folderCount: int)
      ensures this.tree == tree && this.nextCatalogID == nextCatalogID
      ensures this.fileCount == fileCount && this.folderCount == folderCount
    {
      this.tree, this.nextCatalogID, this.fileCount, this.folderCount := tree, nextCatalogID, fileCount, folderCount;
    }

    /** Records and threads agree, folders count what lies in them, and the header counts files and folders. */
    ghost predicate Valid()
      reads this
    {
      Consistent(tree, nextCatalogID) && fileCount == |Files(tree)| && folderCount == |Folders(tree)|
    }

    /** Finds a record by its thread. */
    method GetRecordByCNID(id: nat) returns (r: Option<Record>)
      requires ThreadKey(id) in tree ==> tree[ThreadKey(id)].Thread?
      ensures r == if ThreadKey(id) in tree && KeyOf(tree, id) in tree then Some(tree[KeyOf(tree, id)]) else None
    {
      if ThreadKey(id) !in tree {
        return None;
      }
      var thread := tree[ThreadKey(id)];
      var key := Key(thread.parent, thread.name);
      if key !in tree {
        return None;
      }
      r := Some(tree[key]);
    }

    /** Writes a folder's record back to where its thread leads. */
    method UpdateCatalog(rec: Record)
      requires rec.Folder? && IsFolder(tree, rec.id)
      modifies this`tree
      ensures var k := KeyOf(old(tree), rec.id); tree == old(tree)[k := rec]
    {
      var thread := tree[ThreadKey(rec.id)];
      var key := Key(thread.parent, thread.name);
      tree := tree - {key};
      tree := AddToTree(tree, key, rec);
      assert tree == old(tree)[key := rec];
    }

    /** The folder in which something is to be made; None if there is none. */
    method GetFolder(id: nat) returns (r: Option<Record>)
      requires Valid()
      ensures r == if IsFolder(tree, id) then Some(tree[KeyOf(tree, id)]) else None
      ensures r.Some? ==> r.value.Folder? && r.value.id == id && KeyOf(tree, id) in tree && IsNamed(KeyOf(tree, id))
    {
      ThreadIsThread(id);
      var rec := GetRecordByCNID(id);
      if rec.None? || !rec.value.Folder? {
        NotFolder(id);
        return None;
      }
      FolderAt(tree, id);
      r := rec;
    }

    lemma ThreadIsThread(id: nat)
      requires Valid()
      ensures ThreadKey(id) in tree ==> tree[ThreadKey(id)].Thread? && Leads(tree, ThreadKey(id))
    {}

    lemma NotFolder(id: nat)
      requires Valid()
      requires ThreadKey(id) in tree ==> tree[ThreadKey(id)].Thread? && (KeyOf(tree, id) !in tree || !tree[KeyOf(tree, id)].Folder?)
      ensures !IsFolder(tree, id)
    {
      if ThreadKey(id) in tree {
        assert Leads(tree, ThreadKey(id));
      }
    }

    lemma NewId()
      requires Valid()
      ensures ThreadKey(nextCatalogID) !in tree
    {}

    /** Makes a file in a folder. The catalog stays consistent if and only if the name was not in use. */
    method NewFile(parent: nat, name: string) returns (id: nat)
      requires Valid()
      modifies this
      ensures id != 0 <==> IsFolder(old(tree), parent)
      ensures id == 0 ==> unchanged(this)
      ensures id != 0 ==> (Valid() <==> Key(parent, name) !in old(tree))
      ensures id != 0 ==> id == old(nextCatalogID) && nextCatalogID == id + 1
      ensures id != 0 && Valid() ==> Names(tree) == Names(old(tree))[Key(parent, name) := Item(id, false)]
      ensures id != 0 && !Valid() ==> Names(tree) == Names(old(tree))
      ensures id != 0 ==> tree == Made(old(tree), Key(parent, name), File(id))
      ensures id != 0 ==> fileCount == old(fileCount) + 1 && folderCount == old(folderCount)
      ensures id != 0 && Valid() && FoldersCounted(old(tree)) ==> FoldersCounted(tree)
      ensures Valid() && Reachable(old(tree)) ==> Reachable(tree)
    {
      hide Linked, Rooted, Counted, FoldersCounted, Insertable, Reachable;
      ghost var tree0, next := tree, nextCatalogID;
      var folder := GetFolder(parent);
      if folder.None? {
        return 0;
      }
      NewId();
      var key := Key(parent, name);
      id := nextCatalogID;
      nextCatalogID := nextCatalogID + 1;
      fileCount := fileCount + 1;
      tree := AddToTree(tree, key, File(id));
      tree := AddToTree(tree, ThreadKey(id), Thread(parent, name, false));
      var parentFolder := folder.value;
      parentFolder := parentFolder.(valence := parentFolder.valence + 1);
      UpdateCatalog(parentFolder);
      assert IsNew(tree0, tree, key, File(id), next);
      hide IsNew;
      if key !in tree0 {
        NewKeeps(tree0, tree, key, File(id), next);
      } else {
        NewOverOld(tree0, tree, key, File(id), next);
      }
    }

    /** Makes a folder in a folder. The catalog stays consistent if and only if the name was not in use. */
    method NewFolder(parent: nat, name: string) returns (id: nat)
      requires Valid()
      modifies this
      ensures id != 0 <==> IsFolder(old(tree), parent)
      ensures id == 0 ==> unchanged(this)
      ensures id != 0 ==> (Valid() <==> Key(parent, name) !in old(tree))
      ensures id != 0 ==> id == old(nextCatalogID) && nextCatalogID == id + 1
      ensures id != 0 && Valid() ==> Names(tree) == Names(old(tree))[Key(parent, name) := Item(id, true)]
      ensures id != 0 && !Valid() ==> Names(tree) == Names(old(tree))
      ensures id != 0 ==> tree == Made(old(tree), Key(parent, name), Folder(id, 0, 0))
      ensures id != 0 ==> fileCount == old(fileCount) && folderCount == old(folderCount) + 1
      ensures id != 0 && Valid() && FoldersCounted(old(tree)) ==> FoldersCounted(tree)
      ensures Valid() && Reachable(old(tree)) ==> Reachable(tree)
    {
      hide Linked, Rooted, Counted, FoldersCounted, Insertable, Reachable;
      ghost var tree0, next := tree, nextCatalogID;
      var folder := GetFolder(parent);
      if folder.None? {
        return 0;
      }
      NewId();
      var key := Key(parent, name);
      id := nextCatalogID;
      nextCatalogID := nextCatalogID + 1;
      folderCount := folderCount + 1;
      tree := AddToTree(tree, key, Folder(id, 0, 0));
      tree := AddToTree(tree, ThreadKey(id), Thread(parent, name, true));
      var parentFolder := folder.value;
      parentFolder := parentFolder.(folders := parentFolder.folders + 1, valence := parentFolder.valence + 1);
      UpdateCatalog(parentFolder);
      assert IsNew(tree0, tree, key, Folder(id, 0, 0), next);
      hide IsNew;
      if key !in tree0 {
        NewKeeps(tree0, tree, key, Folder(id, 0, 0), next);
      } else {
        NewOverOld(tree0, tree, key, Folder(id, 0, 0), next);
      }
    }

    /** Removes a file, or a folder in which nothing lies; the catalog stays consistent. */
    method RemoveFile(key: Key) returns (ok: bool)
      requires Valid()
      modifies this
      ensures Valid()
      ensures ok <==> CanRemove(old(tree), key)
      ensures !ok ==> unchanged(this)
      ensures ok ==> Names(tree) == Names(old(tree)) - {key} && nextCatalogID == old(nextCatalogID)
      ensures ok ==> TakenOut(old(tree), tree, key)
      ensures FoldersCounted(old(tree)) ==> FoldersCounted(tree)
      ensures Reachable(old(tree)) ==> Reachable(tree)
    {
      hide Linked, Rooted, Counted, FoldersCounted, Names, Reachable;
      if key !in tree || key.name == "" {
        return false;
      }
      ghost var tree0 := tree;
      var record := tree[key];
      var folder := GetFolder(key.parent);
      NamedFacts(tree, nextCatalogID, key);
      if folder.None? {
        return false;
      }
      var parentFolder := folder.value;
      var thread := ThreadKey(record.id);
      if record.File? {
        tree := tree - {key};
        tree := tree - {thread};
        fileCount := fileCount - 1;
      } else {
        if record.valence > 0 {
          return false;
        }
        tree := tree - {key};
        tree := tree - {thread};
        parentFolder := parentFolder.(folders := parentFolder.folders - 1);
        folderCount := folderCount - 1;
      }
      parentFolder := parentFolder.(valence := parentFolder.valence - 1);
      ParentStays(tree0, nextCatalogID, key);
      assert tree == Deleted(tree0, key);
      UpdateCatalog(parentFolder);
      assert TakenOut(tree0, tree, key);
      TakenOutKeeps(tree0, tree, key, nextCatalogID);
      ok := true;
    }

    /** Removes a record and its thread and adds both again. */
    method Shift(source: Key, destKey: Key)
      requires source in tree && IsNamed(source) && !tree[source].Thread? && destKey != ThreadKey(tree[source].id)
      modifies this`tree
      ensures tree == Shifted(old(tree), source, destKey)
    {
      var record := tree[source];
      var thread := ThreadKey(record.id);
      tree := tree - {source};
      tree := tree - {thread};
      tree := AddToTree(tree, destKey, record);
      tree := AddToTree(tree, thread, Thread(destKey.parent, destKey.name, record.Folder?));
      assert tree == Shifted(old(tree), source, destKey);
    }

    /** Moves a file or folder into a folder, under a name. The catalog stays consistent if and only if that is
        another folder than the one it was in, and not the one that is moved, and the name was not in use there; and
        everything can still be reached from the root if and only if the folder does not lie below what is moved. */
    method Move(source: Key, parent: nat, name: string) returns (ok: bool)
      requires Valid()
      requires source in tree && !tree[source].Thread? && tree[source].id == parent ==> name != ""
      modifies this
      ensures ok <==> CanMove(old(tree), source, parent)
      ensures !ok ==> unchanged(this)
      ensures ok ==> (Valid() <==> MayMove(old(tree), source, parent, name)) && unchanged(this`nextCatalogID, this`fileCount, this`folderCount)
      ensures ok ==> IsMovable(old(tree), source, parent) && tree == AfterMove(old(tree), source, Key(parent, name))
      ensures ok && !InUse(old(tree), source, Key(parent, name)) ==>
        Names(tree) == (Names(old(tree)) - {source})[Key(parent, name) := Names(old(tree))[source]]
      ensures ok && InUse(old(tree), source, Key(parent, name)) && parent != old(tree)[source].id ==>
        Names(tree) == Names(old(tree)) - {source}
      ensures ok && Valid() && FoldersCounted(old(tree)) ==> (FoldersCounted(tree) <==> old(tree)[source].File?)
      ensures ok && Valid() && Reachable(old(tree)) ==> (Reachable(tree) <==> !Below(old(tree), parent, old(tree)[source].id))
    {
      hide Linked, Rooted, Counted, FoldersCounted, Names, Reachable;
      if source !in tree || source.name == "" {
        return false;
      }
      ghost var tree0 := tree;
      var record := tree[source];
      var from := GetFolder(source.parent);
      var to := GetFolder(parent);
      NamedFacts(tree, nextCatalogID, source);
      if from.None? || to.None? {
        return false;
      }
      ParentStays(tree, nextCatalogID, source);
      var destKey := Key(parent, name);
      ok := true;
      if parent == record.id {
        FolderAt(tree, parent);
        Shift(source, destKey);
        UpdateCatalog(from.value.(valence := from.value.valence - 1));
        UpdateCatalog(to.value.(valence := to.value.valence + 1));
        LiesInItself(tree, destKey);
        assert tree == AfterMove(tree0, source, destKey);
        hide AfterMove;
        MovedNames(tree0, source, destKey, nextCatalogID);
        return;
      }
      DestinationStays(tree, nextCatalogID, source, parent);
      Shift(source, destKey);
      UpdateCatalog(from.value.(valence := from.value.valence - 1));
      UpdateCatalog(to.value.(valence := to.value.valence + 1));
      assert IsMove(tree0, tree, source, destKey);
      IsAfterMove(tree0, tree, source, destKey);
      hide IsMove, AfterMove;
      MovedNames(tree0, source, destKey, nextCatalogID);
      if parent == source.parent {
        MoveWithin(tree0, tree, source, destKey, nextCatalogID);
      } else if destKey in tree0 {
        MoveOver(tree0, tree, source, destKey, nextCatalogID);
      } else {
        MoveKeeps(tree0, tree, source, destKey, nextCatalogID);
        NameOf(tree0, source);
      }
    }

    /** Carries out operations, up to one that is not to be. */
    method Run(ops: seq<Op>) returns (n: nat)
      requires Valid()
      modifies this
      ensures Valid() && n <= |ops|
      ensures Space(Names(tree), nextCatalogID) == Steps(Space(Names(old(tree)), old(nextCatalogID)), ops[..n])
      ensures n < |ops| ==> !Admissible(tree, ops[n])
    {
      hide Linked, Rooted, Counted, FoldersCounted, Names, IsFolder, Children, IdsBelow;
      n := 0;
      ghost var start := Space(Names(tree), nextCatalogID);
      assert ops[..0] == [];
      while n < |ops|
        invariant Valid() && n <= |ops|
        invariant Space(Names(tree), nextCatalogID) == Steps(start, ops[..n])
      {
        var ok := RunOne(ops[n]);
        if !ok {
          return;
        }
        assert ops[..n + 1][..n] == ops[..n];
        n := n + 1;
      }
      assert ops[..n] == ops;
    }

    /** Carries out an operation if it is to be. */
    method RunOne(op: Op) returns (ok: bool)
      requires Valid()
      modifies this
      ensures Valid() && (ok <==> Admissible(old(tree), op))
      ensures !ok ==> unchanged(this)
      ensures ok ==> Space(Names(tree), nextCatalogID) == Step(Space(Names(old(tree)), old(nextCatalogID)), op)
      ensures Reachable(old(tree)) && (ok ==> !GoesBelow(old(tree), op)) ==> Reachable(tree)
      ensures ok && Reachable(old(tree)) && GoesBelow(old(tree), op) ==> !Reachable(tree)
    {
      hide Linked, Rooted, Counted, FoldersCounted, Names, IsFolder, Children, IdsBelow, Reachable, Below;
      match op {
        case NewFile(parent, name) =>
          var folder := GetFolder(parent);
          ok := folder.Some? && Key(parent, name) !in tree;
          if ok {
            var id := NewFile(parent, name);
          }
        case NewFolder(parent, name) =>
          var folder := GetFolder(parent);
          ok := folder.Some? && Key(parent, name) !in tree;
          if ok {
            var id := NewFolder(parent, name);
          }
        case Remove(key) =>
          ok := RemoveFile(key);
        case Move(source, parent, name) =>
          var to := GetFolder(parent);
          var from := GetFolder(source.parent);
          ok := source in tree && source.name != "" && from.Some? && to.Some? && source.parent != parent;
          if ok {
            NamedFacts(tree, nextCatalogID, source);
            NameOf(tree, source);
            ok := tree[source].id != parent && Key(parent, name) !in tree;
          }
          if ok {
            var moved := Move(source, parent, name);
          }
      }
    }
  }

  /** What a caller has to see to: folders that are there, new names that are not in use, and moves to another
      folder, which is not the one that is moved. */
  ghost predicate Admissible(tree: Tree, op: Op) {
    match op
    case NewFile(parent, name) => IsFolder(tree, parent) && Key(parent, name) !in tree
    case NewFolder(parent, name) => IsFolder(tree, parent) && Key(parent, name) !in tree
    case Remove(key) => CanRemove(tree, key)
    case Move(source, parent, name) =>
      CanMove(tree, source, parent) && MayMove(tree, source, parent, name)
  }

  /** A folder is to be moved to somewhere below itself. */
  ghost predicate GoesBelow(tree: Tree, op: Op) {
    op.Move? && op.source in tree && !tree[op.source].Thread? && Below(tree, op.parent, tree[op.source].id)
  }

  /** What lies where, and the next id. */
  datatype Space = Space(names: map<Key, Item>, next: nat)

  ghost function Step(s: Space, op: Op): Space {
    match op
    case NewFile(parent, name) => Space(s.names[Key(parent, name) := Item(s.next, false)], s.next + 1)
    case NewFolder(parent, name) => Space(s.names[Key(parent, name) := Item(s.next, true)], s.next + 1)
    case Remove(key) => Space(s.names - {key}, s.next)
    case Move(source, parent, name) =>
      if source in s.names then Space((s.names - {source})[Key(parent, name) := s.names[source]], s.next) else s
  }

  ghost function Steps(s: Space, ops: seq<Op>): Space {
    if ops == [] then s else Step(Steps(s, ops[..|ops| - 1]), ops[|ops| - 1])
  }

  /** A file or folder taken out and put in again under another key; if that is in use, only its thread. */
  ghost function Shifted(tree: Tree, k: Key, k': Key): Tree
    requires k in tree && !tree[k].Thread?
  {
    var tree1 := tree - {k};
    (if k' in tree1 then tree1 else tree1[k' := tree[k]])[ThreadKey(tree[k].id) := Thread(k'.parent, k'.name, tree[k].Folder?)]
  }

  /** What is to be moved, and both folders, are there. */
  ghost predicate IsMovable(tree: Tree, k: Key, parent: nat) {
    && k in tree && IsNamed(k) && !tree[k].Thread? && k.parent != tree[k].id
    && IsFolder(tree, k.parent) && IsFolder(tree, parent)
    && KeyOf(tree, k.parent) in tree && tree[KeyOf(tree, k.parent)].Folder? && tree[KeyOf(tree, k.parent)].id == k.parent
    && KeyOf(tree, parent) in tree && tree[KeyOf(tree, parent)].Folder? && tree[KeyOf(tree, parent)].id == parent
  }

  /** The new key is another one than the old, and that of a record. */
  ghost predicate InUse(tree: Tree, k: Key, k': Key) {
    k' in tree && k' != k
  }

  /** What moving makes of a tree. */
  ghost function AfterMove(tree: Tree, k: Key, k': Key): Tree
    requires IsMovable(tree, k, k'.parent)
  {
    var from, to := tree[KeyOf(tree, k.parent)], tree[KeyOf(tree, k'.parent)];
    var home := if k'.parent == tree[k].id then k' else KeyOf(tree, k'.parent);
    Shifted(tree, k, k')[KeyOf(tree, k.parent) := Folder(k.parent, from.valence - 1, from.folders)]
                        [home := Folder(k'.parent, to.valence + 1, to.folders)]
  }

  lemma IsAfterMove(tree: Tree, tree': Tree, k: Key, k': Key)
    requires IsMove(tree, tree', k, k')
    ensures IsMovable(tree, k, k'.parent) && tree' == AfterMove(tree, k, k')
  {}

  /** After a move the thread leads to the new key; both folders have counted, the new one in any case one more than
      before; and all other records are what they were. */
  lemma MovedRecords(tree: Tree, k: Key, k': Key, next: nat)
    requires Consistent(tree, next) && IsMovable(tree, k, k'.parent) && (k'.parent == tree[k].id ==> k'.name != "")
    ensures var id, tree' := tree[k].id, AfterMove(tree, k, k');
      var from, to := KeyOf(tree, k.parent), if k'.parent == id then k' else KeyOf(tree, k'.parent);
      && ThreadKey(id) in tree' && tree'[ThreadKey(id)] == Thread(k'.parent, k'.name, tree[k].Folder?)
      && to in tree' && tree'[to] == Folder(k'.parent, tree[KeyOf(tree, k'.parent)].valence + 1, tree[KeyOf(tree, k'.parent)].folders)
      && (k.parent != k'.parent && from != to ==> from in tree' && tree'[from] == Folder(k.parent, tree[from].valence - 1, tree[from].folders))
      && (k != k' ==> k !in tree') && (k' !in tree || k' == k ==> k' in tree' && (k'.parent != id ==> tree'[k'] == tree[k]))
      && (InUse(tree, k, k') && k' !in {from, to} ==> k' in tree' && tree'[k'] == tree[k'])
      && forall j | j !in {k, k', ThreadKey(id), from, to} :: (j in tree' <==> j in tree) && (j in tree ==> tree'[j] == tree[j])
  {
    hide Counted, FoldersCounted, IdsBelow;
    FolderAt(tree, k.parent);
    FolderAt(tree, k'.parent);
    assert Threaded(tree, k) && LiesIn(tree, k);
  }

  /** What lies where after a move. Under a key that is in use there still lies what was there. */
  lemma MovedNames(tree: Tree, k: Key, k': Key, next: nat)
    requires Consistent(tree, next) && IsMovable(tree, k, k'.parent) && (k'.parent == tree[k].id ==> k'.name != "")
    ensures !InUse(tree, k, k') ==> k in Names(tree) && Names(AfterMove(tree, k, k')) == (Names(tree) - {k})[k' := Names(tree)[k]]
    ensures InUse(tree, k, k') && k'.parent != tree[k].id ==> Names(AfterMove(tree, k, k')) == Names(tree) - {k}
  {
    hide Counted, FoldersCounted, IdsBelow, Names;
    FolderAt(tree, k.parent);
    FolderAt(tree, k'.parent);
    assert Threaded(tree, k) && LiesIn(tree, k);
    ShiftedNames(tree, k, k');
    var tree1, from, to := Shifted(tree, k, k'), KeyOf(tree, k.parent), KeyOf(tree, k'.parent);
    if k'.parent != tree[k].id || !InUse(tree, k, k') {
      var home := if k'.parent == tree[k].id then k' else to;
      ShiftedFolders(tree, k, k', from, home);
      RecountBoth(tree1, from, home, tree[from].valence - 1, tree[from].folders, tree[to].valence + 1, tree[to].folders);
    }
  }

  lemma ShiftedNames(tree: Tree, k: Key, k': Key)
    requires k in tree && IsNamed(k) && !tree[k].Thread? && (IsNamed(k') || k' in tree)
    requires ThreadKey(tree[k].id) in tree && tree[ThreadKey(tree[k].id)].Thread?
    ensures k in Names(tree)
    ensures Names(Shifted(tree, k, k')) == if InUse(tree, k, k') then Names(tree) - {k} else (Names(tree) - {k})[k' := Names(tree)[k]]
  {}

  lemma ShiftedFolders(tree: Tree, k: Key, k': Key, from: Key, home: Key)
    requires Linked(tree) && IsMovable(tree, k, k'.parent) && LiesIn(tree, k) && from == KeyOf(tree, k.parent)
    requires home == if k'.parent == tree[k].id then k' else KeyOf(tree, k'.parent)
    requires k'.parent == tree[k].id ==> IsNamed(k') && !InUse(tree, k, k')
    ensures var tree1 := Shifted(tree, k, k');
      && from in tree1 && tree1[from] == tree[from] && tree1[from].Folder? && tree1[from].id == k.parent
      && home in tree1 && tree1[home] == tree[KeyOf(tree, k'.parent)] && tree1[home].Folder? && tree1[home].id == k'.parent
  {
    FolderAt(tree, k.parent);
    FolderAt(tree, k'.parent);
  }

  lemma RecountBoth(tree: Tree, a: Key, b: Key, va: int, fa: int, vb: int, fb: int)
    requires a in tree && tree[a].Folder? && b in tree && tree[b].Folder?
    ensures Names(tree[a := Folder(tree[a].id, va, fa)][b := Folder(tree[b].id, vb, fb)]) == Names(tree)
  {
    RecountSets(tree, a, va, fa);
    RecountSets(Recounted(tree, a, va, fa), b, vb, fb);
  }

  /** What moving does, whether or not the new folder is another one and the new key is free. Both counts are
      those from before. */
  ghost predicate IsMove(tree: Tree, tree': Tree, k: Key, k': Key) {
    && k in tree && IsNamed(k) && !tree[k].Thread? && tree[k].id != ROOT && k.parent != tree[k].id && k'.parent != tree[k].id
    && IsFolder(tree, k.parent) && IsFolder(tree, k'.parent)
    && var from, to := KeyOf(tree, k.parent), KeyOf(tree, k'.parent);
    && from in tree && to in tree && tree[from].Folder? && tree[to].Folder? && IsNamed(from) && IsNamed(to)
    && tree[from].id == k.parent && tree[to].id == k'.parent && from != k && to != k
    && tree' == Shifted(tree, k, k')[from := Folder(k.parent, tree[from].valence - 1, tree[from].folders)]
                                    [to := Folder(k'.parent, tree[to].valence + 1, tree[to].folders)]
  }

  lemma NameOf(tree: Tree, k: Key)
    requires k in tree && IsNamed(k) && !tree[k].Thread?
    ensures k in Names(tree) && Names(tree)[k] == Item(tree[k].id, tree[k].Folder?)
  {}

  lemma DestinationStays(tree: Tree, next: nat, k: Key, parent: nat)
    requires Consistent(tree, next) && k in tree && IsNamed(k) && !tree[k].Thread? && IsFolder(tree, parent) && parent != tree[k].id
    ensures var to := KeyOf(tree, parent);
      && to in tree && tree[to].Folder? && tree[to].id == parent && IsNamed(to) && to != k
      && ThreadKey(parent) != ThreadKey(tree[k].id) && ThreadKey(parent) != k
  {
    FolderAt(tree, parent);
  }

  lemma MoveKeeps(tree: Tree, tree': Tree, k: Key, k': Key, next: nat)
    requires Consistent(tree, next) && IsMove(tree, tree', k, k') && k' !in tree && k.parent != k'.parent
    ensures Consistent(tree', next)
    ensures |Files(tree')| == |Files(tree)| && |Folders(tree')| == |Folders(tree)|
    ensures Names(tree') == (Names(tree) - {k})[k' := Item(tree[k].id, tree[k].Folder?)]
    ensures FoldersCounted(tree) ==> (FoldersCounted(tree') <==> tree[k].File?)
    ensures Reachable(tree) ==> (Reachable(tree') <==> !Below(tree, k'.parent, tree[k].id))
  {
    hide Reachable;
    MoveIsMoved(tree, tree', k, k');
    if Reachable(tree) {
      MovedReachable(tree, tree', k, k', next);
    }
    hide Linked, Rooted, Counted, FoldersCounted, IsMove;
    MovedLinked(tree, tree', k, k');
    MovedTotals(tree, tree', k, k');
    MovedCounts(tree, tree', k, k');
    MovedIds(tree, tree', k, k', next);
  }

  lemma MoveIsMoved(tree: Tree, tree': Tree, k: Key, k': Key)
    requires IsMove(tree, tree', k, k') && k' !in tree && k.parent != k'.parent
    ensures MovedTo(tree, tree', k, k')
  {
    assert ThreadKey(k'.parent) in tree;
  }

  lemma MovedIds(tree: Tree, tree': Tree, k: Key, k': Key, next: nat)
    requires IdsBelow(tree, next) && MovedTo(tree, tree', k, k')
    ensures IdsBelow(tree', next)
  {}

  /** Within one folder the second of two copies of its record undoes what the first has counted. */
  lemma MoveWithin(tree: Tree, tree': Tree, k: Key, k': Key, next: nat)
    requires Consistent(tree, next) && IsMove(tree, tree', k, k') && k.parent == k'.parent
    ensures !Consistent(tree', next)
  {
    if k' in tree && k' != k {
      MoveLeadsAway(tree, tree', k, k');
    } else {
      var to := KeyOf(tree, k'.parent);
      ShiftedChildren(tree, k, k');
      MoveChildren(tree, tree', k, k');
      assert tree'[to].valence == tree[to].valence + 1 && tree'[to].id == k'.parent;
      assert tree[to].valence == |Children(tree, k'.parent)|;
      assert !Counted(tree');
    }
  }

  /** The key is free, or was the one before: the folder has as many children as before. */
  lemma ShiftedChildren(tree: Tree, k: Key, k': Key)
    requires k in tree && IsNamed(k) && !tree[k].Thread? && k.parent == k'.parent && (k' == k || k' !in tree)
    requires ThreadKey(k'.parent) in tree
    ensures |Children(Shifted(tree, k, k'), k.parent)| == |Children(tree, k.parent)|
  {
    var less, tree1 := Deleted(tree, k), Shifted(tree, k, k');
    assert IsNamed(k');
    assert OneMore(less, tree, k, tree[k]);
    assert OneMore(less, tree1, k', tree[k]);
    OneMoreChild(less, tree, k, tree[k], k.parent);
    OneMoreChild(less, tree1, k', tree[k], k.parent);
  }

  lemma MoveChildren(tree: Tree, tree': Tree, k: Key, k': Key)
    requires IsMove(tree, tree', k, k') && k.parent == k'.parent && (k' == k || k' !in tree)
    ensures Children(tree', k.parent) == Children(Shifted(tree, k, k'), k.parent)
  {
    var was, now := Children(Shifted(tree, k, k'), k.parent), Children(tree', k.parent);
    forall j ensures j in now <==> j in was {}
  }

  lemma MoveLeadsAway(tree: Tree, tree': Tree, k: Key, k': Key)
    requires Linked(tree) && IsMove(tree, tree', k, k') && k' in tree && k' != k
    ensures !Linked(tree')
  {
    var t := ThreadKey(tree[k].id);
    assert Threaded(tree, k);
    if k'.name != "" {
      IdIsUnique(tree, k, k');
      assert k' in tree' && tree'[k'].id == tree[k'].id;
    }
    assert t in tree' && !Leads(tree', t);
  }

  /** Under a key that is in use the thread of what was moved leads to another record. */
  lemma MoveOver(tree: Tree, tree': Tree, k: Key, k': Key, next: nat)
    requires Consistent(tree, next) && IsMove(tree, tree', k, k') && k' in tree && k.parent != k'.parent
    ensures !Linked(tree')
  {
    MoveLeadsAway(tree, tree', k, k');
  }

  /** What the source can remove: files and empty folders that lie in a folder. */
  ghost predicate CanRemove(tree: Tree, k: Key) {
    k in tree && IsNamed(k) && IsFolder(tree, k.parent) && (tree[k].Folder? ==> Children(tree, tree[k].id) == {})
  }

  ghost predicate CanMove(tree: Tree, k: Key, parent: nat) {
    k in tree && IsNamed(k) && IsFolder(tree, k.parent) && IsFolder(tree, parent)
  }

  /** What a move has to respect. */
  ghost predicate MayMove(tree: Tree, k: Key, parent: nat, name: string)
    requires k in tree
  {
    k.parent != parent && Key(parent, name) !in tree && (!tree[k].Thread? ==> tree[k].id != parent)
  }

  /** A folder that has been moved into itself. */
  lemma LiesInItself(tree: Tree, k: Key)
    requires k in tree && IsNamed(k) && tree[k].Folder? && tree[k].id == k.parent
    ensures !Rooted(tree)
  {
    assert !LiesIn(tree, k);
  }

  lemma NamedFacts(tree: Tree, next: nat, k: Key)
    requires Consistent(tree, next) && k in tree && IsNamed(k)
    ensures Threaded(tree, k) && LiesIn(tree, k) && !tree[k].Thread?
    ensures tree[k].Folder? ==> tree[k].valence == |Children(tree, tree[k].id)|
    ensures IsFolder(tree, k.parent) <==> tree[k].id != ROOT
  {
    assert Threaded(tree, k);
    assert LiesIn(tree, k);
  }

  /** The parent's record and thread are not those of its child. */
  lemma ParentStays(tree: Tree, next: nat, k: Key)
    requires Consistent(tree, next) && k in tree && IsNamed(k) && !tree[k].Thread? && IsFolder(tree, k.parent)
    ensures var home := KeyOf(tree, k.parent);
      && home in tree && tree[home].Folder? && tree[home].id == k.parent && IsNamed(home) && home != k
      && ThreadKey(k.parent) != ThreadKey(tree[k].id) && ThreadKey(k.parent) != k
  {
    FolderAt(tree, k.parent);
    assert LiesIn(tree, k);
  }

  lemma TakenOutKeeps(tree: Tree, tree': Tree, k: Key, next: nat)
    requires Consistent(tree, next) && TakenOut(tree, tree', k)
    ensures Consistent(tree', next)
    ensures |Files(tree')| == |Files(tree)| - (if tree[k].File? then 1 else 0)
    ensures |Folders(tree')| == |Folders(tree)| - (if tree[k].Folder? then 1 else 0)
    ensures Names(tree') == Names(tree) - {k}
    ensures FoldersCounted(tree) ==> FoldersCounted(tree')
    ensures Reachable(tree) ==> Reachable(tree')
  {
    hide Linked, Rooted, Counted, FoldersCounted, Children, Names, Reachable;
    if Reachable(tree) {
      TakenOutReachable(tree, tree', k);
    }
    TakenOutLinked(tree, tree', k);
    TakenOutTotals(tree, tree', k);
    TakenOutCounts(tree, tree', k);
  }

  /** What making a file or folder makes of a tree: under a key that is in use only the thread is new. */
  ghost function Made(tree: Tree, k: Key, rec: Record): Tree
    requires !rec.Thread? && IsFolder(tree, k.parent) && KeyOf(tree, k.parent) in tree && tree[KeyOf(tree, k.parent)].Folder?
  {
    var home := KeyOf(tree, k.parent);
    (if k in tree then tree else tree[k := rec])[ThreadKey(rec.id) := Thread(k.parent, k.name, rec.Folder?)]
      [home := Folder(k.parent, tree[home].valence + 1, tree[home].folders + if rec.Folder? then 1 else 0)]
  }

  /** A new file or folder under a new key has been put in. */
  ghost predicate IsNew(tree: Tree, tree': Tree, k: Key, rec: Record, next: nat) {
    && Consistent(tree, next) && !rec.Thread? && rec.id == next && ThreadKey(next) !in tree && IsFolder(tree, k.parent)
    && (rec.Folder? ==> rec.valence == 0 && rec.folders == 0)
    && var home := KeyOf(tree, k.parent);
    && home in tree && tree[home].Folder? && tree[home].id == k.parent && IsNamed(home)
    && tree' == Made(tree, k, rec)
  }

  lemma NewIsPutIn(tree: Tree, tree': Tree, k: Key, rec: Record, next: nat)
    requires IsNew(tree, tree', k, rec, next) && k !in tree
    ensures PutIn(tree, tree', k, rec, next + 1)
  {
    NoChildren(tree, next);
  }

  lemma NewKeeps(tree: Tree, tree': Tree, k: Key, rec: Record, next: nat)
    requires IsNew(tree, tree', k, rec, next) && k !in tree
    ensures Consistent(tree', next + 1)
    ensures |Files(tree')| == |Files(tree)| + (if rec.File? then 1 else 0)
    ensures |Folders(tree')| == |Folders(tree)| + (if rec.Folder? then 1 else 0)
    ensures Names(tree') == Names(tree)[k := Item(rec.id, rec.Folder?)]
    ensures FoldersCounted(tree) ==> FoldersCounted(tree')
    ensures Reachable(tree) ==> Reachable(tree')
  {
    hide Reachable;
    NewIsPutIn(tree, tree', k, rec, next);
    NoChildren(tree, next);
    NewReachable(tree, tree', k, rec, next);
    hide Linked, Rooted, Counted, FoldersCounted, PutIn, IsNew;
    IdsGrow(tree, next);
    PutInLinked(tree, tree', k, rec, next + 1);
    PutInIds(tree, tree', k, rec, next + 1);
    PutInTotals(tree, tree', k, rec, next + 1);
    PutInCounts(tree, tree', k, rec, next + 1);
  }

  lemma NewReachable(tree: Tree, tree': Tree, k: Key, rec: Record, next: nat)
    requires Consistent(tree, next) && PutIn(tree, tree', k, rec, next + 1)
    ensures Reachable(tree) ==> Reachable(tree')
  {
    hide Consistent, PutIn, Reachable;
    if Reachable(tree) {
      PutInReachable(tree, tree', k, rec, next);
    }
  }

  lemma IdsGrow(tree: Tree, next: nat)
    requires IdsBelow(tree, next)
    ensures IdsBelow(tree, next + 1)
  {}

  lemma ThreadNames(tree: Tree, id: nat, thread: Record)
    requires thread.Thread? && ThreadKey(id) !in tree
    ensures Names(tree[ThreadKey(id) := thread]) == Names(tree)
  {}

  lemma NamesStay(tree: Tree, tree': Tree, k: Key, rec: Record, next: nat)
    requires IsNew(tree, tree', k, rec, next) && k in tree
    ensures Names(tree') == Names(tree)
  {
    hide Names, Consistent;
    var home, thread := KeyOf(tree, k.parent), Thread(k.parent, k.name, rec.Folder?);
    ThreadNames(tree, next, thread);
    RecountSets(tree[ThreadKey(next) := thread], home, tree'[home].valence, tree'[home].folders);
  }

  /** Under a key that is in use the new thread leads to the record of another id. */
  lemma NewOverOld(tree: Tree, tree': Tree, k: Key, rec: Record, next: nat)
    requires IsNew(tree, tree', k, rec, next) && k in tree
    ensures !Linked(tree') && Names(tree') == Names(tree)
  {
    NamesStay(tree, tree', k, rec, next);
    hide Names;
    var home, t := KeyOf(tree, k.parent), ThreadKey(next);
    assert t in tree' && tree'[t] == Thread(k.parent, k.name, rec.Folder?);
    if k.name != "" {
      assert Threaded(tree, k);
      assert tree'[k].id == tree[k].id;
    }
    assert !Leads(tree', t);
  }
}
