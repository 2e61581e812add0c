/** The records of an HFS+ catalog and when they are consistent. */
module CatalogRecords {
  /** A record's key: its parent and its name; a thread has the empty name under the id it belongs to. */
  datatype Key = Key(parent: nat, name: string)

  datatype Record =
    | Folder(id: nat, valence: int, folders: int)
    | File(id: nat)
    | Thread(parent: nat, name: string, ofFolder: bool)

  type Tree = map<Key, Record>

  const ROOT_PARENT := 1
  const ROOT := 2

  function ThreadKey(id: nat): Key {
    Key(id, "")
  }

  ghost predicate IsNamed(k: Key) {
    k.name != ""
  }

  /** The keys under which files and folders lie in a folder. */
  ghost function Children(tree: Tree, id: nat): set<Key> {
    set k | k in tree && IsNamed(k) && k.parent == id
  }

  /** Those of them that are folders. */
  ghost function Subfolders(tree: Tree, id: nat): set<Key> {
    set k | k in tree && IsNamed(k) && k.parent == id && tree[k].Folder?
  }

  ghost function Files(tree: Tree): set<Key> {
    set k | k in tree && IsNamed(k) && tree[k].File?
  }

  /** All folders but the root. */
  ghost function Folders(tree: Tree): set<Key> {
    set k | k in tree && IsNamed(k) && tree[k].Folder? && tree[k].id != ROOT
  }

  /** A file or folder has a thread that leads back to it. */
  ghost predicate Threaded(tree: Tree, k: Key)
    requires k in tree
  {
    && !tree[k].Thread?
    && ThreadKey(tree[k].id) in tree && tree[ThreadKey(tree[k].id)] == Thread(k.parent, k.name, tree[k].Folder?)
  }

  /** A thread leads to the file or folder whose it is. */
  ghost predicate Leads(tree: Tree, k: Key)
    requires k in tree
  {
    && tree[k].Thread? && tree[k].name != ""
    && var to := Key(tree[k].parent, tree[k].name);
    && to in tree && !tree[to].Thread? && tree[to].id == k.parent && (tree[to].Folder? <==> tree[k].ofFolder)
  }

  /** Records and threads are each other's inverse. */
  ghost predicate Linked(tree: Tree) {
    && (forall k | k in tree && IsNamed(k) :: Threaded(tree, k))
    && (forall k | k in tree && !IsNamed(k) :: Leads(tree, k))
  }

  ghost predicate IsFolder(tree: Tree, id: nat) {
    ThreadKey(id) in tree && tree[ThreadKey(id)].Thread? && tree[ThreadKey(id)].ofFolder
  }

  /** A record other than the root lies in a folder, which is not itself. */
  ghost predicate LiesIn(tree: Tree, k: Key)
    requires k in tree && !tree[k].Thread?
  {
    && k.parent != tree[k].id
    && if tree[k].id == ROOT then k.parent == ROOT_PARENT else IsFolder(tree, k.parent)
  }

  ghost predicate Rooted(tree: Tree) {
    IsFolder(tree, ROOT) && forall k | k in tree && IsNamed(k) && !tree[k].Thread? :: LiesIn(tree, k)
  }

  /** Each folder counts what lies in it. */
  ghost predicate Counted(tree: Tree) {
    forall k | k in tree && tree[k].Folder? :: tree[k].valence == |Children(tree, tree[k].id)|
  }

  /** Each folder counts the folders in it. */
  ghost predicate FoldersCounted(tree: Tree) {
    forall k | k in tree && tree[k].Folder? :: tree[k].folders == |Subfolders(tree, tree[k].id)|
  }

  ghost predicate IdsBelow(tree: Tree, next: nat) {
    next > ROOT && forall k | k in tree && IsNamed(k) && !tree[k].Thread? :: ROOT_PARENT < tree[k].id < next
  }

  /** Where a file or folder lies. */
  ghost function KeyOf(tree: Tree, id: nat): Key
    requires ThreadKey(id) in tree && tree[ThreadKey(id)].Thread?
  {
    Key(tree[ThreadKey(id)].parent, tree[ThreadKey(id)].name)
  }

  /** No two records have the same id. */
  lemma IdIsUnique(tree: Tree, j: Key, k: Key)
    requires Linked(tree) && j in tree && k in tree && IsNamed(j) && IsNamed(k)
    ensures Threaded(tree, j) && Threaded(tree, k)
    ensures tree[j].id == tree[k].id ==> j == k
  {
    assert Threaded(tree, j) && Threaded(tree, k);
  }

  /** A folder's id leads to its record. */
  lemma FolderAt(tree: Tree, id: nat)
    requires Linked(tree) && IsFolder(tree, id)
    ensures var k := KeyOf(tree, id); k in tree && IsNamed(k) && tree[k].Folder? && tree[k].id == id
  {
    assert Leads(tree, ThreadKey(id));
  }

  ghost predicate Consistent(tree: Tree, next: nat) {
    Linked(tree) && Rooted(tree) && Counted(tree) && IdsBelow(tree, next)
  }

  // ----- What lies where -----

  datatype Item = Item(id: nat, folder: bool)

  /** The files and folders, without the counts. */
  ghost function Names(tree: Tree): map<Key, Item> {
    map k | k in tree && IsNamed(k) && !tree[k].Thread? :: Item(tree[k].id, tree[k].Folder?)
  }

  // ----- Steps -----

  /** A file or folder put in together with its thread. */
  ghost function Inserted(tree: Tree, k: Key, rec: Record): Tree
    requires !rec.Thread?
  {
    tree[k := rec][ThreadKey(rec.id) := Thread(k.parent, k.name, rec.Folder?)]
  }

  /** A file or folder taken out together with its thread. */
  ghost function Deleted(tree: Tree, k: Key): Tree
    requires k in tree && !tree[k].Thread?
  {
    tree - {k, ThreadKey(tree[k].id)}
  }

  /** Other counts for a folder. */
  ghost function Recounted(tree: Tree, k: Key, valence: int, folders: int): Tree
    requires k in tree && tree[k].Folder?
  {
    tree[k := Folder(tree[k].id, valence, folders)]
  }

  /** The record may be put in: its key and its id are not in use, and its parent is a folder. */
  ghost predicate Insertable(tree: Tree, k: Key, rec: Record) {
    && !rec.Thread? && k !in tree && k.name != "" && ThreadKey(rec.id) !in tree
    && rec.id > ROOT && rec.id != k.parent && IsFolder(tree, k.parent)
  }

  lemma InsertLinked(tree: Tree, k: Key, rec: Record)
    requires Linked(tree) && Rooted(tree) && Insertable(tree, k, rec)
    ensures Linked(Inserted(tree, k, rec)) && Rooted(Inserted(tree, k, rec))
  {
    var tree' := Inserted(tree, k, rec);
    forall j | j in tree' && IsNamed(j) ensures Threaded(tree', j) {
      if j != k {
        assert Threaded(tree, j);
      }
    }
    forall j | j in tree' && !IsNamed(j) ensures Leads(tree', j) {
      if j != ThreadKey(rec.id) {
        assert Leads(tree, j);
      }
    }
    forall j | j in tree' && IsNamed(j) && !tree'[j].Thread? ensures LiesIn(tree', j) {
      if j != k {
        assert LiesIn(tree, j);
      }
    }
  }

  /** The second tree has one file or folder more than the first. */
  ghost predicate OneMore(tree: Tree, tree': Tree, k: Key, rec: Record) {
    && IsNamed(k) && !rec.Thread? && k !in tree && k in tree' && tree'[k] == rec
    && (forall j | j in tree && IsNamed(j) :: j in tree' && tree'[j] == tree[j])
    && forall j | j in tree' && IsNamed(j) && j != k :: j in tree
  }

  lemma InsertIsOneMore(tree: Tree, k: Key, rec: Record)
    requires Insertable(tree, k, rec)
    ensures OneMore(tree, Inserted(tree, k, rec), k, rec)
  {}

  lemma DeleteIsOneLess(tree: Tree, k: Key)
    requires k in tree && IsNamed(k) && !tree[k].Thread?
    ensures OneMore(Deleted(tree, k), tree, k, tree[k])
  {}

  lemma OneMoreChild(tree: Tree, tree': Tree, k: Key, rec: Record, id: nat)
    requires OneMore(tree, tree', k, rec)
    ensures |Children(tree', id)| == |Children(tree, id)| + (if k.parent == id then 1 else 0)
  {
    var was, now := Children(tree, id), Children(tree', id);
    if k.parent == id {
      forall j ensures j in now <==> j in was || j == k {}
      assert now == was + {k};
    } else {
      forall j ensures j in now <==> j in was {}
      assert now == was;
    }
  }

  lemma OneMoreSubfolder(tree: Tree, tree': Tree, k: Key, rec: Record, id: nat)
    requires OneMore(tree, tree', k, rec)
    ensures |Subfolders(tree', id)| == |Subfolders(tree, id)| + (if k.parent == id && rec.Folder? then 1 else 0)
  {
    var was, now := Subfolders(tree, id), Subfolders(tree', id);
    if k.parent == id && rec.Folder? {
      forall j ensures j in now <==> j in was || j == k {}
      assert now == was + {k};
    } else {
      forall j ensures j in now <==> j in was {}
      assert now == was;
    }
  }

  lemma OneMoreFile(tree: Tree, tree': Tree, k: Key, rec: Record)
    requires OneMore(tree, tree', k, rec)
    ensures |Files(tree')| == |Files(tree)| + (if rec.File? then 1 else 0)
  {
    var was, now := Files(tree), Files(tree');
    if rec.File? {
      forall j ensures j in now <==> j in was || j == k {}
      assert now == was + {k};
    } else {
      forall j ensures j in now <==> j in was {}
      assert now == was;
    }
  }

  lemma OneMoreFolder(tree: Tree, tree': Tree, k: Key, rec: Record)
    requires OneMore(tree, tree', k, rec)
    ensures |Folders(tree')| == |Folders(tree)| + (if rec.Folder? && rec.id != ROOT then 1 else 0)
  {
    var was, now := Folders(tree), Folders(tree');
    if rec.Folder? && rec.id != ROOT {
      forall j ensures j in now <==> j in was || j == k {}
      assert now == was + {k};
    } else {
      forall j ensures j in now <==> j in was {}
      assert now == was;
    }
  }

  lemma OneMoreName(tree: Tree, tree': Tree, k: Key, rec: Record)
    requires OneMore(tree, tree', k, rec)
    ensures Names(tree') == Names(tree)[k := Item(rec.id, rec.Folder?)]
    ensures Names(tree) == Names(tree') - {k}
  {}

  lemma DeleteLinked(tree: Tree, k: Key)
    requires Linked(tree) && Rooted(tree) && k in tree && IsNamed(k) && !tree[k].Thread? && tree[k].id != ROOT
    requires tree[k].Folder? ==> Children(tree, tree[k].id) == {}
    ensures Linked(Deleted(tree, k)) && Rooted(Deleted(tree, k))
  {
    var id, tree' := tree[k].id, Deleted(tree, k);
    assert Threaded(tree, k);
    forall j | j in tree' && IsNamed(j) ensures Threaded(tree', j) {
      IdIsUnique(tree, j, k);
    }
    forall j | j in tree' && !IsNamed(j) ensures Leads(tree', j) {
      assert Leads(tree, j);
    }
    forall j | j in tree' && IsNamed(j) && !tree'[j].Thread? ensures LiesIn(tree', j) {
      assert LiesIn(tree, j) && Threaded(tree, j);
      if j.parent == id {
        assert j in Children(tree, id);
      }
    }
  }

  lemma RecountLinked(tree: Tree, k: Key, valence: int, folders: int)
    requires Linked(tree) && k in tree && tree[k].Folder?
    ensures Linked(Recounted(tree, k, valence, folders)) && IsNamed(k)
  {
    var tree' := Recounted(tree, k, valence, folders);
    assert !Leads(tree, k);
    forall j | j in tree' && IsNamed(j) ensures Threaded(tree', j) {
      assert Threaded(tree, j);
    }
    forall j | j in tree' && !IsNamed(j) ensures Leads(tree', j) {
      assert Leads(tree, j);
    }
  }

  lemma RecountRooted(tree: Tree, k: Key, valence: int, folders: int)
    requires Rooted(tree) && k in tree && tree[k].Folder?
    ensures Rooted(Recounted(tree, k, valence, folders))
  {
    var tree' := Recounted(tree, k, valence, folders);
    forall j | j in tree' && IsNamed(j) && !tree'[j].Thread? ensures LiesIn(tree', j) {
      assert LiesIn(tree, j);
    }
  }

  /** New counts change nothing else. */
  lemma RecountSets(tree: Tree, k: Key, valence: int, folders: int)
    requires k in tree && tree[k].Folder?
    ensures var tree' := Recounted(tree, k, valence, folders);
      && (forall id :: Children(tree', id) == Children(tree, id) && Subfolders(tree', id) == Subfolders(tree, id))
      && Files(tree') == Files(tree) && Folders(tree') == Folders(tree) && Names(tree') == Names(tree)
  {
    var tree' := Recounted(tree, k, valence, folders);
    forall id ensures Children(tree', id) == Children(tree, id) {}
    forall id ensures Subfolders(tree', id) == Subfolders(tree, id) {}
  }

  // ----- Whole operations -----

  /** A record has been put into a folder, which counts it. */
  ghost predicate PutIn(tree: Tree, tree': Tree, k: Key, rec: Record, next: nat) {
    && Insertable(tree, k, rec) && IsFolder(tree, k.parent) && rec.id < next
    && var home := KeyOf(tree, k.parent);
    && home in tree && tree[home].Folder? && home != k
    && tree' == Recounted(Inserted(tree, k, rec), home, tree[home].valence + 1,
                          tree[home].folders + if rec.Folder? then 1 else 0)
    && (rec.Folder? ==> rec.valence == |Children(tree, rec.id)|)
  }

  /** Nothing lies in a folder that is not there. */
  lemma NoChildren(tree: Tree, id: nat)
    requires Rooted(tree) && Linked(tree) && ThreadKey(id) !in tree && id != ROOT_PARENT
    ensures Children(tree, id) == {} && Subfolders(tree, id) == {}
  {
    forall j | j in tree && IsNamed(j) ensures j.parent != id {
      assert Threaded(tree, j) && LiesIn(tree, j);
    }
  }

  lemma PutInLinked(tree: Tree, tree': Tree, k: Key, rec: Record, next: nat)
    requires Linked(tree) && Rooted(tree) && PutIn(tree, tree', k, rec, next)
    ensures Linked(tree') && Rooted(tree')
  {
    var home := KeyOf(tree, k.parent);
    var tree1 := Inserted(tree, k, rec);
    FolderAt(tree, k.parent);
    InsertLinked(tree, k, rec);
    hide Linked, Rooted;
    RecountLinked(tree1, home, tree'[home].valence, tree'[home].folders);
    RecountRooted(tree1, home, tree'[home].valence, tree'[home].folders);
  }

  lemma PutInIds(tree: Tree, tree': Tree, k: Key, rec: Record, next: nat)
    requires IdsBelow(tree, next) && PutIn(tree, tree', k, rec, next)
    ensures IdsBelow(tree', next)
  {}

  lemma PutInTotals(tree: Tree, tree': Tree, k: Key, rec: Record, next: nat)
    requires PutIn(tree, tree', k, rec, next)
    ensures |Files(tree')| == |Files(tree)| + (if rec.File? then 1 else 0)
    ensures |Folders(tree')| == |Folders(tree)| + (if rec.Folder? then 1 else 0)
    ensures Names(tree') == Names(tree)[k := Item(rec.id, rec.Folder?)]
  {
    var home := KeyOf(tree, k.parent);
    var tree1 := Inserted(tree, k, rec);
    InsertIsOneMore(tree, k, rec);
    assert tree1[home] == tree[home];
    hide OneMore, Insertable;
    RecountSets(tree1, home, tree'[home].valence, tree'[home].folders);
    OneMoreFile(tree, tree1, k, rec);
    OneMoreFolder(tree, tree1, k, rec);
    OneMoreName(tree, tree1, k, rec);
  }

  lemma PutInCounts(tree: Tree, tree': Tree, k: Key, rec: Record, next: nat)
    requires Linked(tree) && Rooted(tree) && IdsBelow(tree, next) && PutIn(tree, tree', k, rec, next)
    ensures Counted(tree) ==> Counted(tree')
    ensures FoldersCounted(tree) && (rec.Folder? ==> rec.folders == |Subfolders(tree, rec.id)|) ==> FoldersCounted(tree')
  {
    var home := KeyOf(tree, k.parent);
    var tree1 := Inserted(tree, k, rec);
    FolderAt(tree, k.parent);
    InsertIsOneMore(tree, k, rec);
    assert tree1[home] == tree[home];
    RecountSets(tree1, home, tree'[home].valence, tree'[home].folders);
    forall j | j in tree' && tree'[j].Folder?
      ensures Counted(tree) ==> tree'[j].valence == |Children(tree', tree'[j].id)|
      ensures FoldersCounted(tree) && (rec.Folder? ==> rec.folders == |Subfolders(tree, rec.id)|) ==>
        tree'[j].folders == |Subfolders(tree', tree'[j].id)|
    {
      OneMoreChild(tree, tree1, k, rec, tree'[j].id);
      OneMoreSubfolder(tree, tree1, k, rec, tree'[j].id);
      if j != k && j != home {
        NamedFolder(tree, j);
        IdIsUnique(tree, j, home);
      }
    }
  }

  /** Folders have names. */
  lemma NamedFolder(tree: Tree, k: Key)
    requires Linked(tree) && k in tree && !tree[k].Thread?
    ensures IsNamed(k)
  {
    assert !Leads(tree, k);
  }

  /** A file or an empty folder has been taken out of a folder. */
  ghost predicate TakenOut(tree: Tree, tree': Tree, k: Key) {
    && k in tree && IsNamed(k) && !tree[k].Thread? && tree[k].id != ROOT && k.parent != tree[k].id
    && (tree[k].Folder? ==> Children(tree, tree[k].id) == {})
    && IsFolder(tree, k.parent)
    && var home := KeyOf(tree, k.parent);
    && home in tree && tree[home].Folder? && home != k && IsNamed(home)
    && tree' == Recounted(Deleted(tree, k), home, tree[home].valence - 1,
                          tree[home].folders - if tree[k].Folder? then 1 else 0)
  }

  lemma TakenOutLinked(tree: Tree, tree': Tree, k: Key)
    requires Linked(tree) && Rooted(tree) && TakenOut(tree, tree', k)
    ensures Linked(tree') && Rooted(tree')
  {
    var home := KeyOf(tree, k.parent);
    var tree1 := Deleted(tree, k);
    DeleteLinked(tree, k);
    hide Linked, Rooted;
    RecountLinked(tree1, home, tree'[home].valence, tree'[home].folders);
    RecountRooted(tree1, home, tree'[home].valence, tree'[home].folders);
  }

  lemma TakenOutTotals(tree: Tree, tree': Tree, k: Key)
    requires TakenOut(tree, tree', k)
    ensures |Files(tree')| == |Files(tree)| - (if tree[k].File? then 1 else 0)
    ensures |Folders(tree')| == |Folders(tree)| - (if tree[k].Folder? then 1 else 0)
    ensures Names(tree') == Names(tree) - {k}
  {
    var home := KeyOf(tree, k.parent);
    var tree1 := Deleted(tree, k);
    DeleteIsOneLess(tree, k);
    assert tree1[home] == tree[home];
    hide OneMore;
    RecountSets(tree1, home, tree'[home].valence, tree'[home].folders);
    OneMoreFile(tree1, tree, k, tree[k]);
    OneMoreFolder(tree1, tree, k, tree[k]);
    OneMoreName(tree1, tree, k, tree[k]);
  }

  lemma TakenOutCounts(tree: Tree, tree': Tree, k: Key)
    requires Linked(tree) && Rooted(tree) && TakenOut(tree, tree', k)
    ensures Counted(tree) ==> Counted(tree')
    ensures FoldersCounted(tree) ==> FoldersCounted(tree')
  {
    var home := KeyOf(tree, k.parent);
    var tree1 := Deleted(tree, k);
    FolderAt(tree, k.parent);
    DeleteIsOneLess(tree, k);
    RecountSets(tree1, home, tree'[home].valence, tree'[home].folders);
    forall j | j in tree' && tree'[j].Folder?
      ensures Counted(tree) ==> tree'[j].valence == |Children(tree', tree'[j].id)|
      ensures FoldersCounted(tree) ==> tree'[j].folders == |Subfolders(tree', tree'[j].id)|
    {
      OneMoreChild(tree1, tree, k, tree[k], tree'[j].id);
      OneMoreSubfolder(tree1, tree, k, tree[k], tree'[j].id);
      if j != home {
        NamedFolder(tree, j);
        IdIsUnique(tree, j, home);
      }
    }
  }

  /** A file or folder under another key. */
  ghost function Renamed(tree: Tree, k: Key, k': Key): Tree
    requires k in tree && !tree[k].Thread?
  {
    (tree - {k})[k' := tree[k]][ThreadKey(tree[k].id) := Thread(k'.parent, k'.name, tree[k].Folder?)]
  }

  /** A file or folder has been moved to another folder: the old one counts one less, the new one one more. */
  ghost predicate MovedTo(tree: Tree, tree': Tree, k: Key, k': Key) {
    && k in tree && IsNamed(k) && !tree[k].Thread? && tree[k].id != ROOT && k.parent != tree[k].id
    && k' !in tree && IsNamed(k') && k'.parent != tree[k].id && k'.parent != k.parent
    && IsFolder(tree, k.parent) && IsFolder(tree, k'.parent)
    && var from, to := KeyOf(tree, k.parent), KeyOf(tree, k'.parent);
    && from in tree && to in tree && tree[from].Folder? && tree[to].Folder?
    && IsNamed(from) && IsNamed(to) && from != k && to != k && from != to
    && tree' == Recounted(Recounted(Renamed(tree, k, k'), from, tree[from].valence - 1, tree[from].folders),
                          to, tree[to].valence + 1, tree[to].folders)
  }

  lemma RenameLinked(tree: Tree, k: Key, k': Key)
    requires Linked(tree) && Rooted(tree) && k in tree && IsNamed(k) && !tree[k].Thread? && tree[k].id != ROOT
    requires k' !in tree && IsNamed(k') && k'.parent != tree[k].id && IsFolder(tree, k'.parent)
    ensures Linked(Renamed(tree, k, k')) && Rooted(Renamed(tree, k, k'))
  {
    var tree' := Renamed(tree, k, k');
    assert Threaded(tree, k);
    forall j | j in tree' && IsNamed(j) ensures Threaded(tree', j) {
      if j != k' {
        IdIsUnique(tree, j, k);
      }
    }
    forall j | j in tree' && !IsNamed(j) ensures Leads(tree', j) {
      if j != ThreadKey(tree[k].id) {
        assert Leads(tree, j);
      }
    }
    forall j | j in tree' && IsNamed(j) && !tree'[j].Thread? ensures LiesIn(tree', j) {
      if j != k' {
        assert LiesIn(tree, j);
      }
    }
  }

  lemma MovedLinked(tree: Tree, tree': Tree, k: Key, k': Key)
    requires Linked(tree) && Rooted(tree) && MovedTo(tree, tree', k, k')
    ensures Linked(tree') && Rooted(tree')
  {
    hide Linked, Rooted;
    var from, to := KeyOf(tree, k.parent), KeyOf(tree, k'.parent);
    var tree1 := Renamed(tree, k, k');
    RenameLinked(tree, k, k');
    assert tree1[from] == tree[from] && tree1[to] == tree[to];
    RecountTwice(tree1, from, to, tree[from].valence - 1, tree[from].folders, tree[to].valence + 1, tree[to].folders);
  }

  lemma RecountTwice(tree: Tree, a: Key, b: Key, va: int, fa: int, vb: int, fb: int)
    requires Linked(tree) && Rooted(tree) && a in tree && tree[a].Folder? && b in tree && tree[b].Folder? && a != b
    ensures var tree' := Recounted(Recounted(tree, a, va, fa), b, vb, fb); Linked(tree') && Rooted(tree')
  {
    hide Linked, Rooted;
    var tree1 := Recounted(tree, a, va, fa);
    RecountLinked(tree, a, va, fa);
    RecountRooted(tree, a, va, fa);
    RecountLinked(tree1, b, vb, fb);
    RecountRooted(tree1, b, vb, fb);
  }

  /** Between the old and the new tree lies one without the file or folder. */
  lemma MovedBetween(tree: Tree, k: Key, k': Key)
    requires k in tree && IsNamed(k) && !tree[k].Thread? && k' !in tree && IsNamed(k')
    ensures var less := Deleted(tree, k); OneMore(less, tree, k, tree[k]) && OneMore(less, Renamed(tree, k, k'), k', tree[k])
  {}

  lemma MovedSets(tree: Tree, tree': Tree, k: Key, k': Key)
    requires MovedTo(tree, tree', k, k')
    ensures var tree1 := Renamed(tree, k, k');
      && (forall id :: Children(tree', id) == Children(tree1, id) && Subfolders(tree', id) == Subfolders(tree1, id))
      && Files(tree') == Files(tree1) && Folders(tree') == Folders(tree1) && Names(tree') == Names(tree1)
  {
    var from, to := KeyOf(tree, k.parent), KeyOf(tree, k'.parent);
    var tree1 := Renamed(tree, k, k');
    var tree2 := Recounted(tree1, from, tree[from].valence - 1, tree[from].folders);
    RecountSets(tree1, from, tree[from].valence - 1, tree[from].folders);
    RecountSets(tree2, to, tree[to].valence + 1, tree[to].folders);
  }

  lemma MovedTotals(tree: Tree, tree': Tree, k: Key, k': Key)
    requires MovedTo(tree, tree', k, k')
    ensures |Files(tree')| == |Files(tree)| && |Folders(tree')| == |Folders(tree)|
    ensures Names(tree') == (Names(tree) - {k})[k' := Item(tree[k].id, tree[k].Folder?)]
  {
    var less, tree1, rec := Deleted(tree, k), Renamed(tree, k, k'), tree[k];
    MovedBetween(tree, k, k');
    MovedSets(tree, tree', k, k');
    hide OneMore, MovedTo;
    OneMoreFile(less, tree, k, rec);
    OneMoreFile(less, tree1, k', rec);
    OneMoreFolder(less, tree, k, rec);
    OneMoreFolder(less, tree1, k', rec);
    OneMoreName(less, tree, k, rec);
    OneMoreName(less, tree1, k', rec);
  }

  /** Moving keeps the counts of what lies in folders, but those of folders only if no folder is moved. */
  lemma MovedCounts(tree: Tree, tree': Tree, k: Key, k': Key)
    requires Linked(tree) && Rooted(tree) && MovedTo(tree, tree', k, k')
    ensures Counted(tree) ==> Counted(tree')
    ensures FoldersCounted(tree) ==> (FoldersCounted(tree') <==> tree[k].File?)
  {
    var from, to := KeyOf(tree, k.parent), KeyOf(tree, k'.parent);
    var less, tree1, rec := Deleted(tree, k), Renamed(tree, k, k'), tree[k];
    FolderAt(tree, k.parent);
    FolderAt(tree, k'.parent);
    MovedBetween(tree, k, k');
    MovedSets(tree, tree', k, k');
    MovedSame(tree, tree', k, k');
    forall j | j in tree' && tree'[j].Folder?
      ensures Counted(tree) ==> tree'[j].valence == |Children(tree', tree'[j].id)|
      ensures FoldersCounted(tree) && rec.File? ==> tree'[j].folders == |Subfolders(tree', tree'[j].id)|
    {
      var id := tree'[j].id;
      OneMoreChild(less, tree, k, rec, id);
      OneMoreChild(less, tree1, k', rec, id);
      OneMoreSubfolder(less, tree, k, rec, id);
      OneMoreSubfolder(less, tree1, k', rec, id);
      MovedFolder(tree, tree', k, k', j);
    }
    OneMoreSubfolder(less, tree, k, rec, k'.parent);
    OneMoreSubfolder(less, tree1, k', rec, k'.parent);
    if rec.Folder? && FoldersCounted(tree) {
      assert tree'[to].folders != |Subfolders(tree', tree'[to].id)|;
    }
  }

  lemma MovedSame(tree: Tree, tree': Tree, k: Key, k': Key)
    requires MovedTo(tree, tree', k, k')
    ensures var from, to := KeyOf(tree, k.parent), KeyOf(tree, k'.parent);
      && from in tree' && to in tree'
      && tree'[from] == Folder(tree[from].id, tree[from].valence - 1, tree[from].folders)
      && tree'[to] == Folder(tree[to].id, tree[to].valence + 1, tree[to].folders)
  {}

  /** A folder of the moved tree, and what it was before. */
  lemma MovedFolder(tree: Tree, tree': Tree, k: Key, k': Key, j: Key)
    requires Linked(tree) && MovedTo(tree, tree', k, k') && j in tree' && tree'[j].Folder?
    ensures var was := if j == k' then k else j;
      && was in tree && tree[was].Folder? && tree'[j].id == tree[was].id && tree'[j].folders == tree[was].folders
      && tree'[j].valence == tree[was].valence - (if was == KeyOf(tree, k.parent) then 1 else 0)
                                               + (if was == KeyOf(tree, k'.parent) then 1 else 0)
      && (tree[was].id == k.parent <==> was == KeyOf(tree, k.parent))
      && (tree[was].id == k'.parent <==> was == KeyOf(tree, k'.parent))
  {
    var was := if j == k' then k else j;
    FolderAt(tree, k.parent);
    FolderAt(tree, k'.parent);
    NamedFolder(tree, was);
    IdIsUnique(tree, was, KeyOf(tree, k.parent));
    IdIsUnique(tree, was, KeyOf(tree, k'.parent));
  }
}
