/** Whether everything in a catalog can be reached from the root: what each operation keeps of that. */
module CatalogPaths {
  import opened CatalogRecords

  ghost predicate HasThread(tree: Tree, id: nat) {
    ThreadKey(id) in tree && tree[ThreadKey(id)].Thread?
  }

  /** The folder in which a file or folder lies. */
  ghost function Up(tree: Tree, id: nat): nat
    requires HasThread(tree, id)
  {
    tree[ThreadKey(id)].parent
  }

  /** Going up from an id comes to another one in at most n steps. */
  ghost predicate Climbs(tree: Tree, id: nat, top: nat, n: nat)
    decreases n
  {
    id == top || (n > 0 && HasThread(tree, id) && Climbs(tree, Up(tree, id), top, n - 1))
  }

  /** A folder is the other one or lies somewhere below it. */
  ghost predicate Below(tree: Tree, id: nat, top: nat) {
    exists n: nat :: Climbs(tree, id, top, n)
  }

  /** Every file and folder lies below the root. */
  ghost predicate Reachable(tree: Tree) {
    forall k | k in tree && IsNamed(k) && !tree[k].Thread? :: Below(tree, tree[k].id, ROOT)
  }

  lemma OneUp(tree: Tree, id: nat, top: nat)
    requires HasThread(tree, id) && Below(tree, Up(tree, id), top)
    ensures Below(tree, id, top)
  {
    var n: nat :| Climbs(tree, Up(tree, id), top, n);
    assert Climbs(tree, id, top, n + 1);
  }

  lemma OneDown(tree: Tree, id: nat, top: nat)
    requires id != top && Below(tree, id, top)
    ensures HasThread(tree, id) && Below(tree, Up(tree, id), top)
  {
    var n: nat :| Climbs(tree, id, top, n);
    assert Climbs(tree, Up(tree, id), top, n - 1);
  }

  /** Where all threads on the way are the same, the way is the same. */
  lemma {:induction false} SameWay(tree: Tree, tree': Tree, id: nat, n: nat)
    requires Climbs(tree, id, ROOT, n)
    requires forall j | HasThread(tree, j) :: HasThread(tree', j) && Up(tree', j) == Up(tree, j)
    ensures Below(tree', id, ROOT)
    decreases n
  {
    if id == ROOT {
      assert Climbs(tree', id, ROOT, 0);
    } else {
      SameWay(tree, tree', Up(tree, id), n - 1);
      OneUp(tree', id, ROOT);
    }
  }

  // ----- A new file or folder -----

  lemma PutInReachable(tree: Tree, tree': Tree, k: Key, rec: Record, next: nat)
    requires Consistent(tree, next) && PutIn(tree, tree', k, rec, next + 1) && Reachable(tree)
    ensures Reachable(tree')
  {
    hide Climbs;
    var home := KeyOf(tree, k.parent);
    forall j | HasThread(tree, j) ensures HasThread(tree', j) && Up(tree', j) == Up(tree, j) {}
    FolderAt(tree, k.parent);
    forall j | j in tree' && IsNamed(j) && !tree'[j].Thread? ensures Below(tree', tree'[j].id, ROOT) {
      var was := if j == k then home else j;
      assert was in tree && !tree[was].Thread?;
      var n: nat :| Climbs(tree, tree[was].id, ROOT, n);
      SameWay(tree, tree', tree[was].id, n);
      if j == k {
        OneUp(tree', rec.id, ROOT);
      }
    }
  }

  // ----- A file or an empty folder less -----

  /** Nothing lies in what is taken out. */
  lemma NothingLeads(tree: Tree, tree': Tree, k: Key, id: nat)
    requires Linked(tree) && Rooted(tree) && TakenOut(tree, tree', k) && HasThread(tree, id) && id != tree[k].id && id != ROOT
    ensures HasThread(tree', id) && Up(tree', id) == Up(tree, id) != tree[k].id
  {
    assert Leads(tree, ThreadKey(id));
    var j := KeyOf(tree, id);
    assert LiesIn(tree, j) && Threaded(tree, k);
    assert j in Children(tree, j.parent);
  }

  /** So no way leads over it. */
  lemma {:induction false} AroundRemoved(tree: Tree, tree': Tree, k: Key, id: nat, n: nat)
    requires Linked(tree) && Rooted(tree) && TakenOut(tree, tree', k) && Climbs(tree, id, ROOT, n) && id != tree[k].id
    ensures Below(tree', id, ROOT)
    decreases n
  {
    hide Linked, Rooted, TakenOut;
    if id == ROOT {
      assert Climbs(tree', id, ROOT, 0);
    } else {
      NothingLeads(tree, tree', k, id);
      AroundRemoved(tree, tree', k, Up(tree, id), n - 1);
      OneUp(tree', id, ROOT);
    }
  }

  lemma TakenOutReachable(tree: Tree, tree': Tree, k: Key)
    requires Linked(tree) && Rooted(tree) && TakenOut(tree, tree', k) && Reachable(tree)
    ensures Reachable(tree')
  {
    hide Climbs;
    forall j | j in tree' && IsNamed(j) && !tree'[j].Thread? ensures Below(tree', tree'[j].id, ROOT) {
      IdIsUnique(tree, j, k);
      assert j in tree && tree[j].id == tree'[j].id;
      var n: nat :| Climbs(tree, tree[j].id, ROOT, n);
      AroundRemoved(tree, tree', k, tree[j].id, n);
    }
  }

  // ----- A file or folder moved -----

  /** All ways but the one up from what is moved are as they were. */
  lemma MovedThreads(tree: Tree, tree': Tree, k: Key, k': Key, id: nat)
    requires MovedTo(tree, tree', k, k')
    ensures HasThread(tree', tree[k].id) && Up(tree', tree[k].id) == k'.parent
    ensures id != tree[k].id ==> (HasThread(tree', id) <==> HasThread(tree, id)) && (HasThread(tree, id) ==> Up(tree', id) == Up(tree, id))
  {}

  /** A way that does not lead over what is moved. */
  lemma {:induction false} WayPast(tree: Tree, tree': Tree, k: Key, k': Key, id: nat, n: nat)
    requires k in tree && !tree[k].Thread? && MovedTo(tree, tree', k, k')
    requires Climbs(tree, id, ROOT, n) && !Below(tree, id, tree[k].id)
    ensures Below(tree', id, ROOT)
    decreases n
  {
    hide MovedTo;
    if id == ROOT {
      assert Climbs(tree', id, ROOT, 0);
    } else {
      assert Climbs(tree, id, id, 0);
      MovedThreads(tree, tree', k, k', id);
      if Below(tree, Up(tree, id), tree[k].id) {
        OneUp(tree, id, tree[k].id);
      }
      WayPast(tree, tree', k, k', Up(tree, id), n - 1);
      OneUp(tree', id, ROOT);
    }
  }

  /** Where what is moved can be reached, everything can. */
  lemma {:induction false} WayOver(tree: Tree, tree': Tree, k: Key, k': Key, id: nat, n: nat)
    requires k in tree && !tree[k].Thread? && MovedTo(tree, tree', k, k')
    requires Climbs(tree, id, ROOT, n) && Below(tree', tree[k].id, ROOT)
    ensures Below(tree', id, ROOT)
    decreases n
  {
    hide MovedTo;
    if id == ROOT {
      assert Climbs(tree', id, ROOT, 0);
    } else if id != tree[k].id {
      MovedThreads(tree, tree', k, k', id);
      WayOver(tree, tree', k, k', Up(tree, id), n - 1);
      OneUp(tree', id, ROOT);
    }
  }

  /** Above the root there is nothing. */
  lemma NothingAboveRoot(tree: Tree, next: nat)
    requires Consistent(tree, next)
    ensures !HasThread(tree, ROOT_PARENT) && (HasThread(tree, ROOT) ==> Up(tree, ROOT) == ROOT_PARENT)
  {
    if HasThread(tree, ROOT) {
      ThreadLeads(tree, ROOT);
      assert LiesIn(tree, KeyOf(tree, ROOT));
    }
    if HasThread(tree, ROOT_PARENT) {
      ThreadLeads(tree, ROOT_PARENT);
    }
  }

  lemma ThreadLeads(tree: Tree, id: nat)
    requires Linked(tree) && HasThread(tree, id)
    ensures var k := KeyOf(tree, id); k in tree && IsNamed(k) && !tree[k].Thread? && tree[k].id == id
  {
    assert Leads(tree, ThreadKey(id));
  }

  lemma NoWay(tree: Tree, id: nat, top: nat)
    requires !HasThread(tree, id) && id != top
    ensures !Below(tree, id, top)
  {}

  /** The root does not lie below anything else. */
  lemma RootIsTop(tree: Tree, next: nat, id: nat)
    requires Consistent(tree, next) && id > ROOT
    ensures !Below(tree, ROOT, id)
  {
    hide Consistent;
    NothingAboveRoot(tree, next);
    NoWay(tree, ROOT_PARENT, id);
    if Below(tree, ROOT, id) {
      OneDown(tree, ROOT, id);
    }
  }

  /** From what lies below a folder that has been moved to below itself, no way leads to the root. */
  lemma {:induction false} RoundAndRound(tree: Tree, tree': Tree, k: Key, k': Key, next: nat, id: nat, n: nat)
    requires k in tree && !tree[k].Thread? && Consistent(tree, next) && MovedTo(tree, tree', k, k')
    requires Below(tree, k'.parent, tree[k].id) && Below(tree, id, tree[k].id)
    ensures !Climbs(tree', id, ROOT, n)
    decreases n
  {
    hide Consistent, MovedTo;
    MovedIsNotRoot(tree, tree', k, k', next);
    RootIsTop(tree, next, tree[k].id);
    if n > 0 {
      MovedThreads(tree, tree', k, k', id);
      if id == tree[k].id {
        RoundAndRound(tree, tree', k, k', next, k'.parent, n - 1);
      } else {
        OneDown(tree, id, tree[k].id);
        RoundAndRound(tree, tree', k, k', next, Up(tree, id), n - 1);
      }
    }
  }

  lemma MovedIsNotRoot(tree: Tree, tree': Tree, k: Key, k': Key, next: nat)
    requires Consistent(tree, next) && MovedTo(tree, tree', k, k')
    ensures tree[k].id > ROOT
  {}

  /** After a move everything can still be reached from the root if and only if the new folder does not lie below what
      was moved. */
  lemma MovedReachable(tree: Tree, tree': Tree, k: Key, k': Key, next: nat)
    requires Consistent(tree, next) && MovedTo(tree, tree', k, k') && Reachable(tree)
    ensures Reachable(tree') <==> !Below(tree, k'.parent, tree[k].id)
  {
    var id := tree[k].id;
    FolderAt(tree, k'.parent);
    var n: nat :| Climbs(tree, tree[KeyOf(tree, k'.parent)].id, ROOT, n);
    assert k' in tree' && tree'[k'] == tree[k];
    if Below(tree, k'.parent, id) {
      assert Climbs(tree, id, id, 0);
      forall m: nat ensures !Climbs(tree', id, ROOT, m) {
        RoundAndRound(tree, tree', k, k', next, id, m);
      }
    } else {
      WayPast(tree, tree', k, k', k'.parent, n);
      MovedThreads(tree, tree', k, k', id);
      OneUp(tree', id, ROOT);
      forall j | j in tree' && IsNamed(j) && !tree'[j].Thread? ensures Below(tree', tree'[j].id, ROOT) {
        var was := if j == k' then k else j;
        assert was in tree && !tree[was].Thread? && tree[was].id == tree'[j].id;
        var m: nat :| Climbs(tree, tree[was].id, ROOT, m);
        WayOver(tree, tree', k, k', tree[was].id, m);
      }
    }
  }
}
