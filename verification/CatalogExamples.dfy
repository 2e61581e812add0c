/** A small catalog, and what three moves make of it. */
module CatalogExamples {
  import opened CatalogPaths
  import opened CatalogRecords
  import opened HfsCatalog

  /** The root with two folders, 16 and 17, and a file, 18, in the first of them. */
  ghost function Small(): Tree {
    map[
      Key(1, "disk") := Folder(2, 2, 2), Key(2, "") := Thread(1, "disk", true),
      Key(2, "a") := Folder(16, 1, 0), Key(16, "") := Thread(2, "a", true),
      Key(2, "b") := Folder(17, 0, 0), Key(17, "") := Thread(2, "b", true),
      Key(16, "f") := File(18), Key(18, "") := Thread(16, "f", false)]
  }

  lemma SmallChildren()
    ensures Children(Small(), 2) == {Key(2, "a"), Key(2, "b")} == Subfolders(Small(), 2)
    ensures Children(Small(), 16) == {Key(16, "f")} && Subfolders(Small(), 16) == {}
    ensures Children(Small(), 17) == {} == Subfolders(Small(), 17)
  {}

  lemma SmallSizes()
    ensures |Children(Small(), 2)| == 2 == |Subfolders(Small(), 2)|
    ensures |Children(Small(), 16)| == 1 && |Subfolders(Small(), 16)| == 0
    ensures |Children(Small(), 17)| == 0 == |Subfolders(Small(), 17)|
  {
    hide Small, Children, Subfolders;
    SmallChildren();
    assert |{Key(2, "a"), Key(2, "b")}| == 2;
  }

  lemma SmallFolders(k: Key)
    requires k in Small() && Small()[k].Folder?
    ensures var rec := Small()[k]; rec == Folder(2, 2, 2) || rec == Folder(16, 1, 0) || rec == Folder(17, 0, 0)
  {}

  lemma SmallIsCounted()
    ensures Counted(Small()) && FoldersCounted(Small())
  {
    hide Small, Children, Subfolders;
    SmallSizes();
    forall k | k in Small() && Small()[k].Folder?
      ensures Small()[k].valence == |Children(Small(), Small()[k].id)| && Small()[k].folders == |Subfolders(Small(), Small()[k].id)|
    {
      SmallFolders(k);
    }
  }

  lemma SmallIsConsistent()
    ensures Consistent(Small(), 19) && FoldersCounted(Small())
  {
    hide Small, Linked, Rooted, Counted, FoldersCounted, IdsBelow;
    SmallIsCounted();
    SmallIsLinked();
    SmallThreadsLead();
    SmallLinks();
    SmallIsRooted();
  }

  lemma SmallLinks()
    requires forall k | k in Small() && IsNamed(k) :: Threaded(Small(), k)
    requires forall k | k in Small() && !IsNamed(k) :: Leads(Small(), k)
    ensures Linked(Small())
  {
    hide Small;
  }

  lemma SmallIsLinked()
    ensures forall k | k in Small() && IsNamed(k) :: Threaded(Small(), k)
  {}

  lemma SmallThreadsLead()
    ensures forall k | k in Small() && !IsNamed(k) :: Leads(Small(), k)
  {}

  lemma SmallIsRooted()
    ensures Rooted(Small()) && IdsBelow(Small(), 19)
  {}

  /** The file moved within its folder: the folder counts two. */
  lemma WithinOneFolder()
    ensures Consistent(Small(), 19)
    ensures IsMove(Small(), AfterMove(Small(), Key(16, "f"), Key(16, "g")), Key(16, "f"), Key(16, "g"))
    ensures !Consistent(AfterMove(Small(), Key(16, "f"), Key(16, "g")), 19)
  {
    hide Consistent;
    SmallIsConsistent();
    MoveWithin(Small(), AfterMove(Small(), Key(16, "f"), Key(16, "g")), Key(16, "f"), Key(16, "g"), 19);
  }

  /** The file moved to the root under the name of the other folder: its thread leads to that folder. */
  lemma OntoNameInUse()
    ensures Consistent(Small(), 19)
    ensures IsMove(Small(), AfterMove(Small(), Key(16, "f"), Key(2, "b")), Key(16, "f"), Key(2, "b"))
    ensures !Consistent(AfterMove(Small(), Key(16, "f"), Key(2, "b")), 19)
  {
    hide Consistent;
    SmallIsConsistent();
    MoveOver(Small(), AfterMove(Small(), Key(16, "f"), Key(2, "b")), Key(16, "f"), Key(2, "b"), 19);
    NotLinked(AfterMove(Small(), Key(16, "f"), Key(2, "b")), 19);
  }

  lemma NotLinked(tree: Tree, next: nat)
    requires !Linked(tree)
    ensures !Consistent(tree, next)
  {}

  /** The second folder moved into the first: the catalog stays consistent, but the counts of folders do not stay right. */
  lemma FolderMoved()
    ensures Consistent(Small(), 19) && FoldersCounted(Small())
    ensures IsMove(Small(), AfterMove(Small(), Key(2, "b"), Key(16, "b")), Key(2, "b"), Key(16, "b"))
    ensures Consistent(AfterMove(Small(), Key(2, "b"), Key(16, "b")), 19)
    ensures !FoldersCounted(AfterMove(Small(), Key(2, "b"), Key(16, "b")))
  {
    hide Consistent, FoldersCounted;
    SmallIsConsistent();
    MoveKeeps(Small(), AfterMove(Small(), Key(2, "b"), Key(16, "b")), Key(2, "b"), Key(16, "b"), 19);
  }
}
