/** The encoder's working state: the ring buffer and the link arrays, edited in place. The ghost field
    `trees` is what the arrays represent. */
module Encoder {
  import opened Bits
  import opened LzssBase
  import opened SearchTree
  import opened Window

  class EncodeState {
    const lchild: array<int>
    const rchild: array<int>
    const parent: array<int>
    const textBuf: array<Byte>
    var matchPosition: int
    var matchLength: int
    ghost var trees: seq<Tree>

    ghost predicate Shape() {
      && lchild.Length == N + 1 && rchild.Length == N + 257 && parent.Length == N + 1
      && textBuf.Length == N + F - 1
      && lchild != rchild && lchild != parent && rchild != parent
    }

    ghost function LinksNow(): (k: Links)
      requires Shape()
      reads lchild, rchild, parent
      ensures k.Shape()
    {
      Links(lchild[..], rchild[..], parent[..])
    }

    ghost predicate Valid()
      reads this`trees, lchild, rchild, parent, textBuf
    {
      Shape() && Forest(LinksNow(), trees, textBuf[..])
    }

    constructor ()
      ensures Valid() && fresh(lchild) && fresh(rchild) && fresh(parent) && fresh(textBuf)
      ensures trees == seq(256, _ => Empty)
      ensures textBuf[..] == seq(START, _ => SPACE) + seq(2 * F - 1, _ => 0)
    {
      lchild := new int[N + 1](_ => 0);
      rchild := new int[N + 257](_ => 0);
      parent := new int[N + 1](_ => 0);
      textBuf := new Byte[N + F - 1](_ => 0);
      matchPosition, matchLength := 0, 0;
      trees := seq(256, _ => Empty);
      new;
      InitState();
    }

    /** Blanks the zeroed ring, and empties the trees and the list of registered slots. */
    method InitState()
      requires Shape() && trees == seq(256, _ => Empty) && forall j | 0 <= j < textBuf.Length :: textBuf[j] == 0
      modifies rchild, parent, textBuf
      ensures Valid()
      ensures textBuf[..] == seq(START, _ => SPACE) + seq(2 * F - 1, _ => 0)
    {
      hide Forest;
      for i := 0 to N - F
        modifies textBuf
        invariant forall j | 0 <= j < textBuf.Length :: textBuf[j] == if j < i then SPACE else 0
      {
        textBuf[i] := SPACE;
      }
      BlankText(textBuf[..]);
      for i := N + 1 to N + 257
        modifies rchild
        invariant forall j | N + 1 <= j < i :: rchild[j] == NIL
      {
        rchild[i] := NIL;
      }
      for i := 0 to N
        modifies parent
        invariant forall j | 0 <= j < i :: parent[j] == NIL
      {
        parent[i] := NIL;
      }
      EmptyForest(LinksNow(), trees, textBuf[..]);
    }

    /** Compares the strings of two slots that agree on their first byte: where they differ first, and
        the difference of the bytes there. */
    method Compare(r: Pos, p: Pos) returns (i: int, cmp: int)
      requires Shape() && textBuf[r] == textBuf[p]
      ensures i == Lcp(KeyAt(textBuf[..], r), KeyAt(textBuf[..], p)) && 1 <= i <= F
      ensures cmp == if i < F then textBuf[r + i] as int - textBuf[p + i] as int else 0
      ensures i == F <==> KeyAt(textBuf[..], r) == KeyAt(textBuf[..], p)
      ensures cmp < 0 <==> Less(KeyAt(textBuf[..], r), KeyAt(textBuf[..], p))
    {
      hide KeyAt, Lcp, Less;
      i, cmp := 1, 0;
      while i < F
        invariant 1 <= i <= F && cmp == 0
        invariant textBuf[r..r + i] == textBuf[p..p + i]
      {
        cmp := textBuf[r + i] as int - textBuf[p + i] as int;
        if cmp != 0 {
          break;
        }
        i := i + 1;
      }
      assert textBuf[..][r..r + i] == textBuf[r..r + i] && textBuf[..][p..p + i] == textBuf[p..p + i];
      AgreeOn(textBuf[..], r, p, i);
    }

    /** Hangs r under cell p. */
    method Hang(r: Pos, p: int, goRight: bool, ghost path: Path)
      requires Shape() && Forest(LinksNow(), trees, textBuf[..]) && !Live(trees, r)
      requires lchild[r] == rchild[r] == NIL && 0 <= p <= N + 256 && (!goRight ==> p < N)
      requires HasPath(trees[textBuf[r]], path) && At(trees[textBuf[r]], path) == Empty
      requires p == UpAt(trees[textBuf[r]], N + 1 + textBuf[r], path) && goRight == GoesRight(path)
      requires Insert(trees[textBuf[r]], textBuf[..], r) == Put(trees[textBuf[r]], path, Fork(Empty, r, Empty))
      modifies this`trees, lchild, rchild, parent
      ensures Valid()
      ensures trees == old(trees)[textBuf[r] := Insert(old(trees)[textBuf[r]], textBuf[..], r)]
    {
      ghost var k, c := LinksNow(), textBuf[r];
      if goRight {
        rchild[p] := r;
      } else {
        lchild[p] := r;
      }
      parent[r] := p;
      HangLeaf(k, LinksNow(), trees, textBuf[..], r, c, path);
      trees := trees[c := Insert(trees[c], textBuf[..], r)];
    }

    /** Redirects the links to and from p to r and takes p out. */
    method Relink(r: Pos, p: Pos)
      requires Shape() && p != r
      requires 0 <= lchild[p] <= N && lchild[p] != r && lchild[p] != p
      requires 0 <= rchild[p] <= N && rchild[p] != r && rchild[p] != p
      requires 0 <= parent[p] <= N + 256 && parent[p] !in {NIL, p, r}
      requires rchild[parent[p]] != p ==> parent[p] < N
      modifies lchild, rchild, parent
      ensures Swapped(old(LinksNow()), LinksNow(), p, r, old(rchild[parent[p]] == p))
    {
      parent[r] := parent[p];
      lchild[r] := lchild[p];
      rchild[r] := rchild[p];
      parent[lchild[p]] := r;
      parent[rchild[p]] := r;
      if rchild[parent[p]] == p {
        rchild[parent[p]] := r;
      } else {
        lchild[parent[p]] := r;
      }
      parent[p] := NIL;
    }

    /** Puts r in the place of p, whose string is the same. */
    method Supplant(r: Pos, p: Pos, ghost path: Path)
      requires Shape() && Forest(LinksNow(), trees, textBuf[..]) && !Live(trees, r)
      requires HasPath(trees[textBuf[r]], path) && At(trees[textBuf[r]], path).Fork?
      requires p == At(trees[textBuf[r]], path).pos
      requires Insert(trees[textBuf[r]], textBuf[..], r)
            == Put(trees[textBuf[r]], path, At(trees[textBuf[r]], path).(pos := r))
      modifies this`trees, lchild, rchild, parent
      ensures Valid()
      ensures trees == old(trees)[textBuf[r] := Insert(old(trees)[textBuf[r]], textBuf[..], r)]
    {
      ghost var k, c := LinksNow(), textBuf[r];
      NodeLinks(k, trees, textBuf[..], c, path);
      Relink(r, p);
      SwapNode(k, LinksNow(), trees, textBuf[..], r, c, path);
      trees := trees[c := Insert(trees[c], textBuf[..], r)];
    }

    /** Registers the string at slot r and reports the longest match met on the way. A node with the very
        same string is replaced by r. */
    method InsertNode(r: Pos)
      requires Valid() && !Live(trees, r)
      modifies this, lchild, rchild, parent
      ensures Valid()
      ensures trees == old(trees)[textBuf[r] := Insert(old(trees)[textBuf[r]], textBuf[..], r)]
      ensures 0 <= matchLength <= F
      ensures Match(matchPosition, matchLength)
           == Best(old(trees)[textBuf[r]], textBuf[..], r, Match(old(matchPosition), 0))
    {
      hide Forest, Insert, Best, Rep, Sorted, UpAt, Descent, RootAt, Put, SearchTree.At;
      ghost var k0, text, c := LinksNow(), textBuf[..], textBuf[r];
      ghost var m0 := Match(matchPosition, 0);
      var cmp := 1;
      var p := N + 1 + textBuf[r];
      rchild[r], lchild[r] := NIL, NIL;
      matchLength := 0;
      ghost var k := LinksNow();
      DescentStart(k0, k, trees, text, r, c, m0);
      ghost var t := trees[c];
      ghost var path: Path := [];
      while true
        invariant textBuf[..] == text && LinksNow() == k && trees == old(trees)
        invariant 0 <= matchLength < F && HasPath(t, path)
        invariant Descent(k, t, c, text, r, m0, path, p, cmp >= 0, Match(matchPosition, matchLength))
        decreases At(t, path)
      {
        ghost var goRight, m := cmp >= 0, Match(matchPosition, matchLength);
        DescentNext(k, t, c, text, r, m0, path, p, goRight, m);
        if cmp >= 0 {
          if rchild[p] != NIL {
            p := rchild[p];
          } else {
            DescentAtLeaf(k, t, c, text, r, m0, path, p, goRight, m);
            Hang(r, p, true, path);
            return;
          }
        } else {
          if lchild[p] != NIL {
            p := lchild[p];
          } else {
            DescentAtLeaf(k, t, c, text, r, m0, path, p, goRight, m);
            Hang(r, p, false, path);
            return;
          }
        }
        NodeByte(k, trees, text, c, p);
        var i;
        i, cmp := Compare(r, p);
        if i > matchLength {
          matchPosition := p;
          matchLength := i;
          if matchLength >= F {
            DescentAtEqual(k, t, c, text, r, m0, path, UpAt(t, N + 1 + c, path), goRight, m);
            break;
          }
        }
        assert i < F by { LcpFull(KeyAt(text, r), KeyAt(text, p)); }
        DescentStep(k, t, c, text, r, m0, path, UpAt(t, N + 1 + c, path), goRight, m, cmp >= 0,
                    Match(matchPosition, matchLength));
        path := path + [cmp >= 0];
      }
      Supplant(r, p, path);
    }

    /** Finds the greatest node of the left subtree of p, known not to be its root. */
    method FindMax(p: Pos, ghost l: Tree) returns (q: Pos, ghost path: Path)
      requires Shape() && l.Fork? && l.right.Fork? && Distinct(l) && Rep(LinksNow(), l, lchild[p], p)
      ensures OnSpine(l, path) && path != [] && At(l, path).pos == q && At(l, path).right == Empty
    {
      ghost var k := LinksNow();
      q := lchild[p];
      path := [];
      RootIsNode(k, l.right, rchild[q], q);
      while true
        invariant OnSpine(l, path) && At(l, path).pos == q && At(l, path).right.Fork?
        invariant rchild[q] == At(l, path).right.pos
        decreases At(l, path)
      {
        SpineStep(l, path);
        AtExtend(l, path, [true]);
        path := path + [true];
        q := rchild[q];
        RepAt(k, l, lchild[p], p, path);
        RootIsNode(k, At(l, path).right, rchild[q], q);
        if rchild[q] == NIL {
          break;
        }
      }
    }

    /** Cuts q out of the left subtree of p and puts that subtree under q. */
    method Raise(p: Pos, q: Pos)
      requires Shape() && p != q && 0 <= parent[q] < N && parent[q] != q && parent[q] != p
      requires 0 <= lchild[q] <= N && 0 <= lchild[p] < N && lchild[q] != q && lchild[p] != lchild[q]
      requires lchild[p] != q
      modifies lchild, rchild, parent
      ensures Raised(old(LinksNow()), LinksNow(), q, old(lchild[p]))
    {
      rchild[parent[q]] := lchild[q];
      parent[lchild[q]] := parent[q];
      lchild[q] := lchild[p];
      parent[lchild[p]] := q;
    }

    method TakeOver(p: Pos, q: Pos)
      requires Shape() && p != q && 0 <= rchild[p] < N
      modifies rchild, parent
      ensures TookRight(old(LinksNow()), LinksNow(), q, old(rchild[p]))
    {
      rchild[q] := rchild[p];
      parent[rchild[p]] := q;
    }

    /** Joins the two subtrees of p in place: the greatest node of the left one becomes the root. */
    method JoinChildren(p: Pos, ghost l: Tree, ghost r: Tree) returns (q: Pos)
      requires Shape() && l.Fork? && r.Fork? && Distinct(l) && Distinct(r) && Nodes(l) !! Nodes(r)
      requires p !in Nodes(l) + Nodes(r)
      requires Rep(LinksNow(), l, lchild[p], p) && Rep(LinksNow(), r, rchild[p], p)
      modifies lchild, rchild, parent
      ensures q == Max(l) && q in Nodes(l)
      ensures SameOutside(old(LinksNow()), LinksNow(), Nodes(l) + Nodes(r), -1)
      ensures Rep(LinksNow(), DropMax(l), lchild[q], q) && Rep(LinksNow(), r, rchild[q], q)
    {
      ghost var k := LinksNow();
      RootIsNode(k, l, lchild[p], p);
      RootIsNode(k, r, rchild[p], p);
      RootIsNode(k, l.right, rchild[lchild[p]], lchild[p]);
      DropMaxNodes(l);
      q := lchild[p];
      if rchild[q] != NIL {
        ghost var path;
        q, path := FindMax(p, l);
        SpineLinks(k, l, lchild[p], p, path);
        Raise(p, q);
        RaiseMax(k, LinksNow(), l, k.left[p], p, path);
      }
      ghost var k2 := LinksNow();
      TakeOver(p, q);
      TakeRight(k, k2, LinksNow(), Nodes(l), r, p, q, k.right[p]);
      KeepLeft(k2, LinksNow(), DropMax(l), q, k.right[p]);
    }

    /** Finds or makes the node that is to take the place of p. */
    method JoinSubtrees(p: Pos, ghost l: Tree, ghost r: Tree) returns (q: int)
      requires Shape() && Distinct(l) && Distinct(r) && Nodes(l) !! Nodes(r) && p !in Nodes(l) + Nodes(r)
      requires Rep(LinksNow(), l, lchild[p], p) && Rep(LinksNow(), r, rchild[p], p)
      modifies lchild, rchild, parent
      ensures 0 <= q <= N && (q == NIL || q in Nodes(l) + Nodes(r))
      ensures SameOutside(old(LinksNow()), LinksNow(), Nodes(l) + Nodes(r), -1)
      ensures ReadyToJoin(old(LinksNow()), LinksNow(), l, r, p, q)
    {
      ghost var k := LinksNow();
      RootIsNode(k, l, lchild[p], p);
      RootIsNode(k, r, rchild[p], p);
      if rchild[p] == NIL {
        q := lchild[p];
      } else if lchild[p] == NIL {
        q := rchild[p];
      } else {
        q := JoinChildren(p, l, r);
      }
    }

    /** Puts q in the place of p under p's parent, and takes p out. */
    method Unlink(p: Pos, q: int)
      requires Shape() && 0 <= q <= N && q != p
      requires 0 <= parent[p] <= N + 256 && parent[p] !in {NIL, p}
      requires rchild[parent[p]] != p ==> parent[p] < N
      modifies lchild, rchild, parent
      ensures Detached(old(LinksNow()), LinksNow(), p, q, old(rchild[parent[p]] == p))
    {
      parent[q] := parent[p];
      if rchild[parent[p]] == p {
        rchild[parent[p]] := q;
      } else {
        lchild[parent[p]] := q;
      }
      parent[p] := NIL;
    }

    /** Removes the string at slot p, if it is registered. */
    method DeleteNode(p: Pos)
      requires Valid()
      modifies this`trees, lchild, rchild, parent
      ensures Valid() && Removed(old(trees), trees, p)
    {
      ghost var k, c, text := LinksNow(), textBuf[p], textBuf[..];
      LiveIffParent(k, trees, text, p);
      if parent[p] == NIL {
        return;
      }
      ghost var t := trees[c];
      ghost var path := PathTo(t, p);
      ghost var l, r := At(t, path).left, At(t, path).right;
      NodeLinks(k, trees, text, c, path);
      var q := JoinSubtrees(p, l, r);
      ghost var k2 := LinksNow();
      Unlink(p, q);
      JoinedRep(k, k2, LinksNow(), l, r, p, q, GoesRight(path));
      DetachNode(k, k2, LinksNow(), trees, text, c, path, q);
      trees := trees[c := Put(t, path, Join(l, r))];
    }

    // ----- The window -----

    /** The strings of the window, up to the one of position R, are registered. */
    ghost predicate Settled(x: seq<Byte>, R: int)
      reads this`trees, lchild, rchild, parent, textBuf
    {
      && Valid() && START <= R < |x| && BlankStart(x)
      && Registered(trees, textBuf[..], R, R + 1)
      && TextHolds(textBuf[..], x, R, Top(x, R))
    }

    /** Moreover the longest match for position R is known. */
    ghost predicate Ready(x: seq<Byte>, R: int)
      reads this, lchild, rchild, parent, textBuf
    {
      && Settled(x, R)
      && 0 <= matchLength && Found(textBuf[..], R, matchPosition, matchLength)
    }

    /** Position R is next, and its slot is free. */
    ghost predicate Open(x: seq<Byte>, R: int)
      reads this`trees, lchild, rchild, parent, textBuf
    {
      && Valid() && START <= R <= |x| && BlankStart(x)
      && Registered(trees, textBuf[..], R, R)
      && TextHolds(textBuf[..], x, R, Top(x, R))
    }

    /** Registers position R and finds its longest match. */
    method Register(r: Pos, ghost x: seq<Byte>, ghost R: int)
      requires Open(x, R) && R < |x| && r == Slot(R)
      modifies this, lchild, rchild, parent
      ensures Ready(x, R)
    {
      ghost var k, trees0, pos0 := LinksNow(), trees, matchPosition;
      NextIsNew(trees, R);
      InsertNode(r);
      BestIsLongestLive(k, trees0, textBuf[..], r, pos0);
      InsertAdds(k, trees0, textBuf[..], r);
      AddRegistered(trees0, trees, textBuf[..], R);
      LongestIsFound(trees0, textBuf[..], R, matchPosition, matchLength);
    }

    /** Drops the oldest position and reads the next byte in its place, and into the mirror if need be. */
    method ReadByte(s: Pos, c: Byte, ghost x: seq<Byte>, ghost R: int)
      requires Settled(x, R) && R + F < |x| && s == Slot(R + F) && c == x[R + F]
      modifies this`trees, lchild, rchild, parent, textBuf
      ensures Open(x, R + 1)
    {
      ghost var text, trees0 := textBuf[..], trees;
      DeleteNode(s);
      DropRegistered(trees0, trees, text, R);
      StoreRegistered(trees, text, R, c);
      ForestStored(LinksNow(), trees, text, Stored(text, s, c));
      StoreHolds(text, x, R);
      textBuf[s] := c;
      if s < F - 1 {
        textBuf[s + N] := c;
      }
      assert textBuf[..] == Stored(text, s, c);
    }

    /** Past the end of the text there is nothing to read, but the oldest position still goes. */
    method Expire(s: Pos, ghost x: seq<Byte>, ghost R: int)
      requires Settled(x, R) && R + F >= |x| && s == Slot(R + F)
      modifies this`trees, lchild, rchild, parent
      ensures Open(x, R + 1)
    {
      ghost var trees0 := trees;
      DeleteNode(s);
      DropRegistered(trees0, trees, textBuf[..], R);
    }

    /** Reads the first bytes of the text into the last F slots of a fresh ring. */
    method Load(src: seq<Byte>) returns (len: nat)
      requires Valid() && trees == seq(256, _ => Empty)
      requires textBuf[..] == seq(START, _ => SPACE) + seq(2 * F - 1, _ => 0)
      modifies textBuf
      ensures Valid() && len == if |src| < F then |src| else F
      ensures TextHolds(textBuf[..], seq(START, _ => SPACE) + src, START, START + len)
    {
      hide Forest;
      ghost var text := textBuf[..];
      len := 0;
      while len < F && len < |src|
        invariant 0 <= len <= F && len <= |src|
        invariant textBuf[..START] == text[..START]
        invariant textBuf[START..START + len] == src[..len]
      {
        textBuf[START + len] := src[len];
        len := len + 1;
      }
      ForestStored(LinksNow(), trees, text, textBuf[..]);
      LoadedText(text, textBuf[..], src, len);
    }

    /** Registers the strings that begin with blanks, from right to left. */
    method RegisterBlanks(ghost x: seq<Byte>)
      requires Valid() && trees == seq(256, _ => Empty) && START < |x|
      requires BlankStart(x)
      requires TextHolds(textBuf[..], x, START, Top(x, START))
      modifies this, lchild, rchild, parent
      ensures Open(x, START)
    {
      hide Forest, TextHolds, Added, Primed, Registered;
      NonePrimed(trees, textBuf[..]);
      var i := 1;
      while i <= F
        invariant 1 <= i <= F + 1 && Valid() && TextHolds(textBuf[..], x, START, Top(x, START))
        invariant Primed(trees, textBuf[..], i - 1)
      {
        ghost var k, trees0 := LinksNow(), trees;
        assert Slot(START - i) == START - i;
        PrimedFree(trees, textBuf[..], i - 1);
        InsertNode(START - i);
        InsertAdds(k, trees0, textBuf[..], START - i);
        AddPrimed(trees0, trees, textBuf[..], i - 1);
        i := i + 1;
      }
      BlankFront(textBuf[..], x, Top(x, START));
      PrimedRegistered(trees, textBuf[..]);
    }
  }
}
