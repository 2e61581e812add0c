/** The search trees of the LZSS encoder, as values: insertion, deletion and longest-match search, and
    what the array representation of such a tree is. */
module SearchTree {
  import opened Bits
  import opened LzssBase

  datatype Tree = Empty | Fork(left: Tree, pos: Pos, right: Tree)

  ghost function Nodes(t: Tree): set<Pos> {
    match t
    case Empty => {}
    case Fork(l, p, r) => Nodes(l) + {p} + Nodes(r)
  }

  /** Every node occurs once. */
  ghost predicate Distinct(t: Tree) {
    match t
    case Empty => true
    case Fork(l, p, r) =>
      && p !in Nodes(l) && p !in Nodes(r) && Nodes(l) !! Nodes(r)
      && Distinct(l) && Distinct(r)
  }

  ghost predicate Before(p: Pos, q: Pos, text: seq<Byte>)
    requires IsText(text)
  {
    Less(KeyAt(text, p), KeyAt(text, q))
  }

  ghost predicate AllBefore(ns: set<Pos>, p: Pos, text: seq<Byte>)
    requires IsText(text)
  {
    forall n: Pos | n in ns :: Before(n, p, text)
  }

  ghost predicate AllAfter(ns: set<Pos>, p: Pos, text: seq<Byte>)
    requires IsText(text)
  {
    forall n: Pos | n in ns :: Before(p, n, text)
  }

  /** In-order strictly increasing strings. */
  ghost predicate Sorted(t: Tree, text: seq<Byte>)
    requires IsText(text)
  {
    match t
    case Empty => true
    case Fork(l, p, r) =>
      && AllBefore(Nodes(l), p, text) && AllAfter(Nodes(r), p, text)
      && Sorted(l, text) && Sorted(r, text)
  }

  lemma SortedFrame(t: Tree, text: seq<Byte>, text': seq<Byte>)
    requires IsText(text) && IsText(text') && Distinct(t) && Sorted(t, text)
    requires forall n: Pos | n in Nodes(t) :: KeyAt(text', n) == KeyAt(text, n)
    ensures Sorted(t, text')
  {}

  // ----- Insertion and search -----

  /** Inserts r; a node with the same string is replaced by r. */
  ghost function Insert(t: Tree, text: seq<Byte>, r: Pos): Tree
    requires IsText(text)
  {
    match t
    case Empty => Fork(Empty, r, Empty)
    case Fork(left, p, right) =>
      if KeyAt(text, r) == KeyAt(text, p) then Fork(left, r, right)
      else if Less(KeyAt(text, r), KeyAt(text, p)) then Fork(Insert(left, text, r), p, right)
      else Fork(left, p, Insert(right, text, r))
  }

  /** The nodes whose string is that of r. */
  ghost predicate SameKey(text: seq<Byte>, n: Pos, r: Pos)
    requires IsText(text)
  {
    KeyAt(text, n) == KeyAt(text, r)
  }

  lemma NoKeyOf(t: Tree, p: Pos, text: seq<Byte>)
    requires IsText(text) && (AllBefore(Nodes(t), p, text) || AllAfter(Nodes(t), p, text))
    ensures forall n: Pos | n in Nodes(t) :: !SameKey(text, n, p)
  {
    forall n: Pos | n in Nodes(t) ensures !SameKey(text, n, p) {
      LessTrichotomy(KeyAt(text, n), KeyAt(text, p));
      assert Before(n, p, text) || Before(p, n, text);
    }
  }

  lemma SortedFork(l: Tree, p: Pos, r: Tree, text: seq<Byte>)
    requires IsText(text) && Distinct(l) && Distinct(r) && Sorted(l, text) && Sorted(r, text)
    requires p !in Nodes(l) && p !in Nodes(r) && Nodes(l) !! Nodes(r)
    requires AllBefore(Nodes(l), p, text) && AllAfter(Nodes(r), p, text)
    ensures Distinct(Fork(l, p, r)) && Sorted(Fork(l, p, r), text)
  {}

  /** The nodes after insertion: r is there, and a node is lost just when its string is that of r. */
  ghost predicate InsertedNodes(ns: set<Pos>, ns': set<Pos>, r: Pos, text: seq<Byte>)
    requires IsText(text)
  {
    forall n: Pos :: n in ns' <==> n == r || (n in ns && !SameKey(text, n, r))
  }

  lemma InsertAtEqual(l: Tree, p: Pos, rt: Tree, text: seq<Byte>, r: Pos)
    requires IsText(text) && Distinct(Fork(l, p, rt)) && Sorted(Fork(l, p, rt), text)
    requires r !in Nodes(l) + Nodes(rt) && KeyAt(text, r) == KeyAt(text, p)
    ensures Distinct(Fork(l, r, rt)) && Sorted(Fork(l, r, rt), text)
    ensures InsertedNodes(Nodes(Fork(l, p, rt)), Nodes(Fork(l, r, rt)), r, text)
  {
    NoKeyOf(l, p, text);
    NoKeyOf(rt, p, text);
    forall n: Pos | n in Nodes(l) ensures Before(n, r, text) {
      assert Before(n, p, text);
    }
    forall n: Pos | n in Nodes(rt) ensures Before(r, n, text) {
      assert Before(p, n, text);
    }
    SortedFork(l, r, rt, text);
  }

  lemma InsertedLeft(l: Tree, p: Pos, rt: Tree, text: seq<Byte>, r: Pos, l': Tree)
    requires IsText(text) && Distinct(Fork(l, p, rt)) && Sorted(Fork(l, p, rt), text)
    requires r !in Nodes(Fork(l, p, rt)) && Before(r, p, text)
    requires Distinct(l') && Sorted(l', text) && InsertedNodes(Nodes(l), Nodes(l'), r, text)
    ensures Distinct(Fork(l', p, rt)) && Sorted(Fork(l', p, rt), text)
    ensures InsertedNodes(Nodes(Fork(l, p, rt)), Nodes(Fork(l', p, rt)), r, text)
  {
    forall n: Pos | n in Nodes(rt) + {p} ensures !SameKey(text, n, r) {
      LessTrichotomy(KeyAt(text, r), KeyAt(text, n));
      if n != p {
        assert Before(p, n, text);
        LcpBetween(KeyAt(text, r), KeyAt(text, p), KeyAt(text, n));
      }
    }
    SortedFork(l', p, rt, text);
  }

  lemma InsertedRight(l: Tree, p: Pos, rt: Tree, text: seq<Byte>, r: Pos, rt': Tree)
    requires IsText(text) && Distinct(Fork(l, p, rt)) && Sorted(Fork(l, p, rt), text)
    requires r !in Nodes(Fork(l, p, rt)) && Before(p, r, text)
    requires Distinct(rt') && Sorted(rt', text) && InsertedNodes(Nodes(rt), Nodes(rt'), r, text)
    ensures Distinct(Fork(l, p, rt')) && Sorted(Fork(l, p, rt'), text)
    ensures InsertedNodes(Nodes(Fork(l, p, rt)), Nodes(Fork(l, p, rt')), r, text)
  {
    forall n: Pos | n in Nodes(l) + {p} ensures !SameKey(text, n, r) {
      LessTrichotomy(KeyAt(text, n), KeyAt(text, r));
      if n != p {
        assert Before(n, p, text);
        LcpBetween(KeyAt(text, n), KeyAt(text, p), KeyAt(text, r));
      }
    }
    SortedFork(l, p, rt', text);
  }

  lemma {:induction false} InsertKeepsOrder(t: Tree, text: seq<Byte>, r: Pos)
    requires IsText(text) && Distinct(t) && Sorted(t, text) && r !in Nodes(t)
    ensures Distinct(Insert(t, text, r)) && Sorted(Insert(t, text, r), text)
    ensures InsertedNodes(Nodes(t), Nodes(Insert(t, text, r)), r, text)
  {
    match t
    case Empty =>
    case Fork(left, p, right) =>
      LessTrichotomy(KeyAt(text, r), KeyAt(text, p));
      if KeyAt(text, r) == KeyAt(text, p) {
        InsertAtEqual(left, p, right, text, r);
      } else if Less(KeyAt(text, r), KeyAt(text, p)) {
        InsertKeepsOrder(left, text, r);
        InsertedLeft(left, p, right, text, r, Insert(left, text, r));
      } else {
        InsertKeepsOrder(right, text, r);
        InsertedRight(left, p, right, text, r, Insert(right, text, r));
      }
  }

  datatype Match = Match(pos: int, len: nat)

  /** The longest match met on the way down, starting from the best one so far. */
  ghost function Best(t: Tree, text: seq<Byte>, r: Pos, m: Match): Match
    requires IsText(text)
  {
    match t
    case Empty => m
    case Fork(left, p, right) =>
      var k, kp := KeyAt(text, r), KeyAt(text, p);
      var i := Lcp(k, kp);
      var m' := if i > m.len then Match(p, i) else m;
      if k == kp then m'
      else if Less(k, kp) then Best(left, text, r, m')
      else Best(right, text, r, m')
  }

  /** The search meets, on its single path, a string with the longest common prefix in the whole tree. */
  lemma {:induction false} BestIsLongest(t: Tree, text: seq<Byte>, r: Pos, m: Match)
    requires IsText(text) && Distinct(t) && Sorted(t, text)
    ensures var b := Best(t, text, r, m);
      && b.len >= m.len
      && (b == m || (0 <= b.pos < N && b.pos in Nodes(t) && Lcp(KeyAt(text, r), KeyAt(text, b.pos)) == b.len))
    ensures forall n: Pos | n in Nodes(t) :: Lcp(KeyAt(text, r), KeyAt(text, n)) <= Best(t, text, r, m).len
  {
    if t.Fork? {
      var p := t.pos;
      var k, kp := KeyAt(text, r), KeyAt(text, p);
      var i := Lcp(k, kp);
      var m' := if i > m.len then Match(p, i) else m;
      LessTrichotomy(k, kp);
      if k == kp {
        LcpFull(k, kp);
      } else if Less(k, kp) {
        BestIsLongest(t.left, text, r, m');
        forall n: Pos | n in Nodes(t.right) ensures Lcp(k, KeyAt(text, n)) <= i {
          assert Before(p, n, text);
          LcpBetween(k, kp, KeyAt(text, n));
        }
      } else {
        BestIsLongest(t.right, text, r, m');
        forall n: Pos | n in Nodes(t.left) ensures Lcp(k, KeyAt(text, n)) <= i {
          assert Before(n, p, text);
          LcpBetween(KeyAt(text, n), kp, k);
          LcpSymmetric(KeyAt(text, n), k);
          LcpSymmetric(kp, k);
        }
      }
    }
  }

  // ----- Deletion -----

  ghost function Max(t: Tree): Pos
    requires t.Fork?
  {
    if t.right == Empty then t.pos else Max(t.right)
  }

  ghost function DropMax(t: Tree): Tree
    requires t.Fork?
  {
    if t.right == Empty then t.left else Fork(t.left, t.pos, DropMax(t.right))
  }

  /** The tree without its root: the root is replaced by the greatest node of the left subtree. */
  ghost function Join(left: Tree, right: Tree): Tree {
    if right == Empty then left
    else if left == Empty then right
    else Fork(DropMax(left), Max(left), right)
  }

  lemma {:induction false} DropMaxKeepsOrder(t: Tree, text: seq<Byte>)
    requires IsText(text) && t.Fork? && Distinct(t) && Sorted(t, text)
    ensures Distinct(DropMax(t)) && Sorted(DropMax(t), text)
    ensures Max(t) in Nodes(t) && Nodes(DropMax(t)) == Nodes(t) - {Max(t)}
    ensures AllBefore(Nodes(DropMax(t)), Max(t), text)
  {
    if t.right.Fork? {
      DropMaxKeepsOrder(t.right, text);
      assert Before(t.pos, Max(t), text);
      forall n: Pos | n in Nodes(t.left) ensures Before(n, Max(t), text) {
        assert Before(n, t.pos, text);
        LcpBetween(KeyAt(text, n), KeyAt(text, t.pos), KeyAt(text, Max(t)));
      }
    }
  }

  lemma JoinBelow(l: Tree, q: Pos, p: Pos, r: Tree, text: seq<Byte>)
    requires IsText(text) && Distinct(l) && Distinct(r) && Sorted(l, text) && Sorted(r, text)
    requires Before(q, p, text) && AllAfter(Nodes(r), p, text) && AllBefore(Nodes(l), q, text)
    requires q !in Nodes(l) + Nodes(r) && Nodes(l) !! Nodes(r)
    ensures Distinct(Fork(l, q, r)) && Sorted(Fork(l, q, r), text)
  {
    forall n: Pos | n in Nodes(r) ensures Before(q, n, text) {
      assert Before(p, n, text);
      LcpBetween(KeyAt(text, q), KeyAt(text, p), KeyAt(text, n));
    }
    SortedFork(l, q, r, text);
  }

  lemma JoinKeepsOrder(l: Tree, p: Pos, r: Tree, text: seq<Byte>)
    requires IsText(text) && Distinct(Fork(l, p, r)) && Sorted(Fork(l, p, r), text)
    ensures Distinct(Join(l, r)) && Sorted(Join(l, r), text)
    ensures Nodes(Join(l, r)) == Nodes(Fork(l, p, r)) - {p}
  {
    if l != Empty && r != Empty {
      DropMaxKeepsOrder(l, text);
      assert Before(Max(l), p, text);
      JoinBelow(DropMax(l), Max(l), p, r, text);
    }
  }

  // ----- Subtrees by path -----

  /** A way down from the root; true means right. */
  type Path = seq<bool>

  ghost predicate HasPath(t: Tree, path: Path) {
    path == [] || (t.Fork? && HasPath(if path[0] then t.right else t.left, path[1..]))
  }

  ghost function At(t: Tree, path: Path): Tree
    requires HasPath(t, path)
  {
    if path == [] then t else At(if path[0] then t.right else t.left, path[1..])
  }

  ghost function Put(t: Tree, path: Path, s: Tree): Tree
    requires HasPath(t, path)
  {
    if path == [] then s
    else if path[0] then t.(right := Put(t.right, path[1..], s))
    else t.(left := Put(t.left, path[1..], s))
  }

  lemma {:induction false} AtExtend(t: Tree, path: Path, more: Path)
    requires HasPath(t, path) && HasPath(At(t, path), more)
    ensures HasPath(t, path + more)
    ensures At(t, path + more) == At(At(t, path), more)
    ensures forall s :: Put(t, path + more, s) == Put(t, path, Put(At(t, path), more, s))
  {
    if path == [] {
      assert path + more == more;
    } else {
      assert (path + more)[1..] == path[1..] + more;
      AtExtend(if path[0] then t.right else t.left, path[1..], more);
    }
  }

  lemma {:induction false} PutAt(t: Tree, path: Path)
    requires HasPath(t, path)
    ensures Put(t, path, At(t, path)) == t
  {
    if path != [] {
      PutAt(if path[0] then t.right else t.left, path[1..]);
    }
  }

  lemma {:induction false} AtNodes(t: Tree, path: Path)
    requires HasPath(t, path) && Distinct(t)
    ensures Distinct(At(t, path)) && Nodes(At(t, path)) <= Nodes(t)
  {
    if path != [] {
      AtNodes(if path[0] then t.right else t.left, path[1..]);
    }
  }

  lemma {:induction false} AtSorted(t: Tree, path: Path, text: seq<Byte>)
    requires IsText(text) && HasPath(t, path) && Distinct(t) && Sorted(t, text)
    ensures Distinct(At(t, path)) && Sorted(At(t, path), text)
  {
    if path != [] {
      AtSorted(if path[0] then t.right else t.left, path[1..], text);
    }
  }

  /** Replacing a subtree by one whose nodes are among its own keeps the order. */
  lemma {:induction false} PutKeepsOrder(t: Tree, path: Path, s: Tree, text: seq<Byte>)
    requires IsText(text) && HasPath(t, path) && Distinct(t) && Sorted(t, text)
    requires Distinct(s) && Sorted(s, text) && Nodes(s) <= Nodes(At(t, path))
    ensures var t' := Put(t, path, s);
      Distinct(t') && Sorted(t', text) && Nodes(t') == Nodes(t) - (Nodes(At(t, path)) - Nodes(s))
  {
    if path != [] {
      var c := if path[0] then t.right else t.left;
      AtNodes(c, path[1..]);
      PutKeepsOrder(c, path[1..], s, text);
      var c' := Put(c, path[1..], s);
      if path[0] {
        assert AllAfter(Nodes(c'), t.pos, text);
        SortedFork(t.left, t.pos, c', text);
      } else {
        assert AllBefore(Nodes(c'), t.pos, text);
        SortedFork(c', t.pos, t.right, text);
      }
    }
  }

  ghost function PathTo(t: Tree, p: Pos): (path: Path)
    requires p in Nodes(t)
    ensures HasPath(t, path) && At(t, path).Fork? && At(t, path).pos == p
  {
    if p == t.pos then []
    else if p in Nodes(t.left) then [false] + PathTo(t.left, p)
    else [true] + PathTo(t.right, p)
  }

  // ----- The array representation -----

  /** The three link arrays. `right` has 256 more cells: cell N + 1 + c holds the root of tree c. */
  datatype Links = Links(left: seq<int>, right: seq<int>, parent: seq<int>) {
    ghost predicate Shape() {
      |left| == N + 1 && |right| == N + 257 && |parent| == N + 1
    }
  }

  /** The arrays hold t, hanging at `root` under the cell `up`. */
  ghost predicate Rep(k: Links, t: Tree, root: int, up: int)
    requires k.Shape()
  {
    match t
    case Empty => root == NIL
    case Fork(l, p, r) =>
      && root == p && k.parent[p] == up
      && Rep(k, l, k.left[p], p) && Rep(k, r, k.right[p], p)
  }

  lemma RepFrame(k: Links, k': Links, t: Tree, root: int, up: int)
    requires k.Shape() && k'.Shape() && Rep(k, t, root, up)
    requires forall n: Pos | n in Nodes(t) ::
      k'.left[n] == k.left[n] && k'.right[n] == k.right[n] && k'.parent[n] == k.parent[n]
    ensures Rep(k', t, root, up)
  {}

  /** The index the arrays hold at the slot a path leads to. */
  ghost function RootAt(k: Links, t: Tree, root: int, path: Path): int
    requires k.Shape() && HasPath(t, path)
  {
    if path == [] then root
    else if path[0] then RootAt(k, t.right, k.right[t.pos], path[1..])
    else RootAt(k, t.left, k.left[t.pos], path[1..])
  }

  /** The cell above the slot a path leads to. */
  ghost function UpAt(t: Tree, up: int, path: Path): int
    requires HasPath(t, path)
  {
    if path == [] then up
    else UpAt(if path[0] then t.right else t.left, t.pos, path[1..])
  }

  lemma {:induction false} RepAt(k: Links, t: Tree, root: int, up: int, path: Path)
    requires k.Shape() && HasPath(t, path) && Distinct(t) && Rep(k, t, root, up)
    ensures Distinct(At(t, path))
    ensures Rep(k, At(t, path), RootAt(k, t, root, path), UpAt(t, up, path))
  {
    if path != [] {
      if path[0] {
        RepAt(k, t.right, k.right[t.pos], t.pos, path[1..]);
      } else {
        RepAt(k, t.left, k.left[t.pos], t.pos, path[1..]);
      }
    }
  }

  lemma {:induction false} UpAtIsNode(t: Tree, up: int, path: Path)
    requires HasPath(t, path) && Distinct(t) && path != []
    ensures UpAt(t, up, path) in Nodes(t) && UpAt(t, up, path) !in Nodes(At(t, path))
  {
    var c := if path[0] then t.right else t.left;
    AtNodes(c, path[1..]);
    if path[1..] != [] {
      UpAtIsNode(c, t.pos, path[1..]);
    }
  }

  /** What an in-place edit at the end of a non-empty path may do to the links outside the subtree there:
      redirect the one link that leads to it. */
  ghost predicate Relinked(k: Links, k': Links, t: Tree, path: Path, root': int)
    requires k.Shape() && k'.Shape() && HasPath(t, path) && path != []
  {
    var up, right := UpAt(t, 0, path), path[|path| - 1];
    forall n: Pos | n in Nodes(t) && n !in Nodes(At(t, path)) ::
      && k'.parent[n] == k.parent[n]
      && k'.left[n] == (if n == up && !right then root' else k.left[n])
      && k'.right[n] == (if n == up && right then root' else k.right[n])
  }

  lemma {:induction false} UpAtAnyUp(t: Tree, up: int, up': int, path: Path)
    requires HasPath(t, path) && path != []
    ensures UpAt(t, up, path) == UpAt(t, up', path)
  {}

  /** After such an edit the arrays hold the tree with the subtree replaced. */
  lemma {:induction false} RepPut(k: Links, k': Links, t: Tree, root: int, up: int, path: Path, s: Tree, root': int)
    requires k.Shape() && k'.Shape() && HasPath(t, path) && Distinct(t) && path != []
    requires Rep(k, t, root, up) && Relinked(k, k', t, path, root')
    requires Rep(k', s, root', UpAt(t, up, path))
    ensures Rep(k', Put(t, path, s), root, up)
  {
    var c := if path[0] then t.right else t.left;
    var other := if path[0] then t.left else t.right;
    AtNodes(c, path[1..]);
    UpAtIsNode(t, 0, path);
    UpAtAnyUp(t, up, 0, path);
    if path[1..] == [] {
      assert path[|path| - 1] == path[0];
    } else {
      UpAtIsNode(c, t.pos, path[1..]);
      UpAtAnyUp(c, t.pos, 0, path[1..]);
      assert path[1..][|path[1..]| - 1] == path[|path| - 1];
      RepPut(k, k', c, if path[0] then k.right[t.pos] else k.left[t.pos], t.pos, path[1..], s, root');
    }
    RepFrame(k, k', other, if path[0] then k.left[t.pos] else k.right[t.pos], t.pos);
  }

  /** RepPut, also for the empty path, where the whole tree is replaced. */
  lemma RepEdit(k: Links, k': Links, t: Tree, root: int, up: int, path: Path, s: Tree, root': int)
    requires k.Shape() && k'.Shape() && HasPath(t, path) && Distinct(t)
    requires Rep(k, t, root, up) && (path != [] ==> Relinked(k, k', t, path, root'))
    requires Rep(k', s, root', UpAt(t, up, path))
    ensures Rep(k', Put(t, path, s), if path == [] then root' else root, up)
  {
    if path != [] {
      RepPut(k, k', t, root, up, path, s, root');
    }
  }

  /** Hanging a tree under another cell takes one write, to the parent of its root. */
  lemma RepMove(k: Links, k': Links, t: Tree, root: int, up: int, up': int)
    requires k.Shape() && k'.Shape() && Distinct(t) && Rep(k, t, root, up)
    requires forall n | n in Nodes(t) :: k'.left[n] == k.left[n] && k'.right[n] == k.right[n]
    requires forall n | n in Nodes(t) :: k'.parent[n] == if n == root then up' else k.parent[n]
    ensures Rep(k', t, root, up')
  {
    if t.Fork? {
      RepFrame(k, k', t.left, k.left[t.pos], t.pos);
      RepFrame(k, k', t.right, k.right[t.pos], t.pos);
    }
  }

  lemma RootIsNode(k: Links, t: Tree, root: int, up: int)
    requires k.Shape() && Rep(k, t, root, up)
    ensures root == NIL <==> t == Empty
    ensures t.Fork? ==> 0 <= root < N && root in Nodes(t) && root == t.pos
  {}

  /** One step down: what the arrays show at the extended path. */
  lemma {:induction false} StepDown(k: Links, t: Tree, root: int, up: int, path: Path, right: bool)
    requires k.Shape() && HasPath(t, path) && Distinct(t) && Rep(k, t, root, up) && At(t, path).Fork?
    ensures var s, path' := At(t, path), path + [right];
      && HasPath(t, path') && At(t, path') == (if right then s.right else s.left)
      && UpAt(t, up, path') == s.pos
      && RootAt(k, t, root, path') == (if right then k.right[s.pos] else k.left[s.pos])
  {
    if path != [] {
      assert (path + [right])[1..] == path[1..] + [right];
      if path[0] {
        StepDown(k, t.right, k.right[t.pos], t.pos, path[1..], right);
      } else {
        StepDown(k, t.left, k.left[t.pos], t.pos, path[1..], right);
      }
    }
  }

  /** The link that leads to a subtree is the right link of the cell above it just when the path ends to
      the right. */
  lemma {:induction false} LinkAbove(k: Links, t: Tree, root: int, up: int, path: Path)
    requires k.Shape() && HasPath(t, path) && Distinct(t) && Rep(k, t, root, up) && path != []
    requires At(t, path).Fork?
    ensures var u, p := UpAt(t, up, path), At(t, path).pos;
      0 <= u < N && (k.right[u] == p <==> path[|path| - 1]) && (k.left[u] == p <==> !path[|path| - 1])
  {
    RootIsNode(k, t.left, k.left[t.pos], t.pos);
    RootIsNode(k, t.right, k.right[t.pos], t.pos);
    if path[1..] == [] {
      assert path == [path[0]];
    } else {
      assert path[1..][|path[1..]| - 1] == path[|path| - 1];
      if path[0] {
        LinkAbove(k, t.right, k.right[t.pos], t.pos, path[1..]);
      } else {
        LinkAbove(k, t.left, k.left[t.pos], t.pos, path[1..]);
      }
    }
  }

  // ----- All 256 trees -----

  /** Tree c is held by the arrays, is ordered, and its nodes' strings start with c. */
  ghost predicate TreeOk(k: Links, t: Tree, c: Byte, text: seq<Byte>)
    requires k.Shape() && IsText(text)
  {
    && Rep(k, t, k.right[N + 1 + c], N + 1 + c) && Distinct(t) && Sorted(t, text)
    && forall n | n in Nodes(t) :: text[n] == c
  }

  /** The invariant of the encoder's link arrays. A slot is in a tree exactly when it has a parent. */
  ghost predicate Forest(k: Links, trees: seq<Tree>, text: seq<Byte>)
    requires k.Shape() && IsText(text)
  {
    && |trees| == 256
    && (forall c: Byte :: TreeOk(k, trees[c], c, text))
    && (forall p: Pos :: k.parent[p] == NIL || p in Nodes(trees[text[p]]))
  }

  lemma EmptyForest(k: Links, trees: seq<Tree>, text: seq<Byte>)
    requires k.Shape() && IsText(text) && trees == seq(256, _ => Empty)
    requires forall i | N < i <= N + 256 :: k.right[i] == NIL
    requires forall p: Pos :: k.parent[p] == NIL
    ensures Forest(k, trees, text)
  {
    forall c: Byte ensures TreeOk(k, trees[c], c, text) {
      assert trees[c] == Empty;
    }
  }

  /** The node n is in one of the trees. */
  ghost predicate Live(trees: seq<Tree>, n: Pos) {
    exists c: Byte :: c < |trees| && n in Nodes(trees[c])
  }

  lemma {:induction false} RepParent(k: Links, t: Tree, root: int, up: int, n: Pos)
    requires k.Shape() && Rep(k, t, root, up) && n in Nodes(t) && up != NIL
    ensures k.parent[n] != NIL
  {
    if n != t.pos {
      if n in Nodes(t.left) {
        RepParent(k, t.left, k.left[t.pos], t.pos, n);
      } else {
        RepParent(k, t.right, k.right[t.pos], t.pos, n);
      }
    }
  }

  lemma NodeByte(k: Links, trees: seq<Tree>, text: seq<Byte>, c: Byte, n: Pos)
    requires k.Shape() && IsText(text) && Forest(k, trees, text) && n in Nodes(trees[c])
    ensures text[n] == c
  {
    assert TreeOk(k, trees[c], c, text);
  }

  /** The test `parent[n] != NIL` decides membership, and a node is in the tree of its first byte only. */
  lemma LiveIffParent(k: Links, trees: seq<Tree>, text: seq<Byte>, n: Pos)
    requires k.Shape() && IsText(text) && Forest(k, trees, text)
    ensures Live(trees, n) <==> k.parent[n] != NIL
    ensures Live(trees, n) <==> n in Nodes(trees[text[n]])
  {
    if Live(trees, n) {
      var c: Byte :| c < |trees| && n in Nodes(trees[c]);
      assert TreeOk(k, trees[c], c, text);
      RepParent(k, trees[c], k.right[N + 1 + c], N + 1 + c, n);
    }
  }

  /** The links changed only at the given nodes and at the root cell of tree c (at no root cell if c is
      not a byte). */
  ghost predicate SameOutside(k: Links, k': Links, ns: set<Pos>, c: int)
    requires k.Shape() && k'.Shape()
  {
    && (forall n: Pos | n !in ns ::
      k'.left[n] == k.left[n] && k'.right[n] == k.right[n] && k'.parent[n] == k.parent[n])
    && (forall i | N < i <= N + 256 && i != N + 1 + c :: k'.right[i] == k.right[i])
  }

  /** An edit of tree c that touches only nodes whose string starts with c leaves a forest. */
  lemma ForestEdit(k: Links, k': Links, trees: seq<Tree>, text: seq<Byte>, c: Byte, t': Tree, ns: set<Pos>)
    requires k.Shape() && k'.Shape() && IsText(text) && Forest(k, trees, text)
    requires TreeOk(k', t', c, text) && SameOutside(k, k', ns, c)
    requires forall n: Pos | n in ns :: text[n] == c
    requires forall n: Pos | text[n] == c :: k'.parent[n] == NIL || n in Nodes(t')
    ensures Forest(k', trees[c := t'], text)
  {
    forall d: Byte | d != c ensures TreeOk(k', trees[d], d, text) {
      assert TreeOk(k, trees[d], d, text);
      assert forall n | n in Nodes(trees[d]) :: n !in ns;
      RepFrame(k, k', trees[d], k.right[N + 1 + d], N + 1 + d);
    }
  }

  ghost predicate GoesRight(path: Path) {
    path == [] || path[|path| - 1]
  }

  lemma UpAtRange(t: Tree, c: Byte, path: Path)
    requires HasPath(t, path) && Distinct(t)
    ensures var u := UpAt(t, N + 1 + c, path);
      0 <= u <= N + 256 && (!GoesRight(path) ==> u < N) && (path == [] <==> u == N + 1 + c)
      && (u < N ==> u in Nodes(t) && u !in Nodes(At(t, path))) && (u >= N ==> path == [])
  {
    if path != [] {
      UpAtIsNode(t, N + 1 + c, path);
    }
  }

  /** The links at one path have been redirected: what holds at the cells outside the subtree there. */
  ghost predicate RedirectedOutside(k: Links, k': Links, t: Tree, u: int, path: Path, root': int)
    requires k.Shape() && k'.Shape() && HasPath(t, path)
  {
    forall n | n in Nodes(t) && n !in Nodes(At(t, path)) ::
      && k'.left[n] == (if n == u && !GoesRight(path) then root' else k.left[n])
      && k'.right[n] == (if n == u && GoesRight(path) then root' else k.right[n])
      && k'.parent[n] == k.parent[n]
  }

  /** In-place replacement of the subtree at the end of a path, in tree c. */
  lemma SpliceRep(k: Links, k': Links, t: Tree, c: Byte, path: Path, s: Tree, root': int)
    requires k.Shape() && k'.Shape() && Rep(k, t, k.right[N + 1 + c], N + 1 + c) && Distinct(t)
    requires HasPath(t, path)
    requires var u := UpAt(t, N + 1 + c, path);
      && Rep(k', s, root', u) && RedirectedOutside(k, k', t, u, path, root')
      && k'.right[N + 1 + c] == if path == [] then root' else k.right[N + 1 + c]
    ensures Rep(k', Put(t, path, s), k'.right[N + 1 + c], N + 1 + c)
  {
    var up := N + 1 + c;
    if path != [] {
      UpAtAnyUp(t, up, 0, path);
      assert Relinked(k, k', t, path, root');
    }
    RepEdit(k, k', t, k.right[up], up, path, s, root');
  }

  /** r has been hung as a leaf under cell u. */
  ghost predicate Hung(k: Links, k': Links, r: Pos, u: int, goRight: bool)
    requires k.Shape() && k'.Shape()
  {
    && (forall n: Pos ::
      && k'.left[n] == (if n == u && !goRight then r else if n == r then NIL else k.left[n])
      && k'.right[n] == (if n == u && goRight then r else if n == r then NIL else k.right[n])
      && k'.parent[n] == (if n == r then u else k.parent[n]))
    && forall i | N < i <= N + 256 :: k'.right[i] == if i == u then r else k.right[i]
  }

  /** Hanging r as a new leaf at the end of the path that insertion takes. */
  lemma HangLeaf(k: Links, k': Links, trees: seq<Tree>, text: seq<Byte>, r: Pos, c: Byte, path: Path)
    requires k.Shape() && IsText(text) && Forest(k, trees, text) && !Live(trees, r) && text[r] == c
    requires HasPath(trees[c], path) && At(trees[c], path) == Empty
    requires Insert(trees[c], text, r) == Put(trees[c], path, Fork(Empty, r, Empty))
    requires k'.Shape() && Hung(k, k', r, UpAt(trees[c], N + 1 + c, path), GoesRight(path))
    ensures Forest(k', trees[c := Insert(trees[c], text, r)], text)
  {
    var t := trees[c];
    assert TreeOk(k, t, c, text);
    assert r !in Nodes(t);
    UpAtRange(t, c, path);
    SpliceRep(k, k', t, c, path, Fork(Empty, r, Empty), r);
    InsertKeepsOrder(t, text, r);
    var t' := Insert(t, text, r);
    assert TreeOk(k', t', c, text);
    forall n: Pos | text[n] == c ensures k'.parent[n] == NIL || n in Nodes(t') {
      if n in Nodes(t) {
        AtEmptyKeepsNodes(t, path, r, n);
      }
    }
    ForestEdit(k, k', trees, text, c, t', Nodes(t) + {r});
  }

  lemma {:induction false} AtEmptyKeepsNodes(t: Tree, path: Path, r: Pos, n: Pos)
    requires HasPath(t, path) && At(t, path) == Empty && n in Nodes(t)
    ensures n in Nodes(Put(t, path, Fork(Empty, r, Empty)))
  {
    if path[0] {
      if n in Nodes(t.right) {
        AtEmptyKeepsNodes(t.right, path[1..], r, n);
      }
    } else if n in Nodes(t.left) {
      AtEmptyKeepsNodes(t.left, path[1..], r, n);
    }
  }

  /** The cell above a subtree, as the arrays record it. */
  lemma UpFromParent(k: Links, t: Tree, c: Byte, path: Path)
    requires k.Shape() && Rep(k, t, k.right[N + 1 + c], N + 1 + c) && Distinct(t)
    requires HasPath(t, path) && At(t, path).Fork?
    ensures var p := At(t, path).pos;
      var u := k.parent[p];
      && u == UpAt(t, N + 1 + c, path) && 0 <= u <= N + 256 && u != NIL && u != p
      && (GoesRight(path) <==> k.right[u] == p) && (!GoesRight(path) ==> u < N)
      && (u < N ==> u in Nodes(t) && u !in Nodes(At(t, path))) && (u >= N ==> path == [] && u == N + 1 + c)
  {
    RepAt(k, t, k.right[N + 1 + c], N + 1 + c, path);
    UpAtRange(t, c, path);
    if path == [] {
      RootIsNode(k, t, k.right[N + 1 + c], N + 1 + c);
    } else {
      LinkAbove(k, t, k.right[N + 1 + c], N + 1 + c, path);
      UpAtIsNode(t, N + 1 + c, path);
    }
  }

  /** What the arrays say about the node at the end of a path. */
  lemma NodeLinks(k: Links, trees: seq<Tree>, text: seq<Byte>, c: Byte, path: Path)
    requires k.Shape() && IsText(text) && Forest(k, trees, text)
    requires HasPath(trees[c], path) && At(trees[c], path).Fork?
    ensures Distinct(trees[c]) && Sorted(trees[c], text)
    ensures var Fork(left, p, right) := At(trees[c], path);
      && p in Nodes(trees[c]) && Live(trees, p) && text[p] == c && Distinct(left) && Distinct(right)
      && (if left == Empty then k.left[p] == NIL else 0 <= k.left[p] < N && k.left[p] in Nodes(left))
      && (if right == Empty then k.right[p] == NIL else 0 <= k.right[p] < N && k.right[p] in Nodes(right))
      && Nodes(left) + Nodes(right) <= Nodes(trees[c]) && p !in Nodes(left) + Nodes(right) && Nodes(left) !! Nodes(right)
      && Rep(k, left, k.left[p], p) && Rep(k, right, k.right[p], p)
    ensures var p := At(trees[c], path).pos;
      var u := k.parent[p];
      && u == UpAt(trees[c], N + 1 + c, path) && 0 <= u <= N + 256 && u != NIL && u != p
      && (GoesRight(path) <==> k.right[u] == p) && (!GoesRight(path) ==> u < N)
      && (u < N ==> u in Nodes(trees[c]) && u !in Nodes(At(trees[c], path)))
  {
    var t := trees[c];
    assert TreeOk(k, t, c, text);
    UpFromParent(k, t, c, path);
    AtNodes(t, path);
    RepAt(k, t, k.right[N + 1 + c], N + 1 + c, path);
    var Fork(left, p, right) := At(t, path);
    RootIsNode(k, left, k.left[p], p);
    RootIsNode(k, right, k.right[p], p);
  }

  // ----- Replacing a node by one with the same string -----

  /** r has taken the place of p: the two children and the link above now lead to r, and p is out. */
  ghost predicate Swapped(k: Links, k': Links, p: Pos, r: Pos, goRight: bool)
    requires k.Shape() && k'.Shape()
  {
    var u := k.parent[p];
    && (forall n: Pos ::
      && k'.left[n] == (if n == u && !goRight then r else if n == r then k.left[p] else k.left[n])
      && k'.right[n] == (if n == u && goRight then r else if n == r then k.right[p] else k.right[n])
      && k'.parent[n] == (if n == p then NIL else if n == k.left[p] || n == k.right[p] then r
                          else if n == r then u else k.parent[n]))
    && forall i | N < i <= N + 256 :: k'.right[i] == if i == u then r else k.right[i]
  }

  lemma SwapRep(k: Links, k': Links, t: Tree, c: Byte, r: Pos, path: Path)
    requires k.Shape() && Rep(k, t, k.right[N + 1 + c], N + 1 + c) && Distinct(t) && r !in Nodes(t)
    requires HasPath(t, path) && At(t, path).Fork?
    requires k'.Shape() && Swapped(k, k', At(t, path).pos, r, GoesRight(path))
    ensures Rep(k', Put(t, path, At(t, path).(pos := r)), k'.right[N + 1 + c], N + 1 + c)
  {
    hide Put, At, HasPath, UpAt;
    var Fork(left, p, right) := At(t, path);
    RepAt(k, t, k.right[N + 1 + c], N + 1 + c, path);
    UpFromParent(k, t, c, path);
    AtNodes(t, path);
    RootIsNode(k, left, k.left[p], p);
    RootIsNode(k, right, k.right[p], p);
    RepMove(k, k', left, k.left[p], p, r);
    RepMove(k, k', right, k.right[p], p, r);
    SpliceRep(k, k', t, c, path, Fork(left, r, right), r);
  }

  lemma {:induction false} SwapKeepsNodes(t: Tree, path: Path, r: Pos, n: Pos)
    requires HasPath(t, path) && At(t, path).Fork? && n in Nodes(t) && n != At(t, path).pos
    ensures n in Nodes(Put(t, path, At(t, path).(pos := r)))
  {
    if path != [] {
      if path[0] {
        if n in Nodes(t.right) {
          SwapKeepsNodes(t.right, path[1..], r, n);
        }
      } else if n in Nodes(t.left) {
        SwapKeepsNodes(t.left, path[1..], r, n);
      }
    }
  }

  /** Which cells a swap writes: those of p, of r, of p's children and of the cell above p. */
  lemma SwapTouches(k: Links, k': Links, t: Tree, c: Byte, r: Pos, path: Path)
    requires k.Shape() && Rep(k, t, k.right[N + 1 + c], N + 1 + c) && Distinct(t) && r !in Nodes(t)
    requires HasPath(t, path) && At(t, path).Fork?
    requires k'.Shape() && Swapped(k, k', At(t, path).pos, r, GoesRight(path))
    ensures SameOutside(k, k', Nodes(t) + {r}, c)
    ensures k'.parent[At(t, path).pos] == NIL
  {
    var Fork(left, p, right) := At(t, path);
    RepAt(k, t, k.right[N + 1 + c], N + 1 + c, path);
    UpFromParent(k, t, c, path);
    AtNodes(t, path);
    RootIsNode(k, left, k.left[p], p);
    RootIsNode(k, right, k.right[p], p);
  }

  /** Insertion's other ending: r takes the place of the node with the same string. */
  lemma SwapNode(k: Links, k': Links, trees: seq<Tree>, text: seq<Byte>, r: Pos, c: Byte, path: Path)
    requires k.Shape() && IsText(text) && Forest(k, trees, text) && !Live(trees, r) && text[r] == c
    requires HasPath(trees[c], path) && At(trees[c], path).Fork?
    requires Insert(trees[c], text, r) == Put(trees[c], path, At(trees[c], path).(pos := r))
    requires k'.Shape() && Swapped(k, k', At(trees[c], path).pos, r, GoesRight(path))
    ensures Forest(k', trees[c := Insert(trees[c], text, r)], text)
  {
    var t := trees[c];
    assert TreeOk(k, t, c, text);
    assert r !in Nodes(t);
    SwapRep(k, k', t, c, r, path);
    SwapTouches(k, k', t, c, r, path);
    InsertKeepsOrder(t, text, r);
    var t' := Insert(t, text, r);
    forall n: Pos | text[n] == c ensures k'.parent[n] == NIL || n in Nodes(t') {
      if n in Nodes(t) && n != At(t, path).pos {
        SwapKeepsNodes(t, path, r, n);
      }
    }
    ForestEdit(k, k', trees, text, c, t', Nodes(t) + {r});
  }

  // ----- Removing a node -----

  /** The last steps of deletion: q has p's place under p's parent, and p is out. */
  ghost predicate Detached(k: Links, k': Links, p: Pos, q: int, goRight: bool)
    requires k.Shape() && k'.Shape()
  {
    var u := k.parent[p];
    && (forall n: Pos ::
      && k'.left[n] == (if n == u && !goRight then q else k.left[n])
      && k'.right[n] == (if n == u && goRight then q else k.right[n])
      && k'.parent[n] == (if n == p then NIL else if n == q then u else k.parent[n]))
    && forall i | N < i <= N + 256 :: k'.right[i] == if i == u then q else k.right[i]
  }

  /** In tree c, deletion once the two subtrees of p have been joined in place into a tree with root q. */
  lemma DetachRep(k: Links, k2: Links, k': Links, t: Tree, c: Byte, path: Path, q: int)
    requires k.Shape() && k2.Shape() && k'.Shape()
    requires Rep(k, t, k.right[N + 1 + c], N + 1 + c) && Distinct(t) && HasPath(t, path) && At(t, path).Fork?
    requires var s := At(t, path);
      && 0 <= q <= N && (q == NIL || q in Nodes(s.left) + Nodes(s.right))
      && SameOutside(k, k2, Nodes(s.left) + Nodes(s.right), -1)
      && Detached(k2, k', s.pos, q, GoesRight(path))
      && Rep(k', Join(s.left, s.right), q, k.parent[s.pos])
    ensures Rep(k', Put(t, path, Join(At(t, path).left, At(t, path).right)), k'.right[N + 1 + c], N + 1 + c)
    ensures SameOutside(k, k', Nodes(t), c) && k'.parent[At(t, path).pos] == NIL
  {
    hide Put, Join, UpAt, Rep;
    var Fork(left, p, right) := At(t, path);
    UpFromParent(k, t, c, path);
    AtNodes(t, path);
    assert p !in Nodes(left) + Nodes(right);
    SpliceRep(k, k', t, c, path, Join(left, right), q);
  }

  lemma DetachSorted(t: Tree, path: Path, text: seq<Byte>)
    requires IsText(text) && Distinct(t) && Sorted(t, text) && HasPath(t, path) && At(t, path).Fork?
    ensures var s := At(t, path);
      var t' := Put(t, path, Join(s.left, s.right));
      Distinct(t') && Sorted(t', text) && Nodes(t') == Nodes(t) - {s.pos}
  {
    var Fork(left, p, right) := At(t, path);
    AtNodes(t, path);
    AtSorted(t, path, text);
    JoinKeepsOrder(left, p, right, text);
    PutKeepsOrder(t, path, Join(left, right), text);
  }

  /** Deletion of the node at the end of a path in tree c. */
  lemma DetachNode(k: Links, k2: Links, k': Links, trees: seq<Tree>, text: seq<Byte>, c: Byte, path: Path, q: int)
    requires k.Shape() && k2.Shape() && k'.Shape() && IsText(text) && Forest(k, trees, text)
    requires HasPath(trees[c], path) && At(trees[c], path).Fork? && 0 <= q <= N
    requires var s := At(trees[c], path);
      && (q == NIL || q in Nodes(s.left) + Nodes(s.right))
      && SameOutside(k, k2, Nodes(s.left) + Nodes(s.right), -1)
      && Detached(k2, k', s.pos, q, GoesRight(path))
      && Rep(k', Join(s.left, s.right), q, k.parent[s.pos])
    ensures var s := At(trees[c], path);
      var trees' := trees[c := Put(trees[c], path, Join(s.left, s.right))];
      Forest(k', trees', text) && Removed(trees, trees', s.pos)
  {
    hide Put, Join, UpAt, Rep, Detached, At, HasPath;
    var t := trees[c];
    var s := At(t, path);
    var t' := Put(t, path, Join(s.left, s.right));
    assert TreeOk(k, t, c, text);
    DetachRep(k, k2, k', t, c, path, q);
    DetachSorted(t, path, text);
    assert TreeOk(k', t', c, text);
    AtNodes(t, path);
    ForestEdit(k, k', trees, text, c, t', Nodes(t));
    forall d: Byte | d != c ensures s.pos !in Nodes(trees[d]) {
      assert TreeOk(k, trees[d], d, text);
    }
  }

  /** A path that leads down the right spine, as the search for the greatest node follows it. */
  ghost predicate OnSpine(t: Tree, path: Path) {
    && HasPath(t, path) && GoesRight(path) && At(t, path).Fork?
    && Max(At(t, path)) == Max(t) && Put(t, path, DropMax(At(t, path))) == DropMax(t)
  }

  lemma SpineStep(t: Tree, path: Path)
    requires t.Fork? && OnSpine(t, path) && At(t, path).right.Fork?
    ensures OnSpine(t, path + [true])
  {
    AtExtend(t, path, [true]);
    var s := At(t, path);
    assert Put(s, [true], DropMax(s.right)) == DropMax(s);
  }

  /** The greatest node q has been cut out of the subtree with root m, which now hangs under q: the cell
      above q leads to q's left child, and q leads to m. */
  ghost predicate Raised(k: Links, k2: Links, q: Pos, m: Pos)
    requires k.Shape() && k2.Shape()
  {
    var u := k.parent[q];
    && (forall n: Pos ::
      && k2.left[n] == (if n == q then m else k.left[n])
      && k2.right[n] == (if n == u then k.left[q] else k.right[n])
      && k2.parent[n] == (if n == m then q else if n == k.left[q] then u else k.parent[n]))
    && forall i | N < i <= N + 256 :: k2.right[i] == k.right[i]
  }

  lemma RaiseMax(k: Links, k2: Links, t: Tree, m: Pos, up: int, path: Path)
    requires k.Shape() && k2.Shape() && t.Fork? && Distinct(t) && Rep(k, t, m, up)
    requires OnSpine(t, path) && path != [] && At(t, path).right == Empty
    requires Raised(k, k2, At(t, path).pos, m)
    ensures Rep(k2, DropMax(t), m, At(t, path).pos) && SameOutside(k, k2, Nodes(t), -1)
    ensures At(t, path).pos !in Nodes(DropMax(t))
  {
    var Fork(ql, q, _) := At(t, path);
    RepAt(k, t, m, up, path);
    AtNodes(t, path);
    UpAtIsNode(t, up, path);
    UpAtAnyUp(t, up, 0, path);
    RootIsNode(k, ql, k.left[q], q);
    var k1 := Links(k.left, k.right[k.parent[q] := k.left[q]], k.parent[k.left[q] := k.parent[q]]);
    RepMove(k, k1, ql, k.left[q], q, k.parent[q]);
    RepPut(k, k1, t, m, up, path, ql, k.left[q]);
    DropMaxNodes(t);
    RepMove(k1, k2, DropMax(t), m, up, q);
  }

  /** What the arrays say about the greatest node of a subtree, below its root. */
  lemma SpineLinks(k: Links, t: Tree, root: int, up: int, path: Path)
    requires k.Shape() && t.Fork? && Distinct(t) && Rep(k, t, root, up)
    requires OnSpine(t, path) && path != [] && At(t, path).right == Empty
    ensures var q := At(t, path).pos;
      && q in Nodes(t) && q != root && q == Max(t)
      && 0 <= k.parent[q] < N && k.parent[q] in Nodes(t) && k.parent[q] != q
      && 0 <= k.left[q] <= N && k.left[q] != q && k.left[q] != root
  {
    var q := At(t, path).pos;
    RepAt(k, t, root, up, path);
    AtNodes(t, path);
    UpAtIsNode(t, up, path);
    RootIsNode(k, At(t, path).left, k.left[q], q);
    var c := if path[0] then t.right else t.left;
    assert At(t, path) == At(c, path[1..]);
    AtNodes(c, path[1..]);
  }

  lemma {:induction false} DropMaxNodes(t: Tree)
    requires t.Fork? && Distinct(t)
    ensures Distinct(DropMax(t)) && Max(t) in Nodes(t) && Nodes(DropMax(t)) == Nodes(t) - {Max(t)}
  {
    if t.right.Fork? {
      DropMaxNodes(t.right);
    }
  }

  /** q has taken over the right subtree, with root m. */
  ghost predicate TookRight(k2: Links, k3: Links, q: Pos, m: Pos)
    requires k2.Shape() && k3.Shape()
  {
    && (forall n: Pos ::
      && k3.left[n] == k2.left[n]
      && k3.right[n] == (if n == q then m else k2.right[n])
      && k3.parent[n] == (if n == m then q else k2.parent[n]))
    && (forall i | N < i <= N + 256 :: k3.right[i] == k2.right[i])
  }

  lemma TakeRight(k: Links, k2: Links, k3: Links, ns: set<Pos>, r: Tree, p: Pos, q: Pos, m: Pos)
    requires k.Shape() && k2.Shape() && k3.Shape() && Distinct(r) && Rep(k, r, m, p)
    requires ns !! Nodes(r) && q in ns && m in Nodes(r)
    requires SameOutside(k, k2, ns, -1) && TookRight(k2, k3, q, m)
    ensures Rep(k3, r, k3.right[q], q) && SameOutside(k, k3, ns + Nodes(r), -1)
  {
    RepMove(k, k3, r, m, p, q);
  }

  /** The left subtree stays where it is while q takes over the right one. */
  lemma KeepLeft(k2: Links, k3: Links, l: Tree, q: Pos, m: Pos)
    requires k2.Shape() && k3.Shape() && Rep(k2, l, k2.left[q], q)
    requires q !in Nodes(l) && m !in Nodes(l) && TookRight(k2, k3, q, m)
    ensures Rep(k3, l, k3.left[q], q)
  {
    RepFrame(k2, k3, l, k2.left[q], q);
  }

  /** q is the root of what is left of p's two subtrees, but does not yet hang in p's place. */
  ghost predicate ReadyToJoin(k: Links, k2: Links, l: Tree, r: Tree, p: Pos, q: int)
    requires k.Shape() && k2.Shape()
  {
    if r == Empty then k2 == k && q == k.left[p] && Rep(k, l, q, p)
    else if l == Empty then k2 == k && q == k.right[p] && Rep(k, r, q, p)
    else 0 <= q < N && q == Max(l) && Rep(k2, DropMax(l), k2.left[q], q) && Rep(k2, r, k2.right[q], q)
  }

  /** Whichever way the two subtrees of p were joined, the result hangs in p's place after the last steps. */
  lemma JoinedRep(k: Links, k2: Links, k': Links, l: Tree, r: Tree, p: Pos, q: int, goRight: bool)
    requires k.Shape() && k2.Shape() && k'.Shape() && Distinct(l) && Distinct(r) && Nodes(l) !! Nodes(r)
    requires p !in Nodes(l) + Nodes(r) && 0 <= q <= N
    requires SameOutside(k, k2, Nodes(l) + Nodes(r), -1) && Detached(k2, k', p, q, goRight)
    requires k.parent[p] !in Nodes(l) + Nodes(r)
    requires ReadyToJoin(k, k2, l, r, p, q)
    ensures Rep(k', Join(l, r), q, k.parent[p])
  {
    if r == Empty {
      RepMove(k, k', l, q, p, k.parent[p]);
    } else if l == Empty {
      RepMove(k, k', r, q, p, k.parent[p]);
    } else {
      DropMaxNodes(l);
      RepFrame(k2, k', DropMax(l), k2.left[q], q);
      RepFrame(k2, k', r, k2.right[q], q);
    }
  }

  /** The trees without node p; nothing changes if it was in none. */
  ghost predicate Removed(trees: seq<Tree>, trees': seq<Tree>, p: Pos) {
    && |trees| == |trees'|
    && forall c | 0 <= c < |trees| :: Nodes(trees'[c]) == Nodes(trees[c]) - {p}
  }

  // ----- The descent of an insertion -----

  /** Insertion of r into tree c, at cell p and about to follow the link to the right or to the left:
      what is left to do is an insertion, and a search, below that link. */
  ghost predicate Descent(k: Links, t: Tree, c: Byte, text: seq<Byte>, r: Pos, m0: Match,
                          path: Path, p: int, goRight: bool, m: Match)
    requires k.Shape() && IsText(text)
  {
    && Rep(k, t, k.right[N + 1 + c], N + 1 + c) && Distinct(t) && HasPath(t, path)
    && p == UpAt(t, N + 1 + c, path) && goRight == GoesRight(path)
    && 0 <= p <= N + 256 && (!goRight ==> p < N)
    && RootAt(k, t, k.right[N + 1 + c], path) == (if goRight then k.right[p] else k.left[p])
    && Insert(t, text, r) == Put(t, path, Insert(At(t, path), text, r))
    && Best(t, text, r, m0) == Best(At(t, path), text, r, m)
  }

  /** The descent starts with the links of the new slot blanked, at the tree's root cell. */
  lemma DescentStart(k: Links, k': Links, trees: seq<Tree>, text: seq<Byte>, r: Pos, c: Byte, m0: Match)
    requires k.Shape() && IsText(text) && Forest(k, trees, text) && !Live(trees, r) && text[r] == c
    requires k' == Links(k.left[r := NIL], k.right[r := NIL], k.parent)
    ensures |trees| == 256 && Forest(k', trees, text)
    ensures Descent(k', trees[c], c, text, r, m0, [], N + 1 + c, true, m0)
  {
    forall d: Byte ensures TreeOk(k', trees[d], d, text) {
      assert TreeOk(k, trees[d], d, text) && r !in Nodes(trees[d]);
      RepFrame(k, k', trees[d], k.right[N + 1 + d], N + 1 + d);
    }
  }

  /** The descent ends below a leaf: the search result is final. */
  lemma DescentAtLeaf(k: Links, t: Tree, c: Byte, text: seq<Byte>, r: Pos, m0: Match,
                      path: Path, p: int, goRight: bool, m: Match)
    requires k.Shape() && IsText(text) && Descent(k, t, c, text, r, m0, path, p, goRight, m)
    requires At(t, path) == Empty
    ensures Insert(t, text, r) == Put(t, path, Fork(Empty, r, Empty)) && Best(t, text, r, m0) == m
  {}

  /** The descent ends at a node with the same string: a match of full length. */
  lemma DescentAtEqual(k: Links, t: Tree, c: Byte, text: seq<Byte>, r: Pos, m0: Match,
                       path: Path, p: int, goRight: bool, m: Match)
    requires k.Shape() && IsText(text) && Descent(k, t, c, text, r, m0, path, p, goRight, m)
    requires At(t, path).Fork? && KeyAt(text, r) == KeyAt(text, At(t, path).pos) && m.len < F
    ensures Insert(t, text, r) == Put(t, path, At(t, path).(pos := r))
    ensures Best(t, text, r, m0) == Match(At(t, path).pos, F)
  {
    LcpFull(KeyAt(text, r), KeyAt(text, At(t, path).pos));
  }

  lemma DescentNext(k: Links, t: Tree, c: Byte, text: seq<Byte>, r: Pos, m0: Match,
                    path: Path, p: int, goRight: bool, m: Match)
    requires k.Shape() && IsText(text) && Descent(k, t, c, text, r, m0, path, p, goRight, m)
    ensures HasPath(t, path) && p == UpAt(t, N + 1 + c, path) && goRight == GoesRight(path)
    ensures 0 <= p <= N + 256 && (!goRight ==> p < N)
    ensures var next := if goRight then k.right[p] else k.left[p];
      if next == NIL then At(t, path) == Empty
      else At(t, path).Fork? && At(t, path).pos == next && next in Nodes(t)
  {
    RepAt(k, t, k.right[N + 1 + c], N + 1 + c, path);
    AtNodes(t, path);
  }

  lemma DescentStep(k: Links, t: Tree, c: Byte, text: seq<Byte>, r: Pos, m0: Match,
                    path: Path, p: int, goRight: bool, m: Match, goRight': bool, m': Match)
    requires k.Shape() && IsText(text) && Descent(k, t, c, text, r, m0, path, p, goRight, m)
    requires At(t, path).Fork?
    requires var q := At(t, path).pos;
      var i := Lcp(KeyAt(text, r), KeyAt(text, q));
      && KeyAt(text, r) != KeyAt(text, q) && (goRight' <==> !Less(KeyAt(text, r), KeyAt(text, q)))
      && m' == if i > m.len then Match(q, i) else m
    ensures Descent(k, t, c, text, r, m0, path + [goRight'], At(t, path).pos, goRight', m')
    ensures HasPath(t, path + [goRight']) && At(t, path + [goRight']) < At(t, path)
  {
    StepDown(k, t, k.right[N + 1 + c], N + 1 + c, path, goRight');
    var s := At(t, path);
    AtExtend(t, path, [goRight']);
    var child := if goRight' then s.right else s.left;
    assert Put(s, [goRight'], Insert(child, text, r)) == Insert(s, text, r);
  }
}
