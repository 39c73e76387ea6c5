/** The red-black tree under treemap/treemap.go, as values. A node of the Go
    tree is a `Tree` value here; its `parent` pointer is replaced by the path
    of frames from the node up to the root (a zipper), innermost frame first,
    so that walking up a parent pointer is dropping the first frame. The root
    of the tree is `endNode.left`; the end node itself sits above the last
    frame. */
module RBTree {
  import opened Order

  datatype Tree<K, V> =
    | Nil
    | Node(isBlack: bool, left: Tree<K, V>, key: K, value: V, right: Tree<K, V>)

  /** A nil child counts as black. */
  predicate IsBlack<K, V>(t: Tree<K, V>) {
    t.Nil? || t.isBlack
  }

  /** The key/value pairs of `t`, in order (left subtree, node, right subtree). */
  function Entries<K, V>(t: Tree<K, V>): (e: seq<(K, V)>)
    ensures t.Nil? <==> e == []
  {
    match t
    case Nil => []
    case Node(_, l, k, v, r) => Entries(l) + [(k, v)] + Entries(r)
  }

  /** Keys strictly increasing: the search-tree order. */
  ghost predicate Sorted<K(!new), V>(less: (K, K) -> bool, e: seq<(K, V)>) {
    forall i, j :: 0 <= i < j < |e| ==> less(e[i].0, e[j].0)
  }

  /** `t` has no red node with a red child, and every path from `t` down to
      a nil child passes `h` black nodes. */
  ghost predicate RB<K, V>(t: Tree<K, V>, h: int)
    decreases t
  {
    match t
    case Nil => h == 0
    case Node(b, l, _, _, r) =>
      if b then RB(l, h - 1) && RB(r, h - 1)
      else IsBlack(l) && IsBlack(r) && RB(l, h) && RB(r, h)
  }

  lemma {:induction false} HeightNonNegative<K, V>(t: Tree<K, V>, h: int)
    requires RB(t, h)
    ensures h >= 0
    ensures t.Node? && t.isBlack ==> h >= 1
    decreases t
  {
    match t
    case Nil =>
    case Node(b, l, _, _, r) =>
      HeightNonNegative(l, if b then h - 1 else h);
  }

  /** One step of a path: the parent of the focus, with the child that is not
      on the path (`sibling`), and which side the focus hangs on. */
  datatype Frame<K, V> = Frame(isBlack: bool, key: K, value: V, sibling: Tree<K, V>, fromLeft: bool)

  /** A position in the tree: the subtree there and the path up to the root. */
  datatype Zipper<K, V> = Zipper(focus: Tree<K, V>, up: seq<Frame<K, V>>)

  /** The parent node of a frame rebuilt around its child on the path. */
  function Attach<K, V>(f: Frame<K, V>, t: Tree<K, V>): (p: Tree<K, V>)
    ensures p.Node? && p.isBlack == f.isBlack && p.key == f.key && p.value == f.value
    ensures f.fromLeft ==> p.left == t && p.right == f.sibling
    ensures !f.fromLeft ==> p.left == f.sibling && p.right == t
  {
    if f.fromLeft then Node(f.isBlack, t, f.key, f.value, f.sibling)
    else Node(f.isBlack, f.sibling, f.key, f.value, t)
  }

  /** The whole tree, rebuilt from `t` and the path above it. */
  function Plug<K, V>(t: Tree<K, V>, up: seq<Frame<K, V>>): (root: Tree<K, V>)
    decreases |up|
  {
    if up == [] then t else Plug(Attach(up[0], t), up[1..])
  }

  function Whole<K, V>(z: Zipper<K, V>): (root: Tree<K, V>)
  {
    Plug(z.focus, z.up)
  }

  /** The entries that come before the focus in order. */
  function Before<K, V>(up: seq<Frame<K, V>>): (e: seq<(K, V)>)
    decreases |up|
  {
    if up == [] then []
    else if up[0].fromLeft then Before(up[1..])
    else Before(up[1..]) + Entries(up[0].sibling) + [(up[0].key, up[0].value)]
  }

  /** The entries that come after the focus in order. */
  function After<K, V>(up: seq<Frame<K, V>>): (e: seq<(K, V)>)
    decreases |up|
  {
    if up == [] then []
    else if up[0].fromLeft then [(up[0].key, up[0].value)] + Entries(up[0].sibling) + After(up[1..])
    else After(up[1..])
  }

  /** The tree's entries, in order, split around the focus. */
  lemma {:induction false} PlugEntries<K, V>(t: Tree<K, V>, up: seq<Frame<K, V>>)
    ensures Entries(Plug(t, up)) == Before(up) + Entries(t) + After(up)
    decreases |up|
  {
    if up != [] {
      var f := up[0];
      PlugEntries(Attach(f, t), up[1..]);
      var b, a, kv := Before(up[1..]), After(up[1..]), [(f.key, f.value)];
      if f.fromLeft {
        Regroup(b, Entries(t), kv, Entries(f.sibling), a);
      } else {
        Regroup(b, Entries(f.sibling), kv, Entries(t), a);
      }
    }
  }

  /** Moving the brackets of a five-part concatenation. */
  lemma Regroup<T>(b: seq<T>, x: seq<T>, y: seq<T>, z: seq<T>, a: seq<T>)
    ensures b + (x + y + z) + a == b + x + (y + z + a)
    ensures b + (x + y + z) + a == (b + x + y) + z + a
  {
  }

  /** The black height of the whole tree when the focus has black height `h`. */
  function Lift<K, V>(up: seq<Frame<K, V>>, h: int): (H: int)
    ensures H >= h
    decreases |up|
  {
    if up == [] then h else Lift(up[1..], if up[0].isBlack then h + 1 else h)
  }

  /** A valid red-black subtree of black height `h`, red at its top when
      `red`, can be plugged into the path `up` to give a valid red-black tree
      with a black root. */
  ghost predicate Fits<K, V>(up: seq<Frame<K, V>>, h: int, red: bool)
    decreases |up|
  {
    if up == [] then !red
    else
      var f := up[0];
      RB(f.sibling, h) && (f.isBlack || (!red && IsBlack(f.sibling))) &&
      Fits(up[1..], if f.isBlack then h + 1 else h, !f.isBlack)
  }

  lemma {:induction false} PlugRB<K, V>(t: Tree<K, V>, up: seq<Frame<K, V>>, h: int)
    requires RB(t, h) && Fits(up, h, !IsBlack(t))
    ensures RB(Plug(t, up), Lift(up, h)) && IsBlack(Plug(t, up))
    decreases |up|
  {
    if up != [] {
      var f := up[0];
      PlugRB(Attach(f, t), up[1..], if f.isBlack then h + 1 else h);
    }
  }

  /** A black subtree fits wherever a red one of the same height does. */
  lemma FitsBlack<K, V>(up: seq<Frame<K, V>>, h: int)
    requires Fits(up, h, true)
    ensures Fits(up, h, false)
  {
  }

  /** Stepping from a node down to its left child keeps the path fitting. */
  lemma DownLeftFits<K, V>(t: Tree<K, V>, up: seq<Frame<K, V>>, h: int)
    requires t.Node? && RB(t, h) && Fits(up, h, !IsBlack(t))
    ensures var h' := if t.isBlack then h - 1 else h;
      RB(t.left, h') &&
      Fits([Frame(t.isBlack, t.key, t.value, t.right, true)] + up, h', !IsBlack(t.left))
  {
    var up' := [Frame(t.isBlack, t.key, t.value, t.right, true)] + up;
    assert up'[1..] == up;
  }

  /** Stepping from a node down to its right child keeps the path fitting. */
  lemma DownRightFits<K, V>(t: Tree<K, V>, up: seq<Frame<K, V>>, h: int)
    requires t.Node? && RB(t, h) && Fits(up, h, !IsBlack(t))
    ensures var h' := if t.isBlack then h - 1 else h;
      RB(t.right, h') &&
      Fits([Frame(t.isBlack, t.key, t.value, t.left, false)] + up, h', !IsBlack(t.right))
  {
    var up' := [Frame(t.isBlack, t.key, t.value, t.left, false)] + up;
    assert up'[1..] == up;
  }

  /** Replacing the focus by a subtree with the same entries keeps the
      entries of the whole tree. */
  lemma SameEntries<K, V>(t: Tree<K, V>, t': Tree<K, V>, up: seq<Frame<K, V>>)
    requires Entries(t) == Entries(t')
    ensures Entries(Plug(t, up)) == Entries(Plug(t', up))
  {
    PlugEntries(t, up);
    PlugEntries(t', up);
  }

  // ----- Moving along and rewiring the tree (treemap.go:262-292) -----

  /** `x = x.parent` */
  function Up<K, V>(z: Zipper<K, V>): (p: Zipper<K, V>)
    requires z.up != []
    ensures Whole(p) == Whole(z) && |p.up| == |z.up| - 1
  {
    Zipper(Attach(z.up[0], z.focus), z.up[1..])
  }

  /** `x = x.left` */
  function DownLeft<K, V>(z: Zipper<K, V>): (c: Zipper<K, V>)
    requires z.focus.Node?
    ensures Whole(c) == Whole(z) && c.focus == z.focus.left
    ensures |c.up| == |z.up| + 1 && c.up[1..] == z.up && c.up[0].fromLeft
  {
    var t := z.focus;
    var up := [Frame(t.isBlack, t.key, t.value, t.right, true)] + z.up;
    assert up[1..] == z.up;
    Zipper(t.left, up)
  }

  /** `x = x.right` */
  function DownRight<K, V>(z: Zipper<K, V>): (c: Zipper<K, V>)
    requires z.focus.Node?
    ensures Whole(c) == Whole(z) && c.focus == z.focus.right
    ensures |c.up| == |z.up| + 1 && c.up[1..] == z.up && !c.up[0].fromLeft
  {
    var t := z.focus;
    var up := [Frame(t.isBlack, t.key, t.value, t.left, false)] + z.up;
    assert up[1..] == z.up;
    Zipper(t.right, up)
  }

  /** `x.isBlack = b` */
  function Paint<K, V>(z: Zipper<K, V>, b: bool): (r: Zipper<K, V>)
    requires z.focus.Node?
    ensures r.up == z.up && r.focus.Node? && r.focus.isBlack == b
    ensures Entries(Whole(r)) == Entries(Whole(z))
  {
    var r := Zipper(z.focus.(isBlack := b), z.up);
    SameEntries(z.focus, r.focus, z.up);
    r
  }

  /** The local rewiring of `rotateLeft` on a subtree: the right child
      `y` takes `x`'s place, `x` becomes `y`'s left child and adopts `y`'s
      former left child. Colours stay with their nodes. */
  function RotateLeftTree<K, V>(x: Tree<K, V>): (y: Tree<K, V>)
    requires x.Node? && x.right.Node?
    ensures y.Node? && y.left.Node?
    ensures Entries(y) == Entries(x)
  {
    var r := x.right;
    Node(r.isBlack, Node(x.isBlack, x.left, x.key, x.value, r.left), r.key, r.value, r.right)
  }

  /** The mirror image, `rotateRight`. */
  function RotateRightTree<K, V>(x: Tree<K, V>): (y: Tree<K, V>)
    requires x.Node? && x.left.Node?
    ensures y.Node? && y.right.Node?
    ensures Entries(y) == Entries(x)
  {
    var l := x.left;
    Node(l.isBlack, l.left, l.key, l.value, Node(x.isBlack, l.right, x.key, x.value, x.right))
  }

  /** `rotateLeft(x)` with `x` the focus; afterwards `x` still denotes the same
      node, which is now the left child of the node that took its place. */
  function RotateLeft<K, V>(z: Zipper<K, V>): (r: Zipper<K, V>)
    requires z.focus.Node? && z.focus.right.Node?
    ensures r.focus.Node? && r.focus.key == z.focus.key && r.focus.isBlack == z.focus.isBlack
    ensures |r.up| == |z.up| + 1
    ensures Entries(Whole(r)) == Entries(Whole(z))
  {
    var y := RotateLeftTree(z.focus);
    SameEntries(z.focus, y, z.up);
    DownLeft(Zipper(y, z.up))
  }

  /** `rotateRight(x)`; afterwards `x` is the right child of the node that
      took its place. */
  function RotateRight<K, V>(z: Zipper<K, V>): (r: Zipper<K, V>)
    requires z.focus.Node? && z.focus.left.Node?
    ensures r.focus.Node? && r.focus.key == z.focus.key && r.focus.isBlack == z.focus.isBlack
    ensures |r.up| == |z.up| + 1
    ensures Entries(Whole(r)) == Entries(Whole(z))
  {
    var y := RotateRightTree(z.focus);
    SameEntries(z.focus, y, z.up);
    DownRight(Zipper(y, z.up))
  }

  /** `x.left.isBlack = b` */
  function PaintLeft<K, V>(z: Zipper<K, V>, b: bool): (r: Zipper<K, V>)
    requires z.focus.Node? && z.focus.left.Node?
    ensures r.up == z.up && r.focus.Node? && r.focus.isBlack == z.focus.isBlack
    ensures r.focus.left.Node? && r.focus.left.isBlack == b
    ensures Entries(Whole(r)) == Entries(Whole(z))
  {
    var r := Zipper(z.focus.(left := z.focus.left.(isBlack := b)), z.up);
    SameEntries(z.focus, r.focus, z.up);
    r
  }

  /** `x.right.isBlack = b` */
  function PaintRight<K, V>(z: Zipper<K, V>, b: bool): (r: Zipper<K, V>)
    requires z.focus.Node? && z.focus.right.Node?
    ensures r.up == z.up && r.focus.Node? && r.focus.isBlack == z.focus.isBlack
    ensures r.focus.right.Node? && r.focus.right.isBlack == b
    ensures Entries(Whole(r)) == Entries(Whole(z))
  {
    var r := Zipper(z.focus.(right := z.focus.right.(isBlack := b)), z.up);
    SameEntries(z.focus, r.focus, z.up);
    r
  }

  // ----- insertFixup (treemap.go:294-340) -----

  /** The loop invariant of `insertFixup`: the tree is a red-black tree except
      that `x` and its parent may both be red. `x`'s subtree is valid with
      black height `h`; `x` is red unless it is the root, which is black. */
  ghost predicate Climbing<K, V>(x: Zipper<K, V>, h: int) {
    x.focus.Node? && RB(x.focus, h) &&
    (if x.up == [] then x.focus.isBlack else !x.focus.isBlack && Fits(x.up, h, false))
  }

  /** A red parent is never the root, and its own parent is black. */
  lemma RedParent<K, V>(x: Zipper<K, V>, h: int)
    requires Climbing(x, h) && x.up != [] && !x.up[0].isBlack
    ensures |x.up| >= 2 && x.up[1].isBlack
    ensures RB(x.up[1].sibling, h) && Fits(x.up[2..], h + 1, false)
  {
    assert Fits(x.up[1..], h, true);
    assert x.up[1..][1..] == x.up[2..];
  }

  /** The red-uncle case: parent and uncle turn black, the grandparent red
      (black if it is the root), and the climb goes on from the grandparent. */
  lemma RecolorStep<K, V>(x: Zipper<K, V>, h: int, r: Zipper<K, V>) returns (h': int)
    requires Climbing(x, h) && x.up != [] && !x.up[0].isBlack && |x.up| >= 2
    requires var y := x.up[1].sibling; y.Node? && !y.isBlack
    requires var g := Paint(Up(Paint(Up(x), true)), |x.up| == 2);
      r == (if x.up[1].fromLeft then PaintRight(g, true) else PaintLeft(g, true))
    ensures Climbing(r, h') && |r.up| == |x.up| - 2
    ensures Lift(r.up, h') == Lift(x.up, h) || (r.up == [] && h' == Lift(x.up, h) + 1)
    ensures Entries(Whole(r)) == Entries(Whole(x))
  {
    RedParent(x, h);
    var fp, fg, u := x.up[0], x.up[1], x.up[1].sibling;
    var p := Attach(fp.(isBlack := true), x.focus);
    assert RB(p, h + 1);
    var u' := u.(isBlack := true);
    assert RB(u', h + 1);
    var g := Attach(fg.(isBlack := |x.up| == 2, sibling := u'), p);
    assert r.focus == g;
    assert x.up[2..] == r.up;
    assert x.up[1..][1..] == x.up[2..];
    assert Lift(x.up, h) == Lift(x.up[2..], h + 1);
    h' := if |x.up| == 2 then h + 2 else h + 1;
    assert RB(g, h');
  }

  /** The black-uncle case under a left-hand parent: at most one rotation
      brings the red child to the outside, a right rotation at the grandparent
      ends the climb. `x` ends up a red child of a black node. */
  lemma RotateStepLeft<K, V>(x: Zipper<K, V>, h: int, a: Zipper<K, V>, r: Zipper<K, V>)
    requires Climbing(x, h) && x.up != [] && !x.up[0].isBlack && |x.up| >= 2
    requires x.up[1].fromLeft && IsBlack(x.up[1].sibling)
    requires a == if x.up[0].fromLeft then x else RotateLeft(Up(x))
    requires r == RotateRight(Paint(Up(Paint(Up(a), true)), false))
    ensures Climbing(r, h) && r.up != [] && r.up[0].isBlack
    ensures Lift(r.up, h) == Lift(x.up, h)
    ensures Entries(Whole(r)) == Entries(Whole(x))
  {
    RedParent(x, h);
    var fp, fg, t := x.up[0], x.up[1], x.focus;
    if fp.fromLeft {
      var g := Node(false, fp.sibling, fg.key, fg.value, fg.sibling);
      assert r.focus == g && RB(g, h);
      assert r.up == [Frame(true, fp.key, fp.value, t, false)] + x.up[2..];
    } else {
      var p := Node(false, fp.sibling, fp.key, fp.value, t.left);
      var g := Node(false, t.right, fg.key, fg.value, fg.sibling);
      assert RB(p, h);
      assert r.focus == g && RB(g, h);
      assert r.up == [Frame(true, t.key, t.value, p, false)] + x.up[2..];
    }
    assert r.up[1..] == x.up[2..];
  }

  /** The mirror image under a right-hand parent. */
  lemma RotateStepRight<K, V>(x: Zipper<K, V>, h: int, a: Zipper<K, V>, r: Zipper<K, V>)
    requires Climbing(x, h) && x.up != [] && !x.up[0].isBlack && |x.up| >= 2
    requires !x.up[1].fromLeft && IsBlack(x.up[1].sibling)
    requires a == if !x.up[0].fromLeft then x else RotateRight(Up(x))
    requires r == RotateLeft(Paint(Up(Paint(Up(a), true)), false))
    ensures Climbing(r, h) && r.up != [] && r.up[0].isBlack
    ensures Lift(r.up, h) == Lift(x.up, h)
    ensures Entries(Whole(r)) == Entries(Whole(x))
  {
    RedParent(x, h);
    var fp, fg, t := x.up[0], x.up[1], x.focus;
    if !fp.fromLeft {
      var g := Node(false, fg.sibling, fg.key, fg.value, fp.sibling);
      assert r.focus == g && RB(g, h);
      assert r.up == [Frame(true, fp.key, fp.value, t, true)] + x.up[2..];
    } else {
      var p := Node(false, t.right, fp.key, fp.value, fp.sibling);
      var g := Node(false, fg.sibling, fg.key, fg.value, t.left);
      assert RB(p, h);
      assert r.focus == g && RB(g, h);
      assert r.up == [Frame(true, t.key, t.value, p, true)] + x.up[2..];
    }
    assert r.up[1..] == x.up[2..];
  }

  /** `insertFixup`: `x0` is the freshly attached red leaf, standing where a
      nil child was in a valid tree. Recolouring and rotations restore the
      red-black invariant without changing the entries; the black height grows
      by at most one. The result is the new root. */
  method InsertFixup<K, V>(x0: Zipper<K, V>) returns (root: Tree<K, V>, ghost h: int)
    requires x0.focus.Node? && !x0.focus.isBlack && x0.focus.left.Nil? && x0.focus.right.Nil?
    requires Fits(x0.up, 0, false)
    ensures Entries(root) == Entries(Whole(x0))
    ensures RB(root, h) && IsBlack(root)
    ensures h == Lift(x0.up, 0) || h == Lift(x0.up, 0) + 1
  {
    var x := Paint(x0, x0.up == []);
    ghost var hx := if x0.up == [] then 1 else 0;
    while x.up != [] && !x.up[0].isBlack
      invariant Climbing(x, hx)
      invariant Entries(Whole(x)) == Entries(Whole(x0))
      invariant Lift(x.up, hx) == Lift(x0.up, 0) || (x.up == [] && hx == Lift(x0.up, 0) + 1)
      decreases |x.up|
    {
      RedParent(x, hx);
      ghost var x1 := x;
      if x.up[1].fromLeft {
        var y := x.up[1].sibling;
        if y.Node? && !y.isBlack {
          x := Up(x);
          x := Paint(x, true);
          x := Up(x);
          x := Paint(x, x.up == []);
          x := PaintRight(x, true);
          hx := RecolorStep(x1, hx, x);
        } else {
          if !x.up[0].fromLeft {
            x := Up(x);
            x := RotateLeft(x);
          }
          ghost var a := x;
          x := Up(x);
          x := Paint(x, true);
          x := Up(x);
          x := Paint(x, false);
          x := RotateRight(x);
          RotateStepLeft(x1, hx, a, x);
          break;
        }
      } else {
        var y := x.up[1].sibling;
        if y.Node? && !y.isBlack {
          x := Up(x);
          x := Paint(x, true);
          x := Up(x);
          x := Paint(x, x.up == []);
          x := PaintLeft(x, true);
          hx := RecolorStep(x1, hx, x);
        } else {
          if x.up[0].fromLeft {
            x := Up(x);
            x := RotateRight(x);
          }
          ghost var a := x;
          x := Up(x);
          x := Paint(x, true);
          x := Up(x);
          x := Paint(x, false);
          x := RotateLeft(x);
          RotateStepRight(x1, hx, a, x);
          break;
        }
      }
    }
    PlugRB(x.focus, x.up, hx);
    root := Whole(x);
    h := Lift(x.up, hx);
  }

  // ----- Positions in order (treemap.go:228-260) -----

  lemma {:induction false} PlugAppend<K, V>(t: Tree<K, V>, a: seq<Frame<K, V>>, b: seq<Frame<K, V>>)
    ensures Plug(t, a + b) == Plug(Plug(t, a), b)
    decreases |a|
  {
    if a != [] {
      assert (a + b)[0] == a[0] && (a + b)[1..] == a[1..] + b;
      PlugAppend(Attach(a[0], t), a[1..], b);
    } else {
      assert a + b == b;
    }
  }

  lemma {:induction false} BeforeAfterAppend<K, V>(a: seq<Frame<K, V>>, b: seq<Frame<K, V>>)
    ensures Before(a + b) == Before(b) + Before(a)
    ensures After(a + b) == After(a) + After(b)
    decreases |a|
  {
    if a != [] {
      assert (a + b)[0] == a[0] && (a + b)[1..] == a[1..] + b;
      BeforeAfterAppend(a[1..], b);
    } else {
      assert a + b == b;
    }
  }

  /** The position in order of the node at the focus of `z`. */
  function Index<K, V>(z: Zipper<K, V>): (i: nat)
    requires z.focus.Node?
  {
    |Before(z.up)| + |Entries(z.focus.left)|
  }

  /** The entry at a node's position in order is that node's. */
  lemma IndexEntry<K, V>(z: Zipper<K, V>)
    requires z.focus.Node?
    ensures Index(z) < |Entries(Whole(z))|
    ensures Entries(Whole(z))[Index(z)] == (z.focus.key, z.focus.value)
  {
    PlugEntries(z.focus, z.up);
  }

  /** `x` was reached from `x0` by steps down to the left (`left`) or to the
      right (`!left`) only, the frames `ys` of those steps. */
  ghost predicate Descended<K, V>(x: Zipper<K, V>, x0: Zipper<K, V>, ys: seq<Frame<K, V>>, left: bool) {
    x.up == ys + x0.up && Plug(x.focus, ys) == x0.focus &&
    forall i :: 0 <= i < |ys| ==> ys[i].fromLeft == left
  }

  /** `mostLeft`: the first node in order of the subtree at `x0`. */
  method MostLeft<K, V>(x0: Zipper<K, V>) returns (x: Zipper<K, V>, ghost ys: seq<Frame<K, V>>)
    requires x0.focus.Node?
    ensures x.focus.Node? && x.focus.left.Nil? && Descended(x, x0, ys, true)
    ensures Whole(x) == Whole(x0) && Index(x) == |Before(x0.up)|
  {
    x, ys := x0, [];
    while x.focus.left.Node?
      invariant x.focus.Node? && Descended(x, x0, ys, true)
      decreases x.focus
    {
      var t := x.focus;
      x := DownLeft(x);
      ys := [x.up[0]] + ys;
      assert x.up == ys + x0.up;
      assert Attach(x.up[0], x.focus) == t;
    }
    PlugAppend(x.focus, ys, x0.up);
    BeforeAfterAppend(ys, x0.up);
    assert Before(ys) == [] by {
      AllLeftBefore(ys);
    }
  }

  /** `mostRight`: the last node in order of the subtree at `x0`. */
  method MostRight<K, V>(x0: Zipper<K, V>) returns (x: Zipper<K, V>, ghost ys: seq<Frame<K, V>>)
    requires x0.focus.Node?
    ensures x.focus.Node? && x.focus.right.Nil? && Descended(x, x0, ys, false)
    ensures Whole(x) == Whole(x0) && Index(x) + 1 == |Before(x0.up)| + |Entries(x0.focus)|
  {
    x, ys := x0, [];
    while x.focus.right.Node?
      invariant x.focus.Node? && Descended(x, x0, ys, false)
      decreases x.focus
    {
      var t := x.focus;
      x := DownRight(x);
      ys := [x.up[0]] + ys;
      assert x.up == ys + x0.up;
      assert Attach(x.up[0], x.focus) == t;
    }
    PlugAppend(x.focus, ys, x0.up);
    BeforeAfterAppend(ys, x0.up);
    PlugEntries(x.focus, ys);
    AllRightAfter(ys);
  }

  lemma {:induction false} AllLeftBefore<K, V>(ys: seq<Frame<K, V>>)
    requires forall i :: 0 <= i < |ys| ==> ys[i].fromLeft
    ensures Before(ys) == []
    decreases |ys|
  {
    if ys != [] {
      AllLeftBefore(ys[1..]);
    }
  }

  lemma {:induction false} AllRightAfter<K, V>(ys: seq<Frame<K, V>>)
    requires forall i :: 0 <= i < |ys| ==> !ys[i].fromLeft
    ensures After(ys) == []
    decreases |ys|
  {
    if ys != [] {
      AllRightAfter(ys[1..]);
    }
  }

  /** What a node pointer may hold: nil, the end node, or a node of the tree
      (given by its position). */
  datatype NodeRef<K, V> = NoNode | EndNode | At(z: Zipper<K, V>)

  /** `successor`: the next node in order, or the end node after the last. */
  method Successor<K, V>(x0: Zipper<K, V>) returns (r: NodeRef<K, V>, ghost ys: seq<Frame<K, V>>)
    requires x0.focus.Node?
    ensures !r.NoNode?
    ensures r.At? ==> r.z.focus.Node? && Whole(r.z) == Whole(x0) && Index(r.z) == Index(x0) + 1
    ensures r.EndNode? <==> Index(x0) + 1 == |Entries(Whole(x0))|
    ensures x0.focus.right.Node? ==>
      r.At? && r.z.focus.left.Nil? && Descended(r.z, DownRight(x0), ys, true)
  {
    if x0.focus.right.Node? {
      var m;
      m, ys := MostLeft(DownRight(x0));
      IndexEntry(m);
      return At(m), ys;
    }
    ys := [];
    var x := x0;
    while x.up != [] && !x.up[0].fromLeft
      invariant x.focus.Node? && Whole(x) == Whole(x0)
      invariant |Before(x.up)| + |Entries(x.focus)| == Index(x0) + 1
      decreases |x.up|
    {
      x := Up(x);
    }
    if x.up == [] {
      return EndNode, ys;
    }
    r := At(Up(x));
    IndexEntry(r.z);
  }

  /** `predecessor`: the previous node in order, or nil before the first. */
  method Predecessor<K, V>(x0: Zipper<K, V>) returns (r: NodeRef<K, V>)
    requires x0.focus.Node?
    ensures !r.EndNode?
    ensures r.At? ==> r.z.focus.Node? && Whole(r.z) == Whole(x0) && Index(r.z) + 1 == Index(x0)
    ensures r.NoNode? <==> Index(x0) == 0
  {
    if x0.focus.left.Node? {
      var m, _ := MostRight(DownLeft(x0));
      return At(m);
    }
    var x := x0;
    while x.up != [] && x.up[0].fromLeft
      invariant x.focus.Node? && Whole(x) == Whole(x0)
      invariant |Before(x.up)| == Index(x0)
      decreases |x.up|
    {
      x := Up(x);
    }
    if x.up == [] {
      return NoNode;
    }
    return At(Up(x));
  }

  /** `predecessor(endNode)`: the last node of the tree `root`, or nil when it
      is empty. */
  method PredecessorOfEnd<K, V>(root: Tree<K, V>) returns (r: NodeRef<K, V>)
    ensures !r.EndNode?
    ensures r.At? ==> r.z.focus.Node? && Whole(r.z) == root && Index(r.z) + 1 == |Entries(root)|
    ensures r.NoNode? <==> root.Nil?
  {
    if root.Node? {
      var m, _ := MostRight(Zipper(root, []));
      return At(m);
    }
    return NoNode;
  }

  // ----- removeNode (treemap.go:343-469) -----

  /** The number of black nodes on a path. */
  function Blacks<K, V>(up: seq<Frame<K, V>>): (n: nat)
    decreases |up|
  {
    if up == [] then 0 else (if up[0].isBlack then 1 else 0) + Blacks(up[1..])
  }

  /** Any position of a valid tree sits in a valid subtree that fits its
      path. */
  lemma {:induction false} UnplugRB<K, V>(t: Tree<K, V>, up: seq<Frame<K, V>>, H: int)
    requires RB(Plug(t, up), H) && IsBlack(Plug(t, up))
    ensures RB(t, H - Blacks(up)) && Fits(up, H - Blacks(up), !IsBlack(t))
    ensures Lift(up, H - Blacks(up)) == H
    decreases |up|
  {
    if up != [] {
      UnplugRB(Attach(up[0], t), up[1..], H);
    }
  }

  /** Two paths with the same colours, siblings and sides. */
  ghost predicate SameShape<K, V>(a: seq<Frame<K, V>>, b: seq<Frame<K, V>>) {
    |a| == |b| &&
    forall i :: 0 <= i < |a| ==>
      a[i].isBlack == b[i].isBlack && a[i].sibling == b[i].sibling && a[i].fromLeft == b[i].fromLeft
  }

  lemma {:induction false} SameShapeFits<K, V>(a: seq<Frame<K, V>>, b: seq<Frame<K, V>>, h: int, red: bool)
    requires SameShape(a, b)
    ensures Fits(a, h, red) == Fits(b, h, red)
    decreases |a|
  {
    if a != [] {
      SameShapeFits(a[1..], b[1..], if a[0].isBlack then h + 1 else h, !a[0].isBlack);
    }
  }

  /** The loop state of `removeNode` seen from the parent `p` of `x`: the
      subtree at `x` (on the left when `left`) is black and one black node
      short of its sibling `w`; everything else is a valid red-black tree. */
  ghost predicate ShortChild<K, V>(p: Zipper<K, V>, h: int, left: bool) {
    p.focus.Node? &&
    var x := if left then p.focus.left else p.focus.right;
    var w := if left then p.focus.right else p.focus.left;
    IsBlack(x) && RB(x, h) && RB(w, h + 1) && (p.focus.isBlack || IsBlack(w)) &&
    Fits(p.up, if p.focus.isBlack then h + 2 else h + 1, !p.focus.isBlack)
  }

  /** The loop invariant of `removeNode`, at `x`. */
  ghost predicate Short<K, V>(x: Zipper<K, V>, h: int) {
    x.up != [] && ShortChild(Up(x), h, x.up[0].fromLeft)
  }

  /** A red sibling `w` (on the right): `w` turns black, the parent red, and
      a left rotation at the parent gives `x` a black sibling. */
  lemma RedSiblingLeft<K, V>(p: Zipper<K, V>, h: int, r: Zipper<K, V>)
    requires ShortChild(p, h, true) && !IsBlack(p.focus.right)
    requires r == RotateLeft(Paint(PaintRight(p, true), false))
    ensures ShortChild(r, h, true) && !r.focus.isBlack && r.focus.left == p.focus.left
    ensures Entries(Whole(r)) == Entries(Whole(p))
  {
    var P, w := p.focus, p.focus.right;
    assert r.focus == Node(false, P.left, P.key, P.value, w.left);
    assert r.up == [Frame(true, w.key, w.value, w.right, true)] + p.up;
    assert r.up[1..] == p.up;
  }

  lemma RedSiblingRight<K, V>(p: Zipper<K, V>, h: int, r: Zipper<K, V>)
    requires ShortChild(p, h, false) && !IsBlack(p.focus.left)
    requires r == RotateRight(Paint(PaintLeft(p, true), false))
    ensures ShortChild(r, h, false) && !r.focus.isBlack && r.focus.right == p.focus.right
    ensures Entries(Whole(r)) == Entries(Whole(p))
  {
    var P, w := p.focus, p.focus.left;
    assert r.focus == Node(false, w.right, P.key, P.value, P.right);
    assert r.up == [Frame(true, w.key, w.value, w.left, false)] + p.up;
    assert r.up[1..] == p.up;
  }

  /** A black sibling with black children turns red. If the parent is red or
      the root, painting it black ends the loop; otherwise the shortfall has
      moved up to the parent. */
  lemma BlackNephewsLeft<K, V>(p: Zipper<K, V>, h: int, r: Zipper<K, V>) returns (hh: int)
    requires ShortChild(p, h, true) && IsBlack(p.focus.right) && p.focus.right.Node?
    requires IsBlack(p.focus.right.left) && IsBlack(p.focus.right.right)
    requires r == PaintRight(p, false)
    ensures r.up == [] || !r.focus.isBlack ==> RB(Whole(Paint(r, true)), hh) && IsBlack(Whole(Paint(r, true)))
    ensures r.up != [] && r.focus.isBlack ==> Short(r, h + 1)
  {
    HeightNonNegative(p.focus.left, h);
    var P := p.focus;
    assert RB(r.focus.right, h);
    if r.up == [] || !r.focus.isBlack {
      hh := h + 1;
      var f := Paint(r, true);
      assert RB(f.focus, h + 1);
      if r.up != [] {
        FitsBlack(p.up, h + 1);
        hh := Lift(p.up, h + 1);
      }
      PlugRB(f.focus, f.up, h + 1);
    } else {
      hh := h + 1;
      assert RB(r.focus, h + 1);
      assert Up(r).focus == Attach(p.up[0], r.focus);
    }
  }

  lemma BlackNephewsRight<K, V>(p: Zipper<K, V>, h: int, r: Zipper<K, V>) returns (hh: int)
    requires ShortChild(p, h, false) && IsBlack(p.focus.left) && p.focus.left.Node?
    requires IsBlack(p.focus.left.left) && IsBlack(p.focus.left.right)
    requires r == PaintLeft(p, false)
    ensures r.up == [] || !r.focus.isBlack ==> RB(Whole(Paint(r, true)), hh) && IsBlack(Whole(Paint(r, true)))
    ensures r.up != [] && r.focus.isBlack ==> Short(r, h + 1)
  {
    HeightNonNegative(p.focus.right, h);
    var P := p.focus;
    assert RB(r.focus.left, h);
    if r.up == [] || !r.focus.isBlack {
      hh := h + 1;
      var f := Paint(r, true);
      assert RB(f.focus, h + 1);
      if r.up != [] {
        FitsBlack(p.up, h + 1);
        hh := Lift(p.up, h + 1);
      }
      PlugRB(f.focus, f.up, h + 1);
    } else {
      hh := h + 1;
      assert RB(r.focus, h + 1);
      assert Up(r).focus == Attach(p.up[0], r.focus);
    }
  }

  /** A black sibling whose far child is black and near child red: a
      rotation at the sibling makes the far child red. */
  lemma NearNephewLeft<K, V>(p: Zipper<K, V>, h: int, r: Zipper<K, V>)
    requires ShortChild(p, h, true) && p.focus.right.Node? && p.focus.right.isBlack
    requires !IsBlack(p.focus.right.left) && IsBlack(p.focus.right.right)
    requires r == Up(Up(RotateRight(Paint(PaintLeft(DownRight(p), true), false))))
    ensures ShortChild(r, h, true) && r.focus.right.Node? && r.focus.right.isBlack
    ensures !IsBlack(r.focus.right.right)
    ensures Entries(Whole(r)) == Entries(Whole(p))
  {
    var P, w := p.focus, p.focus.right;
    var l := w.left;
    assert RB(l, h) && RB(w.right, h);
    assert RB(l.left, h) && RB(l.right, h);
    var inner := Node(false, l.right, w.key, w.value, w.right);
    assert RB(inner, h);
    var w' := Node(true, l.left, l.key, l.value, inner);
    assert r.focus == P.(right := w');
    assert r.up == p.up;
    assert RB(w', h + 1);
  }

  lemma NearNephewRight<K, V>(p: Zipper<K, V>, h: int, r: Zipper<K, V>)
    requires ShortChild(p, h, false) && p.focus.left.Node? && p.focus.left.isBlack
    requires !IsBlack(p.focus.left.right) && IsBlack(p.focus.left.left)
    requires r == Up(Up(RotateLeft(Paint(PaintRight(DownLeft(p), true), false))))
    ensures ShortChild(r, h, false) && r.focus.left.Node? && r.focus.left.isBlack
    ensures !IsBlack(r.focus.left.left)
    ensures Entries(Whole(r)) == Entries(Whole(p))
  {
    var P, w := p.focus, p.focus.left;
    var l := w.right;
    assert RB(l, h) && RB(w.left, h);
    assert RB(l.left, h) && RB(l.right, h);
    var inner := Node(false, w.left, w.key, w.value, l.left);
    assert RB(inner, h);
    var w' := Node(true, inner, l.key, l.value, l.right);
    assert r.focus == P.(left := w');
    assert r.up == p.up;
    assert RB(w', h + 1);
  }

  /** A black sibling with a red far child: the sibling takes the parent's
      colour, parent and far child turn black, and a rotation at the parent
      ends the loop with a valid tree. */
  lemma FarNephewLeft<K, V>(p: Zipper<K, V>, h: int, r: Zipper<K, V>) returns (hh: int)
    requires ShortChild(p, h, true) && p.focus.right.Node? && p.focus.right.isBlack
    requires !IsBlack(p.focus.right.right)
    requires r == RotateLeft(Paint(Up(PaintRight(Paint(DownRight(p), p.focus.isBlack), true)), true))
    ensures RB(Whole(r), hh) && IsBlack(Whole(r))
    ensures Entries(Whole(r)) == Entries(Whole(p))
  {
    var P, w := p.focus, p.focus.right;
    assert RB(w.left, h) && RB(w.right, h);
    assert RB(w.right.left, h) && RB(w.right.right, h);
    var near := Node(true, P.left, P.key, P.value, w.left);
    var far := w.right.(isBlack := true);
    assert RB(near, h + 1) && RB(far, h + 1);
    var top := Node(P.isBlack, near, w.key, w.value, far);
    assert r.focus == top.left;
    assert r.up == [Frame(P.isBlack, w.key, w.value, w.right.(isBlack := true), true)] + p.up;
    assert r.up[1..] == p.up;
    hh := if P.isBlack then h + 2 else h + 1;
    assert RB(top, hh);
    PlugRB(top, p.up, hh);
    hh := Lift(p.up, hh);
  }

  lemma FarNephewRight<K, V>(p: Zipper<K, V>, h: int, r: Zipper<K, V>) returns (hh: int)
    requires ShortChild(p, h, false) && p.focus.left.Node? && p.focus.left.isBlack
    requires !IsBlack(p.focus.left.left)
    requires r == RotateRight(Paint(Up(PaintLeft(Paint(DownLeft(p), p.focus.isBlack), true)), true))
    ensures RB(Whole(r), hh) && IsBlack(Whole(r))
    ensures Entries(Whole(r)) == Entries(Whole(p))
  {
    var P, w := p.focus, p.focus.left;
    assert RB(w.left, h) && RB(w.right, h);
    assert RB(w.left.left, h) && RB(w.left.right, h);
    var near := Node(true, w.right, P.key, P.value, P.right);
    var far := w.left.(isBlack := true);
    assert RB(near, h + 1) && RB(far, h + 1);
    var top := Node(P.isBlack, far, w.key, w.value, near);
    assert r.focus == top.right;
    assert r.up == [Frame(P.isBlack, w.key, w.value, w.left.(isBlack := true), false)] + p.up;
    assert r.up[1..] == p.up;
    hh := if P.isBlack then h + 2 else h + 1;
    assert RB(top, hh);
    PlugRB(top, p.up, hh);
    hh := Lift(p.up, hh);
  }

  /** The frame of `z` on the path to its successor, with the successor's key
      and value: the successor moved into `z`'s place. */
  function Moved<K, V>(z: Zipper<K, V>, y: Zipper<K, V>): (up: seq<Frame<K, V>>)
    requires y.focus.Node? && |y.up| > |z.up|
    ensures SameShape(up, y.up)
  {
    var k := |y.up| - |z.up| - 1;
    y.up[k := y.up[k].(key := y.focus.key, value := y.focus.value)]
  }

  lemma MovedFrames<K, V>(z: Zipper<K, V>, y: Zipper<K, V>, ys: seq<Frame<K, V>>)
    requires z.focus.Node? && y.focus.Node?
    requires y.up == ys + DownRight(z).up
    ensures |y.up| > |z.up|
    ensures Moved(z, y) == ys + ([Frame(z.focus.isBlack, y.focus.key, y.focus.value, z.focus.left, false)] + z.up)
  {
    var g := Frame(z.focus.isBlack, z.focus.key, z.focus.value, z.focus.left, false);
    assert DownRight(z).up == [g] + z.up;
    assert |ys| == |y.up| - |z.up| - 1;
    assert y.up[|ys|] == g;
  }

  /** Unlinking `z`'s successor `y` and moving it into `z`'s place takes
      exactly `z`'s entry out of the order. */
  lemma {:induction false} SpliceEntries<K, V>(z: Zipper<K, V>, y: Zipper<K, V>, ys: seq<Frame<K, V>>, up: seq<Frame<K, V>>)
    requires z.focus.Node? && y.focus.Node? && y.focus.left.Nil?
    requires Plug(y.focus, ys) == z.focus.right && forall i :: 0 <= i < |ys| ==> ys[i].fromLeft
    requires up == ys + ([Frame(z.focus.isBlack, y.focus.key, y.focus.value, z.focus.left, false)] + z.up)
    ensures Entries(Plug(y.focus.right, up)) ==
            Before(z.up) + Entries(z.focus.left) + Entries(z.focus.right) + After(z.up)
  {
    var e := (y.focus.key, y.focus.value);
    var u := [Frame(z.focus.isBlack, y.focus.key, y.focus.value, z.focus.left, false)] + z.up;
    assert u[1..] == z.up;
    assert Before(u) == Before(z.up) + Entries(z.focus.left) + [e];
    assert After(u) == After(z.up);
    BeforeAfterAppend(ys, u);
    AllLeftBefore(ys);
    PlugEntries(y.focus.right, up);
    PlugEntries(y.focus, ys);
  }

  /** After unlinking `y` (which has at most one child `x`), the tree is a
      valid red-black tree if `y` was red; if `y` was black and `x` is a node,
      painting `x` black makes it one; otherwise the place of `x` is one black
      node short, which is the state the rebalancing loop starts from. */
  lemma SpliceRB<K, V>(y: Zipper<K, V>, hole: Zipper<K, V>, H: int) returns (hh: int)
    requires y.focus.Node? && (y.focus.left.Nil? || y.focus.right.Nil?)
    requires RB(Whole(y), H) && IsBlack(Whole(y))
    requires hole.focus == (if y.focus.left.Node? then y.focus.left else y.focus.right)
    requires SameShape(hole.up, y.up)
    ensures !y.focus.isBlack ==> hole.focus.Nil? && RB(Whole(hole), hh) && IsBlack(Whole(hole))
    ensures y.focus.isBlack && hole.focus.Node? ==>
      RB(Whole(Paint(hole, true)), hh) && IsBlack(Whole(Paint(hole, true)))
    ensures y.focus.isBlack && hole.focus.Nil? && Whole(hole).Node? ==> Short(hole, 0)
    ensures Whole(hole).Nil? ==> RB(Whole(hole), hh)
  {
    var t := y.focus;
    UnplugRB(t, y.up, H);
    var hy := H - Blacks(y.up);
    HeightNonNegative(t.left, if t.isBlack then hy - 1 else hy);
    HeightNonNegative(t.right, if t.isBlack then hy - 1 else hy);
    if !t.isBlack {
      assert hy == 0;
      HeightNonNegative(hole.focus, 0);
      FitsBlack(y.up, 0);
      SameShapeFits(hole.up, y.up, 0, false);
      PlugRB(hole.focus, hole.up, 0);
      hh := Lift(hole.up, 0);
    } else {
      assert hy == 1;
      SameShapeFits(hole.up, y.up, 1, false);
      if hole.focus.Node? {
        HeightNonNegative(hole.focus, 0);
        var b := Paint(hole, true);
        assert RB(b.focus, 1);
        PlugRB(b.focus, b.up, 1);
        hh := Lift(hole.up, 1);
      } else {
        hh := 0;
      }
    }
  }

  /** `removeNode`: takes the node at `z` out of a valid tree. `y` is the node
      that leaves its place (`z`, or `z`'s successor when `z` has two
      children), `x` its only child or nil. When `y` is not `z`, `y` moves
      into `z`'s place, so that place now holds `y`'s key and value. If a
      black node left, the loop rebalances, with `w` the sibling of `x`.
      The result is the new root; exactly `z`'s entry has gone. */
  method RemoveNode<K, V>(z: Zipper<K, V>, ghost H: int) returns (root: Tree<K, V>, ghost h: int)
    requires z.focus.Node? && RB(Whole(z), H) && IsBlack(Whole(z))
    ensures Entries(root) == Before(z.up) + Entries(z.focus.left) + Entries(z.focus.right) + After(z.up)
    ensures RB(root, h) && IsBlack(root)
  {
    ghost var E := Before(z.up) + Entries(z.focus.left) + Entries(z.focus.right) + After(z.up);
    var y := z;
    ghost var ys: seq<Frame<K, V>> := [];
    var yIsZ := z.focus.left.Nil? || z.focus.right.Nil?;
    if !yIsZ {
      var s;
      s, ys := Successor(z);
      y := s.z;
    }
    var x := Zipper(if y.focus.left.Node? then y.focus.left else y.focus.right, y.up);
    var removedBlack := y.focus.isBlack;
    if yIsZ {
      PlugEntries(x.focus, z.up);
    } else {
      MovedFrames(z, y, ys);
      SpliceEntries(z, y, ys, Moved(z, y));
      x := Zipper(x.focus, Moved(z, y));
    }
    assert Entries(Whole(x)) == E;
    h := SpliceRB(y, x, H);
    if removedBlack && Whole(x).Node? {
      if x.focus.Node? {
        x := Paint(x, true);
      } else {
        x, h := RemoveFixup(x);
      }
    }
    root := Whole(x);
    assert Entries(root) == E;
  }

  /** The rebalancing loop of `removeNode`: `x` is one black node short and
      each round either ends with a valid tree or moves the shortfall up. */
  method RemoveFixup<K, V>(x0: Zipper<K, V>) returns (x: Zipper<K, V>, ghost h: int)
    requires Short(x0, 0)
    ensures Entries(Whole(x)) == Entries(Whole(x0))
    ensures RB(Whole(x), h) && IsBlack(Whole(x))
  {
    x := x0;
    ghost var hx := 0;
    while true
      invariant Short(x, hx) && Entries(Whole(x)) == Entries(Whole(x0))
      decreases |x.up|
    {
      var done;
      if x.up[0].fromLeft {
        x, done, hx, h := FixupLeft(x, hx);
      } else {
        x, done, hx, h := FixupRight(x, hx);
      }
      if done {
        return;
      }
    }
  }

  /** One round of the loop when `x` is a left child. */
  method FixupLeft<K, V>(x: Zipper<K, V>, ghost hx: int) returns (x': Zipper<K, V>, done: bool, ghost hx': int, ghost h: int)
    requires Short(x, hx) && x.up[0].fromLeft
    ensures Entries(Whole(x')) == Entries(Whole(x))
    ensures done ==> RB(Whole(x'), h) && IsBlack(Whole(x'))
    ensures !done ==> Short(x', hx') && |x'.up| < |x.up|
  {
    hx' := hx;
    var p := Up(x);
    HeightNonNegative(p.focus.left, hx);
    if !p.focus.right.isBlack {
      ghost var p0 := p;
      p := PaintRight(p, true);
      p := Paint(p, false);
      p := RotateLeft(p);
      RedSiblingLeft(p0, hx, p);
    }
    var w := p.focus.right;
    if IsBlack(w.left) && IsBlack(w.right) {
      ghost var p0 := p;
      p := PaintRight(p, false);
      h := BlackNephewsLeft(p0, hx, p);
      if p.up == [] || !p.focus.isBlack {
        x' := Paint(p, true);
        done := true;
        return;
      }
      x' := p;
      hx' := hx + 1;
      done := false;
    } else {
      if IsBlack(w.right) {
        ghost var p0 := p;
        var v := DownRight(p);
        v := PaintLeft(v, true);
        v := Paint(v, false);
        v := RotateRight(v);
        p := Up(Up(v));
        NearNephewLeft(p0, hx, p);
      }
      ghost var p0 := p;
      var v := DownRight(p);
      v := Paint(v, p.focus.isBlack);
      v := PaintRight(v, true);
      p := Up(v);
      p := Paint(p, true);
      p := RotateLeft(p);
      h := FarNephewLeft(p0, hx, p);
      x' := p;
      done := true;
    }
  }

  /** One round of the loop when `x` is a right child: the mirror image. */
  method FixupRight<K, V>(x: Zipper<K, V>, ghost hx: int) returns (x': Zipper<K, V>, done: bool, ghost hx': int, ghost h: int)
    requires Short(x, hx) && !x.up[0].fromLeft
    ensures Entries(Whole(x')) == Entries(Whole(x))
    ensures done ==> RB(Whole(x'), h) && IsBlack(Whole(x'))
    ensures !done ==> Short(x', hx') && |x'.up| < |x.up|
  {
    hx' := hx;
    var p := Up(x);
    HeightNonNegative(p.focus.right, hx);
    if !p.focus.left.isBlack {
      ghost var p0 := p;
      p := PaintLeft(p, true);
      p := Paint(p, false);
      p := RotateRight(p);
      RedSiblingRight(p0, hx, p);
    }
    var w := p.focus.left;
    if IsBlack(w.left) && IsBlack(w.right) {
      ghost var p0 := p;
      p := PaintLeft(p, false);
      h := BlackNephewsRight(p0, hx, p);
      if !p.focus.isBlack || p.up == [] {
        x' := Paint(p, true);
        done := true;
        return;
      }
      x' := p;
      hx' := hx + 1;
      done := false;
    } else {
      if IsBlack(w.left) {
        ghost var p0 := p;
        var v := DownLeft(p);
        v := PaintRight(v, true);
        v := Paint(v, false);
        v := RotateLeft(v);
        p := Up(Up(v));
        NearNephewRight(p0, hx, p);
      }
      ghost var p0 := p;
      var v := DownLeft(p);
      v := Paint(v, p.focus.isBlack);
      v := PaintLeft(v, true);
      p := Up(v);
      p := Paint(p, true);
      p := RotateRight(p);
      h := FarNephewRight(p0, hx, p);
      x' := p;
      done := true;
    }
  }
}
