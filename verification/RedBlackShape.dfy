/** The red-black tree of compat/tree.h as a value: trees, and paths from a
    subtree up to the root.  A path and a subtree together are a tree seen from
    one of its nodes, which is how the pointer loops see it.  The code's
    left/right twin branches are one branch here, with a `Side`. */
module RedBlackShape {

  datatype Color = Black | Red

  datatype Side = Left | Right {
    function Other(): Side { if Left? then Right else Left }
  }

  datatype Tree<N> = Leaf | Node(left: Tree<N>, elem: N, color: Color, right: Tree<N>)

  datatype Path<N> = Top | Step(up: Path<N>, side: Side, elem: N, color: Color, sibling: Tree<N>)

  /** A node whose child on `side` is `near` and whose other child is `far`. */
  function Join<N>(side: Side, near: Tree<N>, elem: N, color: Color, far: Tree<N>): Tree<N> {
    if side.Left? then Node(near, elem, color, far) else Node(far, elem, color, near)
  }

  function Kid<N>(t: Tree<N>, side: Side): Tree<N>
    requires t.Node?
  {
    if side.Left? then t.left else t.right
  }

  predicate IsRed<N>(t: Tree<N>) {
    t.Node? && t.color == Red
  }

  function Paint<N>(t: Tree<N>, color: Color): Tree<N> {
    if t.Leaf? then Leaf else t.(color := color)
  }

  function InOrder<N>(t: Tree<N>): seq<N> {
    if t.Leaf? then [] else InOrder(t.left) + [t.elem] + InOrder(t.right)
  }

  function Plug<N>(p: Path<N>, t: Tree<N>): Tree<N> {
    if p.Top? then t else Plug(p.up, Join(p.side, t, p.elem, p.color, p.sibling))
  }

  /** Puts the top of `p` under the bottom of `q`. */
  function Append<N>(p: Path<N>, q: Path<N>): Path<N> {
    if p.Top? then q else p.(up := Append(p.up, q))
  }

  lemma AppendPlugs<N>(p: Path<N>, q: Path<N>, t: Tree<N>)
    ensures Plug(Append(p, q), t) == Plug(q, Plug(p, t))
  {}

  /** The elements in order before and after the hole of a path. */
  function Before<N>(p: Path<N>): seq<N> {
    if p.Top? then []
    else if p.side.Left? then Before(p.up)
    else Before(p.up) + InOrder(p.sibling) + [p.elem]
  }

  function After<N>(p: Path<N>): seq<N> {
    if p.Top? then []
    else if p.side.Right? then After(p.up)
    else [p.elem] + InOrder(p.sibling) + After(p.up)
  }

  lemma {:induction false} PlugInOrder<N>(p: Path<N>, t: Tree<N>)
    ensures InOrder(Plug(p, t)) == Before(p) + InOrder(t) + After(p)
  {
    if p.Step? {
      PlugInOrder(p.up, Join(p.side, t, p.elem, p.color, p.sibling));
    }
  }

  // ----- nodes, without repetition -----

  ghost function Elems<N>(t: Tree<N>): set<N> {
    if t.Leaf? then {} else Elems(t.left) + {t.elem} + Elems(t.right)
  }

  ghost function PathElems<N>(p: Path<N>): set<N> {
    if p.Top? then {} else PathElems(p.up) + {p.elem} + Elems(p.sibling)
  }

  ghost predicate Distinct<N>(t: Tree<N>) {
    t.Node? ==>
      && Distinct(t.left) && Distinct(t.right)
      && t.elem !in Elems(t.left) && t.elem !in Elems(t.right)
      && Elems(t.left) !! Elems(t.right)
  }

  ghost predicate DistinctPath<N>(p: Path<N>) {
    p.Step? ==>
      && DistinctPath(p.up) && Distinct(p.sibling)
      && p.elem !in Elems(p.sibling) && p.elem !in PathElems(p.up)
      && Elems(p.sibling) !! PathElems(p.up)
  }

  ghost predicate DistinctView<N>(p: Path<N>, t: Tree<N>) {
    DistinctPath(p) && Distinct(t) && Elems(t) !! PathElems(p)
  }

  lemma {:induction false} PlugElems<N>(p: Path<N>, t: Tree<N>)
    ensures Elems(Plug(p, t)) == PathElems(p) + Elems(t)
    ensures Distinct(Plug(p, t)) <==> DistinctView(p, t)
  {
    if p.Step? {
      PlugElems(p.up, Join(p.side, t, p.elem, p.color, p.sibling));
    }
  }

  lemma {:induction false} ElemsInOrder<N>(t: Tree<N>)
    ensures Elems(t) == set x | x in InOrder(t)
  {
    if t.Node? {
      ElemsInOrder(t.left);
      ElemsInOrder(t.right);
    }
  }

  // ----- colours -----

  /** Black nodes on the leftmost branch. */
  function BlackHeight<N>(t: Tree<N>): nat {
    if t.Leaf? then 0 else BlackHeight(t.left) + if t.color == Black then 1 else 0
  }

  /** Every branch has as many black nodes, and no red node has a red child. */
  ghost predicate Balanced<N>(t: Tree<N>) {
    t.Node? ==>
      && Balanced(t.left) && Balanced(t.right)
      && BlackHeight(t.left) == BlackHeight(t.right)
      && (t.color == Red ==> !IsRed(t.left) && !IsRed(t.right))
  }

  ghost predicate RedBlack<N>(t: Tree<N>) {
    Balanced(t) && !IsRed(t)
  }

  /** The path is the surroundings of a subtree of black height `h` in a
      red-black tree; nothing is said of the colours across the hole. */
  ghost predicate Fits<N>(p: Path<N>, h: nat) {
    p.Step? ==>
      && Balanced(p.sibling) && BlackHeight(p.sibling) == h
      && (p.color == Black ==> Fits(p.up, h + 1))
      && (p.color == Red ==> !IsRed(p.sibling) && Fits(p.up, h) && p.up.Step? && p.up.color == Black)
  }

  predicate RedAbove<N>(p: Path<N>) {
    p.Step? && p.color == Red
  }

  lemma {:induction false} PlugBalanced<N>(p: Path<N>, t: Tree<N>)
    requires Balanced(t) && Fits(p, BlackHeight(t))
    requires !(IsRed(t) && RedAbove(p))
    ensures Balanced(Plug(p, t))
    ensures p.Step? ==> !IsRed(Plug(p, t))
  {
    if p.Step? {
      PlugBalanced(p.up, Join(p.side, t, p.elem, p.color, p.sibling));
    }
  }

  /** The converse: every subtree of a red-black tree is balanced and fits. */
  lemma {:induction false} UnplugBalanced<N>(p: Path<N>, t: Tree<N>)
    requires Balanced(Plug(p, t)) && (p.Step? ==> !IsRed(Plug(p, t)))
    ensures Balanced(t) && Fits(p, BlackHeight(t))
    ensures !(IsRed(t) && RedAbove(p))
  {
    if p.Step? {
      var u := Join(p.side, t, p.elem, p.color, p.sibling);
      UnplugBalanced(p.up, u);
    }
  }

  function PathLength<N>(p: Path<N>): nat {
    if p.Top? then 0 else 1 + PathLength(p.up)
  }

  function Height<N>(t: Tree<N>): nat {
    if t.Leaf? then 0
    else 1 + if Height(t.left) < Height(t.right) then Height(t.right) else Height(t.left)
  }

  function Pow2(n: nat): nat {
    if n == 0 then 1 else 2 * Pow2(n - 1)
  }

  lemma {:induction false} Pow2Square(h: nat)
    ensures Pow2(2 * h) == Pow2(h) * Pow2(h)
  {
    if h > 0 {
      Pow2Square(h - 1);
      var x := Pow2(h - 1);
      assert Pow2(2 * h) == 4 * Pow2(2 * (h - 1)) by { assert 2 * h - 2 == 2 * (h - 1); }
      assert (2 * x) * (2 * x) == 4 * (x * x);
    }
  }

  lemma SquareMonotone(a: nat, b: nat)
    requires a <= b
    ensures a * a <= b * b
  {}

  lemma {:induction false} BalancedSize<N>(t: Tree<N>)
    requires Balanced(t)
    ensures Pow2(BlackHeight(t)) <= |InOrder(t)| + 1
    ensures Height(t) <= 2 * BlackHeight(t) + if IsRed(t) then 1 else 0
  {
    if t.Node? {
      BalancedSize(t.left);
      BalancedSize(t.right);
    }
  }

  lemma Pow2Monotone(a: nat, b: nat)
    requires a <= b
    ensures Pow2(a) <= Pow2(b)
  {}

  /** The maximum height is 2 lg(n+1): 2^height is at most (n+1) squared. */
  lemma HeightBound<N>(t: Tree<N>)
    requires RedBlack(t)
    ensures Pow2(Height(t)) <= (|InOrder(t)| + 1) * (|InOrder(t)| + 1)
  {
    var h, n := BlackHeight(t), |InOrder(t)| + 1;
    BalancedSize(t);
    Pow2Monotone(Height(t), 2 * h);
    Pow2Square(h);
    SquareMonotone(Pow2(h), n);
  }

  /** The view of a tree from one of its nodes. */
  lemma {:induction false} Locate<N>(t: Tree<N>, n: N) returns (p: Path<N>, s: Tree<N>)
    requires n in Elems(t)
    ensures Plug(p, s) == t && s.Node? && s.elem == n
  {
    if t.elem == n {
      p, s := Top, t;
    } else if n in Elems(t.left) {
      p, s := Locate(t.left, n);
      AppendPlugs(p, Step(Top, Left, t.elem, t.color, t.right), s);
      p := Append(p, Step(Top, Left, t.elem, t.color, t.right));
    } else {
      p, s := Locate(t.right, n);
      AppendPlugs(p, Step(Top, Right, t.elem, t.color, t.left), s);
      p := Append(p, Step(Top, Right, t.elem, t.color, t.left));
    }
  }

  /** The rotation that brings the child on the other side to the top. */
  function RotateTree<N>(side: Side, t: Tree<N>): Tree<N>
    requires t.Node? && Kid(t, side.Other()).Node?
  {
    var u := Kid(t, side.Other());
    Join(side, Join(side, Kid(t, side), t.elem, t.color, Kid(u, side)), u.elem, u.color, Kid(u, side.Other()))
  }

  lemma RotateKeeps<N>(side: Side, t: Tree<N>)
    requires t.Node? && Kid(t, side.Other()).Node?
    ensures InOrder(RotateTree(side, t)) == InOrder(t)
    ensures Elems(RotateTree(side, t)) == Elems(t)
    ensures Distinct(t) ==> Distinct(RotateTree(side, t))
  {
    var u := Kid(t, side.Other());
    assert Elems(u) == Elems(u.left) + {u.elem} + Elems(u.right);
    assert Distinct(t) ==> Distinct(u);
  }

  lemma SameInOrder<N>(p: Path<N>, t: Tree<N>, t': Tree<N>)
    requires InOrder(t) == InOrder(t')
    ensures InOrder(Plug(p, t)) == InOrder(Plug(p, t'))
  {
    PlugInOrder(p, t);
    PlugInOrder(p, t');
  }

  /** The subtree one step further up a path. */
  function Over<N>(p: Path<N>, t: Tree<N>): Tree<N>
    requires p.Step?
  {
    Join(p.side, t, p.elem, p.color, p.sibling)
  }

  // ----- RB_INSERT_COLOR: a red node under a red parent -----

  /** The tree is red-black but for the red node at the top of `t`. */
  ghost predicate RedAt<N>(p: Path<N>, t: Tree<N>) {
    IsRed(t) && Balanced(t) && Fits(p, BlackHeight(t))
  }

  /** A red uncle: the parent and the uncle turn black, the grandparent red. */
  function PushUp<N>(p: Path<N>, t: Tree<N>): Tree<N>
    requires p.Step? && p.up.Step?
  {
    Over(p.up.(color := Red, sibling := Paint(p.up.sibling, Black)), Over(p.(color := Black), t))
  }

  lemma PushUpBalanced<N>(p: Path<N>, t: Tree<N>)
    requires RedAt(p, t) && RedAbove(p) && IsRed(p.up.sibling)
    ensures Balanced(PushUp(p, t)) && Fits(p.up.up, BlackHeight(PushUp(p, t)))
    ensures InOrder(Plug(p.up.up, PushUp(p, t))) == InOrder(Plug(p, t))
  {
    assert Fits(p.up, BlackHeight(t)) && Fits(p.up.up, BlackHeight(t) + 1);
    assert Balanced(Over(p.(color := Black), t)) && BlackHeight(Over(p.(color := Black), t)) == BlackHeight(t) + 1;
    SameInOrder(p.up.up, PushUp(p, t), Over(p.up, Over(p, t)));
  }

  /** A black uncle, and the red nodes in line: the parent turns black, the
      grandparent red, and the grandparent is rotated down. */
  function TurnPath<N>(p: Path<N>): Path<N>
    requires p.Step? && p.up.Step?
  {
    var g := p.up;
    Step(g.up, g.side, p.elem, Black, Join(g.side, p.sibling, g.elem, Red, g.sibling))
  }

  lemma TurnBalanced<N>(p: Path<N>, t: Tree<N>)
    requires RedAt(p, t) && RedAbove(p) && !IsRed(p.up.sibling)
    requires p.side == p.up.side
    ensures Fits(TurnPath(p), BlackHeight(t))
    ensures InOrder(Plug(TurnPath(p), t)) == InOrder(Plug(p, t))
  {
    SameInOrder(p.up.up, Over(TurnPath(p), t), Over(p.up, Over(p, t)));
  }

  /** The red nodes not in line: the parent is rotated down first. */
  lemma AlignBalanced<N>(p: Path<N>, t: Tree<N>, p': Path<N>, t': Tree<N>)
    requires RedAt(p, t) && RedAbove(p) && p.side != p.up.side
    requires t' == Join(p.up.side, p.sibling, p.elem, Red, Kid(t, p.up.side))
    requires p' == Step(p.up, p.up.side, t.elem, Red, Kid(t, p.up.side.Other()))
    ensures Over(p', t') == RotateTree(p.up.side, Over(p, t))
    ensures RedAt(p', t') && InOrder(Plug(p', t')) == InOrder(Plug(p, t))
  {
    RotateKeeps(p.up.side, Over(p, t));
    SameInOrder(p.up, Over(p', t'), Over(p, t));
  }

  /** The same tree, seen from the sibling. */
  function Across<N>(p: Path<N>, t: Tree<N>): Path<N>
    requires p.Step?
  {
    Step(p.up, p.side.Other(), p.elem, p.color, t)
  }

  lemma AcrossPlugs<N>(p: Path<N>, t: Tree<N>)
    requires p.Step?
    ensures Plug(Across(p, t), p.sibling) == Plug(p, t) == Plug(p.up, Over(p, t))
  {
    assert Over(Across(p, t), p.sibling) == Over(p, t);
  }

  // ----- RB_REMOVE_COLOR: a subtree one black node short -----

  /** The tree is red-black but for the subtree `t`, which wants one more black
      node, and would be right if its top were red and turned black. */
  ghost predicate ShortAt<N>(p: Path<N>, t: Tree<N>) {
    Balanced(Paint(t, Black)) && Fits(p, BlackHeight(t) + 1)
  }

  /** The sibling is never missing. */
  lemma ShortSibling<N>(p: Path<N>, t: Tree<N>)
    requires ShortAt(p, t) && p.Step?
    ensures p.sibling.Node?
    ensures IsRed(p.sibling) ==> p.color == Black && Kid(p.sibling, p.side).Node?
  {}

  /** A red sibling turns black and is rotated over its parent, which turns red. */
  function LiftSibling<N>(p: Path<N>): Path<N>
    requires p.Step? && p.sibling.Node?
  {
    var w := p.sibling;
    Step(Step(p.up, p.side, w.elem, Black, Kid(w, p.side.Other())), p.side, p.elem, Red, Kid(w, p.side))
  }

  lemma LiftSiblingShort<N>(p: Path<N>, t: Tree<N>)
    requires ShortAt(p, t) && !IsRed(t) && p.Step? && IsRed(p.sibling)
    ensures ShortAt(LiftSibling(p), t) && !IsRed(LiftSibling(p).sibling)
    ensures InOrder(Plug(LiftSibling(p), t)) == InOrder(Plug(p, t))
    ensures Plug(LiftSibling(p), t) ==
            Plug(p.up, RotateTree(p.side, Over(p.(color := Red, sibling := Paint(p.sibling, Black)), t)))
  {
    var q, u := LiftSibling(p), Over(p.(color := Red, sibling := Paint(p.sibling, Black)), t);
    assert Fits(p.up, BlackHeight(t) + 2) && Fits(q.up, BlackHeight(t) + 1);
    assert Plug(q, t) == Plug(q.up, Over(q, t)) == Plug(p.up, Over(q.up, Over(q, t)));
    RotateKeeps(p.side, u);
    SameInOrder(p.up, RotateTree(p.side, u), Over(p, t));
  }

  predicate BlackKids<N>(t: Tree<N>) {
    t.Node? && !IsRed(t.left) && !IsRed(t.right)
  }

  /** A black sibling with black children turns red: now its parent is short. */
  lemma PaintSiblingShort<N>(p: Path<N>, t: Tree<N>)
    requires ShortAt(p, t) && !IsRed(t) && p.Step? && !IsRed(p.sibling) && BlackKids(p.sibling)
    ensures ShortAt(p.up, Over(p.(sibling := Paint(p.sibling, Red)), t))
    ensures InOrder(Plug(p.(sibling := Paint(p.sibling, Red)), t)) == InOrder(Plug(p, t))
  {
    SameInOrder(p.up, Over(p.(sibling := Paint(p.sibling, Red)), t), Over(p, t));
  }

  /** Only the near nephew is red: it swaps colours with the sibling and is
      rotated over it. */
  function SwapNephew<N>(p: Path<N>): Tree<N>
    requires p.Step? && p.sibling.Node?
  {
    var w := p.sibling;
    Join(p.side, Paint(Kid(w, p.side), Black), w.elem, Red, Kid(w, p.side.Other()))
  }

  lemma TurnNephewShort<N>(p: Path<N>, t: Tree<N>, w: Tree<N>)
    requires ShortAt(p, t) && !IsRed(t) && p.Step? && p.sibling.Node? && !IsRed(p.sibling)
    requires IsRed(Kid(p.sibling, p.side)) && !IsRed(Kid(p.sibling, p.side.Other()))
    requires w == RotateTree(p.side.Other(), SwapNephew(p))
    ensures ShortAt(p.(sibling := w), t) && !IsRed(w) && IsRed(Kid(w, p.side.Other()))
    ensures InOrder(Plug(p.(sibling := w), t)) == InOrder(Plug(p, t))
  {
    assert Balanced(p.sibling) && Balanced(Kid(p.sibling, p.side));
    RotateKeeps(p.side.Other(), SwapNephew(p));
    assert InOrder(w) == InOrder(p.sibling);
    SameInOrder(p.up, Over(p.(sibling := w), t), Over(p, t));
  }

  /** The far nephew is red and turns black, the sibling takes the parent's
      colour and is rotated over it, and nothing is short any more. */
  function SwapSibling<N>(p: Path<N>): Path<N>
    requires p.Step? && p.sibling.Node?
  {
    var w := p.sibling;
    p.(color := Black, sibling := Join(p.side, Kid(w, p.side), w.elem, p.color, Paint(Kid(w, p.side.Other()), Black)))
  }

  lemma TurnSiblingBalanced<N>(p: Path<N>, t: Tree<N>, r: Tree<N>)
    requires ShortAt(p, t) && !IsRed(t) && p.Step? && p.sibling.Node? && !IsRed(p.sibling)
    requires IsRed(Kid(p.sibling, p.side.Other()))
    requires r == RotateTree(p.side, Over(SwapSibling(p), t))
    ensures RedBlack(Plug(p.up, r)) && InOrder(Plug(p.up, r)) == InOrder(Plug(p, t))
  {
    assert Balanced(p.sibling) && Balanced(Kid(p.sibling, p.side.Other()));
    RotateKeeps(p.side, Over(SwapSibling(p), t));
    assert InOrder(SwapSibling(p).sibling) == InOrder(p.sibling);
    SameInOrder(p.up, r, Over(p, t));
    PlugBalanced(p.up, r);
  }

  /** Painting the top black at the end. */
  lemma ShortDone<N>(p: Path<N>, t: Tree<N>)
    requires ShortAt(p, t) && (IsRed(t) || p.Top?)
    ensures RedBlack(Plug(p, Paint(t, Black))) && InOrder(Plug(p, Paint(t, Black))) == InOrder(Plug(p, t))
  {
    SameInOrder(p, Paint(t, Black), t);
    PlugBalanced(p, Paint(t, Black));
  }

  // ----- RB_REMOVE -----

  /** A node with at most one child is replaced by that child. */
  lemma SpliceShort<N>(p: Path<N>, t: Tree<N>, s: Tree<N>)
    requires t.Node? && ((t.left.Leaf? && s == t.right) || (t.right.Leaf? && s == t.left))
    requires Balanced(t) && Fits(p, BlackHeight(t)) && !(IsRed(t) && RedAbove(p))
    ensures t.color == Black ==> ShortAt(p, s)
    ensures t.color == Red ==> Balanced(Plug(p, s)) && (p.Step? ==> !IsRed(Plug(p, s)))
  {
    if t.color == Red {
      assert s.Leaf?;
      PlugBalanced(p, s);
    }
  }

  lemma {:induction false} FitsRenamed<N>(q: Path<N>, p: Path<N>, e: N, h: nat)
    requires p.Step? && Fits(Append(q, p), h)
    ensures Fits(Append(q, p.(elem := e)), h)
  {
    if q.Step? {
      FitsRenamed(q.up, p, e, h + if q.color == Black then 1 else 0);
    }
  }

  /** A node with two children: its successor, the leftmost node `u` of its right
      subtree, is taken out and put in its place. */
  lemma SuccessorShort<N>(p: Path<N>, t: Tree<N>, q: Path<N>, u: Tree<N>)
    requires t.Node? && t.right == Plug(q, u) && u.Node? && u.left.Leaf? && RedBlack(Plug(p, t))
    ensures var q' := Append(q, Step(p, Right, u.elem, t.color, t.left));
      && Plug(q', u.right) == Plug(p, Node(t.left, u.elem, t.color, Plug(q, u.right)))
      && (if u.color == Black then ShortAt(q', u.right) else RedBlack(Plug(q', u.right)))
  {
    var above := Step(p, Right, t.elem, t.color, t.left);
    var q0, q' := Append(q, above), Append(q, above.(elem := u.elem));
    AppendPlugs(q, above, u);
    AppendPlugs(q, above.(elem := u.elem), u.right);
    assert Plug(q0, u) == Plug(above, Plug(q, u)) == Plug(p, t);
    UnplugBalanced(q0, u);
    FitsRenamed(q, above, u.elem, BlackHeight(u));
    assert RedAbove(q') == RedAbove(q0);
    SpliceShort(q', u, u.right);
  }

  /** `s` is `t` less the element `x`, in order. */
  ghost predicate Less<N>(t: seq<N>, x: N, s: seq<N>) {
    exists i :: 0 <= i < |t| && t[i] == x && s == t[..i] + t[i + 1..]
  }

  lemma LessInside<N>(before: seq<N>, a: seq<N>, x: N, b: seq<N>, after: seq<N>)
    ensures Less(before + (a + [x] + b) + after, x, before + (a + b) + after)
  {
    var t, i := before + (a + [x] + b) + after, |before| + |a|;
    assert t[i] == x && t[..i] == before + a && t[i + 1..] == b + after;
    assert before + (a + b) + after == t[..i] + t[i + 1..];
  }

  lemma LeftmostFirst<N>(q: Path<N>, u: Tree<N>)
    requires u.Node? && u.left.Leaf? && Before(q) == []
    ensures InOrder(Plug(q, u)) == [u.elem] + InOrder(Plug(q, u.right))
  {
    PlugInOrder(q, u);
    PlugInOrder(q, u.right);
  }

  lemma SuccessorInOrder<N>(p: Path<N>, t: Tree<N>, q: Path<N>, u: Tree<N>)
    requires t.Node? && t.right == Plug(q, u) && u.Node? && u.left.Leaf? && Before(q) == []
    ensures Less(InOrder(Plug(p, t)), t.elem, InOrder(Plug(p, Node(t.left, u.elem, t.color, Plug(q, u.right)))))
  {
    var l, r := InOrder(t.left), InOrder(Plug(q, u.right));
    PlugInOrder(p, t);
    LeftmostFirst(q, u);
    PlugInOrder(p, Node(t.left, u.elem, t.color, Plug(q, u.right)));
    assert l + [u.elem] + r == l + ([u.elem] + r);
    LessInside(Before(p), l, t.elem, [u.elem] + r, After(p));
  }

  lemma SpliceInOrder<N>(p: Path<N>, t: Tree<N>, s: Tree<N>)
    requires t.Node? && ((t.left.Leaf? && s == t.right) || (t.right.Leaf? && s == t.left))
    ensures Less(InOrder(Plug(p, t)), t.elem, InOrder(Plug(p, s)))
  {
    PlugInOrder(p, t);
    PlugInOrder(p, s);
    assert InOrder(t.left) + InOrder(t.right) == InOrder(s);
    LessInside(Before(p), InOrder(t.left), t.elem, InOrder(t.right), After(p));
  }

  /** The view of a tree from the node at place `i` of its order. */
  lemma {:induction false} LocateAt<N>(s: Tree<N>, i: nat) returns (p: Path<N>, t: Tree<N>)
    requires i < |InOrder(s)|
    ensures Plug(p, t) == s && t.Node? && t.elem == InOrder(s)[i] && InOrder(s)[i + 1..] == InOrder(t.right) + After(p)
  {
    var n := |InOrder(s.left)|;
    if i == n {
      p, t := Top, s;
    } else {
      var side, j := if i < n then Left else Right, if i < n then i else i - n - 1;
      var above := Step(Top, side, s.elem, s.color, Kid(s, side.Other()));
      p, t := LocateAt(Kid(s, side), j);
      AppendPlugs(p, above, t);
      AfterAppend(p, above);
      p := Append(p, above);
    }
  }

  lemma {:induction false} AfterAppend<N>(p: Path<N>, q: Path<N>)
    ensures After(Append(p, q)) == After(p) + After(q)
  {
    if p.Step? {
      AfterAppend(p.up, q);
    }
  }
}
