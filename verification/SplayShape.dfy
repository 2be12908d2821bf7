/** The splay tree of compat/tree.h as a value.  During a top-down splay the elements are
    in three parts: the tree that is still searched, and two spines of trees that were
    split off, one on each side.  The code's left/right twin branches are one branch
    here, with a `Side`. */
module SplayShape {

  datatype Side = Left | Right {
    function Other(): Side { if Left? then Right else Left }
  }

  datatype Tree<N> = Leaf | Node(left: Tree<N>, elem: N, right: Tree<N>)

  /** Elements linked one below the other, the last one first; each has a subtree on
      the side of the spine, and the next one on the other side. */
  datatype Spine<N> = End | Link(up: Spine<N>, elem: N, sub: Tree<N>)

  function Kid<N>(t: Tree<N>, side: Side): Tree<N>
    requires t.Node?
  {
    if side.Left? then t.left else t.right
  }

  function Join<N>(side: Side, near: Tree<N>, elem: N, far: Tree<N>): Tree<N> {
    if side.Left? then Node(near, elem, far) else Node(far, elem, near)
  }

  function InOrder<N>(t: Tree<N>): seq<N> {
    if t.Leaf? then [] else InOrder(t.left) + [t.elem] + InOrder(t.right)
  }

  function Size<N>(t: Tree<N>): nat {
    if t.Leaf? then 0 else Size(t.left) + 1 + Size(t.right)
  }

  /** The elements of a spine on `side`, in order. */
  function SpineOrder<N>(side: Side, s: Spine<N>): seq<N> {
    if s.End? then []
    else if side.Left? then SpineOrder(side, s.up) + (InOrder(s.sub) + [s.elem])
    else ([s.elem] + InOrder(s.sub)) + SpineOrder(side, s.up)
  }

  /** The spine with `t` at its end, as a tree. */
  function Close<N>(side: Side, s: Spine<N>, t: Tree<N>): Tree<N> {
    if s.End? then t else Close(side, s.up, Join(side, s.sub, s.elem, t))
  }

  lemma {:induction false} CloseOrder<N>(side: Side, s: Spine<N>, t: Tree<N>)
    ensures InOrder(Close(side, s, t)) == if side.Left? then SpineOrder(side, s) + InOrder(t) else InOrder(t) + SpineOrder(side, s)
  {
    if s.Link? {
      CloseOrder(side, s.up, Join(side, s.sub, s.elem, t));
    }
  }

  // ----- elements, without repetition -----

  ghost function Elems<N>(t: Tree<N>): set<N> {
    if t.Leaf? then {} else Elems(t.left) + {t.elem} + Elems(t.right)
  }

  lemma {:induction false} ElemListed<N>(t: Tree<N>, x: N)
    ensures x in Elems(t) ==> x in InOrder(t)
  {
    if t.Node? {
      ElemListed(t.left, x);
      ElemListed(t.right, x);
    }
  }

  ghost predicate Distinct<N>(t: Tree<N>) {
    t.Node? ==>
      && Distinct(t.left) && Distinct(t.right)
      && t.elem !in Elems(t.left) && t.elem !in Elems(t.right) && Elems(t.left) !! Elems(t.right)
  }

  ghost function SpineElems<N>(s: Spine<N>): set<N> {
    if s.End? then {} else SpineElems(s.up) + {s.elem} + Elems(s.sub)
  }

  ghost predicate DistinctSpine<N>(s: Spine<N>) {
    s.Link? ==>
      && DistinctSpine(s.up) && Distinct(s.sub)
      && s.elem !in Elems(s.sub) && s.elem !in SpineElems(s.up) && Elems(s.sub) !! SpineElems(s.up)
  }

  lemma {:induction false} CloseElems<N>(side: Side, s: Spine<N>, t: Tree<N>)
    ensures Elems(Close(side, s, t)) == SpineElems(s) + Elems(t)
    ensures DistinctSpine(s) && Distinct(t) && SpineElems(s) !! Elems(t) ==> Distinct(Close(side, s, t))
  {
    if s.Link? {
      CloseElems(side, s.up, Join(side, s.sub, s.elem, t));
    }
  }

  // ----- the three parts -----

  datatype Parts<N> = Parts(l: Spine<N>, t: Tree<N>, r: Spine<N>) {
    function Get(side: Side): Spine<N> { if side.Left? then l else r }
    function Set(side: Side, s: Spine<N>): Parts<N> { if side.Left? then this.(l := s) else this.(r := s) }
  }

  function Order<N>(p: Parts<N>): seq<N> {
    SpineOrder(Left, p.l) + InOrder(p.t) + SpineOrder(Right, p.r)
  }

  ghost predicate DistinctParts<N>(p: Parts<N>) {
    && DistinctSpine(p.l) && Distinct(p.t) && DistinctSpine(p.r)
    && SpineElems(p.l) !! Elems(p.t) && SpineElems(p.r) !! Elems(p.t) && SpineElems(p.l) !! SpineElems(p.r)
  }

  ghost function PartsElems<N>(p: Parts<N>): set<N> {
    SpineElems(p.l) + Elems(p.t) + SpineElems(p.r)
  }

  /** SPLAY_ROTATE_RIGHT for the left side, SPLAY_ROTATE_LEFT for the right one. */
  function Rotate<N>(side: Side, t: Tree<N>): Tree<N>
    requires t.Node? && Kid(t, side).Node?
  {
    var u := Kid(t, side);
    Join(side, Kid(u, side), u.elem, Join(side, Kid(u, side.Other()), t.elem, Kid(t, side.Other())))
  }

  /** SPLAY_LINKLEFT and SPLAY_LINKRIGHT: the root goes to the other side's spine. */
  function LinkRoot<N>(side: Side, p: Parts<N>): Parts<N>
    requires p.t.Node?
  {
    p.Set(side.Other(), Link(p.Get(side.Other()), p.t.elem, Kid(p.t, side.Other()))).(t := Kid(p.t, side))
  }

  /** SPLAY_ASSEMBLE. */
  function Assemble<N>(p: Parts<N>): Tree<N>
    requires p.t.Node?
  {
    Node(Close(Left, p.l, p.t.left), p.t.elem, Close(Right, p.r, p.t.right))
  }

  /** The two shapes of a rotation have the same elements in the same order. */
  lemma SameOrder<N>(a: Tree<N>, x: N, b: Tree<N>, y: N, c: Tree<N>)
    ensures var s, t := Node(Node(a, x, b), y, c), Node(a, x, Node(b, y, c)); InOrder(s) == InOrder(t) && Size(s) == Size(t)
  {
    var u, v := Node(a, x, b), Node(b, y, c);
    assert InOrder(u) == InOrder(a) + [x] + InOrder(b) && InOrder(v) == InOrder(b) + [y] + InOrder(c);
    assert Size(u) == Size(a) + 1 + Size(b) && Size(v) == Size(b) + 1 + Size(c);
  }

  lemma SameElems<N>(a: Tree<N>, x: N, b: Tree<N>, y: N, c: Tree<N>)
    ensures var s, t := Node(Node(a, x, b), y, c), Node(a, x, Node(b, y, c)); Elems(s) == Elems(t) && (Distinct(s) <==> Distinct(t))
  {
    var u, v := Node(a, x, b), Node(b, y, c);
    assert Elems(u) == Elems(a) + {x} + Elems(b) && Elems(v) == Elems(b) + {y} + Elems(c);
    assert (Distinct(u) <==> Distinct(Node(a, x, b))) && (Distinct(v) <==> Distinct(Node(b, y, c)));
  }

  lemma RotateKeeps<N>(side: Side, t: Tree<N>)
    requires t.Node? && Kid(t, side).Node?
    ensures var s := Rotate(side, t);
      InOrder(s) == InOrder(t) && Elems(s) == Elems(t) && (Distinct(s) <==> Distinct(t)) && Size(s) == Size(t)
  {
    var u := Kid(t, side);
    if side.Left? {
      SameOrder(u.left, u.elem, u.right, t.elem, t.right);
      SameElems(u.left, u.elem, u.right, t.elem, t.right);
    } else {
      SameOrder(t.left, t.elem, u.left, u.elem, u.right);
      SameElems(t.left, t.elem, u.left, u.elem, u.right);
    }
  }

  lemma LinkKeeps<N>(side: Side, p: Parts<N>)
    requires p.t.Node?
    ensures var q := LinkRoot(side, p);
      Order(q) == Order(p) && PartsElems(q) == PartsElems(p) && (DistinctParts(p) ==> DistinctParts(q)) && Size(q.t) < Size(p.t)
  {
    var a, l, e, r, b := SpineOrder(Left, p.l), InOrder(p.t.left), p.t.elem, InOrder(p.t.right), SpineOrder(Right, p.r);
    Regroup(a, l, [e], r, b);
  }

  lemma {:induction false} AssembleKeeps<N>(p: Parts<N>)
    requires p.t.Node?
    ensures InOrder(Assemble(p)) == Order(p) && Elems(Assemble(p)) == PartsElems(p) && (DistinctParts(p) ==> Distinct(Assemble(p)))
  {
    AssembleOrder(p);
    AssembleElems(p);
  }

  lemma {:induction false} AssembleElems<N>(p: Parts<N>)
    requires p.t.Node?
    ensures Elems(Assemble(p)) == PartsElems(p) && (DistinctParts(p) ==> Distinct(Assemble(p)))
  {
    CloseElems(Left, p.l, p.t.left);
    CloseElems(Right, p.r, p.t.right);
  }

  lemma {:induction false} AssembleOrder<N>(p: Parts<N>)
    requires p.t.Node?
    ensures InOrder(Assemble(p)) == Order(p)
  {
    CloseOrder(Left, p.l, p.t.left);
    CloseOrder(Right, p.r, p.t.right);
    var a, l, e, r, b := SpineOrder(Left, p.l), InOrder(p.t.left), p.t.elem, InOrder(p.t.right), SpineOrder(Right, p.r);
    Regroup(a, l, [e], r, b);
  }

  lemma Assoc<N>(a: seq<N>, b: seq<N>, c: seq<N>)
    ensures (a + b) + c == a + (b + c)
  {}

  /** The groupings of a tree between two spines. */
  lemma Regroup<N>(a: seq<N>, l: seq<N>, e: seq<N>, r: seq<N>, b: seq<N>)
    ensures (a + l) + e + (r + b) == (a + (l + e + r)) + b
    ensures ((a + (l + e)) + r) + b == (a + (l + e + r)) + b
    ensures (a + l) + ((e + r) + b) == (a + (l + e + r)) + b
  {
    Assoc(a, l, e);
    Assoc(a, l + e, r);
    Assoc(a + (l + e), r, b);
    Assoc(e, r, b);
    Assoc(a + l, e, r + b);
  }

  /** The tree with a new root beside the old one, which keeps the subtree on its other
      side. */
  function InsertRoot<N>(side: Side, t: Tree<N>, elm: N): Tree<N>
    requires t.Node?
  {
    Join(side, Kid(t, side), elm, Join(side, Leaf, t.elem, Kid(t, side.Other())))
  }

  /** `s` with `x` put in somewhere. */
  ghost predicate WithOne<N>(s: seq<N>, x: N, s': seq<N>) {
    exists i :: 0 <= i <= |s| && s' == s[..i] + [x] + s[i..]
  }

  function InsertPlace<N>(side: Side, t: Tree<N>): nat
    requires t.Node?
  {
    if side.Left? then |InOrder(t.left)| else |InOrder(t.left)| + 1
  }

  lemma Cut<N>(l: seq<N>, e: N, r: seq<N>)
    ensures var s := l + [e] + r;
      s[..|l|] == l && s[|l|..] == [e] + r && s[..|l| + 1] == l + [e] && s[|l| + 1..] == r
  {}

  /** What comes before and after the place of the new root. */
  lemma Around<N>(side: Side, t: Tree<N>)
    requires t.Node?
    ensures var i := InsertPlace(side, t);
      && i <= |InOrder(t)|
      && (if side.Left? then InOrder(t)[..i] == InOrder(t.left) && InOrder(t)[i..] == [t.elem] + InOrder(t.right)
          else InOrder(t)[..i] == InOrder(t.left) + [t.elem] && InOrder(t)[i..] == InOrder(t.right))
  {
    Cut(InOrder(t.left), t.elem, InOrder(t.right));
  }

  lemma InsertSeq<N>(side: Side, t: Tree<N>, elm: N)
    requires t.Node?
    ensures var i := InsertPlace(side, t); i <= |InOrder(t)| && InOrder(InsertRoot(side, t, elm)) == InOrder(t)[..i] + [elm] + InOrder(t)[i..]
  {
    Around(side, t);
    if side.Left? {
      assert InOrder(Node(Leaf, t.elem, t.right)) == [t.elem] + InOrder(t.right);
    } else {
      assert InOrder(Node(t.left, t.elem, Leaf)) == InOrder(t.left) + [t.elem];
    }
  }

  lemma InsertElems<N>(side: Side, t: Tree<N>, elm: N)
    requires t.Node? && Distinct(t) && elm !in Elems(t)
    ensures Distinct(InsertRoot(side, t, elm)) && Elems(InsertRoot(side, t, elm)) == Elems(t) + {elm}
  {
    if side.Left? {
      BesideElems(t.left, elm, t.elem, t.right);
    } else {
      BesideElems(t.left, t.elem, elm, t.right);
    }
  }

  /** Two elements between two trees, one above the other. */
  lemma {:induction false} BesideElems<N>(a: Tree<N>, x: N, y: N, c: Tree<N>)
    requires Distinct(a) && Distinct(c) && Elems(a) !! Elems(c) && x != y && {x, y} !! Elems(a) && {x, y} !! Elems(c)
    ensures var s, t := Node(a, x, Node(Leaf, y, c)), Node(Node(a, x, Leaf), y, c);
      Distinct(s) && Distinct(t) && Elems(s) == Elems(t) == Elems(a) + {x, y} + Elems(c)
  {
    var none: Tree<N> := Leaf;
    assert Elems(none) == {};
    var u, v := Node(none, y, c), Node(a, x, none);
    assert Elems(u) == {} + {y} + Elems(c) && Elems(v) == Elems(a) + {x} + {};
  }
}
