/** The parent-pointer red-black tree of compat/tree.h (RB_*). */
module RedBlackTree {
  import opened RedBlackShape
  import opened Ordering

  /** The RB_ENTRY fields of one element. */
  datatype Links<K> = Links(left: Entry?<K>, right: Entry?<K>, parent: Entry?<K>, color: Color) {
    function Get(side: Side): Entry?<K> {
      if side.Left? then left else right
    }
    function Set(side: Side, e: Entry?<K>): Links<K> {
      if side.Left? then this.(left := e) else this.(right := e)
    }
  }

  /** An element. */
  class Entry<K> {
    const key: K
    var left: Entry?<K>
    var right: Entry?<K>
    var parent: Entry?<K>
    var color: Color

    constructor (key: K)
      ensures this.key == key
    {
      this.key := key;
      left, right, parent, color := null, null, null, Black;
    }

    function Get(side: Side): Entry?<K>
      reads this
    {
      if side.Left? then left else right
    }

    function Fields(): Links<K>
      reads this
    {
      Links(left, right, parent, color)
    }
  }

  /** What a set of elements holds in its fields. */
  type Memory<K> = map<Entry<K>, Links<K>>

  function Root<K>(t: Tree<Entry<K>>): Entry?<K> {
    if t.Leaf? then null else t.elem
  }

  function PathParent<K>(p: Path<Entry<K>>, par: Entry?<K>): Entry?<K> {
    if p.Top? then par else p.elem
  }

  function PathRoot<K>(p: Path<Entry<K>>, hole: Entry?<K>): Entry?<K> {
    if p.Top? then hole else PathRoot(p.up, p.elem)
  }

  /** The memory holds the tree `t`, hanging from `par`. */
  ghost predicate Holds<K>(m: Memory<K>, t: Tree<Entry<K>>, par: Entry?<K>) {
    t.Node? ==>
      && t.elem in m && m[t.elem] == Links(Root(t.left), Root(t.right), par, t.color)
      && Holds(m, t.left, t.elem) && Holds(m, t.right, t.elem)
  }

  /** The memory holds the path `p`, from the child pointer `hole` up to `par`. */
  ghost predicate HoldsPath<K>(m: Memory<K>, p: Path<Entry<K>>, hole: Entry?<K>, par: Entry?<K>) {
    p.Step? ==>
      && p.elem in m
      && m[p.elem] == Links(Root(p.sibling), Root(p.sibling), PathParent(p.up, par), p.color).Set(p.side, hole)
      && Holds(m, p.sibling, p.elem) && HoldsPath(m, p.up, p.elem, par)
  }

  ghost predicate Agree<K>(m: Memory<K>, m': Memory<K>, s: set<Entry?<K>>) {
    forall n | n in s && n in m :: n in m' && m'[n] == m[n]
  }

  lemma {:induction false} HoldsFrame<K>(m: Memory<K>, m': Memory<K>, t: Tree<Entry<K>>, par: Entry?<K>)
    requires Holds(m, t, par) && Agree(m, m', Elems(t))
    ensures Holds(m', t, par)
  {
    if t.Node? {
      HoldsFrame(m, m', t.left, t.elem);
      HoldsFrame(m, m', t.right, t.elem);
    }
  }

  lemma {:induction false} HoldsPathFrame<K>(m: Memory<K>, m': Memory<K>, p: Path<Entry<K>>, hole: Entry?<K>, par: Entry?<K>)
    requires HoldsPath(m, p, hole, par) && Agree(m, m', PathElems(p))
    ensures HoldsPath(m', p, hole, par)
  {
    if p.Step? {
      HoldsFrame(m, m', p.sibling, p.elem);
      HoldsPathFrame(m, m', p.up, p.elem, par);
    }
  }

  /** The root of `t` changes parent and colour. */
  lemma Rehang<K>(m: Memory<K>, m': Memory<K>, t: Tree<Entry<K>>, was: Entry?<K>, par: Entry?<K>, color: Color)
    requires Holds(m, t, was) && Distinct(t)
    requires t.Node? ==> t.elem in m' && m'[t.elem] == m[t.elem].(parent := par, color := color)
    requires Agree(m, m', Elems(t) - {Root(t)})
    ensures Holds(m', Paint(t, color), par)
  {
    if t.Node? {
      HoldsFrame(m, m', t.left, t.elem);
      HoldsFrame(m, m', t.right, t.elem);
    }
  }

  /** The child link at the end of `p` changes, and the colour of the node there. */
  lemma Relink<K>(m: Memory<K>, m': Memory<K>, p: Path<Entry<K>>, hole: Entry?<K>, now: Entry?<K>, par: Entry?<K>)
    requires HoldsPath(m, p, hole, par) && DistinctPath(p)
    requires p.Step? ==> p.elem in m' && m'[p.elem] == m[p.elem].Set(p.side, now)
    requires Agree(m, m', PathElems(p) - {PathParent(p, null)})
    ensures HoldsPath(m', p, now, par)
  {
    if p.Step? {
      HoldsFrame(m, m', p.sibling, p.elem);
      HoldsPathFrame(m, m', p.up, p.elem, par);
    }
  }

  lemma {:induction false} PlugHolds<K>(m: Memory<K>, p: Path<Entry<K>>, t: Tree<Entry<K>>, par: Entry?<K>)
    ensures Holds(m, Plug(p, t), par) <==> Holds(m, t, PathParent(p, par)) && HoldsPath(m, p, Root(t), par)
    ensures Root(Plug(p, t)) == PathRoot(p, Root(t))
  {
    if p.Step? {
      PlugHolds(m, p.up, Join(p.side, t, p.elem, p.color, p.sibling), par);
    }
  }

  ghost predicate View<K>(m: Memory<K>, p: Path<Entry<K>>, t: Tree<Entry<K>>) {
    Holds(m, t, PathParent(p, null)) && HoldsPath(m, p, Root(t), null)
  }

  ghost predicate SameBut<K>(m: Memory<K>, m': Memory<K>, changed: set<Entry?<K>>) {
    forall n | n in m && n !in changed :: n in m' && m'[n] == m[n]
  }

  /** A set that holds none of the changed nodes: two nodes, the roots `b` and
      `c` of two subtrees and the node `par` of a path. */
  lemma AgreeOff<K>(m: Memory<K>, m': Memory<K>, x: Entry<K>, y: Entry<K>, b: Entry?<K>, c: Entry?<K>, par: Entry?<K>,
                    s: set<Entry?<K>>, sb: set<Entry?<K>>, sc: set<Entry?<K>>, sp: set<Entry?<K>>)
    requires SameBut(m, m', {x, y, b, c, par})
    requires x !in s && y !in s
    requires b != null ==> b in sb && sb !! s
    requires c != null ==> c in sc && sc !! s
    requires par != null ==> par in sp && sp !! s
    ensures Agree(m, m', s)
  {}

  /** What RB_ROTATE_LEFT and RB_ROTATE_RIGHT change at `elm`, under `par`, with
      child `y`, whose subtree `b` changes hands. */
  ghost predicate Rotated<K>(m: Memory<K>, m': Memory<K>, side: Side, elm: Entry<K>, y: Entry<K>, b: Entry?<K>, par: Entry?<K>)
  {
    && m'.Keys == m.Keys
    && SameBut(m, m', {elm, y, b, par})
    && (elm in m ==> m'[elm] == m[elm].Set(side.Other(), b).(parent := y))
    && (y in m ==> m'[y] == m[y].Set(side, elm).(parent := par))
    && (b != null && b in m ==> m'[b] == m[b].(parent := elm))
    && (par != null && par in m ==> m'[par] == Linked(m[par], elm, y))
  }

  /** The child link that held `was` holds `now`. */
  function Linked<K>(l: Links<K>, was: Entry<K>, now: Entry?<K>): Links<K> {
    l.Set(if l.left == was then Left else Right, now)
  }

  lemma RotateHolds<K>(m: Memory<K>, m': Memory<K>, p: Path<Entry<K>>, side: Side, a: Tree<Entry<K>>, elm: Entry<K>, ca: Color,
                       b: Tree<Entry<K>>, y: Entry<K>, cy: Color, d: Tree<Entry<K>>)
    requires Holds(m, a, elm) && Holds(m, b, y) && Holds(m, d, y) && HoldsPath(m, p, elm, null)
    requires Distinct(b) && DistinctPath(p)
    requires elm !in Elems(a) && elm !in Elems(b) && elm !in Elems(d) && elm !in PathElems(p)
    requires y !in Elems(a) && y !in Elems(b) && y !in Elems(d) && y !in PathElems(p)
    requires Elems(b) !! Elems(a) && Elems(b) !! Elems(d) && PathElems(p) !! Elems(a)
    requires PathElems(p) !! Elems(b) && PathElems(p) !! Elems(d)
    requires Rotated(m, m', side, elm, y, Root(b), PathParent(p, null))
    ensures Holds(m', a, elm) && Holds(m', b, elm) && Holds(m', d, y) && HoldsPath(m', p, y, null)
  {
    RotateAside(m, m', p, side, elm, y, b, a, elm);
    RotateAside(m, m', p, side, elm, y, b, d, y);
    RotateMoved(m, m', p, side, elm, y, b);
  }

  /** A subtree that a rotation does not move. */
  lemma RotateAside<K>(m: Memory<K>, m': Memory<K>, p: Path<Entry<K>>, side: Side, elm: Entry<K>, y: Entry<K>, b: Tree<Entry<K>>,
                       t: Tree<Entry<K>>, par: Entry<K>)
    requires Holds(m, t, par) && elm !in Elems(t) && y !in Elems(t) && Elems(b) !! Elems(t) && PathElems(p) !! Elems(t)
    requires Rotated(m, m', side, elm, y, Root(b), PathParent(p, null))
    ensures Holds(m', t, par)
  {
    assert b.Node? ==> b.elem in Elems(b);
    assert p.Step? ==> p.elem in PathElems(p);
    AgreeOff(m, m', elm, y, Root(b), null, PathParent(p, null), Elems(t), Elems(b), {}, PathElems(p));
    HoldsFrame(m, m', t, par);
  }

  /** The subtree that changes hands, and the path above. */
  lemma RotateMoved<K>(m: Memory<K>, m': Memory<K>, p: Path<Entry<K>>, side: Side, elm: Entry<K>, y: Entry<K>, b: Tree<Entry<K>>)
    requires Holds(m, b, y) && HoldsPath(m, p, elm, null) && Distinct(b) && DistinctPath(p)
    requires elm !in Elems(b) && elm !in PathElems(p) && y !in Elems(b) && y !in PathElems(p) && PathElems(p) !! Elems(b)
    requires Rotated(m, m', side, elm, y, Root(b), PathParent(p, null))
    ensures Holds(m', b, elm) && HoldsPath(m', p, y, null)
  {
    var rb, par, sb, sp := Root(b), PathParent(p, null), Elems(b), PathElems(p);
    assert b.Node? ==> b.elem in Elems(b);
    assert p.Step? ==> p.elem in PathElems(p);
    AgreeOff(m, m', elm, y, rb, null, par, sb - {rb}, {rb}, {}, sp);
    AgreeOff(m, m', elm, y, rb, null, par, sp - {par}, sb, {}, {par});
    if b.Node? { Rehang(m, m', b, y, elm, b.color); }
    Relink(m, m', p, elm, y, null);
  }

  lemma RotateView<K>(m: Memory<K>, m': Memory<K>, p: Path<Entry<K>>, side: Side, t: Tree<Entry<K>>)
    requires t.Node? && Kid(t, side.Other()).Node?
    requires View(m, p, t) && DistinctView(p, t)
    requires var u := Kid(t, side.Other()); Rotated(m, m', side, t.elem, u.elem, Root(Kid(u, side)), PathParent(p, null))
    ensures View(m', p, RotateTree(side, t))
  {
    var u := Kid(t, side.Other());
    assert Elems(u) == Elems(u.left) + {u.elem} + Elems(u.right);
    assert Holds(m, u, t.elem) && Distinct(u);
    RotateHolds(m, m', p, side, Kid(t, side), t.elem, t.color, Kid(u, side), u.elem, u.color, Kid(u, side.Other()));
  }

  /** What RB_REMOVE changes to take `elm` out from between `par` and its only
      child `child`. */
  ghost predicate Spliced<K>(m: Memory<K>, m': Memory<K>, elm: Entry<K>, child: Entry?<K>, par: Entry?<K>) {
    && m'.Keys == m.Keys - {elm}
    && SameBut(m, m', {elm, child, par})
    && (child != null && child in m && child != elm ==> m'[child] == m[child].(parent := par))
    && (par != null && par in m && par != elm ==> m'[par] == Linked(m[par], elm, child))
  }

  lemma SpliceView<K>(m: Memory<K>, m': Memory<K>, p: Path<Entry<K>>, t: Tree<Entry<K>>, child: Tree<Entry<K>>)
    requires t.Node? && ((t.left.Leaf? && child == t.right) || (t.right.Leaf? && child == t.left))
    requires View(m, p, t) && DistinctView(p, t)
    requires Spliced(m, m', t.elem, Root(child), PathParent(p, null))
    ensures View(m', p, child)
  {
    var elm, rb, par, sb, sp := t.elem, Root(child), PathParent(p, null), Elems(child), PathElems(p);
    assert child.Node? ==> child.elem in sb;
    assert p.Step? ==> p.elem in sp;
    assert elm in Elems(t) && sb <= Elems(t);
    AgreeOff(m, m', elm, elm, rb, null, par, sb - {rb}, {rb}, {}, sp);
    AgreeOff(m, m', elm, elm, rb, null, par, sp - {par}, sb, {}, {par});
    if child.Node? { Rehang(m, m', child, elm, par, child.color); }
    Relink(m, m', p, elm, rb, null);
  }

  /** What RB_REMOVE changes to put `elm` in the place of `old`. */
  ghost predicate Replaced<K>(m: Memory<K>, m': Memory<K>, was: Entry<K>, elm: Entry<K>,
                              l: Entry?<K>, r: Entry?<K>, par: Entry?<K>) {
    && m'.Keys == m.Keys - {was} + {elm}
    && SameBut(m, m', {was, elm, l, r, par})
    && (was in m ==> m'[elm] == m[was])
    && (l != null && l in m && l != was && l != elm ==> m'[l] == m[l].(parent := elm))
    && (r != null && r in m && r != was && r != elm ==> m'[r] == m[r].(parent := elm))
    && (par != null && par in m && par != was && par != elm ==> m'[par] == Linked(m[par], was, elm))
  }

  /** The whole tree, once the new node has taken over. */
  lemma {:induction false} ReplacePlug<K>(m: Memory<K>, m': Memory<K>, p: Path<Entry<K>>, t: Tree<Entry<K>>, elm: Entry<K>)
    requires t.Node? && elm !in m && Holds(m, Plug(p, t), null) && Distinct(Plug(p, t)) && m.Keys == Elems(Plug(p, t))
    requires Replaced(m, m', t.elem, elm, Root(t.left), Root(t.right), PathParent(p, null))
    ensures var s := Plug(p, t.(elem := elm));
      && Holds(m', s, null) && Distinct(s) && Elems(s) == m.Keys - {t.elem} + {elm}
      && Root(s) == if PathParent(p, null) == null then elm else Root(Plug(p, t))
  {
    PlugHolds(m, p, t, null);
    PlugElems(p, t);
    ReplaceView(m, m', p, t, elm);
    PlugHolds(m', p, t.(elem := elm), null);
    PlugElems(p, t.(elem := elm));
  }

  lemma ReplaceView<K>(m: Memory<K>, m': Memory<K>, p: Path<Entry<K>>, t: Tree<Entry<K>>, elm: Entry<K>)
    requires t.Node? && elm !in m
    requires View(m, p, t) && DistinctView(p, t) && m.Keys == PathElems(p) + Elems(t)
    requires Replaced(m, m', t.elem, elm, Root(t.left), Root(t.right), PathParent(p, null))
    ensures View(m', p, t.(elem := elm))
  {
    var was, l, r, par, sl, sr, sp := t.elem, Root(t.left), Root(t.right), PathParent(p, null), Elems(t.left), Elems(t.right), PathElems(p);
    assert t.left.Node? ==> t.left.elem in sl;
    assert t.right.Node? ==> t.right.elem in sr;
    assert p.Step? ==> p.elem in sp;
    assert Elems(t) == sl + {was} + sr;
    AgreeOff(m, m', was, elm, l, r, par, sl - {l}, {l}, sr, sp);
    AgreeOff(m, m', was, elm, l, r, par, sr - {r}, sl, {r}, sp);
    AgreeOff(m, m', was, elm, l, r, par, sp - {par}, sl, sr, {par});
    if t.left.Node? { Rehang(m, m', t.left, was, elm, t.left.color); }
    if t.right.Node? { Rehang(m, m', t.right, was, elm, t.right.color); }
    Relink(m, m', p, was, elm, null);
  }

  /** What RB_INSERT changes to hang the new leaf `elm` from `par`. */
  ghost predicate Attached<K>(m: Memory<K>, m': Memory<K>, side: Side, elm: Entry<K>, par: Entry?<K>) {
    && m'.Keys == m.Keys + {elm}
    && SameBut(m, m', {elm, par})
    && m'[elm] == Links(null, null, par, Red)
    && (par != null && par in m && par != elm ==> m'[par] == m[par].Set(side, elm))
  }

  lemma AttachView<K>(m: Memory<K>, m': Memory<K>, p: Path<Entry<K>>, side: Side, elm: Entry<K>)
    requires View(m, p, Leaf) && DistinctPath(p) && elm !in PathElems(p) && (p.Step? ==> p.side == side)
    requires Attached(m, m', side, elm, PathParent(p, null))
    ensures View(m', p, Node(Leaf, elm, Red, Leaf))
  {
    var par, sp := PathParent(p, null), PathElems(p);
    AgreeOff(m, m', elm, elm, null, null, par, sp - {par}, {}, {}, {par});
    Relink(m, m', p, null, elm, null);
  }

  lemma RecolorView<K>(m: Memory<K>, p: Path<Entry<K>>, t: Tree<Entry<K>>, color: Color)
    requires t.Node? && View(m, p, t) && DistinctView(p, t)
    ensures View(m[t.elem := m[t.elem].(color := color)], p, t.(color := color))
  {
    var m' := m[t.elem := m[t.elem].(color := color)];
    HoldsFrame(m, m', t.left, t.elem);
    HoldsFrame(m, m', t.right, t.elem);
    HoldsPathFrame(m, m', p, t.elem, null);
  }

  ghost predicate Sorted<K>(cmp: (K, K) -> int, s: seq<Entry<K>>) {
    forall i, j | 0 <= i < j < |s| :: cmp(s[i].key, s[j].key) < 0
  }

  ghost predicate Below<K>(cmp: (K, K) -> int, s: seq<Entry<K>>, key: K) {
    forall e | e in s :: cmp(key, e.key) > 0
  }

  ghost predicate Above<K>(cmp: (K, K) -> int, s: seq<Entry<K>>, key: K) {
    forall e | e in s :: cmp(key, e.key) < 0
  }

  /** In a sorted tree a key below a node is below all that comes after it, and
      a key above a node is above all that comes before it. */
  lemma SearchNode<K(!new)>(cmp: (K, K) -> int, p: Path<Entry<K>>, t: Tree<Entry<K>>, key: K)
    requires Lawful(cmp) && t.Node? && Sorted(cmp, InOrder(Plug(p, t)))
    ensures cmp(key, t.elem.key) < 0 ==> Above(cmp, [t.elem] + InOrder(t.right), key)
    ensures cmp(key, t.elem.key) > 0 ==> Below(cmp, InOrder(t.left) + [t.elem], key)
  {
    PlugInOrder(p, t);
    SortedInside(cmp, (x: Entry<K>) => x.key, Before(p), InOrder(t.left), t.elem, InOrder(t.right), After(p));
  }

  lemma SortedLess<K>(cmp: (K, K) -> int, s: seq<Entry<K>>, x: Entry<K>, s': seq<Entry<K>>)
    requires Sorted(cmp, s) && Less(s, x, s')
    ensures Sorted(cmp, s')
  {}

  class Head<K(!new)> {
    const cmp: (K, K) -> int
    var root: Entry?<K>
    ghost var nodes: set<Entry<K>>
    ghost var shape: Tree<Entry<K>>

    /** RB_INIT. */
    constructor (cmp: (K, K) -> int)
      requires Lawful(cmp)
      ensures Valid() && this.cmp == cmp && Contents() == []
    {
      this.cmp := cmp;
      root := null;
      nodes := {};
      shape := Leaf;
    }

    /** The elements of the tree, in order. */
    ghost function Contents(): seq<Entry<K>>
      reads this
    {
      InOrder(shape)
    }

    ghost predicate Valid()
      reads this, nodes
    {
      Lawful(cmp) && Shows(shape) && RedBlack(shape) && Sorted(cmp, Contents())
    }

    ghost function Snapshot(): Memory<K>
      reads this`nodes, nodes
    {
      map n | n in nodes :: n.Fields()
    }

    /** The tree in memory is `t`. */
    ghost predicate Shows(t: Tree<Entry<K>>)
      reads this`root, this`nodes, nodes
    {
      Holds(Snapshot(), t, null) && Distinct(t) && nodes == Elems(t) && root == Root(t)
    }

    /** The fields of a node, seen from there. */
    lemma At(p: Path<Entry<K>>, t: Tree<Entry<K>>)
      requires t.Node? && Shows(Plug(p, t))
      ensures t.elem in nodes && t.elem.Fields() == Links(Root(t.left), Root(t.right), PathParent(p, null), t.color)
    {
      PlugHolds(Snapshot(), p, t, null);
      PlugElems(p, t);
    }

    /** The fields of the node above, and the colour of its other child. */
    lemma Beside(p: Path<Entry<K>>, t: Tree<Entry<K>>)
      requires p.Step? && Shows(Plug(p, t))
      ensures p.elem in nodes && p.elem.Get(p.side) == Root(t) && p.elem.Get(p.side.Other()) == Root(p.sibling)
      ensures p.elem.parent == PathParent(p.up, null) && p.elem.color == p.color
      ensures p.sibling.Node? ==> p.sibling.elem.color == p.sibling.color && Root(t) != p.sibling.elem
    {
      PlugHolds(Snapshot(), p, t, null);
      PlugElems(p, t);
    }

    /** RB_ROTATE_LEFT and RB_ROTATE_RIGHT. */
    method RotateLinks(side: Side, elm: Entry<K>, ghost y: Entry<K>, ghost b: Entry?<K>, ghost par: Entry?<K>)
      returns (tmp: Entry<K>)
      requires {elm, y} <= nodes && (b != null ==> b in nodes) && (par != null ==> par in nodes)
      requires elm.Fields().Get(side.Other()) == y && y.Fields().Get(side) == b && elm.parent == par
      requires elm != y && elm != b && y != b && par != elm && par != y && (par != null ==> par != b)
      modifies this`root, nodes
      ensures tmp == y && Rotated(old(Snapshot()), Snapshot(), side, elm, y, b, par)
      ensures root == if par == null then y else old(root)
    {
      tmp := RotateFields(side, elm, y, b, par);
    }

    /** The writes, in the order of the macros. */
    method RotateFields(side: Side, elm: Entry<K>, ghost y: Entry<K>, ghost b: Entry?<K>, ghost par: Entry?<K>)
      returns (tmp: Entry<K>)
      requires elm.Fields().Get(side.Other()) == y && y.Fields().Get(side) == b && elm.parent == par
      requires elm != y && elm != b && y != b && par != elm && par != y && (par != null ==> par != b)
      modifies this`root, elm, y, if b != null then {b} else {}, if par != null then {par} else {}
      ensures tmp == y && root == if par == null then y else old(root)
      ensures elm.Fields() == old(elm.Fields()).Set(side.Other(), b).(parent := y)
      ensures y.Fields() == old(y.Fields()).Set(side, elm).(parent := par)
      ensures b != null ==> b.Fields() == old(b.Fields()).(parent := elm)
      ensures par != null ==> par.Fields() == Linked(old(par.Fields()), elm, y)
    {
      tmp := if side.Left? then elm.right else elm.left;
      MoveInner(side, elm, tmp, b);
      tmp.parent := elm.parent;
      HangBelow(elm, tmp, par);
      if side.Left? { tmp.left := elm; } else { tmp.right := elm; }
      elm.parent := tmp;
    }

    /** The inner subtree of `tmp` becomes that of `elm`. */
    method MoveInner(side: Side, elm: Entry<K>, tmp: Entry<K>, ghost b: Entry?<K>)
      requires tmp.Fields().Get(side) == b && elm != tmp && elm != b && tmp != b
      modifies elm, if b != null then {b} else {}
      ensures elm.Fields() == old(elm.Fields()).Set(side.Other(), b)
      ensures b != null ==> b.Fields() == old(b.Fields()).(parent := elm)
    {
      if side.Left? { elm.right := tmp.left; } else { elm.left := tmp.right; }
      if tmp.Fields().Get(side) != null {
        tmp.Fields().Get(side).parent := elm;
      }
    }

    /** The child link of `par`, or the root, goes from `elm` to `tmp`. */
    method HangBelow(elm: Entry<K>, tmp: Entry<K>, ghost par: Entry?<K>)
      requires elm.parent == par && par != elm
      modifies this`root, if par != null then {par} else {}
      ensures par != null ==> par.Fields() == Linked(old(par.Fields()), elm, tmp)
      ensures root == if par == null then tmp else old(root)
    {
      if elm.parent != null {
        if elm == elm.parent.left {
          elm.parent.left := tmp;
        } else {
          elm.parent.right := tmp;
        }
      } else {
        root := tmp;
      }
    }

    method Rotate(side: Side, elm: Entry<K>, ghost p: Path<Entry<K>>, ghost t: Tree<Entry<K>>) returns (tmp: Entry<K>)
      requires t.Node? && t.elem == elm && Kid(t, side.Other()).Node?
      requires Shows(Plug(p, t))
      modifies this`root, nodes
      ensures tmp == Kid(t, side.Other()).elem && Shows(Plug(p, RotateTree(side, t)))
    {
      ghost var u, m := Kid(t, side.Other()), Snapshot();
      PlugHolds(m, p, t, null);
      PlugElems(p, t);
      RotateKeeps(side, t);
      assert Holds(m, u, elm) && Distinct(u);
      tmp := RotateLinks(side, elm, u.elem, Root(Kid(u, side)), PathParent(p, null));
      RotateView(m, Snapshot(), p, side, t);
      PlugHolds(Snapshot(), p, RotateTree(side, t), null);
      PlugElems(p, RotateTree(side, t));
    }

    method Recolor(n: Entry<K>, color: Color, ghost p: Path<Entry<K>>, ghost t: Tree<Entry<K>>)
      requires t.Node? && t.elem == n
      requires Shows(Plug(p, t))
      modifies nodes
      ensures Shows(Plug(p, t.(color := color)))
    {
      ghost var m := Snapshot();
      PlugHolds(m, p, t, null);
      PlugElems(p, t);
      RecolorView(m, p, t, color);
      n.color := color;
      assert Snapshot() == m[n := m[n].(color := color)];
      PlugHolds(Snapshot(), p, t.(color := color), null);
      PlugElems(p, t.(color := color));
    }

    method PushRedUp(parent: Entry<K>, gparent: Entry<K>, tmp: Entry<K>,
                     ghost p: Path<Entry<K>>, ghost t: Tree<Entry<K>>)
      requires p.Step? && p.up.Step? && parent == p.elem && gparent == p.up.elem && tmp == Root(p.up.sibling)
      requires Shows(Plug(p, t))
      modifies nodes
      ensures Shows(Plug(p.up.up, PushUp(p, t)))
    {
      ghost var g := p.up;
      ghost var u, q := g.sibling.(color := Black), Step(g.up, g.side.Other(), g.elem, g.color, Over(p, t));
      assert Plug(p, t) == Plug(g, Over(p, t)) == Plug(g.up, Over(g, Over(p, t))) == Plug(q, g.sibling);
      Recolor(tmp, Black, q, g.sibling);
      assert Plug(q, u) == Plug(g.up, Over(q, u)) == Plug(g.(sibling := u), Over(p, t));
      Recolor(parent, Black, g.(sibling := u), Over(p, t));
      Recolor(gparent, Red, g.up, Over(g.(sibling := u), Over(p.(color := Black), t)));
    }

    method TurnRed(side: Side, parent: Entry<K>, gparent: Entry<K>, ghost p: Path<Entry<K>>, ghost t: Tree<Entry<K>>)
      requires p.Step? && p.up.Step? && side == p.side == p.up.side && parent == p.elem && gparent == p.up.elem
      requires Shows(Plug(p, t))
      modifies this`root, nodes
      ensures Shows(Plug(TurnPath(p), t))
    {
      ghost var g, q := p.up, p.(color := Black);
      assert Plug(p, t) == Plug(g, Over(p, t));
      Recolor(parent, Black, g, Over(p, t));
      assert Plug(g, Over(q, t)) == Plug(g.up, Over(g, Over(q, t)));
      Recolor(gparent, Red, g.up, Over(g, Over(q, t)));
      var tmp := Rotate(side.Other(), gparent, g.up, Over(g.(color := Red), Over(q, t)));
      assert Plug(TurnPath(p), t) == Plug(g.up, Over(TurnPath(p), t));
    }

    /** One pass of the loop of RB_INSERT_COLOR: `elm` and `parent` are red. */
    method InsertStep(elm0: Entry<K>, parent0: Entry<K>, ghost p: Path<Entry<K>>, ghost t: Tree<Entry<K>>)
      returns (elm: Entry<K>, ghost p': Path<Entry<K>>, ghost t': Tree<Entry<K>>)
      requires RedAt(p, t) && t.elem == elm0 && RedAbove(p) && p.elem == parent0
      requires Shows(Plug(p, t))
      modifies this`root, nodes
      ensures RedAt(p', t') && t'.elem == elm && Shows(Plug(p', t'))
      ensures PathLength(p') < PathLength(p) && InOrder(Plug(p', t')) == InOrder(Plug(p, t))
    {
      ghost var g := p.up;
      var parent;
      elm, parent, p', t' := elm0, parent0, p, t;
      assert Plug(p, t) == Plug(g, Over(p, t)) == Plug(g.up, Over(g, Over(p, t)));
      Beside(p, t);
      Beside(g, Over(p, t));
      var gparent := parent.parent;
      var side := if parent == gparent.left then Left else Right;
      var tmp := gparent.Get(side.Other());
      if tmp != null && tmp.color == Red {
        PushRedUp(parent, gparent, tmp, p, t);
        PushUpBalanced(p, t);
        elm, p', t' := gparent, g.up, PushUp(p, t);
      } else {
        if parent.Get(side.Other()) == elm {
          t' := Join(side, p.sibling, parent, Red, Kid(t, side));
          p' := Step(g, side, elm, Red, Kid(t, side.Other()));
          AlignBalanced(p, t, p', t');
          tmp := Rotate(side, parent, g, Over(p, t));
          elm, parent := parent, elm;
        }
        TurnBalanced(p', t');
        TurnRed(side, parent, gparent, p', t');
        p' := TurnPath(p');
      }
    }

    /** RB_INSERT_COLOR: the red node `elm` may be the child of a red node. */
    method InsertColor(elm0: Entry<K>, ghost p0: Path<Entry<K>>, ghost t0: Tree<Entry<K>>) returns (ghost s: Tree<Entry<K>>)
      requires RedAt(p0, t0) && t0.elem == elm0 && Shows(Plug(p0, t0))
      modifies this`root, nodes
      ensures Shows(s) && RedBlack(s) && InOrder(s) == InOrder(Plug(p0, t0))
    {
      var elm := elm0;
      ghost var p, t := p0, t0;
      At(p, t);
      if p.Step? { Beside(p, t); }
      while elm.parent != null && elm.parent.color == Red
        invariant RedAt(p, t) && t.elem == elm && Shows(Plug(p, t))
        invariant elm.parent == PathParent(p, null) && (p.Step? ==> p.elem.color == p.color)
        invariant InOrder(Plug(p, t)) == InOrder(Plug(p0, t0))
        decreases PathLength(p)
      {
        elm, p, t := InsertStep(elm, elm.parent, p, t);
        At(p, t);
        if p.Step? { Beside(p, t); }
      }
      PlugHolds(Snapshot(), p, t, null);
      PlugBalanced(p, t);
      s := Plug(p, t);
      Recolor(root, Black, Top, s);
      s := s.(color := Black);
    }
  
    lemma RootIsTop(p: Path<Entry<K>>, t: Tree<Entry<K>>)
      requires Shows(Plug(p, t))
      ensures root == Root(t) <==> p.Top?
    {
      PlugHolds(Snapshot(), p, t, null);
      PlugElems(p, t);
      PathRootAbove(p, Root(t));
    }

    method RecolorParent(n: Entry<K>, color: Color, ghost p: Path<Entry<K>>, ghost t: Tree<Entry<K>>)
      requires p.Step? && p.elem == n && Shows(Plug(p, t))
      modifies nodes
      ensures Shows(Plug(p.(color := color), t))
    {
      AcrossPlugs(p, t);
      Recolor(n, color, p.up, Over(p, t));
      AcrossPlugs(p.(color := color), t);
    }

    method RecolorSibling(n: Entry<K>, color: Color, ghost p: Path<Entry<K>>, ghost t: Tree<Entry<K>>)
      requires p.Step? && p.sibling.Node? && p.sibling.elem == n && Shows(Plug(p, t))
      modifies nodes
      ensures Shows(Plug(p.(sibling := Paint(p.sibling, color)), t))
    {
      AcrossPlugs(p, t);
      Recolor(n, color, Across(p, t), p.sibling);
      AcrossPlugs(p.(sibling := Paint(p.sibling, color)), t);
    }

    method LiftRedSibling(side: Side, parent: Entry<K>, tmp: Entry<K>, ghost p: Path<Entry<K>>, ghost t: Tree<Entry<K>>)
      requires p.Step? && p.side == side && p.elem == parent && p.sibling.Node? && p.sibling.elem == tmp
      requires ShortAt(p, t) && !IsRed(t) && IsRed(p.sibling) && Shows(Plug(p, t))
      modifies this`root, nodes
      ensures Shows(Plug(LiftSibling(p), t))
    {
      LiftSiblingShort(p, t);
      RecolorSibling(tmp, Black, p, t);
      ghost var q := p.(sibling := Paint(p.sibling, Black));
      RecolorParent(parent, Red, q, t);
      AcrossPlugs(q.(color := Red), t);
      var _ := Rotate(side, parent, p.up, Over(q.(color := Red), t));
    }

    method TurnRedNephew(side: Side, parent: Entry<K>, tmp: Entry<K>, ghost p: Path<Entry<K>>, ghost t: Tree<Entry<K>>)
      requires p.Step? && p.side == side && p.elem == parent && p.sibling.Node? && p.sibling.elem == tmp
      requires Kid(p.sibling, side).Node? && Shows(Plug(p, t))
      modifies this`root, nodes
      ensures Shows(Plug(p.(sibling := RotateTree(side.Other(), SwapNephew(p))), t))
    {
      ghost var q, w := Across(p, t), p.sibling;
      ghost var n := Kid(w, side);
      ghost var qn := Step(q, side, w.elem, w.color, Kid(w, side.Other()));
      AcrossPlugs(p, t);
      assert Plug(qn, n) == Plug(q, Over(qn, n)) && Over(qn, n) == w;
      At(q, w);
      var near := tmp.Get(side);
      Recolor(near, Black, qn, n);
      RecolorParent(tmp, Red, qn, Paint(n, Black));
      assert Over(qn.(color := Red), Paint(n, Black)) == SwapNephew(p);
      var _ := Rotate(side.Other(), tmp, q, SwapNephew(p));
      AcrossPlugs(p.(sibling := RotateTree(side.Other(), SwapNephew(p))), t);
    }

    method TurnBlackSibling(side: Side, parent: Entry<K>, tmp: Entry<K>, ghost p: Path<Entry<K>>, ghost t: Tree<Entry<K>>)
      requires p.Step? && p.side == side && p.elem == parent && p.sibling.Node? && p.sibling.elem == tmp
      requires Shows(Plug(p, t))
      modifies this`root, nodes
      ensures Shows(Plug(p.up, RotateTree(side, Over(SwapSibling(p), t))))
    {
      Beside(p, t);
      ghost var w := Paint(p.sibling, p.color);
      RecolorSibling(tmp, parent.color, p, t);
      RecolorParent(parent, Black, p.(sibling := w), t);
      ghost var p1 := p.(sibling := w, color := Black);
      ghost var q, f := Across(p1, t), Kid(w, side.Other());
      ghost var qf := Step(q, side.Other(), w.elem, w.color, Kid(w, side));
      AcrossPlugs(p1, t);
      assert Plug(qf, f) == Plug(q, Over(qf, f)) && Over(qf, f) == w;
      At(q, w);
      if tmp.Get(side.Other()) != null {
        Recolor(tmp.Get(side.Other()), Black, qf, f);
      }
      assert Over(qf, Paint(f, Black)) == SwapSibling(p).sibling;
      AcrossPlugs(SwapSibling(p), t);
      var _ := Rotate(side, parent, p.up, Over(SwapSibling(p), t));
    }

    /** What RB_REMOVE_COLOR does next to a black sibling `tmp`. */
    method BlackSibling(side: Side, parent0: Entry<K>, tmp0: Entry<K>, ghost p0: Path<Entry<K>>, ghost t: Tree<Entry<K>>)
      returns (parent: Entry?<K>, elm: Entry<K>, done: bool, ghost p': Path<Entry<K>>, ghost t': Tree<Entry<K>>)
      requires p0.Step? && p0.side == side && p0.elem == parent0 && p0.sibling.Node? && p0.sibling.elem == tmp0
      requires ShortAt(p0, t) && !IsRed(t) && !IsRed(p0.sibling) && Shows(Plug(p0, t))
      modifies this`root, nodes
      ensures t'.Node? && elm == t'.elem && parent == PathParent(p', null) && Shows(Plug(p', t'))
      ensures InOrder(Plug(p', t')) == InOrder(Plug(p0, t))
      ensures if done then p'.Top? && RedBlack(t') else ShortAt(p', t') && p' == p0.up && (IsRed(t') <==> p0.color == Red)
    {
      ghost var p := p0;
      var tmp := tmp0;
      Nephews(p, t);
      if (tmp.left == null || tmp.left.color == Black) && (tmp.right == null || tmp.right.color == Black) {
        RecolorSibling(tmp, Red, p, t);
        PaintSiblingShort(p, t);
        ghost var q := p.(sibling := Paint(p.sibling, Red));
        AcrossPlugs(q, t);
        p', t' := p.up, Over(q, t);
        At(p', t');
        elm := parent0;
        parent := elm.parent;
        done := false;
      } else {
        if tmp.Get(side.Other()) == null || tmp.Get(side.Other()).color == Black {
          ghost var w := RotateTree(side.Other(), SwapNephew(p));
          TurnRedNephew(side, parent0, tmp, p, t);
          TurnNephewShort(p, t, w);
          p := p.(sibling := w);
          Beside(p, t);
          tmp := parent0.Get(side.Other());
        }
        ghost var r := RotateTree(side, Over(SwapSibling(p), t));
        TurnBlackSibling(side, parent0, tmp, p, t);
        TurnSiblingBalanced(p, t, r);
        PlugHolds(Snapshot(), p.up, r, null);
        PathRootAbove(p.up, r.elem);
        p', t' := Top, Plug(p.up, r);
        elm := root;
        parent := null;
        done := true;
      }
    }

    /** One pass of the loop of RB_REMOVE_COLOR. */
    method RemoveStep(parent0: Entry<K>, elm0: Entry?<K>, ghost p0: Path<Entry<K>>, ghost t: Tree<Entry<K>>)
      returns (parent: Entry?<K>, elm: Entry<K>, done: bool, ghost p': Path<Entry<K>>, ghost t': Tree<Entry<K>>)
      requires p0.Step? && ShortAt(p0, t) && !IsRed(t) && elm0 == Root(t) && parent0 == p0.elem && Shows(Plug(p0, t))
      modifies this`root, nodes
      ensures t'.Node? && elm == t'.elem && parent == PathParent(p', null) && Shows(Plug(p', t'))
      ensures InOrder(Plug(p', t')) == InOrder(Plug(p0, t))
      ensures if done then p'.Top? && RedBlack(t') else ShortAt(p', t') && (IsRed(t') || PathLength(p') < PathLength(p0))
    {
      ghost var p := p0;
      ShortSibling(p, t);
      Beside(p, t);
      var side := if parent0.left == elm0 then Left else Right;
      var tmp := parent0.Get(side.Other());
      if tmp.color == Red {
        LiftRedSibling(side, parent0, tmp, p, t);
        LiftSiblingShort(p, t);
        p := LiftSibling(p);
        ShortSibling(p, t);
        Beside(p, t);
        tmp := parent0.Get(side.Other());
      }
      parent, elm, done, p', t' := BlackSibling(side, parent0, tmp, p, t);
    }

    /** RB_REMOVE_COLOR: the subtree `elm` under `parent` is one black node short. */
    method RemoveColor(parent0: Entry?<K>, elm0: Entry?<K>, ghost p0: Path<Entry<K>>, ghost t0: Tree<Entry<K>>)
      returns (ghost s: Tree<Entry<K>>)
      requires ShortAt(p0, t0) && elm0 == Root(t0) && parent0 == PathParent(p0, null) && Shows(Plug(p0, t0))
      modifies this`root, nodes
      ensures Shows(s) && RedBlack(s) && InOrder(s) == InOrder(Plug(p0, t0))
    {
      var parent, elm, done := parent0, elm0, false;
      ghost var p, t := p0, t0;
      Seen(p, t);
      while !done && (elm == null || elm.color == Black) && elm != root
        invariant elm == Root(t) && parent == PathParent(p, null) && Shows(Plug(p, t))
        invariant if done then p.Top? && RedBlack(t) else ShortAt(p, t)
        invariant InOrder(Plug(p, t)) == InOrder(Plug(p0, t0))
        invariant (elm != null ==> elm.color == t.color) && (root == elm <==> p.Top?)
        decreases !done, if IsRed(t) then 0 else PathLength(p)
      {
        parent, elm, done, p, t := RemoveStep(parent, elm, p, t);
        Seen(p, t);
      }
      s := Plug(p, Paint(t, Black));
      if !done { ShortDone(p, t); }
      if elm != null {
        Recolor(elm, Black, p, t);
      }
    }

    /** The fields of the subtree's root as the loop reads them. */
    lemma Seen(p: Path<Entry<K>>, t: Tree<Entry<K>>)
      requires Shows(Plug(p, t))
      ensures t.Node? ==> t.elem in nodes && t.elem.color == t.color && t.elem.parent == PathParent(p, null)
      ensures root == Root(t) <==> p.Top?
    {
      if t.Node? { At(p, t); }
      RootIsTop(p, t);
    }

    /** The colours of the sibling's children. */
    lemma Nephews(p: Path<Entry<K>>, t: Tree<Entry<K>>)
      requires p.Step? && p.sibling.Node? && Shows(Plug(p, t))
      ensures var w := p.sibling;
        && w.elem.left == Root(w.left) && w.elem.right == Root(w.right)
        && (w.left.Node? ==> w.left.elem.color == w.left.color)
        && (w.right.Node? ==> w.right.elem.color == w.right.color)
    {
      PlugHolds(Snapshot(), p, t, null);
      PlugElems(p, t);
      var m, w := Snapshot(), p.sibling;
      assert Holds(m, w.left, w.elem) && Holds(m, w.right, w.elem);
    }

    /** RB_REMOVE: takes `elm`, with at most one child, out of the tree. */
    method Splice(elm: Entry<K>, child: Entry?<K>, ghost p: Path<Entry<K>>, ghost t: Tree<Entry<K>>, ghost s: Tree<Entry<K>>)
      returns (parent: Entry?<K>)
      requires t.Node? && t.elem == elm && ((t.left.Leaf? && s == t.right) || (t.right.Leaf? && s == t.left))
      requires child == Root(s) && Shows(Plug(p, t))
      modifies this, nodes
      ensures parent == PathParent(p, null) && Shows(Plug(p, s))
      ensures elm.Fields() == old(elm.Fields()) && nodes == old(nodes) - {elm}
    {
      ghost var m := Snapshot();
      PlugHolds(m, p, t, null);
      PlugElems(p, t);
      assert s.Node? ==> s.elem in Elems(s) && Elems(s) <= Elems(t);
      parent := elm.parent;
      SpliceLinks(elm, child, parent);
      SpliceView(m, Snapshot(), p, t, s);
      PlugHolds(Snapshot(), p, s, null);
      PlugElems(p, s);
    }

    method SpliceLinks(elm: Entry<K>, child: Entry?<K>, parent: Entry?<K>)
      requires elm in nodes && (child != null ==> child in nodes) && (parent != null ==> parent in nodes)
      requires elm != child && elm != parent && (child != null ==> child != parent)
      modifies this, nodes
      ensures Spliced(old(Snapshot()), Snapshot(), elm, child, parent)
      ensures root == if parent == null then child else old(root)
      ensures elm.Fields() == old(elm.Fields()) && nodes == old(nodes) - {elm}
    {
      if child != null {
        child.parent := parent;
      }
      if parent != null {
        if parent.left == elm {
          parent.left := child;
        } else {
          parent.right := child;
        }
      } else {
        root := child;
      }
      nodes := nodes - {elm};
    }

    /** RB_REMOVE: `elm`, which is off the tree, takes the place of `was`. */
    method Replace(was: Entry<K>, elm: Entry<K>, ghost p: Path<Entry<K>>, ghost t: Tree<Entry<K>>)
      requires t.Node? && t.elem == was && t.left.Node? && elm !in nodes && Shows(Plug(p, t))
      modifies this, nodes, elm
      ensures Shows(Plug(p, t.(elem := elm))) && nodes == old(nodes) - {was} + {elm}
    {
      ghost var m := Snapshot();
      PlugHolds(m, p, t, null);
      PlugElems(p, t);
      assert t.left.elem in Elems(t.left) && Elems(t.left) <= Elems(t);
      assert t.right.Node? ==> t.right.elem in Elems(t.right) && Elems(t.right) <= Elems(t);
      ReplaceLinks(was, elm, t.left.elem, Root(t.right), PathParent(p, null));
      ReplacePlug(m, Snapshot(), p, t, elm);
    }

    method ReplaceLinks(was: Entry<K>, elm: Entry<K>, ghost l: Entry<K>, ghost r: Entry?<K>, ghost par: Entry?<K>)
      requires was in nodes && elm !in nodes && l in nodes && (r != null ==> r in nodes) && (par != null ==> par in nodes)
      requires was.left == l && was.right == r && was.parent == par
      requires was != l && was != r && was != par && l != r && l != par && (r != null ==> r != par)
      modifies this, nodes, elm
      ensures Replaced(old(Snapshot()), Snapshot(), was, elm, l, r, par)
      ensures root == if par == null then elm else old(root)
      ensures nodes == old(nodes) - {was} + {elm}
    {
      CopyLinks(was, elm, par);
      was.left.parent := elm;
      if was.right != null {
        was.right.parent := elm;
      }
      nodes := nodes - {was} + {elm};
    }

    /** The new node takes over the fields of the old one, and its place below `par`. */
    method CopyLinks(was: Entry<K>, elm: Entry<K>, ghost par: Entry?<K>)
      requires was in nodes && elm !in nodes && was.parent == par && was != par && (par != null ==> par in nodes)
      modifies this`root, elm, if par != null then {par} else {}
      ensures elm.Fields() == old(was.Fields()) && (par != null ==> par.Fields() == Linked(old(par.Fields()), was, elm))
      ensures root == if par == null then elm else old(root)
    {
      elm.left, elm.right, elm.parent, elm.color := was.left, was.right, was.parent, was.color;
      if was.parent != null {
        if was.parent.left == was {
          was.parent.left := elm;
        } else {
          was.parent.right := elm;
        }
      } else {
        root := elm;
      }
    }

    /** RB_REMOVE of a node with at most one child. */
    method RemoveOuter(elm: Entry<K>, child: Entry?<K>, ghost p: Path<Entry<K>>, ghost t: Tree<Entry<K>>, ghost s: Tree<Entry<K>>)
      returns (ghost s': Tree<Entry<K>>)
      requires t.Node? && t.elem == elm && ((t.left.Leaf? && s == t.right) || (t.right.Leaf? && s == t.left))
      requires child == Root(s) && Shows(Plug(p, t)) && RedBlack(Plug(p, t))
      modifies this, nodes
      ensures nodes == old(nodes) - {elm}
      ensures Shows(s') && RedBlack(s') && Less(InOrder(Plug(p, t)), elm, InOrder(s'))
    {
      At(p, t);
      var color := elm.color;
      UnplugBalanced(p, t);
      SpliceShort(p, t, s);
      SpliceInOrder(p, t, s);
      var parent := Splice(elm, child, p, t, s);
      s' := Plug(p, s);
      if color == Black {
        s' := RemoveColor(parent, child, p, s);
      }
    }

    /** RB_REMOVE: the leftmost node of the right subtree. */
    method Successor(was: Entry<K>, ghost p: Path<Entry<K>>, ghost t: Tree<Entry<K>>)
      returns (elm: Entry<K>, ghost q: Path<Entry<K>>, ghost u: Tree<Entry<K>>)
      requires t.Node? && t.elem == was && t.right.Node? && Shows(Plug(p, t))
      ensures Plug(q, u) == t.right && Before(q) == [] && u.Node? && u.left.Leaf? && elm == u.elem
    {
      At(p, t);
      elm, q, u := was.right, Top, t.right;
      InnerAt(p, t, q, u);
      while elm.left != null
        invariant Plug(q, u) == t.right && Before(q) == [] && u.Node? && elm == u.elem
        invariant elm.left == Root(u.left)
        decreases u
      {
        elm := elm.left;
        q, u := Step(q, Left, u.elem, u.color, u.right), u.left;
        InnerAt(p, t, q, u);
      }
    }

    /** RB_REMOVE: the successor `elm` is taken out and takes the place of `was`. */
    method TakeOver(was: Entry<K>, elm: Entry<K>, ghost p: Path<Entry<K>>, ghost t: Tree<Entry<K>>,
                    ghost q: Path<Entry<K>>, ghost u: Tree<Entry<K>>) returns (parent: Entry<K>)
      requires t.Node? && t.elem == was && t.left.Node? && Shows(Plug(p, t))
      requires t.right == Plug(q, u) && u.Node? && u.left.Leaf? && elm == u.elem
      modifies this, nodes
      ensures nodes == old(nodes) - {was} && parent == if q.Top? then elm else q.elem
      ensures Shows(Plug(p, Node(t.left, elm, t.color, Plug(q, u.right))))
    {
      ghost var above := Step(p, Right, was, t.color, t.left);
      InnerAt(p, t, q, u);
      InnerPlugs(p, t, q, u);
      var par := Splice(elm, elm.right, Append(q, above), u, u.right);
      ghost var t' := t.(right := Plug(q, u.right));
      InnerPlugs(p, t', q, u.right);
      parent := par;
      if elm.parent == was {
        parent := elm;
      }
      Replace(was, elm, p, t');
    }

    /** RB_REMOVE of a node with two children. */
    method RemoveInner(was: Entry<K>, ghost p: Path<Entry<K>>, ghost t: Tree<Entry<K>>) returns (ghost s: Tree<Entry<K>>)
      requires t.Node? && t.elem == was && t.left.Node? && t.right.Node? && Shows(Plug(p, t)) && RedBlack(Plug(p, t))
      modifies this, nodes
      ensures nodes == old(nodes) - {was}
      ensures Shows(s) && RedBlack(s) && Less(InOrder(Plug(p, t)), was, InOrder(s))
    {
      var elm, q, u := Successor(was, p, t);
      InnerAt(p, t, q, u);
      var child, color := elm.right, elm.color;
      SuccessorShort(p, t, q, u);
      SuccessorInOrder(p, t, q, u);
      var parent := TakeOver(was, elm, p, t, q, u);
      ghost var q' := Append(q, Step(p, Right, elm, t.color, t.left));
      s := Plug(q', u.right);
      if color == Black {
        s := RemoveColor(parent, child, q', u.right);
      }
    }

    /** A node below the right child, seen from the root. */
    lemma InnerAt(p: Path<Entry<K>>, t: Tree<Entry<K>>, q: Path<Entry<K>>, u: Tree<Entry<K>>)
      requires t.Node? && t.right == Plug(q, u) && u.Node? && Shows(Plug(p, t))
      ensures u.elem in nodes && u.elem != t.elem && (q.Step? ==> q.elem != t.elem)
      ensures u.elem.Fields() == Links(Root(u.left), Root(u.right), if q.Top? then t.elem else q.elem, u.color)
    {
      assert u.elem != t.elem && (q.Step? ==> q.elem != t.elem) by {
        PlugElems(p, t);
        InnerDistinct(t, q, u);
      }
      InnerPlugs(p, t, q, u);
      At(Append(q, Step(p, Right, t.elem, t.color, t.left)), u);
    }

    /** RB_REMOVE. */
    method Remove(elm: Entry<K>) returns (r: Entry<K>)
      requires Valid() && elm in nodes
      modifies this, nodes
      ensures Valid() && r == elm && nodes == old(nodes) - {elm}
      ensures Less(old(Contents()), elm, Contents())
    {
      ghost var was := shape;
      ghost var p, t := Locate(was, elm);
      ghost var s := RemoveAt(elm, p, t);
      SortedLess(cmp, InOrder(was), elm, InOrder(s));
      shape := s;
      r := elm;
    }

    /** The three cases of RB_REMOVE. */
    method RemoveAt(elm: Entry<K>, ghost p: Path<Entry<K>>, ghost t: Tree<Entry<K>>) returns (ghost s: Tree<Entry<K>>)
      requires t.Node? && t.elem == elm && Shows(Plug(p, t)) && RedBlack(Plug(p, t))
      modifies this, nodes
      ensures nodes == old(nodes) - {elm}
      ensures Shows(s) && RedBlack(s) && Less(InOrder(Plug(p, t)), elm, InOrder(s))
    {
      At(p, t);
      if elm.left == null {
        s := RemoveOuter(elm, elm.right, p, t, t.right);
      } else if elm.right == null {
        s := RemoveOuter(elm, elm.left, p, t, t.left);
      } else {
        s := RemoveInner(elm, p, t);
      }
    }

    method AttachLinks(elm: Entry<K>, parent: Entry?<K>, side: Side)
      requires elm !in nodes && (parent != null ==> parent in nodes)
      modifies this, nodes, elm
      ensures Attached(old(Snapshot()), Snapshot(), side, elm, parent)
      ensures root == (if parent == null then elm else old(root)) && nodes == old(nodes) + {elm}
    {
      elm.parent := parent;
      elm.left := null;
      elm.right := null;
      elm.color := Red;
      if parent != null {
        if side.Left? {
          parent.left := elm;
        } else {
          parent.right := elm;
        }
      } else {
        root := elm;
      }
      nodes := nodes + {elm};
    }

    method Attach(elm: Entry<K>, parent: Entry?<K>, side: Side, ghost p: Path<Entry<K>>)
      requires elm !in nodes && parent == PathParent(p, null) && (p.Step? ==> p.side == side) && Shows(Plug(p, Leaf))
      modifies this, nodes, elm
      ensures Shows(Plug(p, Node(Leaf, elm, Red, Leaf))) && nodes == old(nodes) + {elm}
    {
      ghost var m := Snapshot();
      PlugHolds(m, p, Leaf, null);
      PlugElems(p, Leaf);
      AttachLinks(elm, parent, side);
      AttachView(m, Snapshot(), p, side, elm);
      PlugHolds(Snapshot(), p, Node(Leaf, elm, Red, Leaf), null);
      PlugElems(p, Node(Leaf, elm, Red, Leaf));
    }

    /** Where a search for `key` has come: it is above all before, below all after. */
    ghost predicate Searching(p: Path<Entry<K>>, t: Tree<Entry<K>>, key: K)
      reads this
    {
      Plug(p, t) == shape && Below(cmp, Before(p), key) && Above(cmp, After(p), key)
    }

    /** Going down one step, by the sign of the comparison. */
    lemma SearchStep(p: Path<Entry<K>>, t: Tree<Entry<K>>, key: K)
      requires Valid() && t.Node? && Searching(p, t, key)
      ensures t.elem in Contents() && t.elem in nodes
      ensures t.elem.Fields() == Links(Root(t.left), Root(t.right), PathParent(p, null), t.color)
      ensures cmp(key, t.elem.key) < 0 ==> Searching(Step(p, Left, t.elem, t.color, t.right), t.left, key)
      ensures cmp(key, t.elem.key) > 0 ==> Searching(Step(p, Right, t.elem, t.color, t.left), t.right, key)
    {
      At(p, t);
      SearchNode(cmp, p, t, key);
      ElemsInOrder(shape);
    }

    /** The end of a search: the key is not there. */
    lemma SearchEnd(p: Path<Entry<K>>, key: K)
      requires Searching(p, Leaf, key)
      ensures Contents() == Before(p) + After(p)
      ensures forall e | e in Contents() :: cmp(key, e.key) != 0
    {
      PlugInOrder(p, Leaf);
      assert Contents() == Before(p) + After(p);
    }

    /** RB_FIND. */
    method Find(key: K) returns (r: Entry?<K>)
      requires Valid()
      ensures r != null ==> r in Contents() && cmp(key, r.key) == 0
      ensures r == null ==> forall e | e in Contents() :: cmp(key, e.key) != 0
    {
      var tmp := root;
      ghost var p, t := Top, shape;
      while tmp != null
        invariant Searching(p, t, key) && tmp == Root(t)
        decreases t
      {
        SearchStep(p, t, key);
        var comp := cmp(key, tmp.key);
        if comp < 0 {
          tmp := tmp.left;
          p, t := Step(p, Left, t.elem, t.color, t.right), t.left;
        } else if comp > 0 {
          tmp := tmp.right;
          p, t := Step(p, Right, t.elem, t.color, t.left), t.right;
        } else {
          return tmp;
        }
      }
      SearchEnd(p, key);
      return null;
    }

    /** RB_NFIND: the least element not below the key. */
    method NextFind(key: K) returns (r: Entry?<K>)
      requires Valid()
      ensures r != null ==> r in Contents() && cmp(key, r.key) <= 0
      ensures forall e | e in Contents() && cmp(key, e.key) <= 0 :: r != null && cmp(r.key, e.key) <= 0
    {
      var tmp, res: Entry?<K> := root, null;
      ghost var p, t := Top, shape;
      while tmp != null
        invariant Searching(p, t, key) && tmp == Root(t)
        invariant if After(p) == [] then res == null else res == After(p)[0]
        decreases t
      {
        SearchStep(p, t, key);
        var comp := cmp(key, tmp.key);
        if comp < 0 {
          res := tmp;
          tmp := tmp.left;
          p, t := Step(p, Left, t.elem, t.color, t.right), t.left;
        } else if comp > 0 {
          tmp := tmp.right;
          p, t := Step(p, Right, t.elem, t.color, t.left), t.right;
        } else {
          EqualLeast(tmp, key);
          return tmp;
        }
      }
      SearchEnd(p, key);
      FirstLeast(Before(p), After(p), key);
      return res;
    }

    lemma EqualLeast(n: Entry<K>, key: K)
      requires Lawful(cmp) && cmp(key, n.key) == 0
      ensures forall e: Entry<K> | e in Contents() && cmp(key, e.key) <= 0 :: cmp(n.key, e.key) <= 0
    {}

    lemma FirstLeast(before: seq<Entry<K>>, after: seq<Entry<K>>, key: K)
      requires Lawful(cmp) && Sorted(cmp, before + after) && Below(cmp, before, key)
      ensures forall e | e in before + after && cmp(key, e.key) <= 0 :: after != [] && cmp(after[0].key, e.key) <= 0
    {
      var s := before + after;
      forall e | e in s && cmp(key, e.key) <= 0 ensures after != [] && cmp(after[0].key, e.key) <= 0 {
        assert e !in before;
        var j :| 0 <= j < |after| && after[j] == e;
        assert s[|before| + j] == e && s[|before|] == after[0];
        assert cmp(e.key, e.key) == 0;
      }
    }

    /** RB_INSERT: the search for the place of `key`. */
    method Descend(key: K) returns (found: Entry?<K>, parent: Entry?<K>, side: Side, ghost p: Path<Entry<K>>)
      requires Valid()
      ensures found != null ==> found in Contents() && cmp(key, found.key) == 0
      ensures found == null ==> Searching(p, Leaf, key) && parent == PathParent(p, null) && (p.Step? ==> p.side == side)
    {
      var tmp := root;
      parent, side, p := null, Left, Top;
      ghost var t := shape;
      while tmp != null
        invariant Searching(p, t, key) && tmp == Root(t) && parent == PathParent(p, null) && (p.Step? ==> p.side == side)
        decreases t
      {
        SearchStep(p, t, key);
        parent := tmp;
        var comp := cmp(key, parent.key);
        if comp < 0 {
          tmp := tmp.left;
          p, t, side := Step(p, Left, t.elem, t.color, t.right), t.left, Left;
        } else if comp > 0 {
          tmp := tmp.right;
          p, t, side := Step(p, Right, t.elem, t.color, t.left), t.right, Right;
        } else {
          return tmp, parent, side, p;
        }
      }
      return null, parent, side, p;
    }

    /** RB_INSERT. */
    method Insert(elm: Entry<K>) returns (r: Entry?<K>)
      requires Valid()
      modifies this, nodes, elm
      ensures Valid()
      ensures r != null ==> r in old(Contents()) && cmp(elm.key, r.key) == 0
      ensures r != null ==> Contents() == old(Contents()) && nodes == old(nodes) && Snapshot() == old(Snapshot())
      ensures r == null ==> (forall e | e in old(Contents()) :: cmp(elm.key, e.key) != 0)
      ensures r == null ==> nodes == old(nodes) + {elm} && Less(Contents(), elm, old(Contents()))
    {
      var found, parent, side, p := Descend(elm.key);
      if found != null {
        return found;
      }
      Room(p, elm);
      InsertNew(elm, parent, side, p);
      return null;
    }

    /** Where the search has ended there is room for the new element. */
    lemma Room(p: Path<Entry<K>>, elm: Entry<K>)
      requires Valid() && Searching(p, Leaf, elm.key)
      ensures Shows(Plug(p, Leaf)) && Fits(p, 0) && elm !in nodes && forall e | e in Contents() :: cmp(elm.key, e.key) != 0
      ensures var now := Before(p) + [elm] + After(p); Sorted(cmp, now) && Less(now, elm, Contents())
    {
      NotThere(p, elm);
      SortedMore(cmp, Before(p), elm, After(p));
    }

    method InsertNew(elm: Entry<K>, parent: Entry?<K>, side: Side, ghost p: Path<Entry<K>>)
      requires elm !in nodes && parent == PathParent(p, null) && (p.Step? ==> p.side == side)
      requires Shows(Plug(p, Leaf)) && Fits(p, 0) && Lawful(cmp) && Sorted(cmp, Before(p) + [elm] + After(p))
      modifies this, nodes, elm
      ensures Valid() && Contents() == Before(p) + [elm] + After(p) && nodes == old(nodes) + {elm}
    {
      ghost var s := InsertAt(elm, parent, side, p);
      shape := s;
    }

    method InsertAt(elm: Entry<K>, parent: Entry?<K>, side: Side, ghost p: Path<Entry<K>>) returns (ghost s: Tree<Entry<K>>)
      requires elm !in nodes && parent == PathParent(p, null) && (p.Step? ==> p.side == side)
      requires Shows(Plug(p, Leaf)) && Fits(p, 0)
      modifies this, nodes, elm
      ensures Shows(s) && RedBlack(s) && InOrder(s) == Before(p) + [elm] + After(p) && nodes == old(nodes) + {elm}
    {
      PlugInOrder(p, Node(Leaf, elm, Red, Leaf));
      Attach(elm, parent, side, p);
      s := InsertColor(elm, p, Node(Leaf, elm, Red, Leaf));
    }

    lemma NotThere(p: Path<Entry<K>>, elm: Entry<K>)
      requires Valid() && Searching(p, Leaf, elm.key)
      ensures Contents() == Before(p) + After(p) && Fits(p, 0) && elm !in nodes
      ensures forall e | e in Contents() :: cmp(elm.key, e.key) != 0
    {
      SearchEnd(p, elm.key);
      ElemsInOrder(shape);
      assert cmp(elm.key, elm.key) == 0;
      UnplugBalanced(p, Leaf);
    }

    /** RB_MIN. */
    method Min() returns (r: Entry?<K>)
      requires Valid()
      ensures r == First(Contents())
    {
      var tmp, parent: Entry?<K> := root, null;
      ghost var p, t := Top, shape;
      while tmp != null
        invariant Plug(p, t) == shape && tmp == Root(t) && parent == PathParent(p, null) && Before(p) == []
        invariant p.Step? ==> p.side == Left
        decreases t
      {
        At(p, t);
        parent := tmp;
        tmp := tmp.left;
        p, t := Step(p, Left, t.elem, t.color, t.right), t.left;
      }
      PlugInOrder(p, Leaf);
      r := parent;
    }

    /** RB_NEXT of the element at `i`: the leftmost node on the right, or else the
        first node up the tree that is not reached from its right. */
    method Next(elm: Entry<K>, ghost i: nat) returns (r: Entry?<K>)
      requires Valid() && i < |Contents()| && Contents()[i] == elm
      ensures r == First(Contents()[i + 1..])
    {
      ghost var p, t := LocateAt(shape, i);
      At(p, t);
      if elm.right != null {
        var e, q, u := Successor(elm, p, t);
        LeftmostFirst(q, u);
        r := e;
      } else {
        r := Climb(elm, p, t);
      }
    }

    method Climb(elm0: Entry<K>, ghost p0: Path<Entry<K>>, ghost t0: Tree<Entry<K>>) returns (r: Entry?<K>)
      requires Shows(Plug(p0, t0)) && t0.Node? && t0.elem == elm0
      ensures r == First(After(p0))
    {
      var elm := elm0;
      ghost var p, t := p0, t0;
      At(p, t);
      if p.Step? { Beside(p, t); }
      if elm.parent != null && elm == elm.parent.left {
        r := elm.parent;
      } else {
        while elm.parent != null && elm == elm.parent.right
          invariant Plug(p, t) == Plug(p0, t0) && t.Node? && t.elem == elm && After(p) == After(p0)
          invariant elm.parent == PathParent(p, null)
          invariant p.Step? ==> p.elem.Get(p.side) == elm != p.elem.Get(p.side.Other())
          decreases p
        {
          elm := elm.parent;
          p, t := p.up, Over(p, t);
          At(p, t);
          if p.Step? { Beside(p, t); }
        }
        r := elm.parent;
      }
    }

    /** RB_FOREACH. */
    method Foreach() returns (visited: seq<Entry<K>>)
      requires Valid()
      ensures visited == Contents()
    {
      visited := [];
      ghost var c := Contents();
      var x := Min();
      while x != null
        invariant |visited| <= |c| && visited == c[..|visited|] && x == First(c[|visited|..])
        decreases |c| - |visited|
      {
        ghost var k := |visited|;
        visited := visited + [x];
        x := Next(x, k);
      }
    }
  }

  function First<K>(s: seq<Entry<K>>): Entry?<K> {
    if s == [] then null else s[0]
  }

  lemma SortedMore<K(!new)>(cmp: (K, K) -> int, before: seq<Entry<K>>, e: Entry<K>, after: seq<Entry<K>>)
    requires Lawful(cmp) && Sorted(cmp, before + after) && Below(cmp, before, e.key) && Above(cmp, after, e.key)
    ensures Sorted(cmp, before + [e] + after) && Less(before + [e] + after, e, before + after)
  {
    var s, t, n := before + [e] + after, before + after, |before|;
    assert s[n] == e && t == s[..n] + s[n + 1..];
    forall i, j | 0 <= i < j < |s| ensures cmp(s[i].key, s[j].key) < 0 {
      if i == n {
        assert s[j] in after;
      } else if j == n {
        assert s[i] in before;
      } else {
        assert s[i] == t[if i < n then i else i - 1] && s[j] == t[if j < n then j else j - 1];
      }
    }
  }

  lemma InnerPlugs<N>(p: Path<N>, t: Tree<N>, q: Path<N>, u: Tree<N>)
    requires t.Node? && t.right == Plug(q, u)
    ensures Plug(Append(q, Step(p, Right, t.elem, t.color, t.left)), u) == Plug(p, t)
  {
    AppendPlugs(q, Step(p, Right, t.elem, t.color, t.left), u);
  }

  lemma InnerDistinct<N>(t: Tree<N>, q: Path<N>, u: Tree<N>)
    requires t.Node? && t.right == Plug(q, u) && u.Node? && Distinct(t)
    ensures u.elem != t.elem && (q.Step? ==> q.elem != t.elem)
  {
    PlugElems(q, u);
    assert u.elem in Elems(u) && (q.Step? ==> q.elem in PathElems(q));
  }

  lemma {:induction false} PathRootAbove<K>(p: Path<Entry<K>>, hole: Entry?<K>)
    ensures p.Step? ==> PathRoot(p, hole) != null && PathRoot(p, hole) in PathElems(p)
  {
    if p.Step? {
      PathRootAbove(p.up, p.elem);
    }
  }
}
