/** The top-down splay tree of compat/tree.h (SPLAY_*). */
module SplayTree {
  import opened SplayShape
  import opened Ordering

  /** The SPLAY_ENTRY fields of one element. */
  datatype Links<K> = Links(left: Entry?<K>, right: Entry?<K>) {
    function Get(side: Side): Entry?<K> { if side.Left? then left else right }
    function Set(side: Side, e: Entry?<K>): Links<K> { if side.Left? then this.(left := e) else this.(right := e) }
  }

  /** An element. */
  class Entry<K> {
    const key: K
    var left: Entry?<K>
    var right: Entry?<K>

    constructor (key: K)
      ensures this.key == key && left == right == null
    {
      this.key := key;
      left, right := null, null;
    }

    function Get(side: Side): Entry?<K>
      reads this
    {
      if side.Left? then left else right
    }

    method Set(side: Side, e: Entry?<K>)
      modifies this
      ensures Fields() == old(Fields()).Set(side, e)
    {
      if side.Left? {
        left := e;
      } else {
        right := e;
      }
    }

    function Fields(): Links<K>
      reads this
    {
      Links(left, right)
    }
  }

  /** What a set of elements holds in its fields. */
  type Memory<K> = map<Entry<K>, Links<K>>

  ghost function MemoryOf<K>(s: set<Entry<K>>): Memory<K>
    reads s
  {
    map n | n in s :: n.Fields()
  }

  function Root<K>(t: Tree<Entry<K>>): Entry?<K> {
    if t.Leaf? then null else t.elem
  }

  /** The end of a spine that hangs from `s`. */
  function Bottom<K>(s: Entry<K>, sp: Spine<Entry<K>>): Entry<K> {
    if sp.End? then s else sp.elem
  }

  ghost predicate Holds<K>(m: Memory<K>, t: Tree<Entry<K>>) {
    t.Node? ==>
      && t.elem in m && m[t.elem] == Links(Root(t.left), Root(t.right))
      && Holds(m, t.left) && Holds(m, t.right)
  }

  /** The spine of `side` hangs from the other side of `s`. */
  ghost predicate HoldsSpine<K>(m: Memory<K>, s: Entry<K>, side: Side, sp: Spine<Entry<K>>) {
    sp.Link? ==>
      && sp.elem in m && m[sp.elem].Get(side) == Root(sp.sub) && Holds(m, sp.sub)
      && Bottom(s, sp.up) in m && m[Bottom(s, sp.up)].Get(side.Other()) == sp.elem
      && HoldsSpine(m, s, side, sp.up)
  }

  ghost predicate HoldsParts<K>(m: Memory<K>, s: Entry<K>, p: Parts<Entry<K>>) {
    Holds(m, p.t) && HoldsSpine(m, s, Left, p.l) && HoldsSpine(m, s, Right, p.r)
  }

  ghost predicate Agree<K>(m: Memory<K>, m': Memory<K>, s: set<Entry<K>>) {
    forall n | n in s && n in m :: n in m' && m'[n] == m[n]
  }

  lemma {:induction false} HoldsFrame<K>(m: Memory<K>, m': Memory<K>, t: Tree<Entry<K>>)
    requires Holds(m, t) && Agree(m, m', Elems(t))
    ensures Holds(m', t)
  {
    if t.Node? {
      HoldsFrame(m, m', t.left);
      HoldsFrame(m, m', t.right);
    }
  }

  lemma {:induction false} SpineFrame<K>(m: Memory<K>, m': Memory<K>, s: Entry<K>, side: Side, sp: Spine<Entry<K>>)
    requires HoldsSpine(m, s, side, sp) && Agree(m, m', SpineElems(sp))
    requires s in m ==> s in m' && m'[s].Get(side.Other()) == m[s].Get(side.Other())
    ensures HoldsSpine(m', s, side, sp)
  {
    if sp.Link? {
      HoldsFrame(m, m', sp.sub);
      SpineFrame(m, m', s, side, sp.up);
    }
  }

  /** A link changes that the spine does not depend on: the one at its end, or one of a
      node outside it, if that is not the first link of the spine. */
  lemma SetKeepsSpine<K>(m: Memory<K>, s: Entry<K>, side: Side, sp: Spine<Entry<K>>, n: Entry<K>, d: Side, v: Entry?<K>)
    requires HoldsSpine(m, s, side, sp) && DistinctSpine(sp) && n in m && s !in SpineElems(sp)
    requires (n == Bottom(s, sp) && d == side.Other()) || (n !in SpineElems(sp) && (n == s ==> d == side))
    ensures HoldsSpine(m[n := m[n].Set(d, v)], s, side, sp)
  {
    var m' := m[n := m[n].Set(d, v)];
    if sp.Link? {
      HoldsFrame(m, m', sp.sub);
      SpineFrame(m, m', s, side, sp.up);
    }
  }

  lemma SetKeepsTree<K>(m: Memory<K>, t: Tree<Entry<K>>, n: Entry<K>, d: Side, v: Entry?<K>)
    requires Holds(m, t) && n in m && n !in Elems(t)
    ensures Holds(m[n := m[n].Set(d, v)], t)
  {
    HoldsFrame(m, m[n := m[n].Set(d, v)], t);
  }

  /** The spine, with a tree at its end, is a tree in memory. */
  lemma {:induction false} CloseHolds<K>(m: Memory<K>, s: Entry<K>, side: Side, sp: Spine<Entry<K>>, t: Tree<Entry<K>>)
    requires HoldsSpine(m, s, side, sp) && Holds(m, t) && Bottom(s, sp) in m && m[Bottom(s, sp)].Get(side.Other()) == Root(t)
    ensures Holds(m, Close(side, sp, t)) && s in m && m[s].Get(side.Other()) == Root(Close(side, sp, t))
  {
    if sp.Link? {
      CloseHolds(m, s, side, sp.up, Join(side, sp.sub, sp.elem, t));
    }
  }

  lemma LinkHolds<K>(m: Memory<K>, s: Entry<K>, side: Side, p: Parts<Entry<K>>)
    requires HoldsParts(m, s, p) && DistinctParts(p) && s !in PartsElems(p) && s in m && p.t.Node?
    ensures var bot := Bottom(s, p.Get(side.Other()));
      bot in m && HoldsParts(m[bot := m[bot].Set(side, p.t.elem)], s, LinkRoot(side, p))
  {
    var bot := Bottom(s, p.Get(side.Other()));
    var m' := m[bot := m[bot].Set(side, p.t.elem)];
    SetKeepsTree(m, p.t, bot, side, p.t.elem);
    SetKeepsSpine(m, s, Left, p.l, bot, side, p.t.elem);
    SetKeepsSpine(m, s, Right, p.r, bot, side, p.t.elem);
  }

  lemma RotateHolds<K>(m: Memory<K>, side: Side, t: Tree<Entry<K>>)
    requires t.Node? && Kid(t, side).Node? && Holds(m, t) && Distinct(t)
    ensures var x, u := t.elem, Kid(t, side);
      x in m && u.elem in m && x != u.elem &&
      Holds(m[x := m[x].Set(side, Root(Kid(u, side.Other())))][u.elem := m[u.elem].Set(side.Other(), x)], Rotate(side, t))
  {
    var x, u := t.elem, Kid(t, side);
    assert u.elem in Elems(u);
    var m' := m[x := m[x].Set(side, Root(Kid(u, side.Other())))][u.elem := m[u.elem].Set(side.Other(), x)];
    HoldsFrame(m, m', u.left);
    HoldsFrame(m, m', u.right);
    HoldsFrame(m, m', Kid(t, side.Other()));
  }

  lemma RotateParts<K>(m: Memory<K>, s: Entry<K>, side: Side, p: Parts<Entry<K>>)
    requires HoldsParts(m, s, p) && DistinctParts(p) && s !in PartsElems(p) && p.t.Node? && Kid(p.t, side).Node?
    ensures var x, y, q := p.t.elem, Kid(p.t, side).elem, p.(t := Rotate(side, p.t));
      && x in m && y in m && DistinctParts(q) && PartsElems(q) == PartsElems(p)
      && HoldsParts(m[x := m[x].Set(side, m[y].Get(side.Other()))][y := m[y].Set(side.Other(), x)], s, q)
  {
    var x, u := p.t.elem, Kid(p.t, side);
    RotateHolds(m, side, p.t);
    RotateKeeps(side, p.t);
    assert Holds(m, u) && x in Elems(p.t) && u.elem in Elems(u) && Elems(u) <= Elems(p.t);
    var m' := m[x := m[x].Set(side, m[u.elem].Get(side.Other()))][u.elem := m[u.elem].Set(side.Other(), x)];
    SpineFrame(m, m', s, Left, p.l);
    SpineFrame(m, m', s, Right, p.r);
  }

  ghost function Put<K>(m: Memory<K>, n: Entry<K>, d: Side, v: Entry?<K>): Memory<K>
    requires n in m
  {
    m[n := m[n].Set(d, v)]
  }

  /** SPLAY_ASSEMBLE, in two parts: the spines are closed with the subtrees of the root,
      and become its subtrees. */
  lemma CloseBoth<K>(m: Memory<K>, s: Entry<K>, p: Parts<Entry<K>>)
    requires HoldsParts(m, s, p) && DistinctParts(p) && s !in PartsElems(p) && s in m && p.t.Node?
    ensures var bl, br := Bottom(s, p.l), Bottom(s, p.r);
      bl in m && br in m &&
      var m2 := Put(Put(m, bl, Right, Root(p.t.left)), br, Left, Root(p.t.right));
      && m2[s].right == Root(Close(Left, p.l, p.t.left)) && m2[s].left == Root(Close(Right, p.r, p.t.right))
      && Holds(m2, Close(Left, p.l, p.t.left)) && Holds(m2, Close(Right, p.r, p.t.right)) && p.t.elem in m2
  {
    var bl, br := Bottom(s, p.l), Bottom(s, p.r);
    var m1 := Put(m, bl, Right, Root(p.t.left));
    assert p.t.elem in Elems(p.t) && Elems(p.t.left) <= Elems(p.t) && Elems(p.t.right) <= Elems(p.t);
    SetKeepsTree(m, p.t, bl, Right, Root(p.t.left));
    SetKeepsSpine(m, s, Left, p.l, bl, Right, Root(p.t.left));
    SetKeepsSpine(m, s, Right, p.r, bl, Right, Root(p.t.left));
    SetKeepsTree(m1, p.t, br, Left, Root(p.t.right));
    SetKeepsSpine(m1, s, Left, p.l, br, Left, Root(p.t.right));
    SetKeepsSpine(m1, s, Right, p.r, br, Left, Root(p.t.right));
    var m2 := Put(m1, br, Left, Root(p.t.right));
    CloseHolds(m2, s, Left, p.l, p.t.left);
    CloseHolds(m2, s, Right, p.r, p.t.right);
  }

  lemma AssembleHolds<K>(m: Memory<K>, s: Entry<K>, p: Parts<Entry<K>>)
    requires HoldsParts(m, s, p) && DistinctParts(p) && s !in PartsElems(p) && s in m && p.t.Node?
    ensures var bl, br, e := Bottom(s, p.l), Bottom(s, p.r), p.t.elem;
      bl in m && br in m &&
      var m2 := Put(Put(m, bl, Right, Root(p.t.left)), br, Left, Root(p.t.right));
      e in m2 && Holds(m2[e := Links(m2[s].right, m2[s].left)], Assemble(p))
  {
    CloseBoth(m, s, p);
    var bl, br, e := Bottom(s, p.l), Bottom(s, p.r), p.t.elem;
    var m2 := Put(Put(m, bl, Right, Root(p.t.left)), br, Left, Root(p.t.right));
    var m4 := m2[e := Links(m2[s].right, m2[s].left)];
    var l, r := Close(Left, p.l, p.t.left), Close(Right, p.r, p.t.right);
    CloseElems(Left, p.l, p.t.left);
    CloseElems(Right, p.r, p.t.right);
    assert e in Elems(p.t);
    HoldsFrame(m2, m4, l);
    HoldsFrame(m2, m4, r);
  }

  // ----- search order -----

  ghost predicate Sorted<K>(cmp: (K, K) -> int, s: seq<Entry<K>>) {
    forall i, j | 0 <= i < j < |s| :: cmp(s[i].key, s[j].key) < 0
  }

  /** Every element of `s` is on the `side` of the key. */
  ghost predicate On<K>(cmp: (K, K) -> int, side: Side, s: seq<Entry<K>>, key: K) {
    forall e | e in s :: if side.Left? then cmp(key, e.key) > 0 else cmp(key, e.key) < 0
  }

  /** The key is searched in the tree only: the spines are on their sides of it. */
  ghost predicate Split<K>(cmp: (K, K) -> int, p: Parts<Entry<K>>, key: K) {
    On(cmp, Left, SpineOrder(Left, p.l), key) && On(cmp, Right, SpineOrder(Right, p.r), key)
  }

  function Toward(c: int): Side { if c < 0 then Left else Right }

  /** A key on one side of the root is on that side of the other subtree. */
  lemma Beyond<K(!new)>(cmp: (K, K) -> int, p: Parts<Entry<K>>, key: K)
    requires Lawful(cmp) && p.t.Node? && Sorted(cmp, Order(p)) && cmp(key, p.t.elem.key) != 0
    ensures var c := cmp(key, p.t.elem.key);
      On(cmp, Toward(c).Other(), InOrder(Kid(p.t, Toward(c).Other())), key) && On(cmp, Toward(c).Other(), [p.t.elem], key)
  {
    SortedInside(cmp, (x: Entry<K>) => x.key, SpineOrder(Left, p.l), InOrder(p.t.left), p.t.elem, InOrder(p.t.right), SpineOrder(Right, p.r));
  }

  lemma LinkSplits<K(!new)>(cmp: (K, K) -> int, p: Parts<Entry<K>>, key: K)
    requires Lawful(cmp) && p.t.Node? && Sorted(cmp, Order(p)) && Split(cmp, p, key) && cmp(key, p.t.elem.key) != 0
    ensures Split(cmp, LinkRoot(Toward(cmp(key, p.t.elem.key)), p), key)
  {
    Beyond(cmp, p, key);
  }

  /** The root is the key, or a neighbour of it: nothing lies between them. */
  ghost predicate Near<K>(cmp: (K, K) -> int, t: Tree<Entry<K>>, key: K)
    requires t.Node?
  {
    var c := cmp(key, t.elem.key);
    && (c <= 0 ==> On(cmp, Left, InOrder(t.left), key))
    && (c >= 0 ==> On(cmp, Right, InOrder(t.right), key))
  }

  /** The search ends where the key is or would be. */
  lemma EndNear<K(!new)>(cmp: (K, K) -> int, p: Parts<Entry<K>>, key: K)
    requires Lawful(cmp) && p.t.Node? && Sorted(cmp, Order(p)) && Split(cmp, p, key)
    requires var c := cmp(key, p.t.elem.key); c == 0 || Kid(p.t, Toward(c)).Leaf?
    ensures Near(cmp, Assemble(p), key)
  {
    CloseOrder(Left, p.l, p.t.left);
    CloseOrder(Right, p.r, p.t.right);
    SortedInside(cmp, (x: Entry<K>) => x.key, SpineOrder(Left, p.l), InOrder(p.t.left), p.t.elem, InOrder(p.t.right), SpineOrder(Right, p.r));
  }

  /** A key that is not at the root after a splay is not in the tree. */
  lemma NearMisses<K(!new)>(cmp: (K, K) -> int, t: Tree<Entry<K>>, key: K)
    requires Lawful(cmp) && t.Node? && Sorted(cmp, InOrder(t)) && Near(cmp, t, key) && cmp(key, t.elem.key) != 0
    ensures On(cmp, Left, InOrder(t.left), key) && On(cmp, Right, InOrder(t.right), key)
    ensures forall e | e in InOrder(t) :: cmp(key, e.key) != 0
  {
    RootAbove(cmp, InOrder(t.left), t.elem, InOrder(t.right));
    if cmp(key, t.elem.key) < 0 {
      PastRight(cmp, key, t.elem, InOrder(t.right));
    } else {
      PastLeft(cmp, key, t.elem, InOrder(t.left));
    }
    forall e | e in InOrder(t)
      ensures cmp(key, e.key) != 0
    {
      assert e in InOrder(t.left) || e == t.elem || e in InOrder(t.right);
    }
  }

  lemma PastRight<K(!new)>(cmp: (K, K) -> int, key: K, x: Entry<K>, s: seq<Entry<K>>)
    requires Lawful(cmp) && cmp(key, x.key) < 0 && forall e | e in s :: cmp(x.key, e.key) < 0
    ensures On(cmp, Right, s, key)
  {}

  lemma PastLeft<K(!new)>(cmp: (K, K) -> int, key: K, x: Entry<K>, s: seq<Entry<K>>)
    requires Lawful(cmp) && cmp(key, x.key) > 0 && forall e | e in s :: cmp(e.key, x.key) < 0
    ensures On(cmp, Left, s, key)
  {
    forall e | e in s
      ensures cmp(key, e.key) > 0
    {
      assert cmp(e.key, x.key) < 0 && cmp(x.key, key) < 0;
    }
  }

  lemma InsertOrder<K(!new)>(cmp: (K, K) -> int, t: Tree<Entry<K>>, elm: Entry<K>)
    requires Lawful(cmp) && t.Node? && Sorted(cmp, InOrder(t)) && Near(cmp, t, elm.key) && cmp(elm.key, t.elem.key) != 0
    ensures var t' := InsertRoot(Toward(cmp(elm.key, t.elem.key)), t, elm); Sorted(cmp, InOrder(t')) && WithOne(InOrder(t), elm, InOrder(t'))
  {
    NearMisses(cmp, t, elm.key);
    var side := Toward(cmp(elm.key, t.elem.key));
    var i := InsertPlace(side, t);
    InsertSeq(side, t, elm);
    Around(side, t);
    SortedWith(cmp, InOrder(t), elm, i);
  }

  lemma SortedWith<K(!new)>(cmp: (K, K) -> int, s: seq<Entry<K>>, elm: Entry<K>, i: nat)
    requires Lawful(cmp) && Sorted(cmp, s) && i <= |s| && On(cmp, Left, s[..i], elm.key) && On(cmp, Right, s[i..], elm.key)
    ensures Sorted(cmp, s[..i] + [elm] + s[i..])
  {
    assert forall e | e in s[..i] :: cmp(e.key, elm.key) < 0;
    SortedBetween(cmp, s, elm, i);
  }

  lemma SortedBetween<K>(cmp: (K, K) -> int, s: seq<Entry<K>>, elm: Entry<K>, i: nat)
    requires Sorted(cmp, s) && i <= |s|
    requires (forall e | e in s[..i] :: cmp(e.key, elm.key) < 0) && forall e | e in s[i..] :: cmp(elm.key, e.key) < 0
    ensures Sorted(cmp, s[..i] + [elm] + s[i..])
  {
    var s' := s[..i] + [elm] + s[i..];
    forall a, b | 0 <= a < b < |s'|
      ensures cmp(s'[a].key, s'[b].key) < 0
    {
      if a == i {
        assert s'[b] in s[i..];
      } else if b == i {
        assert s'[a] in s[..i];
      } else {
        assert s'[a] == s[if a < i then a else a - 1] && s'[b] == s[if b < i then b else b - 1];
      }
    }
  }

  lemma InsertHolds<K>(m: Memory<K>, m': Memory<K>, side: Side, t: Tree<Entry<K>>, elm: Entry<K>)
    requires t.Node? && Holds(m, t) && Distinct(t) && elm !in Elems(t)
    requires Agree(m, m', Elems(t) - {t.elem})
    requires t.elem in m' && m'[t.elem] == m[t.elem].Set(side, null)
    requires elm in m' && m'[elm] == Links(null, null).Set(side, Root(Kid(t, side))).Set(side.Other(), t.elem)
    ensures Holds(m', InsertRoot(side, t, elm)) && Distinct(InsertRoot(side, t, elm)) && Elems(InsertRoot(side, t, elm)) == Elems(t) + {elm}
  {
    InsertElems(side, t, elm);
    HoldsFrame(m, m', t.left);
    HoldsFrame(m, m', t.right);
    assert Holds(m', Join(side, Leaf, t.elem, Kid(t, side.Other())));
  }

  /** When all elements are below the key, a splay leaves nothing to the right of the
      root. */
  lemma NoneRight<K(!new)>(cmp: (K, K) -> int, t: Tree<Entry<K>>, key: K)
    requires Lawful(cmp) && t.Node? && Near(cmp, t, key) && On(cmp, Left, InOrder(t), key)
    ensures t.right.Leaf?
  {
    assert t.elem in InOrder(t);
    if t.right.Node? {
      RightIn(t);
    }
  }

  lemma RightIn<N>(t: Tree<N>)
    requires t.Node? && t.right.Node?
    ensures t.right.elem in InOrder(t.right) && t.right.elem in InOrder(t)
  {
    assert t.right.elem in InOrder(t.right);
  }

  lemma SortedWithout<K>(cmp: (K, K) -> int, s: seq<Entry<K>>, i: nat)
    requires Sorted(cmp, s) && i < |s|
    ensures Sorted(cmp, s[..i]) && Sorted(cmp, s[..i] + s[i + 1..])
  {
    var s' := s[..i] + s[i + 1..];
    forall a, b | 0 <= a < b < |s'|
      ensures cmp(s'[a].key, s'[b].key) < 0
    {
      assert s'[a] == s[if a < i then a else a + 1] && s'[b] == s[if b < i then b else b + 1];
    }
  }

  /** `s` without an element that is equal to the key. */
  ghost predicate WithoutKey<K>(cmp: (K, K) -> int, key: K, s: seq<Entry<K>>, s': seq<Entry<K>>) {
    exists i :: 0 <= i < |s| && cmp(key, s[i].key) == 0 && s' == s[..i] + s[i + 1..]
  }

  /** A sorted tree without its root. */
  lemma WithoutRoot<K(!new)>(cmp: (K, K) -> int, t: Tree<Entry<K>>, key: K)
    requires Lawful(cmp) && t.Node? && Sorted(cmp, InOrder(t)) && cmp(key, t.elem.key) == 0
    ensures WithoutKey(cmp, key, InOrder(t), InOrder(t.left) + InOrder(t.right))
    ensures Sorted(cmp, InOrder(t.left)) && Sorted(cmp, InOrder(t.left) + InOrder(t.right)) && On(cmp, Left, InOrder(t.left), key)
  {
    var l, e, r := InOrder(t.left), t.elem, InOrder(t.right);
    Cut(l, e, r);
    assert InOrder(t)[|l|] == e;
    SortedWithout(cmp, InOrder(t), |l|);
    RootAbove(cmp, l, e, r);
  }

  lemma RootAbove<K>(cmp: (K, K) -> int, l: seq<Entry<K>>, e: Entry<K>, r: seq<Entry<K>>)
    requires Sorted(cmp, l + [e] + r)
    ensures forall x | x in l :: cmp(x.key, e.key) < 0
    ensures forall x | x in r :: cmp(e.key, x.key) < 0
  {
    assert [] + (l + [e] + r) + [] == l + [e] + r;
    SortedInside(cmp, (x: Entry<K>) => x.key, [], l, e, r, []);
  }

  /** The right subtree hangs from the new root. */
  lemma JoinHolds<K>(m: Memory<K>, m': Memory<K>, t: Tree<Entry<K>>, r: Tree<Entry<K>>)
    requires t.Node? && t.right.Leaf? && Holds(m, t) && Holds(m, r) && Distinct(t) && Distinct(r) && Elems(t) !! Elems(r)
    requires m' == m[t.elem := m[t.elem].Set(Right, Root(r))]
    ensures var u := Node(t.left, t.elem, r); Holds(m', u) && Distinct(u) && Elems(u) == Elems(t) + Elems(r) && InOrder(u) == InOrder(t) + InOrder(r)
  {
    assert t.elem in Elems(t);
    HoldsFrame(m, m', t.left);
    HoldsFrame(m, m', r);
    assert InOrder(t) == InOrder(t.left) + [t.elem] + [] == InOrder(t.left) + [t.elem];
  }

  // ----- the writes to memory -----

  method RotateLinks<K>(side: Side, x: Entry<K>, tmp: Entry<K>, ghost all: set<Entry<K>>)
    requires {x, tmp} <= all && x != tmp
    modifies x, tmp
    ensures var m := old(MemoryOf(all));
      MemoryOf(all) == m[x := m[x].Set(side, m[tmp].Get(side.Other()))][tmp := m[tmp].Set(side.Other(), x)]
  {
    x.Set(side, tmp.Get(side.Other()));
    tmp.Set(side.Other(), x);
  }

  method SetLink<K>(n: Entry<K>, side: Side, v: Entry?<K>, ghost all: set<Entry<K>>)
    requires n in all
    modifies n
    ensures MemoryOf(all) == Put(old(MemoryOf(all)), n, side, v)
  {
    n.Set(side, v);
  }

  method LinkLinks<K>(side: Side, bot: Entry<K>, x: Entry<K>, ghost all: set<Entry<K>>) returns (next: Entry?<K>)
    requires {bot, x} <= all && bot != x
    modifies bot
    ensures MemoryOf(all) == Put(old(MemoryOf(all)), bot, side, x) && next == old(x.Get(side))
  {
    SetLink(bot, side, x, all);
    next := x.Get(side);
  }

  method AssembleLinks<K>(s: Entry<K>, left: Entry<K>, right: Entry<K>, x: Entry<K>, ghost all: set<Entry<K>>)
    requires {s, left, right, x} <= all && x != s && x != left && x != right
    modifies s, left, right, x
    ensures var m := old(MemoryOf(all));
      var m2 := Put(Put(m, left, Right, m[x].left), right, Left, m[x].right);
      MemoryOf(all) == m2[x := Links(m2[s].right, m2[s].left)]
  {
    SetLink(left, Right, x.left, all);
    SetLink(right, Left, x.right, all);
    SetLink(x, Left, s.right, all);
    SetLink(x, Right, s.left, all);
  }

  /** The writes of SPLAY_INSERT. */
  method InsertLinks<K>(side: Side, x: Entry<K>, elm: Entry<K>, ghost all: set<Entry<K>>)
    requires {x, elm} <= all && x != elm
    modifies x, elm
    ensures var m := old(MemoryOf(all));
      MemoryOf(all) == m[elm := Links(null, null).Set(side, m[x].Get(side)).Set(side.Other(), x)][x := m[x].Set(side, null)]
  {
    elm.Set(side, x.Get(side));
    elm.Set(side.Other(), x);
    x.Set(side, null);
  }

  class Head<K(!new)> {
    const cmp: (K, K) -> int
    var root: Entry?<K>
    ghost var nodes: set<Entry<K>>
    ghost var shape: Tree<Entry<K>>

    /** SPLAY_INIT. */
    constructor (cmp: (K, K) -> int)
      requires Lawful(cmp)
      ensures Valid() && this.cmp == cmp && Contents() == []
    {
      this.cmp := cmp;
      root, nodes, shape := null, {}, Leaf;
    }

    /** The elements of the tree, in order. */
    ghost function Contents(): seq<Entry<K>>
      reads this
    {
      InOrder(shape)
    }

    ghost predicate Valid()
      reads this, nodes
    {
      Lawful(cmp) && Shows(shape) && Sorted(cmp, Contents())
    }

    /** The tree in memory is `t`. */
    ghost predicate Shows(t: Tree<Entry<K>>)
      reads this`root, this`nodes, nodes
    {
      Holds(MemoryOf(nodes), t) && Distinct(t) && nodes == Elems(t) && root == Root(t)
    }

    /** In the midst of a splay, the memory holds the parts `p`; the spines hang from the
        local element `s`. */
    ghost predicate Searching(s: Entry<K>, p: Parts<Entry<K>>)
      reads this`root, this`nodes, nodes, s
    {
      && HoldsParts(MemoryOf(nodes + {s}), s, p) && DistinctParts(p) && PartsElems(p) == nodes && s !in nodes
      && p.t.Node? && root == p.t.elem
    }

    /** The fields of the root. */
    lemma AtRoot(s: Entry<K>, p: Parts<Entry<K>>)
      requires Searching(s, p)
      ensures root in nodes && root.Fields() == Links(Root(p.t.left), Root(p.t.right))
      ensures forall side :: Kid(p.t, side).Node? ==>
        var u := Kid(p.t, side); u.elem in nodes && u.elem != root && u.elem.Fields() == Links(Root(u.left), Root(u.right))
    {
      assert Holds(MemoryOf(nodes + {s}), p.t.left) && Holds(MemoryOf(nodes + {s}), p.t.right);
      assert p.t.elem in Elems(p.t);
      assert p.t.left.Node? ==> p.t.left.elem in Elems(p.t.left);
      assert p.t.right.Node? ==> p.t.right.elem in Elems(p.t.right);
    }

    /** SPLAY_ROTATE_RIGHT and SPLAY_ROTATE_LEFT. */
    method RotateRoot(side: Side, tmp: Entry<K>, ghost s: Entry<K>, ghost p: Parts<Entry<K>>)
      requires Searching(s, p) && Kid(p.t, side).Node? && tmp == Kid(p.t, side).elem
      modifies this`root, nodes
      ensures Searching(s, p.(t := Rotate(side, p.t)))
    {
      AtRoot(s, p);
      RotateParts(MemoryOf(nodes + {s}), s, side, p);
      RotateLinks(side, root, tmp, nodes + {s});
      root := tmp;
    }

    /** SPLAY_LINKLEFT and SPLAY_LINKRIGHT: `bot` is the end of the spine. */
    method LinkStep(side: Side, bot: Entry<K>, ghost s: Entry<K>, ghost p: Parts<Entry<K>>) returns (now: Entry<K>)
      requires Searching(s, p) && Kid(p.t, side).Node? && bot == Bottom(s, p.Get(side.Other()))
      modifies this`root, nodes, s
      ensures Searching(s, LinkRoot(side, p)) && now == p.t.elem
    {
      ghost var m := MemoryOf(nodes + {s});
      AtRoot(s, p);
      LinkHolds(m, s, side, p);
      LinkKeeps(side, p);
      now := root;
      root := LinkLinks(side, bot, root, nodes + {s});
    }

    /** SPLAY_ASSEMBLE. */
    method AssembleRoot(s: Entry<K>, left: Entry<K>, right: Entry<K>, ghost p: Parts<Entry<K>>)
      requires Searching(s, p) && left == Bottom(s, p.l) && right == Bottom(s, p.r)
      modifies this`root, nodes, s
      ensures Shows(Assemble(p))
    {
      ghost var m := MemoryOf(nodes + {s});
      AtRoot(s, p);
      AssembleHolds(m, s, p);
      AssembleKeeps(p);
      AssembleLinks(s, left, right, root, nodes + {s});
      HoldsFrame(MemoryOf(nodes + {s}), MemoryOf(nodes), Assemble(p));
    }

    /** SPLAY: the root becomes the element with the key, or a neighbour of the key. */
    method Splay(key: K)
      requires Valid() && root != null
      modifies this`root, this`shape, nodes
      ensures Valid() && Contents() == old(Contents()) && shape.Node? && Near(cmp, shape, key)
    {
      ghost var t := SplayShown(key, shape);
      shape := t;
    }

    method SplayShown(key: K, ghost t: Tree<Entry<K>>) returns (ghost t': Tree<Entry<K>>)
      requires Lawful(cmp) && Shows(t) && Sorted(cmp, InOrder(t)) && t.Node?
      modifies this`root, nodes
      ensures Shows(t') && InOrder(t') == InOrder(t) && t'.Node? && Near(cmp, t', key)
    {
      var node := new Entry(key);
      ghost var p := Parts(End, t, End);
      HoldsFrame(MemoryOf(nodes), MemoryOf(nodes + {node}), t);
      StartOrder(t);
      var left, right;
      left, right, p := SplayLoop(key, node, p);
      EndNear(cmp, p, key);
      AssembleKeeps(p);
      AssembleRoot(node, left, right, p);
      t' := Assemble(p);
    }

    static lemma StartOrder(t: Tree<Entry<K>>)
      ensures Order(Parts(End, t, End)) == InOrder(t)
    {}

    /** The parts, the ends of the spines, and the key that is searched. */
    ghost predicate Loop(s: Entry<K>, p: Parts<Entry<K>>, left: Entry<K>, right: Entry<K>, key: K)
      reads this`root, this`nodes, nodes, s
    {
      Searching(s, p) && left == Bottom(s, p.l) && right == Bottom(s, p.r) && Sorted(cmp, Order(p)) && Split(cmp, p, key)
    }

    method SplayLoop(key: K, node: Entry<K>, ghost p0: Parts<Entry<K>>) returns (left: Entry<K>, right: Entry<K>, ghost p: Parts<Entry<K>>)
      requires Lawful(cmp) && Loop(node, p0, node, node, key)
      modifies this`root, nodes, node
      ensures Loop(node, p, left, right, key) && Order(p) == Order(p0)
      ensures var c := cmp(key, p.t.elem.key); c == 0 || Kid(p.t, Toward(c)).Leaf?
    {
      left, right, p := node, node, p0;
      var comp := cmp(key, root.key);
      while comp != 0
        invariant Loop(node, p, left, right, key) && Order(p) == Order(p0)
        invariant comp == cmp(key, p.t.elem.key)
        decreases Size(p.t)
      {
        var done;
        done, left, right, p := SplayRound(key, Toward(comp), node, left, right, p);
        if done {
          return;
        }
        comp := cmp(key, root.key);
      }
    }

    /** One round of the loop; done if there is nothing on the side of the key. */
    method SplayRound(key: K, side: Side, ghost s: Entry<K>, left0: Entry<K>, right0: Entry<K>, ghost p0: Parts<Entry<K>>)
      returns (done: bool, left: Entry<K>, right: Entry<K>, ghost p: Parts<Entry<K>>)
      requires Lawful(cmp) && Loop(s, p0, left0, right0, key)
      requires cmp(key, p0.t.elem.key) != 0 && side == Toward(cmp(key, p0.t.elem.key))
      modifies this`root, nodes, s
      ensures Loop(s, p, left, right, key) && Order(p) == Order(p0)
      ensures done ==> var c := cmp(key, p.t.elem.key); c != 0 && Kid(p.t, Toward(c)).Leaf?
      ensures !done ==> Size(p.t) < Size(p0.t)
    {
      left, right := left0, right0;
      done, p := SplayTurn(key, side, s, p0);
      if done {
        return;
      }
      LinkSplits(cmp, p, key);
      LinkKeeps(side, p);
      if side.Left? {
        right := LinkStep(side, right, s, p);
      } else {
        left := LinkStep(side, left, s, p);
      }
      p := LinkRoot(side, p);
    }

    /** The first half of a round: a rotation if the key lies beyond the next element as
        well; done if there is nothing on the side of the key. */
    method SplayTurn(key: K, side: Side, ghost s: Entry<K>, ghost p: Parts<Entry<K>>) returns (done: bool, ghost q: Parts<Entry<K>>)
      requires Lawful(cmp) && Searching(s, p) && Sorted(cmp, Order(p)) && cmp(key, p.t.elem.key) != 0 && side == Toward(cmp(key, p.t.elem.key))
      modifies this`root, nodes
      ensures Searching(s, q) && q == p.(t := q.t) && Order(q) == Order(p) && Size(q.t) == Size(p.t)
      ensures cmp(key, q.t.elem.key) != 0 && side == Toward(cmp(key, q.t.elem.key)) && done == Kid(q.t, side).Leaf?
    {
      q := p;
      AtRoot(s, p);
      var tmp := root.Get(side);
      if tmp == null {
        return true, p;
      }
      var c := cmp(key, tmp.key);
      if c != 0 && Toward(c) == side {
        RotateKeeps(side, p.t);
        RotateRoot(side, tmp, s, p);
        q := p.(t := Rotate(side, p.t));
        AtRoot(s, q);
      }
      done := root.Get(side) == null;
    }

    /** SPLAY_FIND. */
    method Find(key: K) returns (e: Entry?<K>)
      requires Valid()
      modifies this`root, this`shape, nodes
      ensures Valid() && Contents() == old(Contents())
      ensures e != null ==> e in Contents() && cmp(key, e.key) == 0
      ensures e == null ==> forall x | x in Contents() :: cmp(key, x.key) != 0
    {
      if root == null {
        return null;
      }
      Splay(key);
      if cmp(key, root.key) == 0 {
        assert shape.elem in InOrder(shape);
        return root;
      }
      NearMisses(cmp, shape, key);
      return null;
    }

    /** SPLAY_INSERT: an element that is equal to one in the tree is not inserted. */
    method Insert(elm: Entry<K>) returns (old_: Entry?<K>)
      requires Valid()
      modifies this, nodes, elm
      ensures Valid()
      ensures old_ != null ==> old_ in Contents() && cmp(elm.key, old_.key) == 0 && Contents() == old(Contents())
      ensures old_ == null ==> WithOne(old(Contents()), elm, Contents()) && forall x | x in old(Contents()) :: cmp(elm.key, x.key) != 0
    {
      if root == null {
        elm.left, elm.right := null, null;
        root, nodes, shape := elm, {elm}, Node(Leaf, elm, Leaf);
        assert Contents() == old(Contents())[..0] + [elm] + old(Contents())[0..];
        return null;
      }
      Splay(elm.key);
      var comp := cmp(elm.key, root.key);
      if comp == 0 {
        assert shape.elem in InOrder(shape);
        return root;
      }
      NearMisses(cmp, shape, elm.key);
      NotThere(elm);
      InsertOrder(cmp, shape, elm);
      InsertAtRoot(Toward(comp), elm);
      return null;
    }

    method InsertAtRoot(side: Side, elm: Entry<K>)
      requires Shows(shape) && shape.Node? && elm !in nodes
      modifies this, nodes, elm
      ensures shape == InsertRoot(side, old(shape), elm) && Shows(shape) && nodes == old(nodes) + {elm}
    {
      ghost var all, t := nodes + {elm}, shape;
      ghost var m := MemoryOf(all);
      assert root in Elems(t);
      HoldsFrame(MemoryOf(nodes), m, t);
      InsertLinks(side, root, elm, all);
      ghost var m' := MemoryOf(all);
      InsertHolds(m, m', side, t, elm);
      InsertElems(side, t, elm);
      root, nodes, shape := elm, all, InsertRoot(side, t, elm);
      assert MemoryOf(all) == m';
    }

    lemma NotThere(elm: Entry<K>)
      requires Lawful(cmp) && Shows(shape) && forall x | x in InOrder(shape) :: cmp(elm.key, x.key) != 0
      ensures elm !in nodes
    {
      ElemListed(shape, elm);
      assert cmp(elm.key, elm.key) == 0;
    }

    /** SPLAY_REMOVE: the element equal to `elm` leaves the tree, and no other. */
    method Remove(elm: Entry<K>) returns (r: Entry?<K>)
      requires Valid()
      modifies this, nodes
      ensures Valid()
      ensures r == null ==> Contents() == old(Contents()) && forall x | x in Contents() :: cmp(elm.key, x.key) != 0
      ensures r != null ==> r == elm && WithoutKey(cmp, elm.key, old(Contents()), Contents())
    {
      if root == null {
        return null;
      }
      Splay(elm.key);
      if cmp(elm.key, root.key) != 0 {
        NearMisses(cmp, shape, elm.key);
        return null;
      }
      WithoutRoot(cmp, shape, elm.key);
      RemoveRoot(elm.key);
      return elm;
    }

    method RemoveRoot(key: K)
      requires Valid() && shape.Node? && cmp(key, shape.elem.key) == 0
      modifies this, nodes
      ensures Shows(shape) && Contents() == InOrder(old(shape).left) + InOrder(old(shape).right)
    {
      ghost var l, r := shape.left, shape.right;
      ghost var inner, others := nodes * Elems(l), nodes * Elems(r);
      WithoutRoot(cmp, shape, key);
      Subtrees(inner, others);
      if root.left == null {
        GoDown(Right, r, others, inner);
        assert InOrder(l) + InOrder(r) == InOrder(r);
      } else {
        var tmp := root.right;
        GoDown(Left, l, inner, others);
        SplayLeft(key, tmp, l, r, others);
      }
    }

    /** A subtree of the root takes its place. */
    method GoDown(side: Side, ghost t: Tree<Entry<K>>, ghost part: set<Entry<K>>, ghost rest: set<Entry<K>>)
      requires root != null && root.Get(side) == Root(t) && Holds(MemoryOf(part), t) && Distinct(t) && part == Elems(t)
      modifies this
      ensures Shows(shape) && shape == t && nodes == part && MemoryOf(rest) == old(MemoryOf(rest))
    {
      ghost var m := MemoryOf(part);
      root := root.Get(side);
      nodes, shape := part, t;
      assert MemoryOf(part) == m;
    }

    /** The subtrees of the root, in memory of their own. */
    lemma Subtrees(inner: set<Entry<K>>, others: set<Entry<K>>)
      requires Shows(shape) && shape.Node? && inner == nodes * Elems(shape.left) && others == nodes * Elems(shape.right)
      ensures root in nodes && root.left == Root(shape.left) && root.right == Root(shape.right)
      ensures inner == Elems(shape.left) && others == Elems(shape.right) && inner !! others
      ensures Holds(MemoryOf(inner), shape.left) && Holds(MemoryOf(others), shape.right) && Distinct(shape.left) && Distinct(shape.right)
    {
      assert root in Elems(shape) && root.Fields() == MemoryOf(nodes)[root];
      HoldsFrame(MemoryOf(nodes), MemoryOf(inner), shape.left);
      HoldsFrame(MemoryOf(nodes), MemoryOf(others), shape.right);
    }

    /** The left subtree `l` is splayed, and the right one `r` joined to it. */
    method SplayLeft(key: K, tmp: Entry?<K>, ghost l: Tree<Entry<K>>, ghost r: Tree<Entry<K>>, ghost others: set<Entry<K>>)
      requires Lawful(cmp) && Shows(l) && Sorted(cmp, InOrder(l)) && l.Node? && On(cmp, Left, InOrder(l), key)
      requires Holds(MemoryOf(others), r) && Distinct(r) && tmp == Root(r) && others == Elems(r) && nodes !! others
      modifies this, nodes
      ensures Shows(shape) && Contents() == InOrder(l) + InOrder(r)
    {
      ghost var m := MemoryOf(others);
      ghost var t := SplayShown(key, l);
      assert MemoryOf(others) == m;
      NoneRight(cmp, t, key);
      JoinRight(tmp, t, r, others);
    }

    /** The second splay has left the root without a right child. */
    method JoinRight(tmp: Entry?<K>, ghost t: Tree<Entry<K>>, ghost r: Tree<Entry<K>>, ghost others: set<Entry<K>>)
      requires Shows(t) && t.Node? && t.right.Leaf?
      requires Holds(MemoryOf(others), r) && Distinct(r) && tmp == Root(r) && others == Elems(r) && nodes !! others
      modifies this, nodes
      ensures Shows(shape) && Contents() == InOrder(t) + InOrder(r)
    {
      ghost var all := nodes + others;
      HoldsFrame(MemoryOf(nodes), MemoryOf(all), t);
      HoldsFrame(MemoryOf(others), MemoryOf(all), r);
      assert root in Elems(t);
      ghost var m := MemoryOf(all);
      SetLink(root, Right, tmp, all);
      ghost var m', u := MemoryOf(all), Node(t.left, t.elem, r);
      JoinHolds(m, m', t, r);
      nodes, shape := all, u;
      assert MemoryOf(all) == m';
    }
  }
}
