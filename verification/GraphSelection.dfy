/** The order of edges and selection items, and the selection that is kept in that order. */
module GraphSelection {
  import opened Machine

  /** The difference of two ints as the machine computes it. */
  function Minus(a: int32, b: int32): int32 {
    ToInt32(a - b)
  }

  predicate Fits(a: int32, b: int32) {
    -0x8000_0000 <= a - b < 0x8000_0000
  }

  datatype Edge = Edge(src: int32, dst: int32)

  predicate EdgeLess(x: Edge, y: Edge) {
    x.src < y.src || (x.src == y.src && x.dst < y.dst)
  }

  datatype Point = Point(e: Edge, pidx: int32)

  /** edge_layout_point_t::compare */
  function ComparePoints(x: Point, y: Point): int32 {
    if EdgeLess(x.e, y.e) then -1
    else if EdgeLess(y.e, x.e) then 1
    else Minus(x.pidx, y.pidx)
  }

  /** A node, or a point of an edge; the other part is not looked at. */
  datatype Item = Item(isNode: bool, node: int32, elp: Point)

  function Bit(b: bool): int32 {
    if b then 1 else 0
  }

  /** selection_item_t::compare */
  function Compare(x: Item, y: Item): int32 {
    if x.isNode != y.isNode then Bit(x.isNode) - Bit(y.isNode)
    else if x.isNode then Minus(x.node, y.node)
    else ComparePoints(x.elp, y.elp)
  }

  predicate Less(x: Item, y: Item) {
    Compare(x, y) < 0
  }

  /** What an item stands for. */
  datatype Key = PointKey(src: int32, dst: int32, pidx: int32) | NodeKey(node: int32)

  function KeyOf(x: Item): Key {
    if x.isNode then NodeKey(x.node) else PointKey(x.elp.e.src, x.elp.e.dst, x.elp.pidx)
  }

  /** The lexicographic order of the keys, points before nodes. */
  predicate KeyLess(a: Key, b: Key) {
    match (a, b)
    case (NodeKey(m), NodeKey(n)) => m < n
    case (PointKey(s, d, p), PointKey(t, e, q)) => s < t || (s == t && (d < e || (d == e && p < q)))
    case (PointKey(_, _, _), NodeKey(_)) => true
    case (NodeKey(_), PointKey(_, _, _)) => false
  }

  /** The index difference that comparing two items takes, if any, fits in an int. */
  predicate Comparable(x: Item, y: Item) {
    if x.isNode && y.isNode then Fits(x.node, y.node)
    else if !x.isNode && !y.isNode && x.elp.e == y.elp.e then Fits(x.elp.pidx, y.elp.pidx)
    else true
  }

  /** The sign of a wrapped difference is right exactly when the difference fits. */
  lemma MinusSign(a: int32, b: int32)
    ensures Minus(a, b) == 0 <==> a == b
    ensures a != b ==> ((Minus(a, b) < 0 <==> a < b) <==> Fits(a, b))
  {}

  /** compare() is the order of the keys exactly where the index difference fits. */
  lemma CompareIsKeyOrder(x: Item, y: Item)
    ensures Compare(x, y) == 0 <==> KeyOf(x) == KeyOf(y)
    ensures (Less(x, y) <==> KeyLess(KeyOf(x), KeyOf(y))) <==> Comparable(x, y)
  {
    MinusSign(x.node, y.node);
    MinusSign(x.elp.pidx, y.elp.pidx);
  }

  /** The indexes that comparing two items subtracts, if any, are half the range of an int apart. */
  predicate HalfRangeApart(x: Item, y: Item) {
    if x.isNode && y.isNode then Apart(x.node, y.node)
    else !x.isNode && !y.isNode && x.elp.e == y.elp.e && Apart(x.elp.pidx, y.elp.pidx)
  }

  predicate Apart(a: int32, b: int32) {
    a - b == 0x8000_0000 || b - a == 0x8000_0000
  }

  /** The sign of compare(): points before nodes; points by the source of their edge, then by its target, then by their number. */
  lemma CompareSigns(x: Item, y: Item)
    ensures x.isNode && !y.isNode ==> Compare(x, y) == 1 && Compare(y, x) == -1
    ensures !x.isNode && !y.isNode && x.elp.e.src < y.elp.e.src ==> Compare(x, y) == -1 && Compare(y, x) == 1
    ensures !x.isNode && !y.isNode && x.elp.e.src == y.elp.e.src && x.elp.e.dst < y.elp.e.dst ==>
              Compare(x, y) == -1 && Compare(y, x) == 1
    ensures !x.isNode && !y.isNode && x.elp.e == y.elp.e && -0x8000_0000 <= x.elp.pidx - y.elp.pidx < 0x8000_0000 ==>
              Compare(x, y) == x.elp.pidx - y.elp.pidx
    ensures x.isNode && y.isNode && -0x8000_0000 <= x.node - y.node < 0x8000_0000 ==> Compare(x, y) == x.node - y.node
  {
    MinusFits(x.node, y.node);
    MinusFits(x.elp.pidx, y.elp.pidx);
  }

  lemma MinusFits(a: int32, b: int32)
    ensures -0x8000_0000 <= a - b < 0x8000_0000 ==> Minus(a, b) == a - b
  {}

  /** Swapping the items swaps the sign of compare() exactly when the indexes are not half the range apart. */
  lemma CompareIsAntisymmetric(x: Item, y: Item)
    ensures (Compare(x, y) < 0 <==> Compare(y, x) > 0) <==> !HalfRangeApart(x, y)
    ensures Compare(x, y) == 0 <==> Compare(y, x) == 0
  {
    MinusSwaps(x.node, y.node);
    MinusSwaps(x.elp.pidx, y.elp.pidx);
  }

  lemma MinusSwaps(a: int32, b: int32)
    ensures (Minus(a, b) < 0 <==> Minus(b, a) > 0) <==> !Apart(a, b)
    ensures Minus(a, b) == 0 <==> Minus(b, a) == 0
  {}

  /** The keys are totally ordered. */
  lemma KeyOrder(a: Key, b: Key, c: Key)
    ensures !KeyLess(a, a)
    ensures KeyLess(a, b) || KeyLess(b, a) || a == b
    ensures KeyLess(a, b) ==> !KeyLess(b, a)
    ensures KeyLess(a, b) && KeyLess(b, c) ==> KeyLess(a, c)
  {}

  /** Different keys are always told apart, at least one way, and only keys matter. */
  lemma LessIsTotal(x: Item, y: Item)
    ensures !Less(x, x)
    ensures KeyOf(x) == KeyOf(y) <==> !Less(x, y) && !Less(y, x)
  {
    MinusNegates(x.node, y.node);
    MinusNegates(x.elp.pidx, y.elp.pidx);
  }

  lemma MinusNegates(a: int32, b: int32)
    ensures Minus(a, b) < 0 || Minus(b, a) < 0 <==> a != b
    ensures Minus(a, a) == 0
  {}

  lemma LessLooksAtKeys(x: Item, y: Item, z: Item)
    requires KeyOf(x) == KeyOf(y)
    ensures (Less(x, z) <==> Less(y, z)) && (Less(z, x) <==> Less(z, y))
  {}

  predicate Ring(x: Item, y: Item, z: Item) {
    Less(x, y) && Less(y, z) && Less(z, x)
  }

  /** Three ascending keys, each in range of the next, and the last one out of range of the first. */
  predicate Stretched(x: Item, y: Item, z: Item) {
    && KeyLess(KeyOf(x), KeyOf(y)) && KeyLess(KeyOf(y), KeyOf(z))
    && Comparable(x, y) && Comparable(y, z) && !Comparable(z, x)
  }

  /** Three items are less than each other in a ring exactly when one turn of it is stretched. */
  lemma RingIsStretched(x: Item, y: Item, z: Item)
    ensures Ring(x, y, z) <==> Stretched(x, y, z) || Stretched(y, z, x) || Stretched(z, x, y)
  {
    hide Less, Comparable, KeyLess;
    AscendingRing(x, y, z);
    AscendingRing(y, z, x);
    AscendingRing(z, x, y);
    AscendingRing(x, z, y);
    AscendingRing(z, y, x);
    AscendingRing(y, x, z);
    NoShortRing(x, y, z);
    NoShortRing(y, z, x);
    NoShortRing(z, x, y);
    KeyOrder(KeyOf(x), KeyOf(y), KeyOf(z));
    KeyOrder(KeyOf(y), KeyOf(z), KeyOf(x));
    KeyOrder(KeyOf(z), KeyOf(x), KeyOf(y));
  }

  /** With ascending keys the ring can run one way only. */
  lemma AscendingRing(x: Item, y: Item, z: Item)
    ensures KeyLess(KeyOf(x), KeyOf(y)) && KeyLess(KeyOf(y), KeyOf(z)) ==>
              && (Ring(x, y, z) <==> Comparable(x, y) && Comparable(y, z) && !Comparable(z, x))
              && !(Less(x, z) && Less(z, y) && Less(y, x))
  {
    if KeyLess(KeyOf(x), KeyOf(y)) && KeyLess(KeyOf(y), KeyOf(z)) {
      NotTwiceOutOfRange(x, y, z);
      hide Less, Comparable, KeyLess;
      CompareIsKeyOrder(x, y);
      CompareIsKeyOrder(y, z);
      CompareIsKeyOrder(z, x);
      CompareIsKeyOrder(x, z);
      CompareIsKeyOrder(z, y);
      CompareIsKeyOrder(y, x);
      KeyOrder(KeyOf(x), KeyOf(y), KeyOf(z));
      KeyOrder(KeyOf(y), KeyOf(z), KeyOf(x));
      KeyOrder(KeyOf(x), KeyOf(z), KeyOf(y));
    }
  }

  lemma NotTwiceOutOfRange(x: Item, y: Item, z: Item)
    requires KeyLess(KeyOf(x), KeyOf(y)) && KeyLess(KeyOf(y), KeyOf(z))
    ensures Comparable(z, y) || Comparable(y, x)
  {}

  lemma NoShortRing(x: Item, y: Item, z: Item)
    ensures KeyOf(x) == KeyOf(y) ==> !Ring(x, y, z)
  {
    LessIsTotal(x, y);
  }

  /** There are rings, but each has a negative index. */
  lemma RingsHaveNegativeIndexes()
    ensures exists x, y, z :: Ring(x, y, z)
    ensures forall x, y, z | Ring(x, y, z) :: !(IndexOf(x) >= 0 && IndexOf(y) >= 0 && IndexOf(z) >= 0)
  {
    var p := Point(Edge(-1, -1), -1);
    var x, y, z := Item(true, -0x7000_0000, p), Item(true, 0, p), Item(true, 0x7000_0000, p);
    assert Ring(x, y, z);
    forall x, y, z | Ring(x, y, z)
      ensures !(IndexOf(x) >= 0 && IndexOf(y) >= 0 && IndexOf(z) >= 0)
    {
      RingIsStretched(x, y, z);
    }
  }

  /** The number that comparing with another item subtracts. */
  function IndexOf(x: Item): int32 {
    if x.isNode then x.node else x.elp.pidx
  }

  predicate Equivalent(x: Item, y: Item) {
    !Less(x, y) && !Less(y, x)
  }

  /** What std::set asks of operator< on the items it is used with. */
  ghost predicate StrictWeakOrder(u: set<Item>) {
    && (forall x :: x in u ==> !Less(x, x))
    && (forall x, y, z :: x in u && y in u && z in u && Less(x, y) && Less(y, z) ==> Less(x, z))
    && (forall x, y, z :: x in u && y in u && z in u && Equivalent(x, y) && Equivalent(y, z) ==> Equivalent(x, z))
  }

  /** No two items are half the range apart, and no three are stretched. */
  ghost predicate InRange(u: set<Item>) {
    && (forall x, y :: x in u && y in u ==> !HalfRangeApart(x, y))
    && (forall x, y, z :: x in u && y in u && z in u ==> !Stretched(x, y, z))
  }

  /** operator< is the order that std::set asks for exactly on such items. */
  lemma CompareIsStrictWeakOrder(u: set<Item>)
    ensures StrictWeakOrder(u) <==> InRange(u)
  {
    if InRange(u) {
      InRangeIsOrder(u);
    }
    if StrictWeakOrder(u) {
      forall x, y | x in u && y in u
        ensures !HalfRangeApart(x, y)
      {
        CompareIsAntisymmetric(x, y);
        ApartBothWays(x, y);
      }
      forall x, y, z | x in u && y in u && z in u
        ensures !Stretched(x, y, z)
      {
        hide Less, Stretched, Equivalent;
        RingIsStretched(x, y, z);
      }
    }
  }

  lemma ApartBothWays(x: Item, y: Item)
    ensures HalfRangeApart(x, y) <==> Less(x, y) && Less(y, x)
  {
    MinusApart(x.node, y.node);
    MinusApart(x.elp.pidx, y.elp.pidx);
  }

  lemma MinusApart(a: int32, b: int32)
    ensures Minus(a, b) < 0 && Minus(b, a) < 0 <==> Apart(a, b)
  {}

  lemma InRangeIsOrder(u: set<Item>)
    requires InRange(u)
    ensures StrictWeakOrder(u)
  {
    hide Less, Stretched, HalfRangeApart, Equivalent;
    forall x | x in u
      ensures !Less(x, x)
    {
      LessIsTotal(x, x);
    }
    forall x, y, z | x in u && y in u && z in u && Less(x, y) && Less(y, z)
      ensures Less(x, z)
    {
      ApartBothWays(x, y);
      RingIsStretched(x, y, z);
      LessIsTotal(x, z);
      if KeyOf(x) == KeyOf(z) {
        LessLooksAtKeys(x, z, y);
      }
    }
    forall x, y, z | x in u && y in u && z in u && Equivalent(x, y) && Equivalent(y, z)
      ensures Equivalent(x, z)
    {
      SameKeys(x, y, z);
    }
  }

  lemma SameKeys(x: Item, y: Item, z: Item)
    requires Equivalent(x, y) && Equivalent(y, z)
    ensures Equivalent(x, z)
  {
    hide Less;
    LessIsTotal(x, y);
    LessIsTotal(y, z);
    LessIsTotal(x, z);
  }

  /** The indexes of a graph count from 0: on its items operator< is always such an order, and follows the keys. */
  lemma GraphItemsAreOrdered(u: set<Item>)
    requires forall x :: x in u ==> IndexOf(x) >= 0
    ensures StrictWeakOrder(u)
    ensures forall x, y :: x in u && y in u ==> (Less(x, y) <==> KeyLess(KeyOf(x), KeyOf(y)))
  {
    forall x, y | x in u && y in u
      ensures Comparable(x, y) && !HalfRangeApart(x, y)
    {}
    CompareIsStrictWeakOrder(u);
    forall x, y | x in u && y in u
      ensures Less(x, y) <==> KeyLess(KeyOf(x), KeyOf(y))
    {
      CompareIsKeyOrder(x, y);
    }
  }

  /** The facts about two or three items of an ordered set, one at a time. */
  lemma OrderOf(u: set<Item>, x: Item, y: Item, z: Item)
    requires StrictWeakOrder(u) && x in u && y in u && z in u
    ensures !Less(x, x) && (KeyOf(x) == KeyOf(y) <==> !Less(x, y) && !Less(y, x))
    ensures Less(x, y) ==> !Less(y, x)
    ensures Less(x, y) && Less(y, z) ==> Less(x, z)
    ensures KeyOf(x) == KeyOf(y) ==> (Less(x, z) <==> Less(y, z)) && (Less(z, x) <==> Less(z, y))
  {
    hide Less, Equivalent;
    LessIsTotal(x, y);
    if KeyOf(x) == KeyOf(y) {
      LessLooksAtKeys(x, y, z);
    }
  }

  ghost predicate Sorted(items: seq<Item>) {
    forall i, j :: 0 <= i < j < |items| ==> Less(items[i], items[j])
  }

  ghost predicate Within(items: seq<Item>, u: set<Item>) {
    forall i :: 0 <= i < |items| ==> items[i] in u
  }

  ghost function Keys(items: seq<Item>): set<Key> {
    set i | 0 <= i < |items| :: KeyOf(items[i])
  }

  lemma NoKeys(a: seq<Item>)
    ensures a == [] <==> Keys(a) == {}
  {
    if a != [] {
      assert KeyOf(a[0]) in Keys(a);
    }
  }

  /** A sorted list of ordered items is determined by its keys. */
  lemma {:induction false} SortedIsUnique(u: set<Item>, a: seq<Item>, b: seq<Item>)
    requires StrictWeakOrder(u) && Within(a, u) && Within(b, u)
    requires Sorted(a) && Sorted(b) && Keys(a) == Keys(b)
    ensures |a| == |b| && forall i :: 0 <= i < |a| ==> KeyOf(a[i]) == KeyOf(b[i])
  {
    hide StrictWeakOrder, Less;
    if a == [] || b == [] {
      NoKeys(a);
      NoKeys(b);
    } else {
      SameFirst(u, a, b);
      SameFirst(u, b, a);
      OrderOf(u, a[0], b[0], a[0]);
      KeysOfTail(a);
      KeysOfTail(b);
      SortedIsUnique(u, a[1..], b[1..]);
      forall i | 0 <= i < |a|
        ensures i < |b| && KeyOf(a[i]) == KeyOf(b[i])
      {
        assert i > 0 ==> KeyOf(a[1..][i - 1]) == KeyOf(b[1..][i - 1]);
      }
    }
  }

  lemma SameFirst(u: set<Item>, a: seq<Item>, b: seq<Item>)
    requires StrictWeakOrder(u) && Within(a, u) && Within(b, u)
    requires Sorted(b) && Keys(a) == Keys(b) && a != [] && b != []
    ensures !Less(a[0], b[0])
  {
    hide StrictWeakOrder, Less;
    assert KeyOf(a[0]) in Keys(a);
    var i :| 0 <= i < |b| && KeyOf(b[i]) == KeyOf(a[0]);
    OrderOf(u, b[i], a[0], b[0]);
    OrderOf(u, b[0], b[i], b[0]);
  }

  /** Sorted items have different keys. */
  lemma SortedKeys(a: seq<Item>, i: nat, j: nat)
    requires Sorted(a) && i < |a| && j < |a| && i != j
    ensures KeyOf(a[i]) != KeyOf(a[j])
  {
    LessIsTotal(a[i], a[j]);
  }

  lemma KeysOfTail(a: seq<Item>)
    requires Sorted(a) && a != []
    ensures Keys(a[1..]) == Keys(a) - {KeyOf(a[0])}
  {
    KeysRemove(a, 0);
    assert a[..0] + a[1..] == a[1..];
  }

  lemma KeysInsert(a: seq<Item>, p: nat, x: Item)
    requires p <= |a|
    ensures Keys(a[..p] + [x] + a[p..]) == Keys(a) + {KeyOf(x)}
  {
    var b := a[..p] + [x] + a[p..];
    forall k | k in Keys(a)
      ensures k in Keys(b)
    {
      var i :| 0 <= i < |a| && KeyOf(a[i]) == k;
      assert KeyOf(b[if i < p then i else i + 1]) == k;
    }
    assert KeyOf(b[p]) in Keys(b);
    forall k | k in Keys(b)
      ensures k in Keys(a) + {KeyOf(x)}
    {
      var i :| 0 <= i < |b| && KeyOf(b[i]) == k;
      if i != p {
        assert KeyOf(a[if i < p then i else i - 1]) == k;
      }
    }
  }

  lemma KeysGrow(a: seq<Item>, i: nat)
    requires i < |a|
    ensures Keys(a[..i + 1]) == Keys(a[..i]) + {KeyOf(a[i])}
    ensures KeyOf(a[i]) in Keys(a)
  {
    KeysInsert(a[..i], i, a[i]);
    assert a[..i + 1] == a[..i][..i] + [a[i]] + a[..i][i..];
  }

  lemma KeysRemove(a: seq<Item>, p: nat)
    requires p < |a| && Sorted(a)
    ensures Keys(a[..p] + a[p + 1..]) == Keys(a) - {KeyOf(a[p])}
  {
    hide Less;
    var b := a[..p] + a[p + 1..];
    forall k | k in Keys(a) && k != KeyOf(a[p])
      ensures k in Keys(b)
    {
      var i :| 0 <= i < |a| && KeyOf(a[i]) == k;
      assert KeyOf(b[if i < p then i else i - 1]) == k;
    }
    forall k | k in Keys(b)
      ensures k in Keys(a) && k != KeyOf(a[p])
    {
      var i :| 0 <= i < |b| && KeyOf(b[i]) == k;
      var j := if i < p then i else i + 1;
      assert KeyOf(a[j]) == k;
      SortedKeys(a, j, p);
    }
  }

  /** screen_graph_selection_t: an ordered set of items that only uses operator<. */
  class Selection {
    var items: seq<Item>

    /** Sorted, and all its items are of the ordered set `u`. */
    ghost predicate Valid(u: set<Item>)
      reads this
    {
      StrictWeakOrder(u) && Sorted(items) && Within(items, u)
    }

    constructor ()
      ensures items == []
    {
      items := [];
    }

    /** The first place whose item is not less than `x`, and whether that item is equivalent to it. */
    method LowerBound(x: Item, ghost u: set<Item>) returns (p: nat, found: bool)
      requires Valid(u) && x in u
      ensures p <= |items|
      ensures forall i :: 0 <= i < p ==> Less(items[i], x)
      ensures found <==> p < |items| && KeyOf(items[p]) == KeyOf(x)
      ensures found <==> KeyOf(x) in Keys(items)
      ensures !found ==> forall i :: p <= i < |items| ==> Less(x, items[i])
    {
      hide StrictWeakOrder, Less;
      p := 0;
      while p < |items| && Less(items[p], x)
        invariant p <= |items|
        invariant forall i :: 0 <= i < p ==> Less(items[i], x)
      {
        p := p + 1;
      }
      found := p < |items| && !Less(x, items[p]);
      forall i | 0 <= i < |items|
        ensures i < p || !found ==> KeyOf(items[i]) != KeyOf(x)
        ensures i >= p ==> if found then i == p <==> KeyOf(items[i]) == KeyOf(x) else Less(x, items[i])
      {
        OrderOf(u, items[i], x, x);
        if p < |items| {
          OrderOf(u, items[p], x, items[i]);
          OrderOf(u, x, items[p], items[i]);
        }
      }
    }

    method Has(x: Item, ghost u: set<Item>) returns (found: bool)
      requires Valid(u) && x in u
      ensures found <==> KeyOf(x) in Keys(items)
    {
      var p;
      p, found := LowerBound(x, u);
    }

    method Insert(x: Item, ghost u: set<Item>)
      requires Valid(u) && x in u
      modifies this
      ensures Valid(u) && Keys(items) == old(Keys(items)) + {KeyOf(x)}
      ensures KeyOf(x) in old(Keys(items)) ==> items == old(items)
    {
      hide StrictWeakOrder, Less;
      var p, found := LowerBound(x, u);
      if !found {
        KeysInsert(items, p, x);
        items := items[..p] + [x] + items[p..];
      }
    }

    method Erase(x: Item, ghost u: set<Item>)
      requires Valid(u) && x in u
      modifies this
      ensures Valid(u) && Keys(items) == old(Keys(items)) - {KeyOf(x)}
    {
      hide StrictWeakOrder, Less;
      var p, found := LowerBound(x, u);
      if found {
        KeysRemove(items, p);
        items := items[..p] + items[p + 1..];
      }
    }

    /** add(): the union; a selection added to itself stays the same. */
    method Add(s: Selection, ghost u: set<Item>)
      requires Valid(u) && s.Valid(u)
      modifies this
      ensures Valid(u) && Keys(items) == old(Keys(items)) + old(Keys(s.items))
      ensures s.items == old(s.items)
    {
      hide StrictWeakOrder, Sorted, Keys;
      ghost var added := s.items;
      NoKeys(added[..0]);
      for i := 0 to |s.items|
        invariant Valid(u) && s.items == added && Keys(items) == old(Keys(items)) + Keys(added[..i])
      {
        KeysGrow(added, i);
        Insert(s.items[i], u);
      }
      assert added[..|added|] == added;
    }

    /** sub(): the difference, for another selection. */
    method Sub(s: Selection, ghost u: set<Item>)
      requires s != this && Valid(u) && s.Valid(u)
      modifies this
      ensures Valid(u) && Keys(items) == old(Keys(items)) - Keys(s.items)
    {
      hide StrictWeakOrder, Sorted, Keys;
      NoKeys(s.items[..0]);
      for i := 0 to |s.items|
        invariant Valid(u) && Keys(items) == old(Keys(items)) - Keys(s.items[..i])
      {
        KeysGrow(s.items, i);
        Erase(s.items[i], u);
      }
      assert s.items[..|s.items|] == s.items;
    }
  }
}
