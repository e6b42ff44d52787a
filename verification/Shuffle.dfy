/** The keyed order that permutate chooses, on plain sequences. */
module Shuffle {
  import opened Bytes

  /** The choice of step `i` among `m` remaining words: key byte `i`, the key repeated for ever. */
  function Pick(key: seq<byte>, i: nat, m: nat): (k: nat)
    requires key != [] && m > 0
    ensures k < m
  {
    key[i % |key|] % m
  }

  function RemoveAt<T>(s: seq<T>, k: nat): (r: seq<T>)
    requires k < |s|
    ensures |r| == |s| - 1
  {
    s[..k] + s[k + 1..]
  }

  function InsertAt<T>(s: seq<T>, k: nat, x: T): seq<T>
    requires k <= |s|
  {
    s[..k] + [x] + s[k..]
  }

  /** Repeatedly take the picked element out, from step `i` on. */
  function Draw<T>(s: seq<T>, key: seq<byte>, i: nat): (r: seq<T>)
    requires key != []
    ensures |r| == |s|
    decreases |s|
  {
    if s == [] then []
    else
      var k := Pick(key, i, |s|);
      [s[k]] + Draw(RemoveAt(s, k), key, i + 1)
  }

  /** Undo `Draw`: put the elements back, last one first. */
  function Undraw<T>(r: seq<T>, key: seq<byte>, i: nat): (s: seq<T>)
    requires key != []
    ensures |s| == |r|
  {
    if r == [] then []
    else InsertAt(Undraw(r[1..], key, i + 1), Pick(key, i, |r|), r[0])
  }

  /** The last `pinned` elements stay in place, the others are drawn from step `i` on. */
  function ReorderFrom<T>(s: seq<T>, pinned: nat, key: seq<byte>, i: nat): (r: seq<T>)
    requires key != [] && pinned <= |s|
    ensures |r| == |s|
  {
    Draw(s[..|s| - pinned], key, i) + s[|s| - pinned..]
  }

  function Reorder<T>(s: seq<T>, pinned: nat, key: seq<byte>): (r: seq<T>)
    requires key != [] && pinned <= |s|
    ensures |r| == |s|
  {
    ReorderFrom(s, pinned, key, 0)
  }

  function Restore<T>(r: seq<T>, pinned: nat, key: seq<byte>): (s: seq<T>)
    requires key != [] && pinned <= |r|
    ensures |s| == |r|
  {
    Undraw(r[..|r| - pinned], key, 0) + r[|r| - pinned..]
  }

  function Iota(n: nat): (s: seq<nat>)
    ensures |s| == n && forall i :: 0 <= i < n ==> s[i] == i
  {
    seq(n, i => i)
  }

  /** Position `j` of the output comes from position `Order(n, pinned, key)[j]` of the input. */
  function Order(n: nat, pinned: nat, key: seq<byte>): seq<nat>
    requires key != [] && pinned <= n
  {
    Reorder(Iota(n), pinned, key)
  }

  lemma InsertRemove<T>(s: seq<T>, k: nat)
    requires k < |s|
    ensures InsertAt(RemoveAt(s, k), k, s[k]) == s
  {}

  lemma RemoveInsert<T>(s: seq<T>, k: nat, x: T)
    requires k <= |s|
    ensures RemoveAt(InsertAt(s, k, x), k) == s
  {}

  lemma {:induction false} UndrawDraw<T>(s: seq<T>, key: seq<byte>, i: nat)
    requires key != []
    ensures Undraw(Draw(s, key, i), key, i) == s
    decreases |s|
  {
    if s != [] {
      var k := Pick(key, i, |s|);
      var rest := RemoveAt(s, k);
      UndrawDraw(rest, key, i + 1);
      var r := Draw(s, key, i);
      assert r[1..] == Draw(rest, key, i + 1);
      assert Undraw(r, key, i) == InsertAt(rest, k, s[k]);
      InsertRemove(s, k);
    }
  }

  lemma {:induction false} DrawUndraw<T>(r: seq<T>, key: seq<byte>, i: nat)
    requires key != []
    ensures Draw(Undraw(r, key, i), key, i) == r
  {
    if r != [] {
      var k := Pick(key, i, |r|);
      DrawUndraw(r[1..], key, i + 1);
      var rest := Undraw(r[1..], key, i + 1);
      assert Undraw(r, key, i) == InsertAt(rest, k, r[0]);
      RemoveInsert(rest, k, r[0]);
    }
  }

  /** Reordering is a bijection on the lists of each length, with `Restore` as its inverse. */
  lemma ReorderIsBijection<T>(s: seq<T>, pinned: nat, key: seq<byte>)
    requires key != [] && pinned <= |s|
    ensures Restore(Reorder(s, pinned, key), pinned, key) == s
    ensures Reorder(Restore(s, pinned, key), pinned, key) == s
  {
    var n := |s| - pinned;
    UndrawDraw(s[..n], key, 0);
    DrawUndraw(s[..n], key, 0);
    assert Reorder(s, pinned, key)[..n] == Draw(s[..n], key, 0);
    assert Restore(s, pinned, key)[..n] == Undraw(s[..n], key, 0);
    assert s == s[..n] + s[n..];
  }

  /** One step of the loop: the element at key byte `i`, modulo what is left to choose from, leaves the list; the pinned tail stays. */
  lemma ReorderStep<T>(s: seq<T>, pinned: nat, key: seq<byte>, i: nat)
    requires key != [] && pinned < |s|
    ensures var k := key[i % |key|] % (|s| - pinned);
            ReorderFrom(s, pinned, key, i) == [s[k]] + ReorderFrom(s[..k] + s[k + 1..], pinned, key, i + 1)
  {
    var n := |s| - pinned;
    var k := Pick(key, i, n);
    var rest := RemoveAt(s, k);
    assert rest[..n - 1] == RemoveAt(s[..n], k);
    assert rest[n - 1..] == s[n..];
  }

  lemma {:induction false} DrawKeepsElements<T>(s: seq<T>, key: seq<byte>, i: nat)
    requires key != []
    ensures multiset(Draw(s, key, i)) == multiset(s)
    decreases |s|
  {
    if s != [] {
      var k := Pick(key, i, |s|);
      DrawKeepsElements(RemoveAt(s, k), key, i + 1);
      assert s == s[..k] + [s[k]] + s[k + 1..];
    }
  }

  /** Every element is output as often as it was input. */
  lemma ReorderKeepsElements<T>(s: seq<T>, pinned: nat, key: seq<byte>)
    requires key != [] && pinned <= |s|
    ensures multiset(Reorder(s, pinned, key)) == multiset(s)
  {
    var n := |s| - pinned;
    DrawKeepsElements(s[..n], key, 0);
    assert s == s[..n] + s[n..];
  }

  predicate Below(positions: seq<nat>, n: nat) {
    forall j :: 0 <= j < |positions| ==> positions[j] < n
  }

  /** The elements of `s` at the given positions. */
  function At<T>(s: seq<T>, positions: seq<nat>): (r: seq<T>)
    requires Below(positions, |s|)
    ensures |r| == |positions|
    ensures forall j :: 0 <= j < |r| ==> r[j] == s[positions[j]]
  {
    seq(|positions|, j requires 0 <= j < |positions| => s[positions[j]])
  }

  lemma BelowSameElements(p: seq<nat>, q: seq<nat>, n: nat)
    requires Below(p, n) && multiset(q) == multiset(p)
    ensures Below(q, n)
  {
    forall j | 0 <= j < |q|
      ensures q[j] < n
    {
      assert q[j] in multiset(q);
      assert q[j] in p;
    }
  }

  lemma AtRemove<T>(s: seq<T>, positions: seq<nat>, k: nat)
    requires Below(positions, |s|) && k < |positions|
    ensures Below(RemoveAt(positions, k), |s|)
    ensures At(s, RemoveAt(positions, k)) == RemoveAt(At(s, positions), k)
  {}

  lemma AtCons<T>(s: seq<T>, p: nat, positions: seq<nat>)
    requires p < |s| && Below(positions, |s|)
    ensures Below([p] + positions, |s|)
    ensures At(s, [p] + positions) == [s[p]] + At(s, positions)
  {}

  lemma AtConcat<T>(s: seq<T>, p: seq<nat>, q: seq<nat>)
    requires Below(p, |s|) && Below(q, |s|)
    ensures Below(p + q, |s|)
    ensures At(s, p + q) == At(s, p) + At(s, q)
  {}

  /** Drawing looks at positions only: it commutes with looking the elements up. */
  lemma {:induction false} DrawAt<T>(s: seq<T>, positions: seq<nat>, key: seq<byte>, i: nat)
    requires key != [] && Below(positions, |s|)
    ensures Below(Draw(positions, key, i), |s|)
    ensures Draw(At(s, positions), key, i) == At(s, Draw(positions, key, i))
    decreases |positions|
  {
    if positions != [] {
      var k := Pick(key, i, |positions|);
      var rest := RemoveAt(positions, k);
      AtRemove(s, positions, k);
      DrawAt(s, rest, key, i + 1);
      AtCons(s, positions[k], Draw(rest, key, i + 1));
    }
  }

  /**
   The order depends on nothing but the count, the pinned tail and the key: it is a
   permutation of the positions, and the output is the input read in that order.
   */
  lemma ReorderFollowsOrder<T>(s: seq<T>, pinned: nat, key: seq<byte>)
    requires key != [] && pinned <= |s|
    ensures multiset(Order(|s|, pinned, key)) == multiset(Iota(|s|))
    ensures Below(Order(|s|, pinned, key), |s|)
    ensures Reorder(s, pinned, key) == At(s, Order(|s|, pinned, key))
  {
    hide Draw, Pick;
    var n := |s| - pinned;
    var o := Order(|s|, pinned, key);
    ReorderKeepsElements(Iota(|s|), pinned, key);
    BelowSameElements(Iota(|s|), o, |s|);
    var free, tail := Iota(|s|)[..n], Iota(|s|)[n..];
    DrawAt(s, free, key, 0);
    AtConcat(s, Draw(free, key, 0), tail);
    assert At(s, free) == s[..n] && At(s, tail) == s[n..];
  }
}
