/** What the keyed permutation of a line means for its words. */
module PermuterTheorems {
  import opened Bytes
  import opened WordList
  import opened Shuffle
  import opened Permuter

  /** Reading the new line gives the reordered words: nothing is joined or split by writing in place. */
  lemma OutputWords(text: seq<byte>, key: seq<byte>)
    requires key != []
    ensures Words(Output(text, key)) == Permuted(text, key)
    ensures multiset(Words(Output(text, key))) == multiset(Words(text))
  {
    var ws, out := Words(text), Permuted(text, key);
    WordsAreWords(text);
    ReorderKeepsElements(ws, PinnedCount(ws), key);
    forall w | w in out
      ensures IsWord(w)
    {
      assert w in multiset(out);
      assert w in ws;
    }
    WordsOfJoin(out, NEWLINE);
  }

  /** The words pinned: the last one, if it starts with cw32 in any case, and no other. */
  lemma PinnedExactly(ws: seq<seq<byte>>)
    ensures PinnedCount(ws) <= 1
    ensures PinnedCount(ws) == 1
            <==> ws != [] && exists name :: name in ["cw32", "Cw32", "cW32", "CW32"] && Ascii(name) <= ws[|ws| - 1]
  {
    if ws != [] {
      RuntimeNames(ws[|ws| - 1]);
    }
  }

  lemma RuntimeNames(w: seq<byte>)
    ensures IsRuntime(w) <==> exists name :: name in ["cw32", "Cw32", "cW32", "CW32"] && Ascii(name) <= w
  {
    var names := ["cw32", "Cw32", "cW32", "CW32"];
    assert forall i :: 0 <= i < 4 ==> names[i] in names;
    assert Ascii("cw32") == [99, 119, 51, 50] && Ascii("Cw32") == [67, 119, 51, 50];
    assert Ascii("cW32") == [99, 87, 51, 50] && Ascii("CW32") == [67, 87, 51, 50];
    if IsRuntime(w) {
      var name := if w[0] == 99 then (if w[1] == 119 then names[0] else names[2])
                  else if w[1] == 119 then names[1] else names[3];
      assert w[..4] == Ascii(name);
    }
  }

  /** The words of the line that are not written before step `i`, the pinned one included. */
  function Unwritten(ws: seq<seq<byte>>, pinned: nat, key: seq<byte>, i: nat): (left: seq<seq<byte>>)
    requires key != [] && i + pinned <= |ws|
    ensures |left| == |ws| - i
  {
    if i == 0 then ws
    else
      var before := Unwritten(ws, pinned, key, i - 1);
      var k := key[(i - 1) % |key|] % (|before| - pinned);
      before[..k] + before[k + 1..]
  }

  lemma {:induction false} ReorderFromStart(ws: seq<seq<byte>>, pinned: nat, key: seq<byte>, i: nat)
    requires key != [] && i + pinned <= |ws|
    ensures Reorder(ws, pinned, key) == Reorder(ws, pinned, key)[..i] + ReorderFrom(Unwritten(ws, pinned, key, i), pinned, key, i)
  {
    hide Reorder, ReorderFrom;
    var all := Reorder(ws, pinned, key);
    if i == 0 {
      WholeReorder(ws, pinned, key);
    } else {
      ReorderFromStart(ws, pinned, key, i - 1);
      ReorderStep(Unwritten(ws, pinned, key, i - 1), pinned, key, i - 1);
      var rest := ReorderFrom(Unwritten(ws, pinned, key, i), pinned, key, i);
      assert all[i - 1..] == [all[i - 1]] + rest;
      assert all[i..] == all[i - 1..][1..] == rest;
    }
  }

  lemma WholeReorder(ws: seq<seq<byte>>, pinned: nat, key: seq<byte>)
    requires key != [] && pinned <= |ws|
    ensures Reorder(ws, pinned, key) == ReorderFrom(ws, pinned, key, 0)
  {}

  /** Word `i` of the output is the one at key byte `i`, modulo their number, among the words not pinned and not yet written. */
  lemma OutputPicks(text: seq<byte>, key: seq<byte>, i: nat)
    requires key != [] && i < |Words(text)| - PinnedCount(Words(text))
    ensures var ws := Words(text);
            var out, pinned := Words(Output(text, key)), PinnedCount(ws);
            |out| == |ws| && out[i] == Unwritten(ws, pinned, key, i)[key[i % |key|] % (|ws| - pinned - i)]
  {
    hide Words, Reorder, ReorderFrom, Join;
    var ws := Words(text);
    var pinned := PinnedCount(ws);
    OutputWords(text, key);
    ReorderFromStart(ws, pinned, key, i);
    ReorderStep(Unwritten(ws, pinned, key, i), pinned, key, i);
  }

  /** White space in the output is single spaces between the words, and one newline at the end. */
  lemma OutputBytes(text: seq<byte>, key: seq<byte>, i: nat)
    requires key != [] && i < |Output(text, key)|
    ensures IsSpace(Output(text, key)[i]) ==> Output(text, key)[i] == if i == |Output(text, key)| - 1 then 10 else 32
    ensures Output(text, key)[|Output(text, key)| - 1] == 10
  {
    hide Words, Permuted, Join;
    OutputWords(text, key);
    WordsAreWords(Output(text, key));
    if i < |Output(text, key)| - 1 {
      JoinSpaces(Permuted(text, key), i);
    }
  }

  lemma {:induction false} JoinSpaces(ws: seq<seq<byte>>, i: nat)
    requires AllWords(ws) && i < |Join(ws)|
    ensures IsSpace(Join(ws)[i]) ==> Join(ws)[i] == 32
  {
    assert ws[0] in ws;
    if |ws| > 1 && i > |ws[0]| {
      assert forall w :: w in ws[1..] ==> w in ws;
      JoinSpaces(ws[1..], i - |ws[0]| - 1);
    }
  }

  /** A last word that starts with cw32, in any case, stays last. */
  lemma RuntimeStaysLast(text: seq<byte>, key: seq<byte>)
    requires key != [] && Words(text) != []
    ensures var ws, out := Words(text), Words(Output(text, key));
            |out| == |ws| && (IsRuntime(ws[|ws| - 1]) ==> out[|out| - 1] == ws[|ws| - 1])
  {
    OutputWords(text, key);
  }

  /**
   Position j of the output holds the word at a position that depends only on the number
   of words, the pin and the key.
   */
  lemma OutputFollowsOrder(text: seq<byte>, key: seq<byte>, j: nat)
    requires key != [] && j < |Words(text)|
    ensures var ws := Words(text);
            var o := Order(|ws|, PinnedCount(ws), key);
            |o| == |ws| && o[j] < |ws| && |Words(Output(text, key))| == |ws| && Words(Output(text, key))[j] == ws[o[j]]
  {
    OutputWords(text, key);
    ReorderFollowsOrder(Words(text), PinnedCount(Words(text)), key);
  }

  /** The words can be read back from the output, given the pin and the key. */
  lemma OutputDecodes(text: seq<byte>, key: seq<byte>)
    requires key != []
    ensures PinnedCount(Words(text)) <= |Words(Output(text, key))|
    ensures Restore(Words(Output(text, key)), PinnedCount(Words(text)), key) == Words(text)
  {
    OutputWords(text, key);
    ReorderIsBijection(Words(text), PinnedCount(Words(text)), key);
  }

  /**
   Two lines with the same output have the same words exactly when both or neither are
   pinned. An output that does not end in a cw32 word determines the words alone.
   */
  lemma OutputDetermines(a: seq<byte>, b: seq<byte>, key: seq<byte>)
    requires key != [] && Output(a, key) == Output(b, key)
    ensures Words(a) == Words(b) <==> PinnedCount(Words(a)) == PinnedCount(Words(b))
    ensures var out := Words(Output(a, key));
            (out == [] || !IsRuntime(out[|out| - 1])) ==> Words(a) == Words(b)
  {
    OutputDecodes(a, key);
    OutputDecodes(b, key);
    OutputWords(a, key);
    OutputWords(b, key);
  }

  lemma ReorderPair<T>(x: T, y: T, key: seq<byte>)
    requires key == [1]
    ensures Reorder([x, y], 0, key) == [y, x]
    ensures Reorder([x, y], 1, key) == [x, y]
  {
    DrawSingle(x, key, 0);
    DrawSingle(x, key, 1);
    assert [x, y][..2] == [x, y] && [x, y][..1] == [x];
    assert Pick(key, 0, 2) == 1 && RemoveAt([x, y], 1) == [x];
  }

  lemma DrawSingle<T>(x: T, key: seq<byte>, i: nat)
    requires key != []
    ensures Draw([x], key, i) == [x]
  {
    assert RemoveAt([x], 0) == [];
  }

  /** With key byte 1, "cw32 a" and "a cw32" both become "a cw32": the output alone does not tell the pin. */
  lemma PinIsNotInOutput()
    ensures var c, a := [99, 119, 51, 50], [97];
            && Output(c + [SPACE] + a, [1]) == Output(a + [SPACE] + c, [1])
            && Words(c + [SPACE] + a) == [c, a] && Words(a + [SPACE] + c) == [a, c]
  {
    var c: seq<byte>, a: seq<byte> := [99, 119, 51, 50], [97];
    assert IsWord(a) && IsWord(c) && IsRuntime(c) && !IsRuntime(a);
    hide Words, IsWord, IsRuntime, Reorder, Join;
    WordsSplit(c, SPACE, a);
    WordsSplit(a, SPACE, c);
    WordsOfWord(a);
    WordsOfWord(c);
    ReorderPair(c, a, [1]);
    ReorderPair(a, c, [1]);
  }
}
