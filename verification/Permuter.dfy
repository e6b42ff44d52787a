/** extract_words and permutate: the in-place keyed permutation of the words of a line. */
module Permuter {
  import opened Bytes
  import opened Division
  import opened WordList
  import opened Shuffle

  const MAX_WORDS: nat := 1024

  /** A string obtained from malloc(). */
  class Block {
    const text: seq<byte>

    constructor (text: seq<byte>)
      ensures this.text == text
    {
      this.text := text;
    }
  }

  /** The allocator. Only live blocks may be read or freed. */
  class Heap {
    ghost var live: set<Block>

    method Malloc(text: seq<byte>) returns (b: Block)
      modifies this
      ensures fresh(b) && b.text == text
      ensures live == old(live) + {b}
    {
      b := new Block(text);
      live := live + {b};
    }

    method Load(b: Block) returns (text: seq<byte>)
      requires b in live
      ensures text == b.text
    {
      text := b.text;
    }

    method Free(b: Block)
      requires b in live
      modifies this
      ensures live == old(live) - {b}
    {
      live := live - {b};
    }
  }

  function Texts(blocks: seq<Block>): (r: seq<seq<byte>>)
    ensures |r| == |blocks|
    ensures forall k :: 0 <= k < |r| ==> r[k] == blocks[k].text
  {
    seq(|blocks|, k requires 0 <= k < |blocks| => blocks[k].text)
  }

  ghost predicate Distinct(blocks: seq<Block>) {
    forall j, k :: 0 <= j < k < |blocks| ==> blocks[j] != blocks[k]
  }

  ghost function Elements(blocks: seq<Block>): set<Block> {
    set b | b in blocks
  }

  function Lower(b: byte): byte {
    if 65 <= b <= 90 then b + 32 else b
  }

  /** strnicmp(w, "cw32", 4) == 0 */
  predicate IsRuntime(w: seq<byte>) {
    |w| >= 4 && Lower(w[0]) == 99 && Lower(w[1]) == 119 && w[2] == 51 && w[3] == 50
  }

  /** How many words at the end keep their place: const_files. */
  function PinnedCount(ws: seq<seq<byte>>): (c: nat)
    ensures c <= |ws|
  {
    if ws != [] && IsRuntime(ws[|ws| - 1]) then 1 else 0
  }

  /** The order in which the words of `text` are written back. */
  function Permuted(text: seq<byte>, key: seq<byte>): seq<seq<byte>>
    requires key != []
  {
    Reorder(Words(text), PinnedCount(Words(text)), key)
  }

  /** What permutate leaves in the line. */
  function Output(text: seq<byte>, key: seq<byte>): seq<byte>
    requires key != []
  {
    Join(Permuted(text, key)) + [NEWLINE]
  }

  lemma {:induction false} SumLengthsConcat(a: seq<seq<byte>>, b: seq<seq<byte>>)
    ensures SumLengths(a + b) == SumLengths(a) + SumLengths(b)
  {
    if a == [] {
      assert a + b == b;
    } else {
      SumLengthsConcat(a[1..], b);
      assert (a + b)[1..] == a[1..] + b;
    }
  }

  lemma {:induction false} DrawKeepsLength(ws: seq<seq<byte>>, key: seq<byte>, i: nat)
    requires key != []
    ensures SumLengths(Draw(ws, key, i)) == SumLengths(ws)
    decreases |ws|
  {
    if ws != [] {
      var k := Pick(key, i, |ws|);
      DrawKeepsLength(RemoveAt(ws, k), key, i + 1);
      SumLengthsConcat(ws[..k], ws[k + 1..]);
      SumLengthsConcat(ws[..k], ws[k..]);
      assert ws == ws[..k] + ws[k..];
    }
  }

  /**
   The new line is the joined words and a newline. So it fits in the place of the old
   one unless that was tight, and then it is one byte longer.
   */
  lemma OutputLength(text: seq<byte>, key: seq<byte>)
    requires key != []
    ensures |Output(text, key)| == |Join(Words(text))| + 1
    ensures |Output(text, key)| <= |text| + 1
    ensures |Output(text, key)| == |text| + 1 <==> Tight(text)
  {
    var ws := Words(text);
    var n := |ws| - PinnedCount(ws);
    DrawKeepsLength(ws[..n], key, 0);
    SumLengthsConcat(ws[..n], ws[n..]);
    SumLengthsConcat(Draw(ws[..n], key, 0), ws[n..]);
    assert ws == ws[..n] + ws[n..];
    JoinLength(ws);
    JoinLength(Permuted(text, key));
    JoinedLength(text);
  }

  /**
   `ok` is false where the program reports too many words and exits. `blocks` are the
   new strings, in the order of the first `n` slots.
   */
  method ExtractWords(heap: Heap, mem: array<byte>, at: nat, ghost text: seq<byte>,
                      words: array<Block?>, maxWords: nat)
    returns (n: nat, ok: bool, ghost blocks: seq<Block>)
    requires HoldsText(mem[..], at, text) && maxWords <= words.Length
    modifies heap, words
    ensures ok <==> |Words(text)| <= maxWords
    ensures n == |blocks| <= maxWords && forall k :: 0 <= k < n ==> words[k] == blocks[k]
    ensures Distinct(blocks) && fresh(Elements(blocks))
    ensures heap.live == old(heap.live) + Elements(blocks)
    ensures ok ==> Texts(blocks) == Words(text)
    ensures !ok ==> n == maxWords && Texts(blocks) == Words(text)[..maxWords]
  {
    hide *;
    var ptr := at;
    n, blocks := 0, [];
    NoBlocks();
    assert text[0..] == text;
    while true
      invariant at <= ptr <= at + |text|
      invariant n == |blocks| <= maxWords && forall k :: 0 <= k < n ==> words[k] == blocks[k]
      invariant Distinct(blocks) && fresh(Elements(blocks))
      invariant heap.live == old(heap.live) + Elements(blocks)
      invariant Words(text) == Texts(blocks) + Words(text[ptr - at..])
      invariant mem[..] == old(mem[..])
      decreases at + |text| - ptr
    {
      ptr := SkipSpaces(mem, at, text, ptr);
      if mem[ptr] == NUL {
        ok := true;
        break;
      }
      if n >= maxWords {
        ok := false;
        break;
      }
      var b;
      ptr, b := ExtractWord(heap, mem, at, text, ptr);
      words[n] := b;
      n := n + 1;
      BlocksAppend(blocks, b);
      blocks := blocks + [b];
    }
  }

  lemma NoBlocks()
    ensures Distinct([]) && Elements([]) == {} && Texts([]) == []
  {}

  lemma BlocksAppend(blocks: seq<Block>, b: Block)
    ensures Texts(blocks + [b]) == Texts(blocks) + [b.text]
    ensures Elements(blocks + [b]) == Elements(blocks) + {b}
    ensures Distinct(blocks) && b !in Elements(blocks) ==> Distinct(blocks + [b])
  {
    assert forall x :: x in blocks ==> x in Elements(blocks);
  }

  lemma WordsOfRest(text: seq<byte>, from: nat)
    requires from <= |text| && (from < |text| ==> !IsSpace(text[from]))
    ensures Words(text[from..]) == [] <==> from == |text|
  {}

  method SkipSpaces(mem: array<byte>, at: nat, ghost text: seq<byte>, from: nat) returns (ptr: nat)
    requires HoldsText(mem[..], at, text) && at <= from <= at + |text|
    ensures from <= ptr <= at + |text| < mem.Length
    ensures Words(text[ptr - at..]) == Words(text[from - at..])
    ensures mem[ptr] == NUL <==> Words(text[ptr - at..]) == []
    ensures mem[ptr] != NUL ==> ptr < at + |text| && !IsSpace(text[ptr - at])
  {
    ptr := from;
    HoldsByte(mem[..], at, text, ptr - at);
    while IsSpace(mem[ptr])
      invariant from <= ptr <= at + |text|
      invariant mem[ptr] == NUL <==> ptr == at + |text|
      invariant ptr < at + |text| ==> mem[ptr] == text[ptr - at]
      invariant Words(text[ptr - at..]) == Words(text[from - at..])
      decreases at + |text| - ptr
    {
      assert text[ptr - at..][1..] == text[ptr + 1 - at..];
      ptr := ptr + 1;
      HoldsByte(mem[..], at, text, ptr - at);
    }
    WordsOfRest(text, ptr - at);
  }

  method ExtractWord(heap: Heap, mem: array<byte>, at: nat, ghost text: seq<byte>, from: nat)
    returns (ptr: nat, b: Block)
    requires HoldsText(mem[..], at, text) && at <= from < at + |text|
    requires !IsSpace(text[from - at])
    modifies heap
    ensures from < ptr <= at + |text|
    ensures fresh(b) && heap.live == old(heap.live) + {b}
    ensures Words(text[from - at..]) == [b.text] + Words(text[ptr - at..])
  {
    ptr := from;
    ghost var rest := text[from - at..];
    HoldsByte(mem[..], at, text, ptr - at);
    while !IsSpace(mem[ptr]) && mem[ptr] != NUL
      invariant from <= ptr <= at + |text|
      invariant mem[ptr] == NUL <==> ptr == at + |text|
      invariant ptr < at + |text| ==> mem[ptr] == text[ptr - at] == rest[ptr - from]
      invariant forall k :: 0 <= k < ptr - from ==> !IsSpace(rest[k])
      invariant mem[from..ptr] == rest[..ptr - from]
      invariant heap.live == old(heap.live)
      decreases at + |text| - ptr
    {
      assert mem[from..ptr + 1] == mem[from..ptr] + [mem[ptr]];
      ptr := ptr + 1;
      HoldsByte(mem[..], at, text, ptr - at);
    }
    WordLengthIs(rest, ptr - from);
    assert rest[ptr - from..] == text[ptr - at..];
    b := heap.Malloc(mem[from..ptr]);
  }

  /** The cursor into the NUL-terminated key after `i` bytes were taken from it. */
  ghost function KeyCursor(key: seq<byte>, i: nat): nat
    requires key != []
  {
    if i == 0 then 0 else (i - 1) % |key| + 1
  }

  lemma KeyCursorStep(key: seq<byte>, i: nat)
    requires key != []
    ensures KeyCursor(key, i) <= |key|
    ensures KeyCursor(key, i) == |key| ==> i % |key| == 0
    ensures KeyCursor(key, i) < |key| ==> i % |key| == KeyCursor(key, i)
  {
    if i > 0 {
      NextRemainder(i - 1, |key|);
    }
  }

  /** *ud++, wrapping to the start of the key at its terminator. */
  method NextKeyByte(user: array<byte>, ghost key: seq<byte>, ghost i: nat, cursor: nat)
    returns (x: byte, ud: nat)
    requires key != [] && HoldsText(user[..], 0, key)
    requires cursor == KeyCursor(key, i)
    ensures x == key[i % |key|] && ud == KeyCursor(key, i + 1)
  {
    KeyCursorStep(key, i);
    HoldsByte(user[..], 0, key, cursor);
    HoldsByte(user[..], 0, key, 0);
    ud := cursor;
    x := user[ud];
    ud := ud + 1;
    if x == NUL {
      ud := 0;
      x := user[ud];
      ud := ud + 1;
    }
  }

  /**
   Before step `i` the blocks still to be written are in the first slots. Closing a gap
   never overwrites slot n-1, so a pinned block fills all slots from n-1-i to n-1.
   */
  ghost predicate Slots(words: array<Block?>, blocks: seq<Block>, pinned: nat, i: nat, rest: seq<Block>)
    requires pinned <= 1 && pinned <= |blocks| && i <= |blocks| <= words.Length
    reads words
  {
    && |rest| == |blocks| - i
    && (forall k :: 0 <= k < |rest| ==> words[k] == rest[k])
    && (pinned == 1 && i < |blocks| ==>
          forall k :: |rest| - 1 <= k < |blocks| ==> words[k] == blocks[|blocks| - 1])
  }

  /** The order still to be written at step `i`; the pinned word is gone after the last step. */
  ghost function Remaining(rest: seq<Block>, pinned: nat, key: seq<byte>, i: nat): seq<seq<byte>>
    requires key != []
  {
    if |rest| < pinned then [] else ReorderFrom(Texts(rest), pinned, key, i)
  }

  /** The index in `rest` of the block that step `i` writes. */
  ghost function NextIndex(rest: seq<Block>, pinned: nat, key: seq<byte>, i: nat): (k: nat)
    requires key != [] && rest != []
    ensures k < |rest|
  {
    if |rest| > pinned then Pick(key, i, |rest| - pinned) else 0
  }

  lemma RemainingStep(rest: seq<Block>, pinned: nat, key: seq<byte>, i: nat)
    requires key != [] && rest != [] && pinned <= 1
    ensures var k := NextIndex(rest, pinned, key, i);
            Remaining(rest, pinned, key, i)
            == [rest[k].text] + Remaining(RemoveAt(rest, k), pinned, key, i + 1)
  {
    if |rest| > pinned {
      RemainingDrawn(rest, pinned, key, i);
    } else {
      RemainingPinned(rest, key, i);
    }
  }

  lemma RemainingDrawn(rest: seq<Block>, pinned: nat, key: seq<byte>, i: nat)
    requires key != [] && |rest| > pinned
    ensures var k := Pick(key, i, |rest| - pinned);
            Remaining(rest, pinned, key, i)
            == [rest[k].text] + Remaining(RemoveAt(rest, k), pinned, key, i + 1)
  {
    var k := Pick(key, i, |rest| - pinned);
    ReorderStep(Texts(rest), pinned, key, i);
    assert Texts(RemoveAt(rest, k)) == RemoveAt(Texts(rest), k);
  }

  lemma RemainingPinned(rest: seq<Block>, key: seq<byte>, i: nat)
    requires key != [] && |rest| == 1
    ensures Remaining(rest, 1, key, i) == [rest[0].text] + Remaining(RemoveAt(rest, 0), 1, key, i + 1)
  {
    var t := Texts(rest);
    assert t[..0] == [] && t[0..] == t == [rest[0].text];
    assert Draw(t[..0], key, i) == [];
  }

  lemma RemainingStart(blocks: seq<Block>, text: seq<byte>, key: seq<byte>)
    requires key != [] && Texts(blocks) == Words(text)
    ensures [] + Remaining(blocks, PinnedCount(Words(text)), key, 0) == Permuted(text, key)
  {}

  lemma RemoveBlock(rest: seq<Block>, k: nat)
    requires k < |rest| && Distinct(rest)
    ensures Distinct(RemoveAt(rest, k))
    ensures Elements(RemoveAt(rest, k)) == Elements(rest) - {rest[k]}
  {
    var r := RemoveAt(rest, k);
    forall b | b in rest && b != rest[k]
      ensures b in r
    {
      var j :| 0 <= j < |rest| && rest[j] == b;
      assert r[if j < k then j else j - 1] == b;
    }
  }

  /** Besides the blocks of others, exactly the blocks of `rest` are live. */
  ghost predicate Owned(live: set<Block>, others: set<Block>, rest: seq<Block>) {
    Distinct(rest) && others !! Elements(rest) && live == others + Elements(rest)
  }

  lemma FreeStep(live: set<Block>, others: set<Block>, rest: seq<Block>, k: nat)
    requires k < |rest| && Owned(live, others, rest)
    ensures rest[k] in live
    ensures Owned(live - {rest[k]}, others, RemoveAt(rest, k))
  {
    RemoveBlock(rest, k);
    assert rest[k] in Elements(rest);
  }

  lemma PermutedNulFree(text: seq<byte>, key: seq<byte>)
    requires key != [] && NulFree(text)
    ensures forall w :: w in Permuted(text, key) ==> NulFree(w)
  {
    var ws := Words(text);
    WordsAreWords(text);
    ReorderKeepsElements(ws, PinnedCount(ws), key);
    forall w | w in Permuted(text, key)
      ensures NulFree(w)
    {
      assert w in multiset(Permuted(text, key));
      assert w in ws;
    }
  }

  /** The separating space, strcpy() and strchr(ptr, 0). */
  method WriteWord(mem: array<byte>, at: nat, separate: bool, word: seq<byte>) returns (ptr: nat)
    requires NulFree(word) && at + (if separate then 1 else 0) + |word| < mem.Length
    modifies mem
    ensures ptr == at + (if separate then 1 else 0) + |word|
    ensures mem[..ptr] == old(mem[..at]) + (if separate then [SPACE] else []) + word
    ensures forall k :: ptr < k < mem.Length ==> mem[k] == old(mem[k])
  {
    ptr := at;
    if separate {
      mem[ptr] := SPACE;
      ptr := ptr + 1;
    }
    assert mem[..ptr] == old(mem[..at]) + (if separate then [SPACE] else []);
    ptr := CopyText(mem, ptr, word);
    assert forall k :: ptr < k < mem.Length ==> mem[k] == mem[ptr + 1..][k - ptr - 1];
  }

  /**
   The line at `at` becomes its words in the keyed order, joined by spaces and ended by a
   newline. Every string allocated on the way is freed, and only live strings are read.
   A line that is already tight needs one more byte of room. With too many words the program
   exits; `lost` are the strings then allocated.
   */
  method Permutate(heap: Heap, mem: array<byte>, at: nat, ghost text: seq<byte>,
                   user: array<byte>, ghost key: seq<byte>)
    returns (ok: bool, ghost lost: seq<Block>)
    requires HoldsText(mem[..], at, text)
    requires user != mem && HoldsText(user[..], 0, key) && key != []
    requires Tight(text) && |Words(text)| <= MAX_WORDS ==> at + |text| + 1 < mem.Length
    modifies heap, mem
    ensures ok <==> |Words(text)| <= MAX_WORDS
    ensures !ok ==> mem[..] == old(mem[..])
    ensures heap.live == old(heap.live) + Elements(lost) && fresh(Elements(lost)) && Distinct(lost)
    ensures Texts(lost) == if ok then [] else Words(text)[..MAX_WORDS]
    ensures ok ==> var end := at + |Output(text, key)|;
                   && end < mem.Length
                   && mem[..] == old(mem[..at]) + Output(text, key) + [NUL] + old(mem[end + 1..])
  {
    hide Words, Join, Permuted, Texts;
    var words := new Block?[MAX_WORDS](_ => null);
    var n;
    ghost var blocks;
    n, ok, blocks := ExtractWords(heap, mem, at, text, words, MAX_WORDS);
    lost := blocks;
    if !ok {
      return;
    }
    var constFiles := 0;
    if n > 0 {
      var last := heap.Load(words[n - 1]);
      if IsRuntime(last) {
        constFiles := 1;
      }
    }
    assert constFiles == PinnedCount(Words(text));
    OutputLength(text, key);
    PermutedNulFree(text, key);
    assert user[..] == old(user[..]);
    var ptr := WritePermuted(heap, mem, at, text, user, key, words, n, constFiles, blocks);
    assert mem[ptr + 2..] == old(mem[ptr + 2..]);
    ghost var line := mem[..ptr];
    EndLine(mem, ptr);
    assert line + [NEWLINE] == old(mem[..at]) + Output(text, key);
    lost := [];
    NoBlocks();
  }

  /**
   One step: write the selected word, free it and close its gap. The memmove() leaves the
   last slot as it is.
   */
  method MoveWord(heap: Heap, mem: array<byte>, at: nat, words: array<Block?>, n: nat, idx: nat, i: nat,
                  ghost blocks: seq<Block>, ghost pinned: nat, ghost key: seq<byte>, ghost rest: seq<Block>)
    returns (ptr: nat)
    requires n == |blocks| <= words.Length && pinned <= 1 && i < n && |rest| == n - i
    requires key != [] && Slots(words, blocks, pinned, i, rest)
    requires if i < n - pinned then idx == NextIndex(rest, pinned, key, i) < n - pinned - i else idx == i
    requires words[idx] == rest[NextIndex(rest, pinned, key, i)]
    requires words[idx] in heap.live && NulFree(words[idx].text)
    requires at + (if i != 0 then 1 else 0) + |words[idx].text| < mem.Length
    modifies heap, mem, words
    ensures Slots(words, blocks, pinned, i + 1, RemoveAt(rest, NextIndex(rest, pinned, key, i)))
    ensures heap.live == old(heap.live) - {old(words[idx])}
    ensures ptr == at + (if i != 0 then 1 else 0) + |old(words[idx]).text|
    ensures mem[..ptr] == old(mem[..at]) + (if i != 0 then [SPACE] else []) + old(words[idx]).text
    ensures forall k :: ptr < k < mem.Length ==> mem[k] == old(mem[k])
  {
    var word := heap.Load(words[idx]);
    ptr := WriteWord(mem, at, i != 0, word);
    heap.Free(words[idx]);
    forall k | idx <= k < n - 1 {
      words[k] := words[k + 1];
    }
  }

  method EndLine(mem: array<byte>, ptr: nat)
    requires ptr + 1 < mem.Length
    modifies mem
    ensures mem[..] == old(mem[..ptr]) + [NEWLINE] + [NUL] + old(mem[ptr + 2..])
  {
    mem[ptr] := NEWLINE;
    mem[ptr + 1] := NUL;
  }

  /** The choice of a step: a drawn slot, or slot `i` for the pinned word. */
  method SelectWord(user: array<byte>, ghost key: seq<byte>, words: array<Block?>, n: nat, constFiles: nat,
                    i: nat, cursor: nat, ghost blocks: seq<Block>, ghost rest: seq<Block>)
    returns (idx: nat, ud: nat)
    requires HoldsText(user[..], 0, key) && key != []
    requires n == |blocks| <= words.Length && constFiles <= 1 && i < n && |rest| == n - i
    requires Slots(words, blocks, constFiles, i, rest)
    requires i <= n - constFiles ==> cursor == KeyCursor(key, i)
    ensures if i < n - constFiles then idx < n - constFiles - i else idx == i
    ensures i + 1 <= n - constFiles ==> ud == KeyCursor(key, i + 1)
    ensures words[idx] == rest[NextIndex(rest, constFiles, key, i)]
    ensures i < n - constFiles ==> idx == NextIndex(rest, constFiles, key, i)
    ensures i < n - constFiles ==> idx == key[i % |key|] % (n - constFiles - i)
  {
    idx, ud := i, cursor;
    if i < n - constFiles {
      var x;
      x, ud := NextKeyByte(user, key, i, ud);
      idx := x % (n - constFiles - i);
    } else {
      assert words[0] == rest[0];
    }
  }

  /** The loop of permutate. */
  method WritePermuted(heap: Heap, mem: array<byte>, at: nat, ghost text: seq<byte>,
                       user: array<byte>, ghost key: seq<byte>, words: array<Block?>,
                       n: nat, constFiles: nat, ghost blocks: seq<Block>)
    returns (ptr: nat)
    requires user != mem && HoldsText(user[..], 0, key) && key != []
    requires n == |blocks| <= words.Length && constFiles <= 1 && constFiles <= n
    requires forall k :: 0 <= k < n ==> words[k] == blocks[k]
    requires Distinct(blocks) && Elements(blocks) <= heap.live
    requires Texts(blocks) == Words(text) && constFiles == PinnedCount(Words(text))
    requires forall w :: w in Permuted(text, key) ==> NulFree(w)
    requires at + |Join(Permuted(text, key))| + 1 < mem.Length
    modifies heap, mem, words
    ensures heap.live == old(heap.live) - Elements(blocks)
    ensures ptr == at + |Join(Permuted(text, key))|
    ensures mem[..ptr] == old(mem[..at]) + Join(Permuted(text, key))
    ensures forall k :: ptr < k < mem.Length ==> mem[k] == old(mem[k])
  {
    hide *;
    ghost var order := Permuted(text, key);
    ghost var others := heap.live - Elements(blocks);
    ghost var head := mem[..at];
    ghost var written: seq<seq<byte>>, rest, line := [], blocks, head;
    ptr := at;
    var ud := 0;
    ProgressStarts(text, key, heap.live, head, blocks);
    SlotsStart(words, blocks, constFiles);
    for i := 0 to n
      invariant user[..] == old(user[..])
      invariant ptr == |line| && ptr + 1 < mem.Length && mem[..ptr] == line
      invariant forall k :: ptr < k < mem.Length ==> mem[k] == old(mem[k])
      invariant |rest| == n - i && Slots(words, blocks, constFiles, i, rest)
      invariant Progress(order, key, constFiles, others, heap.live, head, i, written, rest, line)
      invariant i <= n - constFiles ==> ud == KeyCursor(key, i)
    {
      var idx;
      idx, ud := SelectWord(user, key, words, n, constFiles, i, ud, blocks, rest);
      ghost var longer := Step(order, key, constFiles, others, heap.live, head, i, written, rest, line);
      ghost var k := NextIndex(rest, constFiles, key, i);
      ptr := MoveWord(heap, mem, ptr, words, n, idx, i, blocks, constFiles, key, rest);
      line, written, rest := longer, written + [rest[k].text], RemoveAt(rest, k);
    }
    NothingLeft(order, key, constFiles, others, heap.live, head, n, written, rest, line);
  }

  lemma ProgressStarts(text: seq<byte>, key: seq<byte>, live: set<Block>, head: seq<byte>, blocks: seq<Block>)
    requires key != [] && Texts(blocks) == Words(text) && Distinct(blocks) && Elements(blocks) <= live
    ensures Progress(Permuted(text, key), key, PinnedCount(Words(text)), live - Elements(blocks), live,
                     head, 0, [], blocks, head)
    ensures KeyCursor(key, 0) == 0
  {
    RemainingStart(blocks, text, key);
  }

  lemma SlotsStart(words: array<Block?>, blocks: seq<Block>, pinned: nat)
    requires pinned <= 1 && pinned <= |blocks| <= words.Length
    requires forall k :: 0 <= k < |blocks| ==> words[k] == blocks[k]
    ensures Slots(words, blocks, pinned, 0, blocks)
  {}

  /** What the loop keeps about the words written, the blocks left and the text of the line so far. */
  ghost predicate Progress(order: seq<seq<byte>>, key: seq<byte>, pinned: nat, others: set<Block>, live: set<Block>,
                           head: seq<byte>, i: nat, written: seq<seq<byte>>, rest: seq<Block>, line: seq<byte>)
  {
    && key != [] && pinned <= 1 && |written| == i
    && order == written + Remaining(rest, pinned, key, i)
    && Owned(live, others, rest)
    && line == head + Join(written)
  }

  lemma Step(order: seq<seq<byte>>, key: seq<byte>, pinned: nat, others: set<Block>, live: set<Block>,
             head: seq<byte>, i: nat, written: seq<seq<byte>>, rest: seq<Block>, line: seq<byte>)
    returns (longer: seq<byte>)
    requires Progress(order, key, pinned, others, live, head, i, written, rest, line) && rest != []
    requires key != []
    ensures var k := NextIndex(rest, pinned, key, i);
            && rest[k] in live && rest[k].text in order
            && longer == line + (if i != 0 then [SPACE] else []) + rest[k].text
            && |longer| <= |head| + |Join(order)|
            && Progress(order, key, pinned, others, live - {rest[k]}, head, i + 1,
                        written + [rest[k].text], RemoveAt(rest, k), longer)
  {
    var k := NextIndex(rest, pinned, key, i);
    hide NextIndex, Remaining, Owned;
    RemainingStep(rest, pinned, key, i);
    FreeStep(live, others, rest, k);
    longer := AppendedLine(order, head, written, rest[k].text, Remaining(RemoveAt(rest, k), pinned, key, i + 1), line);
  }

  lemma NothingLeft(order: seq<seq<byte>>, key: seq<byte>, pinned: nat, others: set<Block>, live: set<Block>,
                    head: seq<byte>, i: nat, written: seq<seq<byte>>, rest: seq<Block>, line: seq<byte>)
    requires Progress(order, key, pinned, others, live, head, i, written, rest, line) && |rest| == 0
    ensures live == others && line == head + Join(order)
  {
    assert Remaining(rest, pinned, key, i) == [];
    assert order == written + [] == written;
  }

  lemma AppendedLine(order: seq<seq<byte>>, head: seq<byte>, written: seq<seq<byte>>, word: seq<byte>,
                     left: seq<seq<byte>>, line: seq<byte>)
    returns (longer: seq<byte>)
    requires order == written + ([word] + left)
    requires line == head + Join(written)
    ensures order == (written + [word]) + left && word in order
    ensures longer == line + (if |written| != 0 then [SPACE] else []) + word == head + Join(written + [word])
    ensures |longer| <= |head| + |Join(order)|
  {
    hide Join;
    assert order == (written + [word]) + left;
    assert word == order[|written|];
    JoinPrefix(written + [word], left);
    JoinAppend(written, word);
    longer := line + (if |written| != 0 then [SPACE] else []) + word;
  }
}
