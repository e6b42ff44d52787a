/** The arguments in a command line, as the tokenizer of run() cuts them. */
module CommandTokens {
  import opened Bytes

  /**
   One argument: the blanks before it, its opening quote if any, its text, and the byte that
   ends it (none at the end of the line). That byte is the one overwritten with NUL.
   */
  datatype Item = Item(gap: seq<byte>, open: seq<byte>, text: seq<byte>, close: seq<byte>)

  datatype Tokens = End(blanks: seq<byte>) | Next(item: Item, rest: Tokens)

  function BlankLength(s: seq<byte>): (n: nat)
    ensures n <= |s| && (forall i :: 0 <= i < n ==> IsBlank(s[i])) && (n < |s| ==> !IsBlank(s[n]))
  {
    if s == [] || !IsBlank(s[0]) then 0 else 1 + BlankLength(s[1..])
  }

  function BareLength(s: seq<byte>): (n: nat)
    ensures n <= |s| && (forall i :: 0 <= i < n ==> !IsBlank(s[i])) && (n < |s| ==> IsBlank(s[n]))
  {
    if s == [] || IsBlank(s[0]) then 0 else 1 + BareLength(s[1..])
  }

  function QuotedLength(s: seq<byte>, lim: byte): (n: nat)
    ensures n <= |s| && (forall i :: 0 <= i < n ==> s[i] != lim) && (n < |s| ==> s[n] == lim)
  {
    if s == [] || s[0] == lim then 0 else 1 + QuotedLength(s[1..], lim)
  }

  /** Cuts the line after `g` blanks and `q` quotes, `n` bytes of text and the byte that ends it. */
  function CutItem(s: seq<byte>, g: nat, q: nat, n: nat): (it: Item)
    requires g + q + n <= |s|
    ensures |ItemBytes(it)| == g + q + n + |it.close| <= |s|
  {
    Item(s[..g], s[g..g + q], s[g + q..g + q + n], if g + q + n < |s| then [s[g + q + n]] else [])
  }

  /** A quote opens a text that ends at the next such quote; any other byte starts a text that ends at a blank. */
  function FirstItem(s: seq<byte>): (it: Item)
    requires BlankLength(s) < |s|
    ensures 0 < |ItemBytes(it)| <= |s|
  {
    var g := BlankLength(s);
    if IsQuote(s[g]) then CutItem(s, g, 1, QuotedLength(s[g + 1..], s[g]))
    else CutItem(s, g, 0, BareLength(s[g..]))
  }

  function ItemBytes(it: Item): seq<byte> {
    it.gap + it.open + it.text + it.close
  }

  function Parse(s: seq<byte>): Tokens
    decreases |s|
  {
    if BlankLength(s) == |s| then End(s)
    else
      var it := FirstItem(s);
      Next(it, Parse(s[|ItemBytes(it)|..]))
  }

  function Render(t: Tokens): seq<byte> {
    match t
    case End(blanks) => blanks
    case Next(it, rest) => ItemBytes(it) + Render(rest)
  }

  function Texts(t: Tokens): seq<seq<byte>> {
    match t
    case End(_) => []
    case Next(it, rest) => [it.text] + Texts(rest)
  }

  /** A bare text is not empty, has no blank, does not start with a quote and ends at a blank or the end. */
  predicate IsBare(it: Item) {
    && it.open == []
    && it.text != [] && NoBlank(it.text) && !IsQuote(it.text[0])
    && (it.close == [] || (|it.close| == 1 && IsBlank(it.close[0])))
  }

  /** A quoted text is any text without its own quote and ends at that quote or the end. */
  predicate IsQuoted(it: Item) {
    && |it.open| == 1 && IsQuote(it.open[0])
    && it.open[0] !in it.text
    && (it.close == [] || it.close == it.open)
  }

  predicate GoodItem(it: Item) {
    AllBlank(it.gap) && (IsBare(it) || IsQuoted(it))
  }

  predicate WellFormed(t: Tokens) {
    match t
    case End(blanks) => AllBlank(blanks)
    case Next(it, rest) =>
      && GoodItem(it)
      && (it.close == [] ==> rest == End([]))
      && WellFormed(rest)
  }

  /** Cutting loses nothing: the items put together are the line. */
  lemma {:induction false} RenderParse(s: seq<byte>)
    ensures Render(Parse(s)) == s && WellFormed(Parse(s))
    decreases |s|
  {
    if BlankLength(s) == |s| {
      assert s[..|s|] == s;
    } else {
      var it := FirstItem(s);
      var rest := s[|ItemBytes(it)|..];
      RenderParse(rest);
      FirstItemGood(s);
    }
  }

  lemma CutItemBytes(s: seq<byte>, g: nat, q: nat, n: nat)
    requires g + q + n <= |s|
    ensures var it := CutItem(s, g, q, n);
            && ItemBytes(it) + s[|ItemBytes(it)|..] == s
            && (it.close == [] ==> |ItemBytes(it)| == |s|)
  {}

  lemma QuotedItemGood(s: seq<byte>, g: nat, n: nat)
    requires g < |s| && IsQuote(s[g]) && n == QuotedLength(s[g + 1..], s[g])
    ensures IsQuoted(CutItem(s, g, 1, n))
  {
    var it := CutItem(s, g, 1, n);
    var body := s[g + 1..];
    assert it.open == [s[g]];
    forall i | 0 <= i < n
      ensures it.text[i] != s[g]
    {
      assert it.text[i] == body[i];
    }
    if n < |body| {
      assert it.close == [body[n]];
    }
  }

  lemma BareItemGood(s: seq<byte>, g: nat, n: nat)
    requires g < |s| && !IsQuote(s[g]) && !IsBlank(s[g]) && n == BareLength(s[g..])
    ensures IsBare(CutItem(s, g, 0, n))
  {
    var it := CutItem(s, g, 0, n);
    var body := s[g..];
    assert body[0] == s[g];
    forall i | 0 <= i < n
      ensures it.text[i] == body[i]
    {}
    if n < |body| {
      assert it.close == [body[n]];
    }
  }

  lemma FirstItemGood(s: seq<byte>)
    requires BlankLength(s) < |s|
    ensures var it := FirstItem(s);
            && GoodItem(it)
            && (it.close == [] ==> |ItemBytes(it)| == |s|)
            && ItemBytes(it) + s[|ItemBytes(it)|..] == s
  {
    var g := BlankLength(s);
    assert AllBlank(s[..g]);
    hide BlankLength, QuotedLength, BareLength, IsQuoted, IsBare, ItemBytes, AllBlank;
    if IsQuote(s[g]) {
      var n := QuotedLength(s[g + 1..], s[g]);
      CutItemBytes(s, g, 1, n);
      QuotedItemGood(s, g, n);
    } else {
      var n := BareLength(s[g..]);
      CutItemBytes(s, g, 0, n);
      BareItemGood(s, g, n);
    }
  }

  /**
   The first argument in bytes. Blanks before it are spaces and tabs. A text behind a quote, double (34) or
   single (39), goes up to the next such quote or the end of the line; any other text goes up to a space or
   tab or the end. The ending byte, if any, belongs to the item.
   */
  lemma FirstItemInBytes(s: seq<byte>)
    requires BlankLength(s) < |s|
    ensures var it := FirstItem(s);
            && s == it.gap + it.open + it.text + it.close + s[|ItemBytes(it)|..]
            && (forall b :: b in it.gap ==> b == 32 || b == 9)
            && (it.close == [] ==> |ItemBytes(it)| == |s|)
            && if it.open == [] then
                 && it.text != [] && it.text[0] !in [34, 39]
                 && (forall b :: b in it.text ==> b != 32 && b != 9)
                 && it.close in [[], [32], [9]]
               else
                 && it.open in [[34], [39]] && it.open[0] !in it.text
                 && it.close in [[], it.open]
  {
    hide BlankLength, FirstItem;
    FirstItemGood(s);
    var it := FirstItem(s);
    if IsBare(it) {
      BareInBytes(it);
    } else {
      QuotedInBytes(it);
    }
  }

  lemma BareInBytes(it: Item)
    requires IsBare(it)
    ensures it.close in [[], [32], [9]] && it.text[0] !in [34, 39]
  {
    if it.close != [] {
      assert it.close == [it.close[0]];
    }
    var ends: seq<seq<byte>> := [[], [32], [9]];
    assert ends[0] == [] && ends[1] == [32] && ends[2] == [9];
    assert it.close == ends[0] || it.close == ends[1] || it.close == ends[2];
  }

  lemma QuotedInBytes(it: Item)
    requires IsQuoted(it)
    ensures it.open in [[34], [39]] && it.close in [[], it.open]
  {
    assert it.open == [it.open[0]];
    var opens: seq<seq<byte>> := [[34], [39]];
    assert it.open == opens[0] || it.open == opens[1];
    var ends := [[], it.open];
    assert it.close == ends[0] || it.close == ends[1];
  }

  /** The cut is the only one: every well-formed way to lay out items in a line is found again. */
  lemma {:induction false} ParseRender(t: Tokens)
    requires WellFormed(t)
    ensures Parse(Render(t)) == t
  {
    match t
    case End(blanks) =>
      BlankLengthIs(blanks, |blanks|);
    case Next(it, rest) =>
      FirstItemIs(it, Render(rest));
      ParseRender(rest);
      assert (ItemBytes(it) + Render(rest))[|ItemBytes(it)|..] == Render(rest);
  }

  lemma BlankLengthIs(s: seq<byte>, n: nat)
    requires n <= |s| && (forall i :: 0 <= i < n ==> IsBlank(s[i])) && (n < |s| ==> !IsBlank(s[n]))
    ensures BlankLength(s) == n
  {}

  lemma BareLengthIs(s: seq<byte>, n: nat)
    requires n <= |s| && (forall i :: 0 <= i < n ==> !IsBlank(s[i])) && (n < |s| ==> IsBlank(s[n]))
    ensures BareLength(s) == n
  {}

  lemma QuotedLengthIs(s: seq<byte>, lim: byte, n: nat)
    requires n <= |s| && (forall i :: 0 <= i < n ==> s[i] != lim) && (n < |s| ==> s[n] == lim)
    ensures QuotedLength(s, lim) == n
  {}

  lemma CutItemIs(it: Item, rest: seq<byte>)
    requires |it.close| <= 1 && (it.close == [] ==> rest == [])
    ensures CutItem(ItemBytes(it) + rest, |it.gap|, |it.open|, |it.text|) == it
  {
    hide ItemBytes;
    ItemSlices(it, rest);
    ItemEnd(it, rest);
  }

  lemma ItemSlices(it: Item, rest: seq<byte>)
    ensures var s, g, q := ItemBytes(it) + rest, |it.gap|, |it.gap| + |it.open|;
            && q + |it.text| <= |s|
            && s[..g] == it.gap && s[g..q] == it.open && s[q..q + |it.text|] == it.text
  {
    ItemParts(it, rest);
    var s, q := ItemBytes(it) + rest, |it.gap| + |it.open|;
    var tail := it.text + (it.close + rest);
    assert tail[..|it.text|] == it.text;
    assert s[q..q + |it.text|] == s[q..][..|it.text|];
  }

  lemma ItemEnd(it: Item, rest: seq<byte>)
    requires |it.close| <= 1 && (it.close == [] ==> rest == [])
    ensures var s, n := ItemBytes(it) + rest, |it.gap| + |it.open| + |it.text|;
            it.close == if n < |s| then [s[n]] else []
  {
    var head := it.gap + it.open + it.text;
    assert ItemBytes(it) + rest == head + (it.close + rest);
  }

  lemma ItemParts(it: Item, rest: seq<byte>)
    ensures var s := ItemBytes(it) + rest;
            var g := |it.gap|;
            && s[..g] == it.gap && s[g..g + |it.open|] == it.open
            && s[g + |it.open|..] == it.text + (it.close + rest)
  {}

  lemma QuotedItemIs(it: Item, s: seq<byte>, after: seq<byte>)
    requires AllBlank(it.gap) && IsQuoted(it) && |s| > |it.gap|
    requires s[..|it.gap|] == it.gap && s[|it.gap|..|it.gap| + 1] == it.open
    requires s[|it.gap| + 1..] == it.text + after && (after == [] || after[0] == it.open[0])
    ensures BlankLength(s) == |it.gap| && s[|it.gap|] == it.open[0]
    ensures QuotedLength(s[|it.gap| + 1..], it.open[0]) == |it.text|
  {
    assert s[|it.gap|] == s[|it.gap|..|it.gap| + 1][0];
    assert forall i :: 0 <= i < |it.gap| ==> s[i] == s[..|it.gap|][i];
    BlankLengthIs(s, |it.gap|);
    QuotedLengthIs(it.text + after, it.open[0], |it.text|);
  }

  lemma BareItemIs(it: Item, s: seq<byte>, after: seq<byte>)
    requires AllBlank(it.gap) && IsBare(it) && |s| > |it.gap|
    requires s[..|it.gap|] == it.gap
    requires s[|it.gap|..] == it.text + after && (after == [] || IsBlank(after[0]))
    ensures BlankLength(s) == |it.gap| && s[|it.gap|] == it.text[0]
    ensures BareLength(s[|it.gap|..]) == |it.text|
  {
    assert s[|it.gap|] == (it.text + after)[0];
    assert forall i :: 0 <= i < |it.gap| ==> s[i] == s[..|it.gap|][i];
    BlankLengthIs(s, |it.gap|);
    BareLengthIs(it.text + after, |it.text|);
  }

  /** The first item is determined by its form and by ending the line if it has no end of its own. */
  lemma FirstItemIs(it: Item, rest: seq<byte>)
    requires GoodItem(it) && (it.close == [] ==> rest == [])
    ensures var s := ItemBytes(it) + rest;
            BlankLength(s) < |s| && FirstItem(s) == it
  {
    hide CutItem, ItemBytes, BlankLength, QuotedLength, BareLength, AllBlank;
    CutItemIs(it, rest);
    ItemParts(it, rest);
    var s := ItemBytes(it) + rest;
    if IsQuoted(it) {
      QuotedItemIs(it, s, it.close + rest);
    } else {
      BareItemIs(it, s, it.close + rest);
    }
  }

  /** Where the text of argument `k` starts. */
  function Offset(t: Tokens, k: nat): nat
    requires k < |Texts(t)|
  {
    if k == 0 then |t.item.gap| + |t.item.open|
    else |ItemBytes(t.item)| + Offset(t.rest, k - 1)
  }

  /** The item with its closing byte overwritten. */
  function CutBytes(it: Item): (s: seq<byte>)
    ensures |s| == |ItemBytes(it)|
  {
    it.gap + it.open + it.text + seq(|it.close|, _ => NUL)
  }

  /** The line after its first `m` arguments were ended with NUL. */
  function Cut(t: Tokens, m: nat): (s: seq<byte>)
    requires m <= |Texts(t)|
    ensures |s| == |Render(t)|
  {
    if m == 0 then Render(t) else CutBytes(t.item) + Cut(t.rest, m - 1)
  }

  /** What is left after `k` arguments. */
  function Drop(t: Tokens, k: nat): (r: Tokens)
    requires k <= |Texts(t)|
    ensures |Texts(t)| == k + |Texts(r)|
  {
    if k == 0 then t else Drop(t.rest, k - 1)
  }

  /** The first `k` items, cut. */
  function CutPrefix(t: Tokens, k: nat): seq<byte>
    requires k <= |Texts(t)|
  {
    if k == 0 then [] else CutBytes(t.item) + CutPrefix(t.rest, k - 1)
  }

  lemma {:induction false} CutAt(t: Tokens, k: nat)
    requires k <= |Texts(t)|
    ensures Cut(t, k) == CutPrefix(t, k) + Render(Drop(t, k))
    ensures Drop(t, k).Next? ==>
              && Drop(t, k + 1) == Drop(t, k).rest
              && CutPrefix(t, k + 1) == CutPrefix(t, k) + CutBytes(Drop(t, k).item)
              && Offset(t, k) == |CutPrefix(t, k)| + |Drop(t, k).item.gap| + |Drop(t, k).item.open|
  {
    hide CutBytes, ItemBytes;
    if k > 0 {
      CutAt(t.rest, k - 1);
    }
  }

  /** Arguments come in order and never touch: the ending byte of each lies before the next. */
  lemma {:induction false} OffsetsIncrease(t: Tokens, k: nat)
    requires WellFormed(t) && k < |Texts(t)|
    ensures Offset(t, k) + |Texts(t)[k]| <= |Render(t)|
    ensures k + 1 < |Texts(t)| ==> Offset(t, k) + |Texts(t)[k]| < Offset(t, k + 1)
  {
    hide ItemBytes, GoodItem;
    if k == 0 {
      FirstOffset(t.item, t.rest);
    } else {
      OffsetsIncrease(t.rest, k - 1);
    }
  }

  /** Every argument is the part of the original line at its offset. */
  lemma {:induction false} OffsetSlice(t: Tokens, k: nat)
    requires WellFormed(t) && k < |Texts(t)|
    ensures Offset(t, k) + |Texts(t)[k]| <= |Render(t)|
    ensures Render(t)[Offset(t, k)..Offset(t, k) + |Texts(t)[k]|] == Texts(t)[k]
  {
    hide ItemBytes, GoodItem;
    if k == 0 {
      FirstOffset(t.item, t.rest);
    } else {
      OffsetSlice(t.rest, k - 1);
      var from := Offset(t.rest, k - 1);
      SliceOfConcat(ItemBytes(t.item), Render(t.rest), from, from + |Texts(t.rest)[k - 1]|);
    }
  }

  lemma FirstOffset(it: Item, rest: Tokens)
    requires WellFormed(Next(it, rest))
    ensures var s, from := ItemBytes(it) + Render(rest), |it.gap| + |it.open|;
            && from + |it.text| <= |s| && s[from..from + |it.text|] == it.text
            && |ItemBytes(it)| == from + |it.text| + |it.close|
            && (rest.Next? ==> |it.close| == 1)
  {}

  lemma NulFreeParts(it: Item, rest: seq<byte>)
    requires NulFree(ItemBytes(it) + rest)
    ensures NulFree(it.text) && NulFree(rest)
  {
    var all := ItemBytes(it) + rest;
    assert all[|it.gap + it.open|..|it.gap + it.open| + |it.text|] == it.text;
    assert all[|ItemBytes(it)|..] == rest;
  }

  /** In the cut line, the C string at the offset of an argument is that argument. */
  lemma {:induction false} CutHolds(t: Tokens, m: nat, k: nat, after: seq<byte>)
    requires WellFormed(t) && NulFree(Render(t)) && k < m <= |Texts(t)|
    ensures HoldsText(Cut(t, m) + [NUL] + after, Offset(t, k), Texts(t)[k])
  {
    hide Cut, HoldsText, CutBytes, GoodItem, ItemBytes, NulFree;
    var it := t.item;
    var tail := Cut(t.rest, m - 1) + [NUL] + after;
    NulFreeParts(it, Render(t.rest));
    CutSplit(t, m, after);
    if k == 0 {
      CutEnds(it, t.rest, m, after);
      HoldsWritten(CutBytes(it) + tail, it.gap + it.open, it.text);
      assert |it.gap + it.open| == |it.gap| + |it.open|;
    } else {
      CutHolds(t.rest, m - 1, k - 1, after);
      HoldsShifted(tail, CutBytes(it), Offset(t.rest, k - 1), Texts(t.rest)[k - 1]);
    }
  }

  lemma CutSplit(t: Tokens, m: nat, after: seq<byte>)
    requires 0 < m <= |Texts(t)|
    ensures Cut(t, m) + [NUL] + after == CutBytes(t.item) + (Cut(t.rest, m - 1) + [NUL] + after)
  {
    hide CutBytes;
  }

  lemma CutEnds(it: Item, rest: Tokens, m: nat, after: seq<byte>)
    requires WellFormed(Next(it, rest)) && 0 < m <= |Texts(rest)| + 1
    ensures it.gap + it.open + it.text + [NUL] <= CutBytes(it) + (Cut(rest, m - 1) + [NUL] + after)
  {
    if it.close == [] {
      assert Cut(rest, m - 1) == [];
      assert CutBytes(it) == it.gap + it.open + it.text;
    } else {
      assert seq(|it.close|, _ => NUL) == [NUL];
    }
  }

  lemma CutItemKeeps(it: Item, i: nat)
    requires (IsBare(it) || IsQuoted(it)) && i < |ItemBytes(it)|
    ensures CutBytes(it)[i] == ItemBytes(it)[i]
            || (CutBytes(it)[i] == NUL && (IsBlank(ItemBytes(it)[i]) || IsQuote(ItemBytes(it)[i]))
                && i == |it.gap| + |it.open| + |it.text|)
  {
    if i >= |it.gap + it.open + it.text| {
      assert ItemBytes(it)[i] == it.close[0];
    }
  }

  /** Cutting overwrites nothing but the closing byte of each argument, a blank or a quote. */
  lemma {:induction false} CutKeeps(t: Tokens, m: nat, i: nat)
    requires WellFormed(t) && m <= |Texts(t)| && i < |Render(t)|
    ensures Cut(t, m)[i] == Render(t)[i]
            || (Cut(t, m)[i] == NUL && (IsBlank(Render(t)[i]) || IsQuote(Render(t)[i]))
                && exists k :: 0 <= k < m && i == Offset(t, k) + |Texts(t)[k]|)
  {
    if m > 0 {
      var head := |ItemBytes(t.item)|;
      hide CutBytes, IsBare, IsQuoted;
      if i >= head {
        CutKeeps(t.rest, m - 1, i - head);
        if Cut(t, m)[i] != Render(t)[i] {
          var k :| 0 <= k < m - 1 && i - head == Offset(t.rest, k) + |Texts(t.rest)[k]|;
          assert i == Offset(t, k + 1) + |Texts(t)[k + 1]|;
        }
      } else {
        CutItemKeeps(t.item, i);
        assert Offset(t, 0) + |Texts(t)[0]| == |t.item.gap| + |t.item.open| + |t.item.text|;
      }
    }
  }
}
