/** The command line that main() assembles, and when the tokenizer reads it back. */
module CommandLine {
  import opened Bytes
  import opened CommandTokens

  /** requires_quotes() */
  predicate RequiresQuotes(name: seq<byte>) {
    SPACE in name || QUOT in name
  }

  function EscapeByte(c: byte): seq<byte> {
    if c == QUOT then [BACKSLASH, c] else [c]
  }

  /** Every double quote gets a backslash before it. */
  function Escape(name: seq<byte>): seq<byte> {
    if name == [] then [] else EscapeByte(name[0]) + Escape(name[1..])
  }

  /** What copy_exe_name() leaves in the line. */
  function ExeName(linker: seq<byte>): seq<byte> {
    (if RequiresQuotes(linker) then [QUOT] + Escape(linker) + [QUOT] else linker) + [SPACE]
  }

  /** Each piece behind a space. */
  function Spaced(pieces: seq<seq<byte>>): seq<byte> {
    if pieces == [] then [] else [SPACE] + (pieces[0] + Spaced(pieces[1..]))
  }

  function LineOf(linker: seq<byte>, pieces: seq<seq<byte>>): seq<byte> {
    ExeName(linker) + Spaced(pieces)
  }

  /** The linker names that survive quoting and cutting. */
  predicate GoodLinker(linker: seq<byte>) {
    && linker != [] && QUOT !in linker
    && (SPACE in linker || (TAB !in linker && linker[0] != APOS))
  }

  predicate GoodArg(a: seq<byte>) {
    a != [] && NoBlank(a) && !IsQuote(a[0])
  }

  predicate GoodArgs(pieces: seq<seq<byte>>) {
    forall i :: 0 <= i < |pieces| ==> GoodArg(pieces[i])
  }

  function QuotedCount(t: Tokens): nat {
    match t
    case End(_) => 0
    case Next(it, rest) => (if it.open == [] then 0 else 1) + QuotedCount(rest)
  }

  /** How many quotes, single or double, a text has. */
  function Quotes(s: seq<byte>): nat {
    if s == [] then 0 else (if IsQuote(s[0]) then 1 else 0) + Quotes(s[1..])
  }

  function QuotesIn(texts: seq<seq<byte>>): nat {
    if texts == [] then 0 else Quotes(texts[0]) + QuotesIn(texts[1..])
  }

  lemma {:induction false} QuotesConcat(a: seq<byte>, b: seq<byte>)
    ensures Quotes(a + b) == Quotes(a) + Quotes(b)
  {
    if a == [] {
      assert a + b == b;
    } else {
      QuotesConcat(a[1..], b);
      assert (a + b)[1..] == a[1..] + b;
    }
  }

  lemma {:induction false} QuotesInConcat(a: seq<seq<byte>>, b: seq<seq<byte>>)
    ensures QuotesIn(a + b) == QuotesIn(a) + QuotesIn(b)
  {
    if a == [] {
      assert a + b == b;
    } else {
      QuotesInConcat(a[1..], b);
      assert (a + b)[1..] == a[1..] + b;
    }
  }

  lemma ItemQuotes(it: Item)
    requires GoodItem(it)
    ensures Quotes(ItemBytes(it)) >= Quotes(it.text) + (if it.open == [] then 0 else 1)
  {
    QuotesConcat(it.gap + it.open + it.text, it.close);
    QuotesConcat(it.gap + it.open, it.text);
    QuotesConcat(it.gap, it.open);
  }

  /** Every quote in an argument is a quote of the line, and so is every quote that opens one. */
  lemma {:induction false} QuotesConserved(t: Tokens)
    requires WellFormed(t)
    ensures Quotes(Render(t)) >= QuotesIn(Texts(t)) + QuotedCount(t)
  {
    if t.Next? {
      hide ItemBytes, GoodItem;
      QuotesConserved(t.rest);
      ItemQuotes(t.item);
      QuotesConcat(ItemBytes(t.item), Render(t.rest));
      assert Texts(t)[1..] == Texts(t.rest);
    }
  }

  /** A line that starts with a well-formed item is cut after it. */
  lemma ItemInFront(it: Item, s: seq<byte>)
    requires GoodItem(it) && (it.close == [] ==> s == [])
    ensures Parse(ItemBytes(it) + s) == Next(it, Parse(s))
  {
    hide FirstItem, BlankLength, GoodItem, ItemBytes;
    FirstItemIs(it, s);
    assert (ItemBytes(it) + s)[|ItemBytes(it)|..] == s;
  }

  lemma BlanksInFront(b: byte, blanks: seq<byte>)
    requires IsBlank(b) && BlankLength(blanks) == |blanks|
    ensures Texts(Parse([b] + blanks)) == []
  {
    var s := [b] + blanks;
    assert forall i :: 0 < i < |s| ==> s[i] == blanks[i - 1];
    hide Texts;
    BlankLengthIs(s, |s|);
    assert Parse(s) == End(s);
    NoTexts(s);
  }

  lemma NoTexts(blanks: seq<byte>)
    ensures Texts(End(blanks)) == []
  {}

  /** An item with one more blank before it. */
  function Widen(b: byte, it: Item): Item {
    Item([b] + it.gap, it.open, it.text, it.close)
  }

  lemma WidenGood(b: byte, it: Item, rest: seq<byte>)
    requires IsBlank(b) && GoodItem(it)
    ensures GoodItem(Widen(b, it))
    ensures [b] + (ItemBytes(it) + rest) == ItemBytes(Widen(b, it)) + rest
  {
    assert AllBlank([b] + it.gap);
  }

  /** A blank in front of a line changes no argument. */
  lemma BlankInFront(b: byte, s: seq<byte>)
    requires IsBlank(b)
    ensures Texts(Parse([b] + s)) == Texts(Parse(s))
    ensures Parse([b] + s).Next? ==> Parse([b] + s).item.gap != []
  {
    hide FirstItem, BlankLength, GoodItem, ItemBytes;
    if BlankLength(s) == |s| {
      BlanksInFront(b, s);
    } else {
      var it := FirstItem(s);
      var rest := s[|ItemBytes(it)|..];
      FirstItemGood(s);
      ItemInFront(it, rest);
      WidenGood(b, it, rest);
      ItemInFront(Widen(b, it), rest);
    }
  }

  lemma {:induction false} SpacedQuotes(pieces: seq<seq<byte>>)
    ensures Quotes(Spaced(pieces)) == QuotesIn(pieces)
  {
    if pieces != [] {
      SpacedQuotes(pieces[1..]);
      QuotesConcat([SPACE], pieces[0] + Spaced(pieces[1..]));
      QuotesConcat(pieces[0], Spaced(pieces[1..]));
    }
  }

  lemma SpacedAppend(pieces: seq<seq<byte>>, more: seq<seq<byte>>)
    ensures Spaced(pieces + more) == Spaced(pieces) + Spaced(more)
  {
    if pieces == [] {
      assert pieces + more == more;
    } else {
      SpacedAppend(pieces[1..], more);
      assert (pieces + more)[1..] == pieces[1..] + more;
      Associate([SPACE], pieces[0] + Spaced(pieces[1..]), Spaced(more));
      Associate(pieces[0], Spaced(pieces[1..]), Spaced(more));
    }
  }

  lemma EndingArg(a: seq<byte>, s: seq<byte>) returns (it: Item, rest: seq<byte>)
    requires GoodArg(a) && (s == [] || IsBlank(s[0]))
    ensures GoodItem(it) && it.text == a && (it.close == [] ==> rest == [])
    ensures ItemBytes(it) + rest == a + s
    ensures if s == [] then rest == [] else s == [s[0]] + rest
  {
    rest := if s == [] then [] else s[1..];
    it := Item([], [], a, if s == [] then [] else [s[0]]);
    assert s == it.close + rest;
  }

  /** A good argument is read back, and what follows it is read on its own. */
  lemma ArgInFront(a: seq<byte>, s: seq<byte>)
    requires GoodArg(a) && (s == [] || IsBlank(s[0]))
    ensures Texts(Parse(a + s)) == [a] + Texts(Parse(s))
  {
    hide FirstItem, BlankLength, GoodItem, ItemBytes, GoodArg;
    var it, rest := EndingArg(a, s);
    ItemInFront(it, rest);
    if s != [] {
      BlankInFront(s[0], rest);
    }
  }

  lemma {:induction false} GoodArgsReadBack(pieces: seq<seq<byte>>, s: seq<byte>)
    requires GoodArgs(pieces) && (s == [] || IsBlank(s[0]))
    ensures Texts(Parse(Spaced(pieces) + s)) == pieces + Texts(Parse(s))
  {
    hide Parse, Texts, GoodArg, Spaced, IsBlank;
    if pieces == [] {
      NoneSpaced(s);
    } else {
      var rest := Spaced(pieces[1..]) + s;
      GoodArgsReadBack(pieces[1..], s);
      SpacedStep(pieces, s);
      SpacedStarts(pieces[1..], s);
      BlankInFront(SPACE, pieces[0] + rest);
      ArgInFront(pieces[0], rest);
    }
  }

  lemma NoneSpaced(s: seq<byte>)
    ensures Spaced([]) + s == s && IsBlank(SPACE)
  {}

  lemma SpacedStarts(pieces: seq<seq<byte>>, s: seq<byte>)
    requires s == [] || IsBlank(s[0])
    ensures Spaced(pieces) + s == [] || IsBlank((Spaced(pieces) + s)[0])
    ensures IsBlank(SPACE)
  {}

  lemma SpacedStep(pieces: seq<seq<byte>>, s: seq<byte>)
    requires pieces != []
    ensures Spaced(pieces) + s == [SPACE] + (pieces[0] + (Spaced(pieces[1..]) + s))
    ensures pieces == [pieces[0]] + pieces[1..]
  {
    var more := Spaced(pieces[1..]);
    Associate([SPACE], pieces[0] + more, s);
    Associate(pieces[0], more, s);
  }

  lemma {:induction false} UnquotedAreGood(t: Tokens)
    requires WellFormed(t) && QuotedCount(t) == 0
    ensures GoodArgs(Texts(t))
  {
    if t.Next? {
      UnquotedAreGood(t.rest);
    }
  }

  /** If all quotes of a line are in its arguments, none opened one: every argument is bare. */
  lemma NoQuoteOpens(s: seq<byte>)
    requires Quotes(s) <= QuotesIn(Texts(Parse(s)))
    ensures GoodArgs(Texts(Parse(s)))
  {
    hide Parse, Texts, GoodArg, Quotes, QuotesIn;
    RenderParse(s);
    QuotesConserved(Parse(s));
    UnquotedAreGood(Parse(s));
  }

  /** Pieces in front of a text without quotes are read back only if they are good: no accident can make up for a bad one. */
  lemma PiecesAreGood(pieces: seq<seq<byte>>, tail: seq<byte>, more: seq<seq<byte>>)
    requires Quotes(tail) == 0
    requires Texts(Parse(Spaced(pieces) + tail)) == pieces + more
    ensures GoodArgs(pieces)
  {
    hide Parse, Texts, GoodArg, Quotes, QuotesIn;
    SpacedQuotes(pieces);
    QuotesConcat(Spaced(pieces), tail);
    QuotesInConcat(pieces, more);
    NoQuoteOpens(Spaced(pieces) + tail);
    assert forall i :: 0 <= i < |pieces| ==> pieces[i] == (pieces + more)[i];
  }

  /** Spaced pieces are read back exactly when all of them are good. */
  lemma PiecesReadBack(pieces: seq<seq<byte>>)
    ensures Texts(Parse(Spaced(pieces))) == pieces <==> GoodArgs(pieces)
  {
    hide Parse, Texts, GoodArgs, Spaced;
    assert Spaced(pieces) + [] == Spaced(pieces) && pieces + [] == pieces;
    NothingToRead();
    if GoodArgs(pieces) {
      GoodArgsReadBack(pieces, []);
    }
    if Texts(Parse(Spaced(pieces))) == pieces {
      PiecesAreGood(pieces, [], []);
    }
  }

  lemma NothingToRead()
    ensures Texts(Parse([])) == []
  {}

  lemma {:induction false} EscapeNothing(name: seq<byte>)
    requires QUOT !in name
    ensures Escape(name) == name
  {
    if name != [] {
      EscapeNothing(name[1..]);
      assert name == [name[0]] + name[1..];
    }
  }

  lemma {:induction false} EscapeConcat(a: seq<byte>, b: seq<byte>)
    ensures Escape(a + b) == Escape(a) + Escape(b)
  {
    if a == [] {
      assert a + b == b;
    } else {
      EscapeConcat(a[1..], b);
      assert (a + b)[1..] == a[1..] + b;
      Associate(EscapeByte(a[0]), Escape(a[1..]), Escape(b));
    }
  }

  /**
   The name in bytes: as it is and a space (32), or, if it has a space or a double quote (34), between
   double quotes. Between them each double quote, and no other byte, gets a backslash (92) before it.
   */
  lemma ExeNameInBytes(linker: seq<byte>, a: seq<byte>, b: seq<byte>)
    ensures 32 !in linker && 34 !in linker ==> ExeName(linker) == linker + [32]
    ensures 32 in linker || 34 in linker ==> ExeName(linker) == [34] + Escape(linker) + [34, 32]
    ensures 34 !in a ==> Escape(a + [34] + b) == a + [92, 34] + Escape(b)
    ensures 34 !in a ==> Escape(a) == a
  {
    EscapeConcat(a + [34], b);
    EscapeConcat(a, [34]);
    assert Escape([34]) == [92, 34] + Escape([]);
    if 34 !in a {
      EscapeNothing(a);
    }
  }

  lemma QuotedName(linker: seq<byte>, s: seq<byte>) returns (it: Item)
    requires SPACE in linker && QUOT !in linker
    ensures GoodItem(it) && it.text == linker && it.close != []
    ensures ItemBytes(it) + ([SPACE] + s) == ExeName(linker) + s
  {
    hide Escape;
    it := Item([], [QUOT], linker, [QUOT]);
    EscapeNothing(linker);
    Associate([QUOT] + linker + [QUOT], [SPACE], s);
    assert ItemBytes(it) == [QUOT] + linker + [QUOT];
  }

  /** A good linker name is read back, and what follows it is read on its own. */
  lemma GoodLinkerReadBack(linker: seq<byte>, s: seq<byte>)
    requires GoodLinker(linker)
    ensures Texts(Parse(ExeName(linker) + s)) == [linker] + Texts(Parse(s))
  {
    hide FirstItem, BlankLength, GoodItem, ItemBytes, Escape;
    BlankInFront(SPACE, s);
    if SPACE in linker {
      var it := QuotedName(linker, s);
      ItemInFront(it, [SPACE] + s);
    } else {
      ArgInFront(linker, [SPACE] + s);
      assert ExeName(linker) + s == linker + ([SPACE] + s);
    }
  }

  lemma FirstText(s: seq<byte>)
    requires Texts(Parse(s)) != []
    ensures BlankLength(s) < |s| && Parse(s).Next? && Parse(s).item == FirstItem(s)
    ensures Texts(Parse(s))[0] == FirstItem(s).text
    ensures var it := FirstItem(s);
            && |it.gap| == BlankLength(s) && GoodItem(it)
            && (IsQuoted(it) ==> it.open == [s[|it.gap|]])
  {
    FirstItemGood(s);
  }

  /** A line that starts with a quote has a first argument without that quote. */
  lemma QuotedStart(s: seq<byte>)
    requires Texts(Parse(s)) != [] && IsQuote(s[0])
    ensures s[0] !in Texts(Parse(s))[0]
  {
    hide Parse, Texts, FirstItem, BlankLength, GoodItem;
    FirstText(s);
    QuotedFirst(s);
  }

  lemma QuotedFirst(s: seq<byte>)
    requires s != [] && IsQuote(s[0]) && BlankLength(s) < |s|
    ensures s[0] !in FirstItem(s).text
  {
    hide FirstItem;
    BlankLengthIs(s, 0);
    QuoteIsNotInside(s);
  }

  /** Of a name without a space and without a double quote, the line starts with its own bytes. */
  lemma BareNameStarts(linker: seq<byte>, s: seq<byte>)
    requires !RequiresQuotes(linker)
    ensures ExeName(linker) + s == linker + ([SPACE] + s)
    ensures linker != [] ==> (linker + ([SPACE] + s))[0] == linker[0]
  {}

  /** A name that is only tabs, or empty: it is skipped as blanks. */
  predicate OnlyTabs(linker: seq<byte>) {
    forall i :: 0 <= i < |linker| ==> linker[i] == TAB
  }

  /** The first argument of a line that starts with blanks, a quote and no such quote in what it is to be. */
  lemma FirstHasNoQuote(name: seq<byte>, s: seq<byte>, g: nat)
    requires g < |name| && AllBlank(name[..g]) && IsQuote(name[g])
    requires Texts(Parse(name + s)) != []
    ensures Texts(Parse(name + s))[0] != name
  {
    hide Parse, Texts, FirstItem, BlankLength, GoodItem;
    FirstText(name + s);
    QuotedAfter(name + s, g, name);
  }

  lemma QuotedAfter(s: seq<byte>, g: nat, name: seq<byte>)
    requires name <= s && g < |name| && AllBlank(name[..g]) && IsQuote(name[g]) && BlankLength(s) < |s|
    ensures FirstItem(s).text != name
  {
    hide FirstItem, BlankLength, AllBlank;
    BlanksOf(name, s, g);
    QuoteIsNotInside(s);
    assert name[g] in name;
  }

  /** The text of a quoted first argument does not have its quote. */
  lemma QuoteIsNotInside(s: seq<byte>)
    requires BlankLength(s) < |s| && IsQuote(s[BlankLength(s)])
    ensures s[BlankLength(s)] !in FirstItem(s).text
  {
    hide QuotedLength, CutItem, BlankLength, AllBlank;
    var g := BlankLength(s);
    var n := QuotedLength(s[g + 1..], s[g]);
    QuotedItemGood(s, g, n);
    OpenIs(s, g, n);
  }

  lemma OpenIs(s: seq<byte>, g: nat, n: nat)
    requires g + 1 + n <= |s|
    ensures CutItem(s, g, 1, n).open == [s[g]]
  {}

  lemma BlanksOf(name: seq<byte>, s: seq<byte>, g: nat)
    requires name <= s && g < |name| && AllBlank(name[..g]) && !IsBlank(name[g])
    ensures BlankLength(s) == g && s[g] == name[g]
  {
    assert forall i :: 0 <= i < g ==> s[i] == name[..g][i];
    BlankLengthIs(s, g);
  }

  /** The first argument of a line that starts with a bare byte has no blank. */
  lemma BareAfter(s: seq<byte>, g: nat, name: seq<byte>)
    requires name <= s && g < |name| && AllBlank(name[..g]) && !IsQuote(name[g]) && !IsBlank(name[g])
    requires BlankLength(s) < |s|
    ensures NoBlank(FirstItem(s).text)
  {
    BlanksOf(name, s, g);
    BareItemGood(s, g, BareLength(s[g..]));
  }

  /** Whatever the pieces are, the first argument is the linker name only if that is good or nothing but tabs. */
  lemma FirstIsLinker(linker: seq<byte>, s: seq<byte>)
    requires Texts(Parse(ExeName(linker) + s)) != []
    requires Texts(Parse(ExeName(linker) + s))[0] == linker
    ensures GoodLinker(linker) || OnlyTabs(linker)
  {
    var line := ExeName(linker) + s;
    if QUOT in linker {
      QuotedStart(line);
    } else if SPACE !in linker && !OnlyTabs(linker) {
      hide Parse, Texts, FirstItem, GoodItem;
      BareNameStarts(linker, s);
      var g := BlankLength(linker);
      TabsBefore(linker);
      if IsQuote(linker[g]) {
        FirstHasNoQuote(linker, [SPACE] + s, g);
      } else {
        FirstText(line);
        BareAfter(line, g, linker);
        BareIsGood(linker, g);
      }
    }
  }

  lemma TabsBefore(linker: seq<byte>)
    requires SPACE !in linker && !OnlyTabs(linker)
    ensures BlankLength(linker) < |linker| && AllBlank(linker[..BlankLength(linker)])
    ensures forall i :: 0 <= i < BlankLength(linker) ==> IsBlank(linker[i])
  {}

  lemma BareIsGood(linker: seq<byte>, g: nat)
    requires g < |linker| && NoBlank(linker) && QUOT !in linker && !IsQuote(linker[g])
    requires forall i :: 0 <= i < g ==> IsBlank(linker[i])
    ensures GoodLinker(linker)
  {}

  /** The first argument is the linker name. */
  ghost predicate ComesFirst(linker: seq<byte>, pieces: seq<seq<byte>>) {
    var texts := Texts(Parse(LineOf(linker, pieces)));
    texts != [] && texts[0] == linker
  }

  /**
   There are pieces for which a name comes back as the first argument exactly if it is good or nothing
   but tabs. It does so for all pieces exactly if it is good: tabs need a piece that repeats them in quotes.
   */
  lemma LinkerCanComeBack(linker: seq<byte>)
    ensures (exists pieces :: ComesFirst(linker, pieces)) <==> GoodLinker(linker) || OnlyTabs(linker)
    ensures (forall pieces :: ComesFirst(linker, pieces)) <==> GoodLinker(linker)
  {
    hide Parse, Texts, GoodLinker, OnlyTabs, ExeName, Spaced;
    forall pieces | ComesFirst(linker, pieces)
      ensures GoodLinker(linker) || OnlyTabs(linker)
    {
      FirstIsLinker(linker, Spaced(pieces));
    }
    if GoodLinker(linker) {
      forall pieces
        ensures ComesFirst(linker, pieces)
      {
        GoodLinkerReadBack(linker, Spaced(pieces));
      }
      assert ComesFirst(linker, []);
    } else {
      NoPieces(linker);
      assert !ComesFirst(linker, []);
      if OnlyTabs(linker) {
        TabsComeBack(linker);
      }
    }
  }

  lemma NoPieces(linker: seq<byte>)
    requires !GoodLinker(linker)
    ensures !ComesFirst(linker, [])
  {
    hide Parse, Texts, GoodLinker, ExeName;
    if ComesFirst(linker, []) {
      FirstIsLinker(linker, []);
      BlankLine(linker);
    }
  }

  lemma BlankLine(linker: seq<byte>)
    requires OnlyTabs(linker)
    ensures Texts(Parse(ExeName(linker) + [])) == []
  {
    var s := ExeName(linker) + [];
    assert s == linker + [SPACE];
    BlankLengthIs(s, |s|);
  }

  lemma TabsComeBack(linker: seq<byte>)
    requires OnlyTabs(linker)
    ensures ComesFirst(linker, [[APOS] + linker + [APOS]])
  {
    hide Parse, ItemBytes, GoodItem, OnlyTabs, LineOf;
    var it := Item(linker + [SPACE, SPACE], [APOS], linker, [APOS]);
    TabsItemGood(linker);
    TabsLine(linker);
    ItemInFront(it, []);
  }

  lemma TabsItemGood(linker: seq<byte>)
    requires OnlyTabs(linker)
    ensures GoodItem(Item(linker + [SPACE, SPACE], [APOS], linker, [APOS]))
  {}

  lemma TabsLine(linker: seq<byte>)
    requires OnlyTabs(linker)
    ensures var quoted := [APOS] + linker + [APOS];
            LineOf(linker, [quoted]) == ItemBytes(Item(linker + [SPACE, SPACE], [APOS], linker, [APOS])) + []
  {
    hide Escape;
    var quoted := [APOS] + linker + [APOS];
    assert Spaced([quoted]) == [SPACE] + (quoted + []);
    assert ExeName(linker) == linker + [SPACE];
  }

  /** With text behind them that has no quotes, only good names are read back. */
  lemma LostLinker(linker: seq<byte>, pieces: seq<seq<byte>>, tail: seq<byte>, more: seq<seq<byte>>)
    requires Quotes(tail) == 0
    requires Texts(Parse(LineOf(linker, pieces) + tail)) == [linker] + pieces + more
    ensures GoodLinker(linker) && GoodArgs(pieces)
  {
    hide Parse, Texts, GoodArg, Quotes, QuotesIn, Spaced, Escape;
    var rest := Spaced(pieces) + tail;
    Associate(ExeName(linker), Spaced(pieces), tail);
    assert [linker] + pieces + more == [linker] + (pieces + more);
    assert ([linker] + (pieces + more))[0] == linker;
    if QUOT in linker {
      QuotedStart(ExeName(linker) + rest);
    } else if SPACE in linker {
      GoodLinkerReadBack(linker, rest);
      assert ([linker] + Texts(Parse(rest)))[1..] == Texts(Parse(rest));
      assert ([linker] + (pieces + more))[1..] == pieces + more;
      PiecesAreGood(pieces, tail, more);
    } else {
      BareNameStarts(linker, rest);
      BareLine(linker, pieces, tail, more);
    }
  }

  lemma BareLine(linker: seq<byte>, pieces: seq<seq<byte>>, tail: seq<byte>, more: seq<seq<byte>>)
    requires QUOT !in linker && SPACE !in linker && Quotes(tail) == 0
    requires Texts(Parse(linker + ([SPACE] + (Spaced(pieces) + tail)))) == [linker] + (pieces + more)
    ensures GoodLinker(linker) && GoodArgs(pieces)
  {
    hide Parse, Texts, Quotes, QuotesIn, Spaced;
    var texts := [linker] + (pieces + more);
    var rest := Spaced(pieces) + tail;
    SpacedQuotes(pieces);
    QuotesConcat(linker, [SPACE] + rest);
    QuotesConcat([SPACE], rest);
    QuotesConcat(Spaced(pieces), tail);
    OneText(linker);
    QuotesInConcat([linker], pieces + more);
    QuotesInConcat(pieces, more);
    NoQuoteOpens(linker + ([SPACE] + rest));
    assert GoodArg(texts[0]);
    assert forall i :: 0 <= i < |pieces| ==> pieces[i] == texts[i + 1];
  }

  lemma OneText(a: seq<byte>)
    ensures QuotesIn([a]) == Quotes(a) && Quotes([SPACE]) == 0
  {
    assert QuotesIn([a]) == Quotes(a) + QuotesIn([]);
    assert Quotes([SPACE]) == 0 + Quotes([]);
  }

  /**
   The arguments of the assembled line are the linker and the pieces exactly when the
   linker name and all pieces are good.
   */
  lemma LineReadBack(linker: seq<byte>, pieces: seq<seq<byte>>)
    ensures Texts(Parse(LineOf(linker, pieces))) == [linker] + pieces
            <==> GoodLinker(linker) && GoodArgs(pieces)
  {
    hide Parse, Texts, GoodLinker, GoodArgs, Spaced, ExeName;
    assert LineOf(linker, pieces) + [] == LineOf(linker, pieces) && [linker] + pieces + [] == [linker] + pieces;
    if GoodLinker(linker) && GoodArgs(pieces) {
      GoodLinkerReadBack(linker, Spaced(pieces));
      PiecesReadBack(pieces);
    } else if Texts(Parse(LineOf(linker, pieces))) == [linker] + pieces {
      LostLinker(linker, pieces, [], []);
    }
  }
}
