/** main(): assembling the command line in the line buffer and running it. */
module Assembler {
  import opened Bytes
  import opened CommandTokens
  import opened CommandLine
  import opened Tokenizer
  import opened Occurrences

  /**
   What main() knows when it assembles the line: the linker name, the name of the response
   file, the exit code of prc1() for the indirect file, the text of the a switch (empty if
   none) and whether the target is Windows CE.
   */
  datatype Config = Config(linker: seq<byte>, response: seq<byte>, prcCode: int, toEnd: seq<byte>, ce: bool)

  /** The pieces appended before the loop ends, and the exit code, 0 to go on. */
  datatype Pieces = Pieces(texts: seq<seq<byte>>, code: int)

  // "/LD", "/link" and "/entry:mainACRTStartup"
  const DLL_SWITCH: seq<byte> := [47, 76, 68]
  const LINK_SWITCH: seq<byte> := [47, 108, 105, 110, 107]
  const ENTRY_SWITCH: seq<byte> := [47, 101, 110, 116, 114, 121, 58, 109, 97, 105, 110, 65, 67, 82, 84, 83, 116, 97, 114, 116, 117, 112]

  predicate IsIndirect(arg: seq<byte>) {
    arg != [] && arg[0] == AT_SIGN
  }

  /** Only one indirect file is allowed; it is replaced by the response file. */
  function Collect(argv: seq<seq<byte>>, cfg: Config, first: bool): Pieces {
    if argv == [] then Pieces([], 0)
    else if IsIndirect(argv[0]) then
      if !first then Pieces([], 1)
      else if cfg.prcCode != 0 then Pieces([], cfg.prcCode)
      else InFront([AT_SIGN] + cfg.response, Collect(argv[1..], cfg, false))
    else InFront(argv[0], Collect(argv[1..], cfg, first))
  }

  function InFront(text: seq<byte>, p: Pieces): Pieces {
    Pieces([text] + p.texts, p.code)
  }

  function AllPieces(cfg: Config, argv: seq<seq<byte>>): seq<seq<byte>> {
    Collect(argv, cfg, true).texts + (if cfg.toEnd == [] then [] else [cfg.toEnd])
  }

  predicate NeedsLinkSwitch(line: seq<byte>) {
    !Contains(line, [SPACE] + LINK_SWITCH + [SPACE])
  }

  /** The switches a CE program gets. */
  function CeTail(line: seq<byte>): seq<byte> {
    if NeedsLinkSwitch(line) then [SPACE] + LINK_SWITCH + [SPACE] + ([SPACE] + ENTRY_SWITCH)
    else [SPACE] + ENTRY_SWITCH
  }

  function BaseLine(cfg: Config, argv: seq<seq<byte>>): seq<byte> {
    LineOf(cfg.linker, AllPieces(cfg, argv))
  }

  predicate NeedsCeTail(cfg: Config, argv: seq<seq<byte>>) {
    cfg.ce && DLL_SWITCH !in argv
  }

  function FinalLine(cfg: Config, argv: seq<seq<byte>>): seq<byte> {
    BaseLine(cfg, argv) + (if NeedsCeTail(cfg, argv) then CeTail(BaseLine(cfg, argv)) else [])
  }

  /** What the buffer holds when main() runs the line or gives up. */
  function LastLine(cfg: Config, argv: seq<seq<byte>>): seq<byte> {
    var p := Collect(argv, cfg, true);
    if p.code == 0 then FinalLine(cfg, argv) else LineOf(cfg.linker, p.texts)
  }

  predicate NulFreeInput(cfg: Config, argv: seq<seq<byte>>) {
    && NulFree(cfg.linker) && NulFree(cfg.response) && NulFree(cfg.toEnd)
    && forall i :: 0 <= i < |argv| ==> NulFree(argv[i])
  }

  /** copy_exe_name() */
  method CopyExeName(line: array<byte>, linker: seq<byte>)
    requires NulFree(linker) && |ExeName(linker)| < line.Length
    modifies line
    ensures HoldsText(line[..], 0, ExeName(linker))
  {
    ghost var name := linker;
    if RequiresQuotes(linker) {
      name := CopyQuoted(line, linker);
    } else {
      var end := CopyText(line, 0, linker);
    }
    AppendText(line, name, [SPACE]);
  }

  /** The quoting loop; `name` is the text it leaves. */
  method CopyQuoted(line: array<byte>, linker: seq<byte>) returns (ghost name: seq<byte>)
    requires NulFree(linker) && |Escape(linker)| + 2 < line.Length
    modifies line
    ensures name == [QUOT] + Escape(linker) + [QUOT] && HoldsText(line[..], 0, name)
  {
    ghost var written: seq<byte> := [];
    line[0] := QUOT;
    var ptr := 1;
    assert linker[0..] == linker;
    for i := 0 to |linker|
      invariant ptr == 1 + |written| && NulFree(written)
      invariant written + Escape(linker[i..]) == Escape(linker)
      invariant ptr + 1 < line.Length && line[..ptr] == [QUOT] + written
    {
      EscapeStep(linker, i, written);
      assert linker[i] in linker;
      ptr := PutEscaped(line, ptr, linker[i]);
      Associate([QUOT], written, EscapeByte(linker[i]));
      written := written + EscapeByte(linker[i]);
    }
    assert written == Escape(linker);
    name := [QUOT] + written + [QUOT];
    EndQuoted(line, ptr, name);
  }

  method PutEscaped(line: array<byte>, at: nat, c: byte) returns (ptr: nat)
    requires at + |EscapeByte(c)| <= line.Length
    modifies line
    ensures ptr == at + |EscapeByte(c)| && line[..ptr] == old(line[..at]) + EscapeByte(c)
  {
    ptr := at;
    if c == QUOT {
      line[ptr] := BACKSLASH;
      ptr := ptr + 1;
    }
    line[ptr] := c;
    ptr := ptr + 1;
  }

  method EndQuoted(line: array<byte>, at: nat, ghost name: seq<byte>)
    requires at + 1 < line.Length && NulFree(name) && name == line[..at] + [QUOT]
    modifies line
    ensures HoldsText(line[..], 0, name)
  {
    var ptr := at;
    line[ptr] := QUOT;
    ptr := ptr + 1;
    line[ptr] := NUL;
    assert line[..ptr] == name;
  }

  lemma EscapeStep(name: seq<byte>, i: nat, written: seq<byte>)
    requires i < |name| && written + Escape(name[i..]) == Escape(name)
    ensures (written + EscapeByte(name[i])) + Escape(name[i + 1..]) == Escape(name)
    ensures |written| + |EscapeByte(name[i])| <= |Escape(name)|
  {
    assert name[i..][1..] == name[i + 1..];
    Associate(written, EscapeByte(name[i]), Escape(name[i + 1..]));
  }

  /** strcat(line, " "); strcat(line, piece); */
  method AppendPiece(line: array<byte>, ghost head: seq<byte>, piece: seq<byte>)
    requires HoldsText(line[..], 0, head) && NulFree(piece)
    requires |head| + 1 + |piece| < line.Length
    modifies line
    ensures HoldsText(line[..], 0, head + ([SPACE] + piece))
  {
    AppendText(line, head, [SPACE]);
    AppendText(line, head + [SPACE], piece);
    Associate(head, [SPACE], piece);
  }

  /** Another piece of the line: it extends the text and stays within the full line. */
  lemma LineGrows(linker: seq<byte>, done: seq<seq<byte>>, piece: seq<byte>, more: seq<seq<byte>>)
    ensures LineOf(linker, []) == ExeName(linker)
    ensures LineOf(linker, done + [piece]) == LineOf(linker, done) + ([32] + piece)
    ensures |LineOf(linker, done + [piece])| <= |LineOf(linker, done + ([piece] + more))|
  {
    SpacedAppend(done, [piece]);
    assert Spaced([piece]) == [SPACE] + (piece + []);
    assert piece + [] == piece;
    assert done + ([piece] + more) == (done + [piece]) + more;
    SpacedAppend(done + [piece], more);
    Associate(ExeName(linker), Spaced(done), [SPACE] + piece);
  }

  lemma BaseLineIs(cfg: Config, argv: seq<seq<byte>>)
    ensures var line := LineOf(cfg.linker, Collect(argv, cfg, true).texts);
            BaseLine(cfg, argv) == if cfg.toEnd == [] then line else line + ([SPACE] + cfg.toEnd)
  {
    hide LineOf, Collect;
    var texts := Collect(argv, cfg, true).texts;
    LineGrows(cfg.linker, texts, cfg.toEnd, []);
    assert texts + [] == texts;
  }

  /** The full line is at least as long as the line before the a switch and the CE switches. */
  lemma LastLineLength(cfg: Config, argv: seq<seq<byte>>)
    ensures |ExeName(cfg.linker)| <= |LineOf(cfg.linker, Collect(argv, cfg, true).texts)| <= |LastLine(cfg, argv)|
    ensures Collect(argv, cfg, true).code == 0 ==> |BaseLine(cfg, argv)| <= |LastLine(cfg, argv)|
  {
    BaseLineIs(cfg, argv);
  }

  /**
   One round of the argument loop: a piece to append before what the remaining arguments give,
   or an exit code that ends the line, whatever these are.
   */
  method NextPiece(cfg: Config, arg: seq<byte>, first: bool, ghost more: seq<seq<byte>>)
    returns (piece: seq<byte>, code: int, first': bool)
    ensures Collect([arg] + more, cfg, first)
            == if code != 0 then Pieces([], code) else InFront(piece, Collect(more, cfg, first'))
    ensures NulFree(arg) && NulFree(cfg.response) ==> NulFree(piece)
  {
    piece, code, first' := arg, 0, first;
    if arg != [] && arg[0] == AT_SIGN {
      piece := [AT_SIGN] + cfg.response;
      code := if !first then 1 else cfg.prcCode;
      first' := false;
    }
    assert ([arg] + more)[1..] == more;
  }

  /** The argument loop of main(). */
  method AppendArgs(line: array<byte>, cfg: Config, argv: seq<seq<byte>>) returns (code: int, dll: bool)
    requires NulFreeInput(cfg, argv) && HoldsText(line[..], 0, ExeName(cfg.linker))
    requires |LineOf(cfg.linker, Collect(argv, cfg, true).texts)| < line.Length
    modifies line
    ensures code == Collect(argv, cfg, true).code
    ensures HoldsText(line[..], 0, LineOf(cfg.linker, Collect(argv, cfg, true).texts))
    ensures code == 0 ==> (dll <==> cfg.ce && DLL_SWITCH in argv)
  {
    hide Collect, LineOf, HoldsText, NulFree;
    ghost var all := Collect(argv, cfg, true);
    ghost var done: seq<seq<byte>>, rest := [], all;
    var first := true;
    code, dll := 0, false;
    AppendStarts(cfg, argv);
    for i := 0 to |argv|
      invariant all == Pieces(done + rest.texts, rest.code) && rest == Collect(argv[i..], cfg, first)
      invariant HoldsText(line[..], 0, LineOf(cfg.linker, done)) && code == 0
      invariant dll <==> cfg.ce && DLL_SWITCH in argv[..i]
    {
      assert argv[i..] == [argv[i]] + argv[i + 1..];
      var piece;
      piece, code, first := NextPiece(cfg, argv[i], first, argv[i + 1..]);
      if code != 0 {
        assert done + [] == done;
        return;
      }
      rest := Collect(argv[i + 1..], cfg, first);
      assert done + ([piece] + rest.texts) == (done + [piece]) + rest.texts;
      LineGrows(cfg.linker, done, piece, rest.texts);
      AppendPiece(line, LineOf(cfg.linker, done), piece);
      done := done + [piece];
      if cfg.ce && argv[i] == DLL_SWITCH {
        dll := true;
      }
      assert argv[..i + 1] == argv[..i] + [argv[i]];
    }
    AppendEnds(argv, cfg, first, done);
    assert argv[..|argv|] == argv;
  }

  lemma AppendStarts(cfg: Config, argv: seq<seq<byte>>)
    ensures argv[0..] == argv && LineOf(cfg.linker, []) == ExeName(cfg.linker)
    ensures Collect(argv, cfg, true) == Pieces([] + Collect(argv, cfg, true).texts, Collect(argv, cfg, true).code)
  {}

  lemma AppendEnds(argv: seq<seq<byte>>, cfg: Config, first: bool, done: seq<seq<byte>>)
    ensures Collect(argv[|argv|..], cfg, first) == Pieces([], 0)
    ensures done + [] == done
  {}

  /** main() from copy_exe_name() on, without running the line. */
  method Assemble(line: array<byte>, cfg: Config, argv: seq<seq<byte>>) returns (code: int)
    requires NulFreeInput(cfg, argv) && |LastLine(cfg, argv)| < line.Length
    modifies line
    ensures code == Collect(argv, cfg, true).code
    ensures HoldsText(line[..], 0, LastLine(cfg, argv))
  {
    hide HoldsText, Collect, ExeName, LineOf, Contains, BaseLine, CeTail;
    LastLineLength(cfg, argv);
    CopyExeName(line, cfg.linker);
    var dll;
    code, dll := AppendArgs(line, cfg, argv);
    if code != 0 {
      return;
    }
    BaseLineIs(cfg, argv);
    if cfg.toEnd != [] {
      AppendPiece(line, LineOf(cfg.linker, Collect(argv, cfg, true).texts), cfg.toEnd);
    }
    assert BaseLine(cfg, argv) + [] == BaseLine(cfg, argv);
    if cfg.ce && !dll {
      AppendCeTail(line, BaseLine(cfg, argv));
    }
  }

  method AppendCeTail(line: array<byte>, ghost base: seq<byte>)
    requires HoldsText(line[..], 0, base) && |base| + |CeTail(base)| < line.Length
    modifies line
    ensures HoldsText(line[..], 0, base + CeTail(base))
  {
    hide HoldsText, Contains;
    var text := ReadText(line, 0, base);
    if NeedsLinkSwitch(text) {
      AppendText(line, base, [SPACE] + LINK_SWITCH + [SPACE]);
      Associate(base, [SPACE] + LINK_SWITCH + [SPACE], [SPACE] + ENTRY_SWITCH);
      AppendText(line, base + ([SPACE] + LINK_SWITCH + [SPACE]), [SPACE] + ENTRY_SWITCH);
    } else {
      AppendText(line, base, [SPACE] + ENTRY_SWITCH);
    }
  }

  /** Without an indirect file, the pieces are the command line arguments. */
  lemma {:induction false} PlainArguments(argv: seq<seq<byte>>, cfg: Config, first: bool)
    requires forall i :: 0 <= i < |argv| ==> !IsIndirect(argv[i])
    ensures Collect(argv, cfg, first) == Pieces(argv, 0)
  {
    if argv != [] {
      PlainArguments(argv[1..], cfg, first);
      assert argv == [argv[0]] + argv[1..];
    }
  }

  /** One indirect file: it is replaced by an at sign and the name of the response file, unless reading it failed. */
  lemma OneIndirect(pre: seq<seq<byte>>, name: seq<byte>, post: seq<seq<byte>>, cfg: Config)
    requires forall i :: 0 <= i < |pre| ==> !IsIndirect(pre[i])
    requires forall i :: 0 <= i < |post| ==> !IsIndirect(post[i])
    ensures Collect(pre + [[64] + name] + post, cfg, true)
            == if cfg.prcCode == 0 then Pieces(pre + [[64] + cfg.response] + post, 0) else Pieces(pre, cfg.prcCode)
  {
    hide Collect;
    var arg := [64] + name;
    CollectAfter(pre, [arg] + post, cfg, true);
    FirstIndirect(arg, post, cfg, true);
    PlainArguments(post, cfg, false);
    assert pre + [arg] + post == pre + ([arg] + post);
    assert pre + [] == pre;
    assert pre + ([[64] + cfg.response] + post) == pre + [[64] + cfg.response] + post;
  }

  /** A second indirect file ends with code 1, whatever comes behind it. */
  lemma TwoIndirect(pre: seq<seq<byte>>, name: seq<byte>, mid: seq<seq<byte>>, second: seq<byte>, post: seq<seq<byte>>, cfg: Config)
    requires forall i :: 0 <= i < |pre| ==> !IsIndirect(pre[i])
    requires forall i :: 0 <= i < |mid| ==> !IsIndirect(mid[i])
    ensures Collect(pre + [[64] + name] + mid + [[64] + second] + post, cfg, true)
            == if cfg.prcCode == 0 then Pieces(pre + [[64] + cfg.response] + mid, 1) else Pieces(pre, cfg.prcCode)
  {
    hide Collect;
    var one, two := [64] + name, [64] + second;
    var rest := mid + ([two] + post);
    CollectAfter(pre, [one] + rest, cfg, true);
    CollectAfter(mid, [two] + post, cfg, false);
    assert pre + [one] + mid + [two] + post == pre + ([one] + rest);
    FirstIndirect(one, rest, cfg, true);
    FirstIndirect(two, post, cfg, false);
    assert mid + [] == mid && pre + [] == pre;
    assert pre + ([[64] + cfg.response] + mid) == pre + [[64] + cfg.response] + mid;
  }

  lemma FirstIndirect(arg: seq<byte>, rest: seq<seq<byte>>, cfg: Config, first: bool)
    requires IsIndirect(arg)
    ensures Collect([arg] + rest, cfg, first)
            == if !first then Pieces([], 1)
               else if cfg.prcCode != 0 then Pieces([], cfg.prcCode)
               else InFront([64] + cfg.response, Collect(rest, cfg, false))
  {
    assert ([arg] + rest)[1..] == rest;
  }

  lemma {:induction false} CollectAfter(pre: seq<seq<byte>>, rest: seq<seq<byte>>, cfg: Config, first: bool)
    requires forall i :: 0 <= i < |pre| ==> !IsIndirect(pre[i])
    ensures Collect(pre + rest, cfg, first)
            == Pieces(pre + Collect(rest, cfg, first).texts, Collect(rest, cfg, first).code)
  {
    var last := Collect(rest, cfg, first);
    if pre == [] {
      assert pre + rest == rest && pre + last.texts == last.texts;
    } else {
      CollectAfter(pre[1..], rest, cfg, first);
      assert (pre + rest)[1..] == pre[1..] + rest;
      assert pre + last.texts == [pre[0]] + (pre[1..] + last.texts);
    }
  }

  /** What an argument becomes in the line: itself, or, if it starts with an at sign (64), an at sign and the response file. */
  function PieceFor(arg: seq<byte>, cfg: Config): seq<byte> {
    if arg != [] && arg[0] == 64 then [64] + cfg.response else arg
  }

  /** When the line is run every argument has its piece, in order, and the a switch comes last. */
  lemma RunPieces(cfg: Config, argv: seq<seq<byte>>)
    requires Collect(argv, cfg, true).code == 0
    ensures |AllPieces(cfg, argv)| == |argv| + (if cfg.toEnd == [] then 0 else 1)
    ensures forall i :: 0 <= i < |argv| ==> AllPieces(cfg, argv)[i] == PieceFor(argv[i], cfg)
    ensures cfg.toEnd != [] ==> AllPieces(cfg, argv)[|argv|] == cfg.toEnd
  {
    CollectPieces(cfg, argv, true);
  }

  lemma {:induction false} CollectPieces(cfg: Config, argv: seq<seq<byte>>, first: bool)
    requires Collect(argv, cfg, first).code == 0
    ensures var texts := Collect(argv, cfg, first).texts;
            |texts| == |argv| && forall i :: 0 <= i < |argv| ==> texts[i] == PieceFor(argv[i], cfg)
  {
    if argv != [] {
      CollectPieces(cfg, argv[1..], first && !IsIndirect(argv[0]));
      assert forall i :: 0 < i < |argv| ==> argv[i] == argv[1..][i - 1];
    }
  }

  predicate AnyIndirect(argv: seq<seq<byte>>) {
    exists i :: 0 <= i < |argv| && IsIndirect(argv[i])
  }

  predicate ManyIndirect(argv: seq<seq<byte>>) {
    exists i, j :: 0 <= i < j < |argv| && IsIndirect(argv[i]) && IsIndirect(argv[j])
  }

  lemma IndirectAfter(argv: seq<seq<byte>>)
    requires argv != []
    ensures AnyIndirect(argv) <==> IsIndirect(argv[0]) || AnyIndirect(argv[1..])
    ensures ManyIndirect(argv) <==> (IsIndirect(argv[0]) && AnyIndirect(argv[1..])) || ManyIndirect(argv[1..])
  {
    hide IsIndirect;
    var rest := argv[1..];
    assert forall i :: 0 < i < |argv| ==> argv[i] == rest[i - 1];
    if AnyIndirect(rest) {
      var i :| 0 <= i < |rest| && IsIndirect(rest[i]);
      assert IsIndirect(argv[i + 1]);
    }
    if ManyIndirect(rest) {
      var i, j :| 0 <= i < j < |rest| && IsIndirect(rest[i]) && IsIndirect(rest[j]);
      assert IsIndirect(argv[i + 1]) && IsIndirect(argv[j + 1]);
    }
    if ManyIndirect(argv) {
      var i, j :| 0 <= i < j < |argv| && IsIndirect(argv[i]) && IsIndirect(argv[j]);
      assert IsIndirect(rest[j - 1]) && (i > 0 ==> IsIndirect(rest[i - 1]));
    }
  }

  /** The exit code: that of a failing indirect file, 1 for a second one, and 0 otherwise. */
  lemma {:induction false} CodeIs(cfg: Config, argv: seq<seq<byte>>)
    ensures Collect(argv, cfg, true).code
            == if !AnyIndirect(argv) then 0
               else if cfg.prcCode != 0 then cfg.prcCode
               else if ManyIndirect(argv) then 1 else 0
  {
    hide AnyIndirect, ManyIndirect;
    if argv == [] {
      NoneIndirect();
    } else {
      IndirectAfter(argv);
      CodeIs(cfg, argv[1..]);
      LaterCode(cfg, argv[1..]);
      ManyIsAny(argv[1..]);
    }
  }

  lemma NoneIndirect()
    ensures !AnyIndirect([]) && !ManyIndirect([])
  {}

  lemma ManyIsAny(argv: seq<seq<byte>>)
    ensures ManyIndirect(argv) ==> AnyIndirect(argv)
  {}

  lemma {:induction false} LaterCode(cfg: Config, argv: seq<seq<byte>>)
    ensures Collect(argv, cfg, false).code == if AnyIndirect(argv) then 1 else 0
  {
    hide AnyIndirect, ManyIndirect;
    if argv == [] {
      NoneIndirect();
    } else {
      IndirectAfter(argv);
      LaterCode(cfg, argv[1..]);
    }
  }

  /** The bytes of the switches. */
  lemma Switches()
    ensures DLL_SWITCH == Ascii("/LD") && LINK_SWITCH == Ascii("/link")
    ensures ENTRY_SWITCH == Ascii("/entry:mainACRTStartup")
  {}

  lemma SpacedSwitches()
    ensures [SPACE] + ENTRY_SWITCH == Ascii(" /entry:mainACRTStartup")
    ensures [SPACE] + LINK_SWITCH + [SPACE] == Ascii(" /link ")
  {}

  /** The bytes that a CE program gets behind its line. */
  lemma CeTailInBytes(line: seq<byte>)
    ensures CeTail(line) == (if Contains(line, Ascii(" /link ")) then [] else Ascii(" /link "))
                            + Ascii(" /entry:mainACRTStartup")
  {
    hide Contains, Ascii;
    SpacedSwitches();
    assert [] + Ascii(" /entry:mainACRTStartup") == Ascii(" /entry:mainACRTStartup");
  }

  /** The arguments a CE program gets besides. */
  function CeArgs(cfg: Config, argv: seq<seq<byte>>): seq<seq<byte>> {
    if !NeedsCeTail(cfg, argv) then []
    else if NeedsLinkSwitch(BaseLine(cfg, argv)) then [LINK_SWITCH, ENTRY_SWITCH]
    else [ENTRY_SWITCH]
  }

  lemma GoodSwitches()
    ensures GoodArg(ENTRY_SWITCH) && GoodArg(LINK_SWITCH) && QUOT !in LINK_SWITCH
  {}

  lemma CeTailReadBack(line: seq<byte>)
    ensures CeTail(line) != [] && CeTail(line)[0] == SPACE
    ensures Texts(Parse(CeTail(line))) == (if NeedsLinkSwitch(line) then [LINK_SWITCH] else []) + [ENTRY_SWITCH]
  {
    hide Parse, Texts, GoodArg, NeedsLinkSwitch;
    GoodSwitches();
    NothingToRead();
    SwitchReadBack(ENTRY_SWITCH, []);
    SwitchTail(LINK_SWITCH, ENTRY_SWITCH);
    if NeedsLinkSwitch(line) {
      var rest := [SPACE] + ([SPACE] + ENTRY_SWITCH);
      BlankInFront(SPACE, [SPACE] + ENTRY_SWITCH);
      SwitchReadBack(LINK_SWITCH, rest);
    }
  }

  lemma SwitchTail(a: seq<byte>, b: seq<byte>)
    ensures [SPACE] + a + [SPACE] + ([SPACE] + b) == [SPACE] + (a + ([SPACE] + ([SPACE] + b)))
    ensures [SPACE] + b == [SPACE] + (b + [])
  {}

  lemma SwitchReadBack(a: seq<byte>, s: seq<byte>)
    requires GoodArg(a) && (s == [] || IsBlank(s[0]))
    ensures Texts(Parse([SPACE] + (a + s))) == [a] + Texts(Parse(s))
  {
    hide Parse, Texts, GoodArg;
    ArgInFront(a, s);
    BlankInFront(SPACE, a + s);
  }

  /** The CE switches have no quotes. */
  lemma CeTailQuotes(line: seq<byte>)
    ensures Quotes(CeTail(line)) == 0
  {
    hide NeedsLinkSwitch;
    NoQuotes(CeTail(line));
  }

  lemma {:induction false} NoQuotes(s: seq<byte>)
    requires forall i :: 0 <= i < |s| ==> !IsQuote(s[i])
    ensures Quotes(s) == 0
  {
    if s != [] {
      NoQuotes(s[1..]);
    }
  }

  /** With good names, the linker gets its name, the pieces and the CE switches, each as one argument. */
  lemma GoodLineReadBack(cfg: Config, argv: seq<seq<byte>>)
    requires GoodLinker(cfg.linker) && GoodArgs(AllPieces(cfg, argv))
    ensures Texts(Parse(FinalLine(cfg, argv))) == [cfg.linker] + AllPieces(cfg, argv) + CeArgs(cfg, argv)
  {
    hide Parse, Texts, GoodLinker, GoodArg, AllPieces, NeedsLinkSwitch, CeTail, ExeName, Spaced;
    var pieces := AllPieces(cfg, argv);
    var tail := if NeedsCeTail(cfg, argv) then CeTail(BaseLine(cfg, argv)) else [];
    CeTailReadBack(BaseLine(cfg, argv));
    NothingToRead();
    GoodArgsReadBack(pieces, tail);
    GoodLinkerReadBack(cfg.linker, Spaced(pieces) + tail);
    Associate(ExeName(cfg.linker), Spaced(pieces), tail);
  }

  /**
   The line is read back as the linker name, the pieces and the CE switches, if any, exactly when the
   linker name and all pieces are good.
   */
  lemma FinalLineReadBack(cfg: Config, argv: seq<seq<byte>>)
    ensures Texts(Parse(FinalLine(cfg, argv))) == [cfg.linker] + AllPieces(cfg, argv) + CeArgs(cfg, argv)
            <==> GoodLinker(cfg.linker) && GoodArgs(AllPieces(cfg, argv))
  {
    hide Parse, Texts, GoodLinker, GoodArgs, LineOf, AllPieces, NeedsLinkSwitch, CeTail, CeArgs, NeedsCeTail;
    var pieces := AllPieces(cfg, argv);
    if GoodLinker(cfg.linker) && GoodArgs(pieces) {
      GoodLineReadBack(cfg, argv);
    } else if Texts(Parse(FinalLine(cfg, argv))) == [cfg.linker] + pieces + CeArgs(cfg, argv) {
      var tail := if NeedsCeTail(cfg, argv) then CeTail(BaseLine(cfg, argv)) else [];
      CeTailQuotes(BaseLine(cfg, argv));
      LostLinker(cfg.linker, pieces, tail, CeArgs(cfg, argv));
    }
  }

  /** The CE switches in bytes: "/link" unless the linker name or an argument brings it along, and the entry switch. */
  lemma CeSwitches(cfg: Config, argv: seq<seq<byte>>)
    requires GoodLinker(cfg.linker) && GoodArgs(AllPieces(cfg, argv))
    ensures var entry, link := Ascii("/entry:mainACRTStartup"), Ascii("/link");
            CeArgs(cfg, argv)
            == if !cfg.ce || Ascii("/LD") in argv then []
               else if Contains(cfg.linker, Ascii(" /link ")) || HasInner(AllPieces(cfg, argv), link) then [entry]
               else [link, entry]
  {
    hide GoodLinker, GoodArg, Contains, AllPieces, HasInner;
    Switches();
    SpacedSwitches();
    GoodSwitches();
    LineContains(cfg.linker, AllPieces(cfg, argv), LINK_SWITCH);
  }

  /**
   main() up to the spawn. Whatever the names, nargv points at the tokens of the assembled line;
   with good names these are exactly the linker, the pieces and the CE switches, each a C string
   in the line, up to the limit of nargv.
   */
  method LoadCommand(line: array<byte>, nargv: array<Slot>, cfg: Config, argv: seq<seq<byte>>)
    returns (code: int, argc: nat)
    requires NulFreeInput(cfg, argv) && |LastLine(cfg, argv)| < line.Length
    requires nargv.Length == MAX_ARGS + 1
    modifies line, nargv
    ensures code == Collect(argv, cfg, true).code
    ensures code != 0 ==> argc == 0 && nargv[..] == old(nargv[..])
    ensures code == 0 ==> var t := Parse(FinalLine(cfg, argv));
                          && argc == Count(FinalLine(cfg, argv)) <= |Texts(t)| && nargv[argc] == Null
                          && forall k :: 0 <= k < argc ==>
                               nargv[k] == Position(Offset(t, k)) && HoldsText(line[..], Offset(t, k), Texts(t)[k])
    ensures code == 0 && GoodLinker(cfg.linker) && GoodArgs(AllPieces(cfg, argv)) ==>
              var want := [cfg.linker] + AllPieces(cfg, argv) + CeArgs(cfg, argv);
              && argc == (if |want| < MAX_ARGS then |want| else MAX_ARGS)
              && nargv[argc] == Null
              && forall k :: 0 <= k < argc ==> nargv[k].Position? && HoldsText(line[..], nargv[k].at, want[k])
    ensures code == 0 && GoodLinker(cfg.linker) && GoodArgs(AllPieces(cfg, argv)) ==>
              && argc > 0 && HoldsText(line[..], nargv[0].at, cfg.linker)
              && forall i :: 0 <= i < |argv| && i + 1 < argc ==>
                   nargv[i + 1].Position? && HoldsText(line[..], nargv[i + 1].at, PieceFor(argv[i], cfg))
  {
    hide HoldsText, Collect, Parse, Texts, GoodLinker, GoodArg, AllPieces, CeArgs, FinalLine, Offset, PieceFor;
    code := Assemble(line, cfg, argv);
    argc := 0;
    if code == 0 {
      ghost var s := FinalLine(cfg, argv);
      argc := Tokenize(line, nargv, s);
      if GoodLinker(cfg.linker) && GoodArgs(AllPieces(cfg, argv)) {
        GoodLineReadBack(cfg, argv);
        RunPieces(cfg, argv);
        ghost var want := [cfg.linker] + AllPieces(cfg, argv) + CeArgs(cfg, argv);
        assert forall i :: 0 <= i < |argv| ==> want[i + 1] == PieceFor(argv[i], cfg);
      }
    }
  }
}
