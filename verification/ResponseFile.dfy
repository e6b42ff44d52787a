/** prc1: what one line of the indirect file puts into the response file. */
module ResponseFile {
  import opened Bytes
  import opened WordList
  import opened Permuter
  import opened PermuterTheorems

  const NOPERM: seq<byte> := [110, 111, 112, 101, 114, 109]
  const FILE: seq<byte> := [102, 105, 108, 101]
  const LIB: seq<byte> := [108, 105, 98]

  predicate IsFileLine(text: seq<byte>) {
    !(NOPERM <= text) && (FILE <= text || LIB <= text)
  }

  /** Length of the leading run without space and tab. */
  function KeywordLength(s: seq<byte>): (n: nat)
    ensures n <= |s| && NoBlank(s[..n]) && (n < |s| ==> IsBlank(s[n]))
  {
    if s == [] || IsBlank(s[0]) then 0 else 1 + KeywordLength(s[1..])
  }

  function SpaceLength(s: seq<byte>): (n: nat)
    ensures n <= |s| && (forall i :: 0 <= i < n ==> IsSpace(s[i])) && (n < |s| ==> !IsSpace(s[n]))
  {
    if s == [] || !IsSpace(s[0]) then 0 else 1 + SpaceLength(s[1..])
  }

  /** Where the words of a file line start: after the keyword and the white space behind it. */
  function WordsStart(text: seq<byte>): (n: nat)
    ensures n <= |text|
  {
    KeywordLength(text) + SpaceLength(text[KeywordLength(text)..])
  }

  datatype LineResult = Skipped | Written(text: seq<byte>) | TooManyWords

  /** `user` is empty when no key was given. */
  function LineOutput(text: seq<byte>, user: seq<byte>, borland: bool): LineResult {
    if NOPERM <= text then Written(text[|NOPERM|..])
    else if IsFileLine(text) then
      var words := text[WordsStart(text)..];
      if user == [] then Written(words)
      else if |Words(words)| > MAX_WORDS then TooManyWords
      else Written(Output(words, user))
    else if borland then Skipped
    else Written(text)
  }

  /** The buffer has room for the rewritten line: only a tight list of words grows, by one byte. */
  predicate Roomy(text: seq<byte>, user: seq<byte>, size: nat) {
    var words := text[WordsStart(text)..];
    IsFileLine(text) && user != [] && Tight(words) && |Words(words)| <= MAX_WORDS ==> |text| + 1 < size
  }

  method SkipRun(mem: array<byte>, at: nat, ghost text: seq<byte>, blanks: bool) returns (ptr: nat)
    requires HoldsText(mem[..], at, text)
    ensures ptr == at + if blanks then SpaceLength(text) else KeywordLength(text)
  {
    ptr := at;
    HoldsByte(mem[..], at, text, 0);
    while if blanks then IsSpace(mem[ptr]) else !IsBlank(mem[ptr]) && mem[ptr] != NUL
      invariant at <= ptr <= at + |text|
      invariant mem[ptr] == NUL <==> ptr == at + |text|
      invariant ptr < at + |text| ==> mem[ptr] == text[ptr - at]
      invariant forall i :: 0 <= i < ptr - at ==> if blanks then IsSpace(text[i]) else !IsBlank(text[i])
      decreases at + |text| - ptr
    {
      ptr := ptr + 1;
      HoldsByte(mem[..], at, text, ptr - at);
    }
    RunLengths(text, ptr - at);
  }

  lemma RunLengths(s: seq<byte>, n: nat)
    requires n <= |s|
    ensures (forall i :: 0 <= i < n ==> IsSpace(s[i])) && (n < |s| ==> !IsSpace(s[n])) ==> SpaceLength(s) == n
    ensures (forall i :: 0 <= i < n ==> !IsBlank(s[i])) && (n < |s| ==> IsBlank(s[n])) ==> KeywordLength(s) == n
  {
    var k := KeywordLength(s);
    assert k > 0 ==> !IsBlank(s[..k][k - 1]);
    assert k > n ==> !IsBlank(s[..k][n]);
  }

  /** The loop body of prc1 for the line in `fl`. A null `user` stands for no key. */
  method ProcessLine(heap: Heap, fl: array<byte>, ghost text: seq<byte>, user: array?<byte>, ghost key: seq<byte>,
                     borland: bool)
    returns (r: LineResult)
    requires HoldsText(fl[..], 0, text) && fl != user
    requires if user == null then key == [] else key != [] && HoldsText(user[..], 0, key)
    requires Roomy(text, key, fl.Length)
    modifies heap, fl
    ensures r == LineOutput(text, key, borland)
    ensures !r.TooManyWords? ==> heap.live == old(heap.live)
  {
    var all := ReadText(fl, 0, text);
    if NOPERM <= all {
      return Written(all[|NOPERM|..]);
    }
    if FILE <= all || LIB <= all {
      r := ProcessFileLine(heap, fl, text, user, key);
      return;
    }
    if !borland {
      return Written(all);
    }
    return Skipped;
  }

  method ProcessFileLine(heap: Heap, fl: array<byte>, ghost text: seq<byte>, user: array?<byte>, ghost key: seq<byte>)
    returns (r: LineResult)
    requires HoldsText(fl[..], 0, text) && fl != user && IsFileLine(text)
    requires if user == null then key == [] else key != [] && HoldsText(user[..], 0, key)
    requires Roomy(text, key, fl.Length)
    modifies heap, fl
    ensures r == LineOutput(text, key, true)
    ensures !r.TooManyWords? ==> heap.live == old(heap.live)
  {
    hide Words, Tight, Output, NulFree;
    var ptr := FindWords(fl, text);
    ghost var words := text[ptr..];
    if user != null {
      var ok, lost := Permutate(heap, fl, ptr, words, user, key);
      if !ok {
        return TooManyWords;
      }
      OutputHeld(fl[..], old(fl[..ptr]), words, key);
      words := Output(words, key);
    }
    var out := ReadText(fl, ptr, words);
    return Written(out);
  }

  /** Skips the keyword and the white space behind it. */
  method FindWords(fl: array<byte>, ghost text: seq<byte>) returns (ptr: nat)
    requires HoldsText(fl[..], 0, text)
    ensures ptr == WordsStart(text) && HoldsText(fl[..], ptr, text[ptr..])
  {
    ptr := SkipRun(fl, 0, text, false);
    SuffixHeld(fl[..], 0, text, ptr);
    ghost var rest := text[ptr..];
    ptr := SkipRun(fl, ptr, rest, true);
    SuffixHeld(fl[..], 0, text, ptr);
  }

  lemma OutputHeld(mem: seq<byte>, head: seq<byte>, text: seq<byte>, key: seq<byte>)
    requires key != [] && NulFree(text)
    requires head + Output(text, key) + [NUL] <= mem
    ensures HoldsText(mem, |head|, Output(text, key))
  {
    OutputNulFree(text, key);
    HoldsWritten(mem, head, Output(text, key));
  }

  lemma {:induction false} JoinNulFree(ws: seq<seq<byte>>)
    requires forall w :: w in ws ==> NulFree(w)
    ensures NulFree(Join(ws))
  {
    if |ws| == 1 {
      assert ws[0] in ws;
    } else if ws != [] {
      assert ws[0] in ws;
      JoinNulFree(ws[1..]);
    }
  }

  lemma OutputNulFree(text: seq<byte>, key: seq<byte>)
    requires key != [] && NulFree(text)
    ensures NulFree(Output(text, key))
  {
    PermutedNulFree(text, key);
    JoinNulFree(Permuted(text, key));
  }

  /** A file line puts exactly its words, the keyword apart, into the response file, whatever the key. */
  lemma FileLineKeepsWords(text: seq<byte>, user: seq<byte>, borland: bool)
    requires IsFileLine(text) && LineOutput(text, user, borland).Written?
    ensures multiset(Words(LineOutput(text, user, borland).text)) == multiset(Words(text[KeywordLength(text)..]))
  {
    var from, to := KeywordLength(text), WordsStart(text);
    WordsSkip(text[from..], to - from);
    assert text[from..][to - from..] == text[to..];
    if user != [] {
      OutputWords(text[to..], user);
    }
  }

  lemma {:induction false} WordsSkip(s: seq<byte>, n: nat)
    requires n <= |s| && forall i :: 0 <= i < n ==> IsSpace(s[i])
    ensures Words(s[n..]) == Words(s)
  {
    if n > 0 {
      WordsSkip(s[1..], n - 1);
      assert s[1..][n - 1..] == s[n..];
    } else {
      assert s[n..] == s;
    }
  }

  /** The keywords by their characters. */
  lemma Keywords()
    ensures NOPERM == Ascii("noperm") && FILE == Ascii("file") && LIB == Ascii("lib")
  {}

  /** A line that starts with noperm writes what is behind that, byte for byte, whatever the key. */
  lemma NopermLine(rest: seq<byte>, user: seq<byte>, borland: bool)
    ensures LineOutput(Ascii("noperm") + rest, user, borland) == Written(rest)
  {
    hide IsFileLine, WordsStart, Words;
    Keywords();
    assert (NOPERM + rest)[|NOPERM|..] == rest;
  }

  /**
   A line that starts with file or lib: what comes up to the first space (32) or tab (9) and the white space
   there are dropped. The rest is written as it is, or, with a key, permuted unless it has more than 1024 words.
   */
  lemma FileLine(keyword: seq<byte>, spaces: seq<byte>, rest: seq<byte>, user: seq<byte>, borland: bool)
    requires Ascii("file") <= keyword || Ascii("lib") <= keyword
    requires 32 !in keyword && 9 !in keyword
    requires forall i :: 0 <= i < |spaces| ==> IsSpace(spaces[i])
    requires if spaces == [] then rest == [] else spaces[0] in [32, 9]
    requires rest == [] || !IsSpace(rest[0])
    ensures LineOutput(keyword + spaces + rest, user, borland)
            == if user == [] then Written(rest)
               else if |Words(rest)| > 1024 then TooManyWords
               else Written(Output(rest, user))
  {
    hide Words, WordsStart, IsFileLine, Output;
    Keywords();
    KeywordFirst(keyword, spaces + rest);
    assert keyword + spaces + rest == keyword + (spaces + rest);
    FileLineStart(keyword, spaces, rest);
  }

  lemma FileLineStart(keyword: seq<byte>, spaces: seq<byte>, rest: seq<byte>)
    requires 32 !in keyword && 9 !in keyword
    requires forall i :: 0 <= i < |spaces| ==> IsSpace(spaces[i])
    requires if spaces == [] then rest == [] else spaces[0] in [32, 9]
    requires rest == [] || !IsSpace(rest[0])
    ensures var text := keyword + spaces + rest;
            WordsStart(text) == |keyword| + |spaces| && text[WordsStart(text)..] == rest
  {
    hide KeywordLength, SpaceLength;
    var text := keyword + spaces + rest;
    assert forall i :: 0 <= i < |keyword| ==> text[i] == keyword[i] && keyword[i] in keyword;
    assert text[|keyword|..] == spaces + rest;
    RunLengths(text, |keyword|);
    RunLengths(spaces + rest, |spaces|);
  }

  lemma KeywordFirst(keyword: seq<byte>, rest: seq<byte>)
    requires FILE <= keyword || LIB <= keyword
    ensures IsFileLine(keyword + rest)
  {
    var text := keyword + rest;
    assert FILE <= keyword ==> FILE <= text;
    assert LIB <= keyword ==> LIB <= text;
    assert text[0] == keyword[0];
  }

  /** Any other line is written as it is, and dropped for Borland. */
  lemma OtherLine(text: seq<byte>, user: seq<byte>)
    requires !(Ascii("noperm") <= text) && !(Ascii("file") <= text) && !(Ascii("lib") <= text)
    ensures LineOutput(text, user, true) == Skipped && LineOutput(text, user, false) == Written(text)
  {
    hide WordsStart, Words;
    Keywords();
  }

  /** A line is roomy exactly when its words are too many to be rewritten or the new line and its NUL fit in the buffer. */
  lemma RoomyIsExact(text: seq<byte>, user: seq<byte>, size: nat)
    requires IsFileLine(text) && user != [] && |text| < size
    ensures Roomy(text, user, size)
            <==> || LineOutput(text, user, true).TooManyWords?
                 || WordsStart(text) + |Output(text[WordsStart(text)..], user)| + 1 <= size
  {
    OutputLength(text[WordsStart(text)..], user);
  }

  /** A line of fgets(fl, size) that ends in a newline is roomy, unless it fills the buffer and has no word. */
  lemma WholeLinesAreRoomy(text: seq<byte>, user: seq<byte>, size: nat)
    requires |text| < size && text != [] && text[|text| - 1] == NEWLINE
    ensures Roomy(text, user, size) || WordsStart(text) == |text| == size - 1
  {
    var to := WordsStart(text);
    if to < |text| {
      assert text[to..][|text[to..]| - 1] == NEWLINE;
    }
  }

  /** The size of the buffer that fgets() fills. */
  const BUFFER_SIZE: nat := 4096

  /** "lib" and one word. */
  function LibLine(word: seq<byte>): seq<byte> {
    LIB + [SPACE] + word
  }

  lemma LibLineWords(word: seq<byte>)
    requires IsWord(word)
    ensures WordsStart(LibLine(word)) == 4 && LibLine(word)[4..] == word && IsFileLine(LibLine(word))
  {
    hide KeywordLength, SpaceLength;
    var s := LibLine(word);
    RunLengths(s, 3);
    assert s[3..] == [SPACE] + word;
    RunLengths(s[3..], 1);
    assert LIB <= s;
  }

  /** One word behind "lib" that fills the buffer, cut by fgets() so, is rewritten to one byte more, for every key. */
  lemma CutLineMayNotFit(word: seq<byte>, user: seq<byte>)
    requires user != [] && IsWord(word) && |LibLine(word)| == 4095
    ensures var s := LibLine(word);
            && LineOutput(s, user, true).Written?
            && WordsStart(s) + |Output(s[WordsStart(s)..], user)| + 1 == 4097 == BUFFER_SIZE + 1
  {
    hide Words, WordsStart, IsFileLine, Output;
    LibLineWords(word);
    WordsOfWord(word);
    OutputLength(word, user);
  }

  lemma CutLineExists()
    ensures exists word :: IsWord(word) && NulFree(word) && |LibLine(word)| == BUFFER_SIZE - 1
  {
    var word := seq(BUFFER_SIZE - 5, _ => 120 as byte);
    assert IsWord(word) && NulFree(word) && |LibLine(word)| == BUFFER_SIZE - 1;
  }
}
