/** The words of a text and the text of a list of words (extract_words and the output loop of permutate). */
module WordList {
  import opened Bytes

  /** Length of the leading run of bytes that are not white space. */
  function WordLength(s: seq<byte>): (n: nat)
    ensures n <= |s|
    ensures forall i :: 0 <= i < n ==> !IsSpace(s[i])
    ensures n < |s| ==> IsSpace(s[n])
  {
    if s == [] || IsSpace(s[0]) then 0 else 1 + WordLength(s[1..])
  }

  /** The maximal runs of bytes that are not white space, in order. */
  function Words(s: seq<byte>): seq<seq<byte>>
    decreases |s|
  {
    if s == [] then []
    else if IsSpace(s[0]) then Words(s[1..])
    else [s[..WordLength(s)]] + Words(s[WordLength(s)..])
  }

  predicate IsWord(w: seq<byte>) {
    w != [] && forall i :: 0 <= i < |w| ==> !IsSpace(w[i])
  }

  predicate AllWords(ws: seq<seq<byte>>) {
    forall w :: w in ws ==> IsWord(w)
  }

  /** The words separated by single spaces. */
  function Join(ws: seq<seq<byte>>): seq<byte> {
    if ws == [] then []
    else if |ws| == 1 then ws[0]
    else ws[0] + [SPACE] + Join(ws[1..])
  }

  /** No white space at either end and no two white space bytes in a row. */
  predicate Tight(s: seq<byte>) {
    && (s != [] ==> !IsSpace(s[0]) && !IsSpace(s[|s| - 1]))
    && forall i :: 0 <= i < |s| - 1 ==> !(IsSpace(s[i]) && IsSpace(s[i + 1]))
  }

  function WithoutSpaces(s: seq<byte>): seq<byte> {
    if s == [] then []
    else (if IsSpace(s[0]) then [] else [s[0]]) + WithoutSpaces(s[1..])
  }

  function Concat(ws: seq<seq<byte>>): seq<byte> {
    if ws == [] then [] else ws[0] + Concat(ws[1..])
  }

  lemma {:induction false} WordsAreWords(s: seq<byte>)
    ensures AllWords(Words(s))
    ensures NulFree(s) ==> forall w :: w in Words(s) ==> NulFree(w)
    decreases |s|
  {
    if s == [] {
    } else if IsSpace(s[0]) {
      WordsAreWords(s[1..]);
    } else {
      WordsAreWords(s[WordLength(s)..]);
    }
  }

  /** A run without white space is one word. */
  lemma WordsOfWord(w: seq<byte>)
    requires IsWord(w)
    ensures Words(w) == [w]
  {
    assert WordLength(w) == |w| && w[..|w|] == w && w[|w|..] == [];
  }

  /** White space separates: nothing is lost, joined or split across it. */
  lemma {:induction false} WordsSplit(a: seq<byte>, sp: byte, b: seq<byte>)
    requires IsSpace(sp)
    ensures Words(a + [sp] + b) == Words(a) + Words(b)
    decreases |a|
  {
    hide Words, WordLength, IsSpace;
    NoWords();
    if a == [] {
      SpaceFirst([sp] + b);
      assert a + [sp] + b == [sp] + b && ([sp] + b)[1..] == b;
    } else if IsSpace(a[0]) {
      SpaceFirst(a);
      SpaceFirst(a + [sp] + b);
      TailOfSplit(a, sp, b, 1);
      WordsSplit(a[1..], sp, b);
    } else {
      WordFirst(a, sp, b);
      WordsSplit(a[WordLength(a)..], sp, b);
    }
  }

  lemma NoWords()
    ensures Words([]) == []
  {}

  lemma SpaceFirst(s: seq<byte>)
    requires s != [] && IsSpace(s[0])
    ensures Words(s) == Words(s[1..])
  {}

  lemma TailOfSplit(a: seq<byte>, sp: byte, b: seq<byte>, n: nat)
    requires n <= |a|
    ensures (a + [sp] + b)[n..] == a[n..] + [sp] + b && (a + [sp] + b)[..n] == a[..n]
  {}

  /** The first word of a text stays the first word when a separator and more text follow. */
  lemma WordFirst(a: seq<byte>, sp: byte, b: seq<byte>)
    requires a != [] && !IsSpace(a[0]) && IsSpace(sp)
    ensures 0 < WordLength(a) <= |a|
    ensures Words(a) == [a[..WordLength(a)]] + Words(a[WordLength(a)..])
    ensures Words(a + [sp] + b) == [a[..WordLength(a)]] + Words(a[WordLength(a)..] + [sp] + b)
  {
    hide IsSpace;
    var n := WordLength(a);
    WordLengthIs(a + [sp] + b, n);
    TailOfSplit(a, sp, b, n);
  }

  /** WordLength is the only length with its properties. */
  lemma WordLengthIs(s: seq<byte>, n: nat)
    requires n <= |s|
    requires forall i :: 0 <= i < n ==> !IsSpace(s[i])
    requires n < |s| ==> IsSpace(s[n])
    ensures WordLength(s) == n
  {}

  /** Every byte that is not white space is in exactly one word, in order. */
  lemma {:induction false} WordsKeepBytes(s: seq<byte>)
    ensures Concat(Words(s)) == WithoutSpaces(s)
    decreases |s|
  {
    if s == [] {
    } else if IsSpace(s[0]) {
      WordsKeepBytes(s[1..]);
    } else {
      var n := WordLength(s);
      WordsKeepBytes(s[n..]);
      WithoutSpacesRun(s, n);
    }
  }

  lemma {:induction false} WithoutSpacesRun(s: seq<byte>, n: nat)
    requires n <= |s| && forall i :: 0 <= i < n ==> !IsSpace(s[i])
    ensures WithoutSpaces(s) == s[..n] + WithoutSpaces(s[n..])
  {
    if n > 0 {
      WithoutSpacesRun(s[1..], n - 1);
      assert s[..n] == [s[0]] + s[1..][..n - 1];
      assert s[1..][n - 1..] == s[n..];
    } else {
      assert s[n..] == s;
    }
  }

  /** Reading back the joined words gives the words. */
  lemma {:induction false} WordsOfJoin(ws: seq<seq<byte>>, sp: byte)
    requires AllWords(ws) && IsSpace(sp)
    ensures Words(Join(ws) + [sp]) == ws
  {
    if ws == [] {
      assert (Join(ws) + [sp])[1..] == [];
    } else if |ws| == 1 {
      WordsOfWord(ws[0]);
      WordsSplit(ws[0], sp, []);
      assert ws[0] + [sp] + [] == Join(ws) + [sp];
      assert ws == [ws[0]];
    } else {
      WordsOfWord(ws[0]);
      WordsOfJoin(ws[1..], sp);
      WordsSplit(ws[0], SPACE, Join(ws[1..]) + [sp]);
      assert Join(ws) + [sp] == ws[0] + [SPACE] + (Join(ws[1..]) + [sp]);
      assert ws == [ws[0]] + ws[1..];
    }
  }

  function SumLengths(ws: seq<seq<byte>>): nat {
    if ws == [] then 0 else |ws[0]| + SumLengths(ws[1..])
  }

  lemma {:induction false} JoinLength(ws: seq<seq<byte>>)
    ensures |Join(ws)| == SumLengths(ws) + (if ws == [] then 0 else |ws| - 1)
  {
    if |ws| == 1 {
      assert ws[1..] == [];
    } else if ws != [] {
      JoinLength(ws[1..]);
    }
  }

  /** Joining never lengthens a text, and keeps its length exactly when the text is already tight. */
  lemma {:induction false} JoinedLength(s: seq<byte>)
    ensures |Join(Words(s))| <= |s|
    ensures |Join(Words(s))| == |s| <==> Tight(s)
    decreases |s|
  {
    if s == [] {
    } else if IsSpace(s[0]) {
      JoinedLength(s[1..]);
    } else {
      var n := WordLength(s);
      var rest := s[n..];
      assert s == s[..n] + rest;
      if rest == [] {
        assert Words(s) == [s[..n]];
      } else {
        var tail := rest[1..];
        assert Words(rest) == Words(tail);
        JoinedLength(tail);
        if Words(tail) == [] {
          assert Words(s) == [s[..n]];
          if tail != [] {
            TightSplit(s, n);
          }
        } else {
          assert Words(s)[1..] == Words(tail);
          TightSplit(s, n);
        }
      }
    }
  }

  lemma TightSplit(s: seq<byte>, n: nat)
    requires 0 < n < |s| && IsSpace(s[n]) && n + 1 < |s|
    requires forall i :: 0 <= i < n ==> !IsSpace(s[i])
    ensures Tight(s) <==> Tight(s[n + 1..])
  {
    var t := s[n + 1..];
    if Tight(s) {
      forall i | 0 <= i < |t| - 1
        ensures !(IsSpace(t[i]) && IsSpace(t[i + 1]))
      {
        assert !(IsSpace(s[n + 1 + i]) && IsSpace(s[n + 1 + i + 1]));
      }
      assert !(IsSpace(s[n]) && IsSpace(s[n + 1]));
    }
    if Tight(t) {
      forall i | 0 <= i < |s| - 1
        ensures !(IsSpace(s[i]) && IsSpace(s[i + 1]))
      {
        if i > n {
          assert s[i] == t[i - n - 1] && s[i + 1] == t[i - n - 1 + 1];
        }
      }
    }
  }

  lemma {:induction false} JoinAppend(ws: seq<seq<byte>>, w: seq<byte>)
    ensures Join(ws + [w]) == Join(ws) + (if ws == [] then [] else [SPACE]) + w
  {
    if |ws| == 1 {
      assert (ws + [w])[1..] == [w];
    } else if ws != [] {
      assert (ws + [w])[1..] == ws[1..] + [w];
      JoinAppend(ws[1..], w);
    }
  }

  /** The text of the first words is no longer than the text of all of them. */
  lemma {:induction false} JoinPrefix(ws: seq<seq<byte>>, more: seq<seq<byte>>)
    ensures |Join(ws)| <= |Join(ws + more)|
    decreases |more|
  {
    if more == [] {
      assert ws + more == ws;
    } else {
      JoinAppend(ws, more[0]);
      JoinPrefix(ws + [more[0]], more[1..]);
      assert ws + [more[0]] + more[1..] == ws + more;
    }
  }
}
