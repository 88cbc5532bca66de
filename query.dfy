/** Normalisation of the free-text query of the `xkcd` command: the arguments
    are joined with single spaces, lower-cased, split on whitespace, and every
    token that is not purely alphabetic is removed.  Order and duplicates are
    kept. */
module Query {
  import opened Sequences

  /** Python's `str.isspace` on one character, by code point: the characters
      on which `str.split()` without an argument splits. */
  predicate IsSpace(c: char) {
    var n := c as int;
    || 9 <= n <= 13 || 28 <= n <= 32 || n == 0x85 || n == 0xA0 || n == 0x1680
    || 0x2000 <= n <= 0x200A || n == 0x2028 || n == 0x2029 || n == 0x202F
    || n == 0x205F || n == 0x3000
  }

  predicate IsUpper(c: char) { 'A' <= c <= 'Z' }

  predicate IsLetter(c: char) { 'A' <= c <= 'Z' || 'a' <= c <= 'z' }

  /** `str.isalpha`: non-empty and made of letters only. */
  predicate IsAlpha(w: string) {
    |w| > 0 && forall i :: 0 <= i < |w| ==> IsLetter(w[i])
  }

  /** A token that `str.split()` can produce: non-empty, no whitespace. */
  predicate IsToken(w: string) {
    |w| > 0 && forall i :: 0 <= i < |w| ==> !IsSpace(w[i])
  }

  function LowerChar(c: char): (d: char)
    ensures !IsUpper(d)
    ensures !IsUpper(c) ==> d == c
  {
    if IsUpper(c) then (c as int + 32) as char else c
  }

  /** Lower-casing keeps whitespace whitespace and letters letters. */
  lemma LowerCharKind(c: char)
    ensures IsSpace(LowerChar(c)) == IsSpace(c) && IsLetter(LowerChar(c)) == IsLetter(c)
  {
  }

  /** `str.lower`. */
  function Lower(s: string): (r: string)
    ensures |r| == |s| && forall i :: 0 <= i < |s| ==> r[i] == LowerChar(s[i])
  {
    if s == [] then [] else [LowerChar(s[0])] + Lower(s[1..])
  }

  /** `" ".join(ws)`. */
  function Join(ws: seq<string>): string {
    if ws == [] then []
    else if |ws| == 1 then ws[0]
    else ws[0] + " " + Join(ws[1..])
  }

  /** Strips the leading whitespace of `s`. */
  function DropSpaces(s: string): (r: string)
    ensures |r| <= |s|
    ensures r == [] || !IsSpace(r[0])
  {
    if s == [] || !IsSpace(s[0]) then s else DropSpaces(s[1..])
  }

  lemma {:induction false} DropSpacesSuffix(s: string)
    ensures DropSpaces(s) == s[|s| - |DropSpaces(s)|..]
  {
    if s != [] && IsSpace(s[0]) {
      DropSpacesSuffix(s[1..]);
    }
  }

  /** The longest prefix of `s` without whitespace. */
  function Word(s: string): (w: string)
    ensures w <= s
    ensures forall i :: 0 <= i < |w| ==> !IsSpace(w[i])
    ensures |w| == |s| || IsSpace(s[|w|])
    ensures s != [] && !IsSpace(s[0]) ==> |w| > 0
  {
    if s == [] || IsSpace(s[0]) then [] else [s[0]] + Word(s[1..])
  }

  /** `str.split()` without an argument: the maximal runs of non-whitespace,
      in order. */
  function Split(s: string): seq<string>
    decreases |s|
  {
    var t := DropSpaces(s);
    if t == [] then []
    else
      var w := Word(t);
      [w] + Split(t[|w|..])
  }

  /** Every word of `Split(s)` is a token: non-empty and without whitespace. */
  lemma {:induction false} SplitTokens(s: string)
    ensures forall i :: 0 <= i < |Split(s)| ==> IsToken(Split(s)[i])
    decreases |s|
  {
    var t := DropSpaces(s);
    if t != [] {
      var w := Word(t);
      SplitTokens(t[|w|..]);
      assert Split(s) == [w] + Split(t[|w|..]);
    }
  }

  /** A non-empty split as pieces of `s`: the whitespace before the first
      word ends at `off`, the first word `w` follows, and the rest of the
      split is the split of what follows `w`. */
  lemma SplitFirst(s: string) returns (off: nat, w: string)
    requires Split(s) != []
    ensures 0 < |w| && off + |w| <= |s| && w == s[off..off + |w|]
    ensures Split(s)[0] == w && Split(s)[1..] == Split(s[off + |w|..])
  {
    var t := DropSpaces(s);
    DropSpacesSuffix(s);
    off := |s| - |t|;
    w := Word(t);
    assert t[..|w|] == w;
    assert t[|w|..] == s[off + |w|..];
  }

  /** The character at position `j` of token `i` of `Split(s)` is the
      character at position `k` of `s`. */
  lemma {:induction false} SplitCharIn(s: string, i: nat, j: nat) returns (k: nat)
    requires i < |Split(s)| && j < |Split(s)[i]|
    ensures k < |s| && s[k] == Split(s)[i][j]
    decreases |s|
  {
    var off, w := SplitFirst(s);
    if i == 0 {
      k := off + j;
    } else {
      var rest := s[off + |w|..];
      assert Split(s)[i] == Split(rest)[i - 1];
      var k' := SplitCharIn(rest, i - 1, j);
      k := off + |w| + k';
    }
  }

  /** No token of `Split(s)` holds a character that `s` does not. */
  lemma SplitChars(s: string)
    ensures forall i, j :: 0 <= i < |Split(s)| && 0 <= j < |Split(s)[i]| ==> Split(s)[i][j] in s
  {
    forall i, j | 0 <= i < |Split(s)| && 0 <= j < |Split(s)[i]|
      ensures Split(s)[i][j] in s
    {
      var k := SplitCharIn(s, i, j);
    }
  }

  lemma DropSpacesOfToken(w: string, rest: string)
    requires IsToken(w)
    ensures DropSpaces(w + rest) == w + rest
  {
    assert (w + rest)[0] == w[0];
  }

  lemma {:induction false} WordOfToken(w: string, rest: string)
    requires IsToken(w)
    requires rest == [] || IsSpace(rest[0])
    ensures Word(w + rest) == w
    decreases |w|
  {
    var s := w + rest;
    assert s[0] == w[0] && s[1..] == w[1..] + rest;
    if |w| > 1 {
      WordOfToken(w[1..], rest);
    } else {
      assert w[1..] == [];
    }
  }

  /** A token followed by whitespace (or nothing) is split off whole. */
  lemma SplitToken(w: string, rest: string)
    requires IsToken(w)
    requires rest == [] || IsSpace(rest[0])
    ensures Split(w + rest) == [w] + Split(rest)
  {
    DropSpacesOfToken(w, rest);
    WordOfToken(w, rest);
    assert (w + rest)[|w|..] == rest;
  }

  /** Leading whitespace does not change the split. */
  lemma SplitSpace(c: char, s: string)
    requires IsSpace(c)
    ensures Split([c] + s) == Split(s)
  {
    assert ([c] + s)[1..] == s;
    assert DropSpaces([c] + s) == DropSpaces(s);
  }

  /** Splitting the space-joined tokens gives the tokens back. */
  lemma {:induction false} SplitJoin(ws: seq<string>)
    requires forall i :: 0 <= i < |ws| ==> IsToken(ws[i])
    ensures Split(Join(ws)) == ws
    decreases |ws|
  {
    if ws == [] {
    } else if |ws| == 1 {
      SplitToken(ws[0], []);
      assert ws[0] + [] == ws[0];
    } else {
      SplitJoin(ws[1..]);
      SplitJoinCons(ws[0], ws[1..]);
      assert ws == [ws[0]] + ws[1..];
    }
  }

  /** The step of `SplitJoin`: one more token in front. */
  lemma SplitJoinCons(w: string, ws: seq<string>)
    requires IsToken(w) && ws != [] && Split(Join(ws)) == ws
    ensures Split(Join([w] + ws)) == [w] + ws
  {
    var tail := Join(ws);
    assert ([w] + ws)[1..] == ws;
    assert Join([w] + ws) == w + ([' '] + tail);
    SplitToken(w, [' '] + tail);
    SplitSpace(' ', tail);
  }

  /** Keeps the purely alphabetic words, in order. */
  function AlphaOnly(ws: seq<string>): (r: seq<string>)
    ensures forall i :: 0 <= i < |r| ==> IsAlpha(r[i])
  {
    if ws == [] then []
    else (if IsAlpha(ws[0]) then [ws[0]] else []) + AlphaOnly(ws[1..])
  }

  lemma {:induction false} AlphaOnlyAppend(a: seq<string>, b: seq<string>)
    ensures AlphaOnly(a + b) == AlphaOnly(a) + AlphaOnly(b)
    decreases |a|
  {
    if a == [] {
      assert a + b == b;
    } else {
      assert (a + b)[0] == a[0] && (a + b)[1..] == a[1..] + b;
      AlphaOnlyAppend(a[1..], b);
    }
  }

  /** Each alphabetic word keeps all its copies; every other word loses all. */
  lemma {:induction false} AlphaOnlyCount(ws: seq<string>, x: string)
    ensures multiset(AlphaOnly(ws))[x] == if IsAlpha(x) then multiset(ws)[x] else 0
    decreases |ws|
  {
    if ws != [] {
      AlphaOnlyCount(ws[1..], x);
      assert ws == [ws[0]] + ws[1..];
    }
  }

  lemma AlphaOnlyMembers(ws: seq<string>, x: string)
    ensures x in AlphaOnly(ws) <==> x in ws && IsAlpha(x)
  {
    AlphaOnlyCount(ws, x);
    assert x in AlphaOnly(ws) <==> x in multiset(AlphaOnly(ws));
    assert x in ws <==> x in multiset(ws);
  }

  /** The words that remain are in their original relative order. */
  lemma {:induction false} AlphaOnlySubsequence(ws: seq<string>)
    ensures IsSubsequence(AlphaOnly(ws), ws)
    decreases |ws|
  {
    if ws == [] {
      SubsequenceRefl(ws);
    } else {
      AlphaOnlySubsequence(ws[1..]);
      assert ws == [ws[0]] + ws[1..];
      if IsAlpha(ws[0]) {
        assert AlphaOnly(ws) == [ws[0]] + AlphaOnly(ws[1..]);
        SubsequenceConsBoth(ws[0], AlphaOnly(ws[1..]), ws[1..]);
      } else {
        assert AlphaOnly(ws) == [] + AlphaOnly(ws[1..]) == AlphaOnly(ws[1..]);
        SubsequenceConsRight(ws[0], AlphaOnly(ws[1..]), ws[1..]);
      }
    }
  }

  lemma {:induction false} AlphaOnlyEmpty(ws: seq<string>)
    ensures AlphaOnly(ws) == [] <==> forall i :: 0 <= i < |ws| ==> !IsAlpha(ws[i])
    decreases |ws|
  {
    if ws != [] {
      AlphaOnlyEmpty(ws[1..]);
      assert forall i :: 1 <= i < |ws| ==> ws[i] == ws[1..][i - 1];
    }
  }

  lemma {:induction false} AlphaOnlyAll(ws: seq<string>)
    requires forall i :: 0 <= i < |ws| ==> IsAlpha(ws[i])
    ensures AlphaOnly(ws) == ws
    decreases |ws|
  {
    if ws != [] {
      AlphaOnlyAll(ws[1..]);
    }
  }

  /** The query word list of the command, as a function of its arguments. */
  function QueryWords(args: seq<string>): seq<string> {
    AlphaOnly(Split(Lower(Join(args))))
  }

  /** `Lower` works character by character, so it distributes over `+`. */
  lemma {:induction false} LowerConcat(a: string, b: string)
    ensures Lower(a + b) == Lower(a) + Lower(b)
    decreases |a|
  {
    if a == [] {
      assert a + b == b;
    } else {
      assert (a + b)[0] == a[0] && (a + b)[1..] == a[1..] + b;
      LowerConcat(a[1..], b);
    }
  }

  /** Each argument lower-cased on its own. */
  function LowerAll(ws: seq<string>): (r: seq<string>)
    ensures |r| == |ws| && forall i :: 0 <= i < |ws| ==> r[i] == Lower(ws[i])
  {
    if ws == [] then [] else [Lower(ws[0])] + LowerAll(ws[1..])
  }

  lemma {:induction false} LowerJoin(ws: seq<string>)
    ensures Lower(Join(ws)) == Join(LowerAll(ws))
    decreases |ws|
  {
    if |ws| > 1 {
      var tail := Join(ws[1..]);
      assert Join(ws) == ws[0] + (" " + tail);
      LowerJoin(ws[1..]);
      LowerConcat(ws[0], " " + tail);
      LowerConcat(" ", tail);
      assert Lower(" ") == " ";
      assert LowerAll(ws)[1..] == LowerAll(ws[1..]);
    }
  }

  /** Lower-casing keeps a token a token. */
  lemma LowerToken(w: string)
    requires IsToken(w)
    ensures IsToken(Lower(w))
  {
    var l := Lower(w);
    forall j | 0 <= j < |l|
      ensures !IsSpace(l[j])
    {
      assert l[j] == LowerChar(w[j]);
      LowerCharKind(w[j]);
    }
  }

  /** When every argument is non-empty and holds no whitespace, the query
      words are the lower-cased arguments that are alphabetic. */
  lemma QueryWordsOfTokens(args: seq<string>)
    requires forall i :: 0 <= i < |args| ==> IsToken(args[i])
    ensures QueryWords(args) == AlphaOnly(LowerAll(args))
  {
    LowerJoin(args);
    var low := LowerAll(args);
    forall i | 0 <= i < |low|
      ensures IsToken(low[i])
    {
      LowerToken(args[i]);
    }
    SplitJoin(low);
  }

  /** A string without upper-case letters is its own lower case. */
  lemma LowerOfLower(s: string)
    requires forall i :: 0 <= i < |s| ==> !IsUpper(s[i])
    ensures Lower(s) == s
  {
  }

  /** Every query word is a non-empty run of lower-case ASCII letters. */
  lemma QueryWordsLowerCase(args: seq<string>)
    ensures forall i, j :: 0 <= i < |QueryWords(args)| && 0 <= j < |QueryWords(args)[i]| ==>
      'a' <= QueryWords(args)[i][j] <= 'z'
  {
    var low := Lower(Join(args));
    var ws := Split(low);
    forall i, j | 0 <= i < |QueryWords(args)| && 0 <= j < |QueryWords(args)[i]|
      ensures 'a' <= QueryWords(args)[i][j] <= 'z'
    {
      var w := QueryWords(args)[i];
      AlphaOnlyMembers(ws, w);
      var k :| 0 <= k < |ws| && ws[k] == w;
      SplitChars(low);
      assert w[j] in low;
      var m :| 0 <= m < |low| && low[m] == w[j];
      assert !IsUpper(low[m]) && IsLetter(w[j]);
    }
  }

  /** The query words of lower-case alphabetic arguments are the arguments. */
  lemma LowerAlphaArgs(args: seq<string>)
    requires forall i :: 0 <= i < |args| ==> IsAlpha(args[i])
    requires forall i, j :: 0 <= i < |args| && 0 <= j < |args[i]| ==> 'a' <= args[i][j] <= 'z'
    ensures QueryWords(args) == args
  {
    forall i | 0 <= i < |args|
      ensures IsToken(args[i]) && Lower(args[i]) == args[i]
    {
      LowerOfLower(args[i]);
    }
    QueryWordsOfTokens(args);
    assert LowerAll(args) == args;
    AlphaOnlyAll(args);
  }

  /** Normalising the query words again changes nothing. */
  lemma QueryWordsIdempotent(args: seq<string>)
    ensures QueryWords(QueryWords(args)) == QueryWords(args)
  {
    QueryWordsLowerCase(args);
    LowerAlphaArgs(QueryWords(args));
  }

  /** `remove(x)` on a list whose first copy of `x` follows `kept`. */
  lemma RemoveFirstAfter(kept: seq<string>, x: string, rest: seq<string>)
    requires x !in kept
    ensures x in kept + ([x] + rest)
    ensures RemoveFirst(kept + ([x] + rest), x) == kept + rest
  {
    var s := kept + ([x] + rest);
    assert s[|kept|] == x;
    assert s[..|kept|] == kept;
    assert IndexOf(s, x) == |kept|;
    assert s[|kept| + 1..] == rest;
  }

  /** A word that is not alphabetic adds nothing to the filtered list. */
  lemma DropNonAlpha(done: seq<string>, x: string)
    requires !IsAlpha(x)
    ensures AlphaOnly(done + [x]) == AlphaOnly(done)
  {
    AlphaOnlyAppend(done, [x]);
    assert AlphaOnly([x]) == [];
    assert AlphaOnly(done) + [] == AlphaOnly(done);
  }

  /** An alphabetic word is appended to the filtered list. */
  lemma KeepAlpha(done: seq<string>, x: string)
    requires IsAlpha(x)
    ensures AlphaOnly(done + [x]) == AlphaOnly(done) + [x]
  {
    AlphaOnlyAppend(done, [x]);
    assert AlphaOnly([x]) == [x];
  }

  /** The loop step at an alphabetic token `copy[i]`: it stays where it is. */
  lemma KeepStep(copy: seq<string>, i: nat)
    requires i < |copy| && IsAlpha(copy[i])
    ensures AlphaOnly(copy[..i]) + copy[i..] == AlphaOnly(copy[..i + 1]) + copy[i + 1..]
  {
    var x := copy[i];
    assert copy[..i + 1] == copy[..i] + [x];
    KeepAlpha(copy[..i], x);
    var kept := AlphaOnly(copy[..i]);
    assert copy[i..] == [x] + copy[i + 1..];
    assert kept + ([x] + copy[i + 1..]) == (kept + [x]) + copy[i + 1..];
  }

  /** The loop step at any other token `copy[i]`: `remove` deletes exactly
      the copy the loop is looking at, because every copy before it is gone
      already. */
  lemma RemoveStep(copy: seq<string>, i: nat)
    requires i < |copy| && !IsAlpha(copy[i])
    ensures copy[i] in AlphaOnly(copy[..i]) + copy[i..]
    ensures RemoveFirst(AlphaOnly(copy[..i]) + copy[i..], copy[i]) == AlphaOnly(copy[..i + 1]) + copy[i + 1..]
  {
    var x := copy[i];
    assert copy[..i + 1] == copy[..i] + [x];
    DropNonAlpha(copy[..i], x);
    var kept := AlphaOnly(copy[..i]);
    assert x !in kept;
    assert copy[i..] == [x] + copy[i + 1..];
    RemoveFirstAfter(kept, x, copy[i + 1..]);
  }

  /** The removal loop: iterate over a copy of the token list and call
      `remove` on the live list for every token that is not alphabetic. */
  method RemoveNonAlpha(tokens: seq<string>) returns (wList: seq<string>)
    ensures wList == AlphaOnly(tokens)
  {
    wList := tokens;
    var copy := tokens;
    for i := 0 to |copy|
      invariant wList == AlphaOnly(copy[..i]) + copy[i..]
    {
      var x := copy[i];
      if !IsAlpha(x) {
        RemoveStep(copy, i);
        wList := RemoveFirst(wList, x);
      } else {
        KeepStep(copy, i);
      }
    }
    assert copy[..|copy|] == copy;
  }

  /** Lines 18-21 of the command: build the query word list. */
  method NormaliseQuery(args: seq<string>) returns (wList: seq<string>)
    ensures wList == QueryWords(args)
  {
    var tokens := Split(Lower(Join(args)));
    wList := RemoveNonAlpha(tokens);
  }
}
