/** The search command of the ask cog: the query is turned into the search
    URL and the result links of the page are filtered.  With no links the
    reply says nothing was found; otherwise it shows the first three links
    that remain, and with fewer than three reading the third one raises
    `IndexError`. */
module Ask {
  import opened Sequences

  datatype Option<T> = None | Some(value: T)

  /** `link.startswith('//')`: a link back into the search site itself. */
  predicate StartsWithSlashes(link: string) {
    "//" <= link
  }

  /** `s.replace(a, b)` for one-character `a` and `b`. */
  function ReplaceChar(s: string, a: char, b: char): (r: string)
    ensures |r| == |s|
    ensures forall i :: 0 <= i < |s| ==> r[i] == if s[i] == a then b else s[i]
  {
    if s == [] then [] else [if s[0] == a then b else s[0]] + ReplaceChar(s[1..], a, b)
  }

  /** Replacing `a` by `b` leaves no `a` behind. */
  lemma ReplaceCharRemoves(s: string, a: char, b: char)
    requires a != b
    ensures a !in ReplaceChar(s, a, b)
  {
  }

  /** When `s` holds no `b`, replacing `b` back by `a` undoes the replacement. */
  lemma ReplaceCharRoundTrip(s: string, a: char, b: char)
    requires b !in s
    ensures ReplaceChar(ReplaceChar(s, a, b), b, a) == s
  {
    var r := ReplaceChar(ReplaceChar(s, a, b), b, a);
    forall i | 0 <= i < |s|
      ensures r[i] == s[i]
    {
      assert s[i] != b;
    }
  }

  /** The search terms as they go into the URL: every space becomes `+`. */
  function SearchQuery(query: string): string {
    ReplaceChar(query, ' ', '+')
  }

  /** A query without `+` can be read back from its search terms. */
  lemma SearchQueryInjective(q1: string, q2: string)
    requires '+' !in q1 && '+' !in q2
    requires SearchQuery(q1) == SearchQuery(q2)
    ensures q1 == q2
  {
    ReplaceCharRoundTrip(q1, ' ', '+');
    ReplaceCharRoundTrip(q2, ' ', '+');
  }

  /** The page the command fetches for the search terms `sq`. */
  function ScrapeUri(sq: string): string {
    "http://www.ask.com/web?q=" + sq + "&o=0&qo=homepageSearchBox"
  }

  /** The filter loop as Python runs it.  The list iterator reads position
      `i` of the live list and then moves on to `i + 1`; `pop` of the first
      copy of the link shifts the later elements one place down, so the
      element that moves into the visited slot is never looked at. */
  function PopWhileIterating(links: seq<string>, i: nat): seq<string>
    decreases |links| + 1 - i
  {
    if i >= |links| then links
    else if StartsWithSlashes(links[i]) then
      PopWhileIterating(RemoveAt(links, IndexOf(links, links[i])), i + 1)
    else PopWhileIterating(links, i + 1)
  }

  /** The list the filter leaves of the extracted links. */
  function AskFilter(links: seq<string>): seq<string> {
    PopWhileIterating(links, 0)
  }

  /** What remains is the extracted list with some links deleted, in the
      same relative order. */
  lemma {:induction false} PopWhileIteratingSubsequence(links: seq<string>, i: nat)
    ensures IsSubsequence(PopWhileIterating(links, i), links)
    decreases |links| + 1 - i
  {
    if i >= |links| {
      SubsequenceRefl(links);
    } else if StartsWithSlashes(links[i]) {
      var j := IndexOf(links, links[i]);
      var shorter := RemoveAt(links, j);
      PopWhileIteratingSubsequence(shorter, i + 1);
      RemoveAtSubsequence(links, j);
      SubsequenceTrans(PopWhileIterating(shorter, i + 1), shorter, links);
    } else {
      PopWhileIteratingSubsequence(links, i + 1);
    }
  }

  /** Only links starting with `//` lose copies: every other link keeps all
      of its copies. */
  lemma {:induction false} PopWhileIteratingKeeps(links: seq<string>, i: nat, x: string)
    requires !StartsWithSlashes(x)
    ensures multiset(PopWhileIterating(links, i))[x] == multiset(links)[x]
    decreases |links| + 1 - i
  {
    if i < |links| {
      if StartsWithSlashes(links[i]) {
        var j := IndexOf(links, links[i]);
        PopWhileIteratingKeeps(RemoveAt(links, j), i + 1, x);
      } else {
        PopWhileIteratingKeeps(links, i + 1, x);
      }
    }
  }

  /** The filter's result is a subsequence of the extracted links; a link
      is removed only if it starts with `//`, and a link that does not is
      never removed. */
  lemma AskFilterSound(links: seq<string>)
    ensures IsSubsequence(AskFilter(links), links)
    ensures multiset(AskFilter(links)) <= multiset(links)
    ensures forall x :: !StartsWithSlashes(x) ==> multiset(AskFilter(links))[x] == multiset(links)[x]
    ensures forall x :: multiset(AskFilter(links))[x] < multiset(links)[x] ==> StartsWithSlashes(x)
  {
    PopWhileIteratingSubsequence(links, 0);
    SubsequenceMultiset(AskFilter(links), links);
    forall x | !StartsWithSlashes(x)
      ensures multiset(AskFilter(links))[x] == multiset(links)[x]
    {
      PopWhileIteratingKeeps(links, 0, x);
    }
  }

  /** From position `i` on, links without `//` are all left in place. */
  lemma {:induction false} PopWhileIteratingNoSlashes(links: seq<string>, i: nat)
    requires forall k :: i <= k < |links| ==> !StartsWithSlashes(links[k])
    ensures PopWhileIterating(links, i) == links
    decreases |links| + 1 - i
  {
    if i < |links| {
      PopWhileIteratingNoSlashes(links, i + 1);
    }
  }

  /** The filter is the identity on a list without `//` links. */
  lemma AskFilterNoSlashes(links: seq<string>)
    requires forall k :: 0 <= k < |links| ==> !StartsWithSlashes(links[k])
    ensures AskFilter(links) == links
  {
    PopWhileIteratingNoSlashes(links, 0);
  }

  /** One step of the loop at a `//` link that is the first of its kind. */
  lemma PopStep(links: seq<string>, i: nat)
    requires i < |links| && StartsWithSlashes(links[i]) && links[i] !in links[..i]
    ensures PopWhileIterating(links, i) == PopWhileIterating(links[..i] + links[i + 1..], i + 1)
  {
    assert IndexOf(links, links[i]) == i;
  }

  /** On `[a, b]` of `//` links, `b` moves into the slot of the popped `a`
      and is never visited, so it survives. */
  lemma SkippedAfterPop(a: string, b: string)
    requires StartsWithSlashes(a) && StartsWithSlashes(b)
    ensures AskFilter([a, b]) == [b]
  {
    PopStep([a, b], 0);
    assert [a, b][1..] == [b];
  }

  /** A skipped `//` link is not safe: on `[a, b, b]` the first `b` is
      skipped, and when the second is visited `index` finds the first one,
      which is popped in its place. */
  lemma SkippedThenPopped(a: string, b: string)
    requires StartsWithSlashes(a) && StartsWithSlashes(b)
    ensures AskFilter([a, b, b]) == [b]
  {
    var s0 := [a, b, b];
    assert IndexOf(s0, a) == 0;
    var s1 := RemoveAt(s0, 0);
    assert s1 == [b, b];
    assert PopWhileIterating(s0, 0) == PopWhileIterating(s1, 1);
    assert IndexOf(s1, b) == 0;
    assert RemoveAt(s1, 0) == [b];
    assert PopWhileIterating(s1, 1) == PopWhileIterating([b], 2);
  }

  /** The loop from position 1 on `[a, c, a]`: `c` stays, and the popped
      copy of `a` is the first one. */
  lemma PopFirstCopy(a: string, c: string)
    requires StartsWithSlashes(a) && !StartsWithSlashes(c)
    ensures PopWhileIterating([a, c, a], 1) == [c, a]
  {
    var s1 := [a, c, a];
    assert PopWhileIterating(s1, 1) == PopWhileIterating(s1, 2);
    assert IndexOf(s1, s1[2]) == 0;
    assert RemoveAt(s1, 0) == [c, a];
  }

  /** `index` finds the first equal link, which can be a copy that was
      skipped earlier: here the third `a` pops the second (skipped) one, and
      the third survives. */
  lemma PopHitsEarlierSurvivor(a: string, c: string)
    requires StartsWithSlashes(a) && !StartsWithSlashes(c)
    ensures AskFilter([a, a, c, a]) == [c, a]
  {
    var s0 := [a, a, c, a];
    PopStep(s0, 0);
    assert s0[..0] + s0[1..] == [a, c, a];
    PopFirstCopy(a, c);
  }

  /** A non-empty extracted list can come out of the filter empty. */
  lemma OnlySlashLinkEmpties(a: string)
    requires StartsWithSlashes(a)
    ensures AskFilter([a]) == []
  {
    PopStep([a], 0);
    assert [a][1..] == [];
  }

  /** `_get_ask_links` once the hrefs of the result links are extracted:
      `None` for no links, otherwise the list left by popping `//` links
      while iterating over it. */
  method GetAskLinks(extracted: seq<string>) returns (r: Option<seq<string>>)
    ensures r == if extracted == [] then None else Some(AskFilter(extracted))
  {
    if extracted == [] {
      return None;
    }
    var linkList := extracted;
    var i := 0;
    while i < |linkList|
      invariant PopWhileIterating(linkList, i) == AskFilter(extracted)
      decreases |linkList| + 1 - i
    {
      var link := linkList[i];
      if StartsWithSlashes(link) {
        linkList := RemoveAt(linkList, IndexOf(linkList, link));
      }
      i := i + 1;
    }
    return Some(linkList);
  }

  /** What the command answers.  `IndexError` is the exception raised when
      fewer than three links remain. */
  datatype AskReply =
    | AskForQuery
    | NothingFound(query: string)
    | TopResults(top: string, seeAlso1: string, seeAlso2: string)
    | IndexError

  /** The command.  `extracted` stands for the hrefs of the result links of
      the page fetched from `fetched`; parsing and the fetch are not part of
      this model. */
  method AskSearch(query: string, extracted: seq<string>) returns (fetched: Option<string>, reply: AskReply)
    ensures query == "" ==> fetched == None && reply == AskForQuery
    ensures query != "" ==> fetched == Some(ScrapeUri(SearchQuery(query)))
    ensures query != "" && extracted == [] ==> reply == NothingFound(query)
    ensures query != "" && extracted != [] ==>
      var l := AskFilter(extracted);
      reply == if |l| >= 3 then TopResults(l[0], l[1], l[2]) else IndexError
  {
    if query == "" {
      return None, AskForQuery;
    }
    var searchQuery := SearchQuery(query);
    fetched := Some(ScrapeUri(searchQuery));
    var linkList := GetAskLinks(extracted);
    if linkList.None? {
      return fetched, NothingFound(query);
    }
    var l := linkList.value;
    if |l| < 3 {
      return fetched, IndexError;
    }
    reply := TopResults(l[0], l[1], l[2]);
  }
}
