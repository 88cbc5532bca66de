/** The `xkcd` command of the comics cog: match the free-text query against
    the catalog blob and reply with the best comic, or with a random one when
    the query has no alphabetic word or no entry shares a word with it. */
module Comics {
  import opened Query
  import opened Scoring

  /** The reply of the command.  Fetching the comic and rendering the
      message are abstract: only which comic is asked for remains. */
  datatype Reply =
    | RandomComic                      // the library's random comic
    | FoundComic(num: int, hits: nat)  // comic `num`, reported with `hits` hits

  /** Every reply the command may give for the query words `q` against
      `blob`.  Which of several maximal comic numbers is chosen is left open. */
  ghost predicate AllowedReply(q: seq<string>, blob: Blob, reply: Reply)
    requires blob.Valid()
  {
    if q == [] then reply == RandomComic
    else
      var m := MatchDict(q, blob.Entries());
      exists n :: IsMaxKey(m, n) && reply == (if m[n] == 0 then RandomComic else FoundComic(n, m[n]))
  }

  /** A reply built from a maximal key of the table, as the command builds
      it, is an allowed reply. */
  lemma ReplyAllowed(q: seq<string>, blob: Blob, n: int, reply: Reply)
    requires blob.Valid() && q != []
    requires IsMaxKey(MatchDict(q, blob.Entries()), n)
    requires var m := MatchDict(q, blob.Entries());
      reply == if m[n] == 0 then RandomComic else FoundComic(n, m[n])
    ensures AllowedReply(q, blob, reply)
  {
  }

  /** The cog.  Its fields are the attributes the command sets on `self`. */
  class Comics {
    var jsonData: Blob
    var wList: seq<string>
    var matchDict: map<int, nat>
    var count: nat
    var n: int

    constructor ()
      ensures jsonData == Blob(map[], []) && wList == [] && matchDict == map[] && count == 0 && n == 0
    {
      jsonData := Blob(map[], []);
      wList := [];
      matchDict := map[];
      count := 0;
      n := 0;
    }

    /** The inner scoring loop: count in `count` the query words that are
        among `words`, the keywords of one entry. */
    method CountEntry(words: seq<string>)
      modifies this
      ensures jsonData == old(jsonData) && wList == old(wList) && matchDict == old(matchDict) && n == old(n)
      ensures count == Score(wList, words)
    {
      count := 0;
      for k := 0 to |wList|
        invariant jsonData == old(jsonData) && wList == old(wList) && matchDict == old(matchDict) && n == old(n)
        invariant count == Score(wList[..k], words)
      {
        assert wList[..k + 1] == wList[..k] + [wList[k]];
        ScoreAppend(wList[..k], wList[k], words);
        if wList[k] in words {
          count := count + 1;
        }
      }
      assert wList[..|wList|] == wList;
    }

    /** The outer scoring loop: score every entry of the blob in iteration
        order and record its count under the entry's number. */
    method FillMatchDict()
      requires jsonData.Valid()
      modifies this
      ensures jsonData == old(jsonData) && wList == old(wList) && n == old(n)
      ensures matchDict == MatchDict(wList, jsonData.Entries())
      ensures jsonData.order == [] ==> count == old(count)
      ensures jsonData.order != [] ==>
        count == Score(wList, jsonData.Entries()[|jsonData.order| - 1].tfidfWords)
    {
      var es := jsonData.Entries();
      matchDict := map[];
      for i := 0 to |jsonData.order|
        invariant jsonData == old(jsonData) && wList == old(wList) && n == old(n)
        invariant matchDict == MatchDict(wList, es[..i])
        invariant i == 0 ==> count == old(count)
        invariant i > 0 ==> count == Score(wList, es[i - 1].tfidfWords)
      {
        var value := jsonData.items[jsonData.order[i]];
        CountEntry(value.tfidfWords);
        MatchDictStep(wList, es, i);
        matchDict := matchDict[value.num := count];
      }
      assert es[..|es|] == es;
    }

    /** The matching half of the command, once the word list is known to
        be non-empty: fill the table, take a key with the largest count, and
        answer with that comic, or with a random one when the count is 0. */
    method MatchAndReply() returns (reply: Reply)
      requires jsonData.Valid() && jsonData.order != [] && wList != []
      modifies this
      ensures jsonData == old(jsonData) && wList == old(wList)
      ensures matchDict == MatchDict(wList, jsonData.Entries()) && IsMaxKey(matchDict, n)
      ensures count == Score(wList, jsonData.Entries()[|jsonData.order| - 1].tfidfWords)
      ensures reply == RandomComic <==> matchDict[n] == 0
      ensures reply.FoundComic? ==> reply == FoundComic(n, matchDict[n]) && reply.hits > 0
      ensures AllowedReply(wList, jsonData, reply)
    {
      FillMatchDict();
      var es := jsonData.Entries();
      assert es[0].num in matchDict;
      n := KeyWithMaxVal(matchDict);
      if matchDict[n] == 0 {
        reply := RandomComic;
      } else {
        reply := FoundComic(n, matchDict[n]);
      }
      ReplyAllowed(wList, jsonData, n, reply);
    }

    /** The command.  `blob` is the decoded catalog file. */
    method Xkcd(args: seq<string>, blob: Blob) returns (reply: Reply)
      requires blob.Valid()
      requires QueryWords(args) != [] ==> blob.order != []
      modifies this
      ensures jsonData == blob && wList == QueryWords(args)
      ensures wList == [] ==>
        reply == RandomComic && matchDict == old(matchDict) && count == old(count) && n == old(n)
      ensures wList != [] ==> matchDict == MatchDict(wList, blob.Entries()) && IsMaxKey(matchDict, n)
      ensures wList != [] ==> count == Score(wList, blob.Entries()[|blob.order| - 1].tfidfWords)
      ensures wList != [] ==> (reply == RandomComic <==> matchDict[n] == 0)
      ensures reply.FoundComic? ==> reply == FoundComic(n, matchDict[n]) && reply.hits > 0
      ensures AllowedReply(wList, blob, reply)
    {
      jsonData := blob;
      wList := NormaliseQuery(args);
      if wList == [] {
        reply := RandomComic;
        return;
      }
      reply := MatchAndReply();
    }
  }

  /** A comic the command names has the largest count and at least one hit. */
  lemma FoundIsBest(q: seq<string>, blob: Blob, reply: Reply)
    requires blob.Valid() && AllowedReply(q, blob, reply) && reply.FoundComic?
    ensures q != []
    ensures var m := MatchDict(q, blob.Entries());
      && reply.num in m && m[reply.num] == reply.hits > 0
      && forall k :: k in m ==> m[k] <= reply.hits
  {
  }

  /** The reply is random exactly when there are no query words or no comic
      number's last entry shares a word with them. */
  lemma RandomIffNoHits(q: seq<string>, blob: Blob, reply: Reply)
    requires blob.Valid() && AllowedReply(q, blob, reply)
    ensures var es := blob.Entries();
      reply == RandomComic <==>
        q == [] || forall j, i :: IsLastOfNum(es, j) && 0 <= i < |q| ==> q[i] !in es[j].tfidfWords
  {
    if q != [] {
      var es := blob.Entries();
      var m := MatchDict(q, es);
      var n :| IsMaxKey(m, n) && reply == (if m[n] == 0 then RandomComic else FoundComic(n, m[n]));
      assert reply == RandomComic <==> m[n] == 0;
      assert m[n] == 0 <==> forall k :: k in m ==> m[k] == 0;
      MatchDictAllZero(q, es);
    }
  }

  /** Rearranging the query words does not change which replies are allowed. */
  lemma ReplyIgnoresWordOrder(q1: seq<string>, q2: seq<string>, blob: Blob, reply: Reply)
    requires blob.Valid()
    requires multiset(q1) == multiset(q2)
    ensures AllowedReply(q1, blob, reply) <==> AllowedReply(q2, blob, reply)
  {
    MatchDictPermutation(q1, q2, blob.Entries());
    assert |q1| == |multiset(q1)| == |multiset(q2)| == |q2|;
  }

  /** A two-comic catalog: "Barrel - Part 1" and "Tree Ring Calendar". */
  function SampleBlob(): (b: Blob)
    ensures b.Valid()
    ensures b.Entries() == [Entry(1, ["barrel", "part"]), Entry(2, ["tree", "ring", "calendar"])]
  {
    Blob(map["1" := Entry(1, ["barrel", "part"]), "2" := Entry(2, ["tree", "ring", "calendar"])],
         ["1", "2"])
  }

  /** The table of the sample catalog, from the scores of its two entries. */
  lemma SampleTable(q: seq<string>, blob: Blob, s1: nat, s2: nat)
    requires blob == SampleBlob()
    requires Score(q, ["barrel", "part"]) == s1 && Score(q, ["tree", "ring", "calendar"]) == s2
    ensures MatchDict(q, blob.Entries()) == map[1 := s1, 2 := s2]
  {
    var es := blob.Entries();
    var m := MatchDict(q, es);
    assert IsLastOfNum(es, 0) && IsLastOfNum(es, 1);
    MatchDictLastWins(q, es, 0);
    MatchDictLastWins(q, es, 1);
    assert m.Keys == {1, 2};
  }

  /** The table for the query words "tree", "calendar". */
  lemma TreeCalendarTable(q: seq<string>, blob: Blob)
    requires q == ["tree", "calendar"] && blob == SampleBlob()
    ensures MatchDict(q, blob.Entries()) == map[1 := 0, 2 := 2]
  {
    assert q[0] !in ["barrel", "part"] && q[1] !in ["barrel", "part"];
    assert q[0] in ["tree", "ring", "calendar"] && q[1] in ["tree", "ring", "calendar"];
    assert q[1..][1..] == [];
    SampleTable(q, blob, 0, 2);
  }

  /** The query "tree calendar" names comic 2 with two hits, whatever the
      tie-break. */
  lemma SampleTreeCalendar(q: seq<string>, blob: Blob, reply: Reply)
    requires q == ["tree", "calendar"] && blob == SampleBlob()
    requires AllowedReply(q, blob, reply)
    ensures reply == FoundComic(2, 2)
  {
    TreeCalendarTable(q, blob);
    var m := MatchDict(q, blob.Entries());
    var n :| IsMaxKey(m, n) && reply == (if m[n] == 0 then RandomComic else FoundComic(n, m[n]));
    assert m[2] <= m[n];
  }

  /** The table for the query word "xyzzy". */
  lemma XyzzyTable(q: seq<string>, blob: Blob)
    requires q == ["xyzzy"] && blob == SampleBlob()
    ensures MatchDict(q, blob.Entries()) == map[1 := 0, 2 := 0]
  {
    assert q[0] !in ["barrel", "part"] && q[0] !in ["tree", "ring", "calendar"];
    assert q[1..] == [];
    SampleTable(q, blob, 0, 0);
  }

  /** A query that shares no word with the catalog gets a random comic. */
  lemma SampleNoMatch(q: seq<string>, blob: Blob, reply: Reply)
    requires q == ["xyzzy"] && blob == SampleBlob()
    requires AllowedReply(q, blob, reply)
    ensures reply == RandomComic
  {
    XyzzyTable(q, blob);
  }

  /** The arguments of the sample queries are their own query words. */
  lemma SampleQueryWords(args: seq<string>)
    requires args == ["tree", "calendar"] || args == ["xyzzy"]
    ensures QueryWords(args) == args
  {
    LowerAlphaArgs(args);
  }

  /** Arguments without alphabetic words leave no query words, so the
      command replies with a random comic from any blob. */
  lemma SampleNumbersOnly(args: seq<string>)
    requires args == ["1234", "4u"]
    ensures QueryWords(args) == []
  {
    assert IsToken(args[0]) && IsToken(args[1]);
    QueryWordsOfTokens(args);
    LowerOfLower(args[0]);
    LowerOfLower(args[1]);
    assert LowerAll(args) == args;
    assert !IsLetter(args[0][0]) && !IsLetter(args[1][0]);
    AlphaOnlyEmpty(args);
  }
}
