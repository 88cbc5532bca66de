/** Scoring of the catalog blob against the query words: the hit count of
    one entry, the table of hit counts keyed by comic number, and the choice
    of a key with the largest count. */
module Scoring {
  import opened Sequences

  /** One object of the catalog blob: the comic number and its keyword list
      (`num` and `tfidf_words`). */
  datatype Entry = Entry(num: int, tfidfWords: seq<string>)

  /** The decoded blob as Python holds it: a dictionary, that is, a map
      together with the insertion order of its keys. */
  datatype Blob = Blob(items: map<string, Entry>, order: seq<string>) {

    /** The order lists every key exactly once. */
    predicate Valid() {
      && (forall i, j :: 0 <= i < j < |order| ==> order[i] != order[j])
      && (forall k :: k in items ==> k in order)
      && (forall i :: 0 <= i < |order| ==> order[i] in items)
    }

    /** The entries in iteration order. */
    function Entries(): seq<Entry>
      requires Valid()
    {
      seq(|order|, i requires 0 <= i < |order| => items[order[i]])
    }

    /** Iteration visits each key of the dictionary exactly once: there are
        as many entries as keys, and the entry of every key is among them. */
    lemma EntriesVisitEachKey()
      requires Valid()
      ensures |Entries()| == |items.Keys|
      ensures forall k :: k in items ==> exists i :: 0 <= i < |Entries()| && Entries()[i] == items[k]
    {
      DistinctCardinality(order);
      assert items.Keys == set x | x in order;
      forall k | k in items
        ensures exists i :: 0 <= i < |Entries()| && Entries()[i] == items[k]
      {
        var i :| 0 <= i < |order| && order[i] == k;
        assert Entries()[i] == items[k];
      }
    }
  }

  /** The number of positions of `q` whose word is one of `words`; a word
      that occurs twice in `q` is counted twice. */
  function Score(q: seq<string>, words: seq<string>): (r: nat)
    ensures r <= |q|
  {
    if q == [] then 0 else (if q[0] in words then 1 else 0) + Score(q[1..], words)
  }

  lemma {:induction false} ScoreConcat(a: seq<string>, b: seq<string>, words: seq<string>)
    ensures Score(a + b, words) == Score(a, words) + Score(b, words)
    decreases |a|
  {
    if a == [] {
      assert a + b == b;
    } else {
      assert (a + b)[0] == a[0] && (a + b)[1..] == a[1..] + b;
      ScoreConcat(a[1..], b, words);
    }
  }

  /** One more query word raises the score by one exactly when it is a
      keyword of the entry, and leaves it unchanged otherwise. */
  lemma ScoreAppend(q: seq<string>, x: string, words: seq<string>)
    ensures Score(q + [x], words) == Score(q, words) + (if x in words then 1 else 0)
  {
    ScoreConcat(q, [x], words);
    assert [x][1..] == [];
  }

  /** Taking away the query word at position `j` lowers the score by one
      exactly when that word is a keyword. */
  lemma ScoreRemoveAt(q: seq<string>, j: nat, words: seq<string>)
    requires j < |q|
    ensures Score(q, words) == Score(RemoveAt(q, j), words) + (if q[j] in words then 1 else 0)
  {
    var a, b := q[..j], q[j + 1..];
    assert q == (a + [q[j]]) + b;
    ScoreConcat(a + [q[j]], b, words);
    ScoreAppend(a, q[j], words);
    ScoreConcat(a, b, words);
  }

  /** The score does not depend on the order of the query words. */
  lemma {:induction false} ScorePermutation(q1: seq<string>, q2: seq<string>, words: seq<string>)
    requires multiset(q1) == multiset(q2)
    ensures Score(q1, words) == Score(q2, words)
    decreases |q1|
  {
    if q1 == [] {
      assert |q2| == |multiset(q2)| == 0;
    } else {
      var x := q1[0];
      assert x in multiset(q2);
      var j := IndexOf(q2, x);
      var r := RemoveAt(q2, j);
      assert q1 == [x] + q1[1..];
      assert multiset(q1[1..]) == multiset(r);
      ScorePermutation(q1[1..], r, words);
      ScoreRemoveAt(q2, j, words);
    }
  }

  /** The positions of `q` that hit one of `words`. */
  function HitPositions(q: seq<string>, words: seq<string>): set<nat> {
    set i: nat | i < |q| && q[i] in words
  }

  /** The score is the number of hit positions. */
  lemma {:induction false} ScoreIsHitCount(q: seq<string>, words: seq<string>)
    ensures Score(q, words) == |HitPositions(q, words)|
    decreases |q|
  {
    if q != [] {
      var p, x := q[..|q| - 1], q[|q| - 1];
      assert q == p + [x];
      ScoreIsHitCount(p, words);
      ScoreAppend(p, x, words);
      var extra: set<nat> := if x in words then {|p|} else {};
      assert HitPositions(q, words) == HitPositions(p, words) + extra;
      assert |p| !in HitPositions(p, words);
    }
  }

  /** A positive score means some query word is a keyword, and conversely. */
  lemma {:induction false} ScorePositive(q: seq<string>, words: seq<string>)
    ensures Score(q, words) > 0 <==> exists i :: 0 <= i < |q| && q[i] in words
    decreases |q|
  {
    if q != [] {
      ScorePositive(q[1..], words);
      assert forall i :: 1 <= i < |q| ==> q[i] == q[1..][i - 1];
      if q[0] !in words && exists i :: 0 <= i < |q| && q[i] in words {
        var i :| 0 <= i < |q| && q[i] in words;
        assert q[1..][i - 1] in words;
      }
    }
  }

  /** The table the command fills entry by entry: each comic number maps to
      the score of the last entry with that number. */
  function MatchDict(q: seq<string>, es: seq<Entry>): (m: map<int, nat>)
    ensures m.Keys == set i | 0 <= i < |es| :: es[i].num
    ensures forall k :: k in m ==> m[k] <= |q|
  {
    if es == [] then map[]
    else
      var last := es[|es| - 1];
      var m0 := MatchDict(q, es[..|es| - 1]);
      assert forall i :: 0 <= i < |es| - 1 ==> es[..|es| - 1][i] == es[i];
      m0[last.num := Score(q, last.tfidfWords)]
  }

  /** The table after one more entry: its count is recorded under its
      number. */
  lemma MatchDictStep(q: seq<string>, es: seq<Entry>, i: nat)
    requires i < |es|
    ensures MatchDict(q, es[..i + 1]) == MatchDict(q, es[..i])[es[i].num := Score(q, es[i].tfidfWords)]
  {
    assert es[..i + 1][..i] == es[..i];
  }

  /** Entry j is the last entry of `es` with its comic number. */
  predicate IsLastOfNum(es: seq<Entry>, j: int) {
    0 <= j < |es| && forall l :: j < l < |es| ==> es[l].num != es[j].num
  }

  /** A later entry with the same number overwrites an earlier one: the
      table holds the score of the last entry with each number. */
  lemma {:induction false} MatchDictLastWins(q: seq<string>, es: seq<Entry>, j: int)
    requires IsLastOfNum(es, j)
    ensures es[j].num in MatchDict(q, es)
    ensures MatchDict(q, es)[es[j].num] == Score(q, es[j].tfidfWords)
    decreases |es|
  {
    if j < |es| - 1 {
      var p := es[..|es| - 1];
      assert p[j] == es[j];
      assert IsLastOfNum(p, j);
      MatchDictLastWins(q, p, j);
    }
  }

  /** Permuting the query words leaves the whole table unchanged. */
  lemma {:induction false} MatchDictPermutation(q1: seq<string>, q2: seq<string>, es: seq<Entry>)
    requires multiset(q1) == multiset(q2)
    ensures MatchDict(q1, es) == MatchDict(q2, es)
    decreases |es|
  {
    if es != [] {
      MatchDictPermutation(q1, q2, es[..|es| - 1]);
      ScorePermutation(q1, q2, es[|es| - 1].tfidfWords);
    }
  }

  /** Appending a query word raises the count of comic `es[j].num` by one
      when the word is one of the keywords of its last entry, and leaves it
      unchanged otherwise; the keys do not change. */
  lemma MatchDictAppend(q: seq<string>, x: string, es: seq<Entry>, j: int)
    requires IsLastOfNum(es, j)
    ensures MatchDict(q + [x], es).Keys == MatchDict(q, es).Keys
    ensures es[j].num in MatchDict(q, es)
    ensures MatchDict(q + [x], es)[es[j].num] ==
            MatchDict(q, es)[es[j].num] + (if x in es[j].tfidfWords then 1 else 0)
  {
    MatchDictLastWins(q, es, j);
    MatchDictLastWins(q + [x], es, j);
    ScoreAppend(q, x, es[j].tfidfWords);
  }

  /** When no query word is a keyword of any entry, every count is zero. */
  lemma {:induction false} MatchDictNoHits(q: seq<string>, es: seq<Entry>)
    requires forall j, i :: 0 <= j < |es| && 0 <= i < |q| ==> q[i] !in es[j].tfidfWords
    ensures forall k :: k in MatchDict(q, es) ==> MatchDict(q, es)[k] == 0
    decreases |es|
  {
    if es != [] {
      var p := es[..|es| - 1];
      assert forall j :: 0 <= j < |p| ==> p[j] == es[j];
      MatchDictNoHits(q, p);
      ScorePositive(q, es[|es| - 1].tfidfWords);
    }
  }

  /** All counts are zero exactly when no query word is a keyword of the last
      entry of any comic number. */
  lemma MatchDictAllZero(q: seq<string>, es: seq<Entry>)
    ensures (forall k :: k in MatchDict(q, es) ==> MatchDict(q, es)[k] == 0) <==>
            (forall j, i :: IsLastOfNum(es, j) && 0 <= i < |q| ==> q[i] !in es[j].tfidfWords)
  {
    var m := MatchDict(q, es);
    if forall k :: k in m ==> m[k] == 0 {
      forall j, i | IsLastOfNum(es, j) && 0 <= i < |q|
        ensures q[i] !in es[j].tfidfWords
      {
        MatchDictLastWins(q, es, j);
        ScorePositive(q, es[j].tfidfWords);
      }
    } else {
      var k :| k in m && m[k] != 0;
      var j := LastOfNum(es, k);
      MatchDictLastWins(q, es, j);
      ScorePositive(q, es[j].tfidfWords);
    }
  }

  /** The position of the last entry with number `k`. */
  function LastOfNum(es: seq<Entry>, k: int): (j: int)
    requires k in set i | 0 <= i < |es| :: es[i].num
    ensures IsLastOfNum(es, j) && es[j].num == k
  {
    if es[|es| - 1].num == k then |es| - 1
    else
      var p := es[..|es| - 1];
      assert k in set i | 0 <= i < |p| :: p[i].num by {
        var i :| 0 <= i < |es| && es[i].num == k;
        assert p[i] == es[i];
      }
      var j := LastOfNum(p, k);
      assert p[j] == es[j];
      j
  }

  /** `n` is a key of `m` whose value is at least every other value. */
  predicate IsMaxKey(m: map<int, nat>, n: int) {
    n in m && forall k :: k in m ==> m[k] <= m[n]
  }

  lemma {:induction false} MaxKeyExists(m: map<int, nat>)
    requires m != map[]
    ensures exists n :: IsMaxKey(m, n)
    decreases |m.Keys|
  {
    if !exists k :: k in m {
      assert false;
    }
    var k :| k in m;
    var rest := m - {k};
    assert rest.Keys == m.Keys - {k};
    if rest == map[] {
      assert rest.Keys == {};
      assert m.Keys == {k};
      assert IsMaxKey(m, k);
    } else {
      MaxKeyExists(rest);
      var n :| IsMaxKey(rest, n);
      assert forall k' :: k' in rest ==> rest[k'] == m[k'];
      if m[k] >= m[n] {
        assert IsMaxKey(m, k);
      } else {
        assert IsMaxKey(m, n);
      }
    }
  }

  /** `keywithmaxval`: some key whose value is maximal.  Which of several
      maximal keys is returned is left open. */
  method KeyWithMaxVal(m: map<int, nat>) returns (n: int)
    requires m != map[]
    ensures IsMaxKey(m, n)
  {
    MaxKeyExists(m);
    n :| IsMaxKey(m, n);
  }
}
