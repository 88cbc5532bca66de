# qtbot comic matcher and search-link filter, in Dafny

This project models two commands of the qtbot chat bot:

- **`xkcd`** (`cogs/comics.py`) matches a free-text query against a catalog
  blob of comics. The arguments are joined with spaces, lower-cased and split
  on whitespace. Every token that is not purely alphabetic is removed from the
  word list; the loop runs over a copy of the list and calls `remove` on the
  live one. If no word is left, the reply is a random comic. Otherwise every
  entry of the blob is scored: its score counts the query words, with
  multiplicity, that are among its `tfidf_words`. The score is stored in
  `matchDict` under the entry's `num`. The key with the largest count is
  taken. When that count is 0 the reply is a random comic; otherwise it is
  that comic with its hit count.
- **`ask`** (`cogs/ask.py`) searches the web. The query's spaces become `+`
  in the search URL. The result links of the page are filtered: a link
  starting with `//` is `pop`ped by `index` while the loop iterates over the
  same list, so the element that shifts into the visited slot (the one right
  after the link just read) is never looked at. With no extracted links the reply is "couldn't find anything".
  Otherwise the reply shows the first three links that remain; with fewer
  than three, reading `link_list[2]` raises `IndexError`.

Files:

- `sequences.dfy`: subsequences, plus Python's `list.index`, `list.pop(j)`
  and `list.remove(x)` on sequences.
- `query.dfy`: `str.isspace`, `str.lower`, `" ".join`, `str.split()` and
  `str.isalpha`, the word-list loop, and the query-word function it is
  proved against.
- `scoring.dfy`: the blob data model, the score of one entry, the table
  `matchDict` as a function of the query words and the blob, and
  `keywithmaxval`.
- `comics.dfy`: the cog as a class whose fields are the attributes the
  command sets on `self`, the scoring loops and the command, and the allowed
  replies with their properties and a sample catalog.
- `ask.dfy`: the filter loop with an explicit iterator index, its reference
  function, the query formatting and the command's reply.

Python's dictionary is modelled as a map together with the insertion order
of its keys (`Scoring.Blob`). The order matters: when two entries share a
`num`, the later one overwrites the earlier.

Three facts about the code that the model keeps:

- A token that is not entirely alphabetic (`4u`, `1234`) is dropped whole,
  not stripped of its other characters.
- The word list keeps its order and its duplicates, so a repeated matching
  word counts twice.
- With query words and an empty blob, the empty table goes to
  `keywithmaxval`, whose behaviour is not known here.

## Model

| member | source | states |
|---|---|---|
| Query.IsSpace | cogs/comics.py:18 | the characters `str.isspace` accepts, by code point: the separators of `str.split()` without an argument |
| Query.IsAlpha | cogs/comics.py:20 | `str.isalpha` on ASCII text: non-empty and letters only |
| Query.LowerChar | cogs/comics.py:18 | the lower-cased character is never upper case, and a character that is not upper case is kept |
| Query.Lower | cogs/comics.py:18 | `str.lower` keeps the length and lower-cases every character in place |
| Query.Join | cogs/comics.py:18 | `" ".join`: the arguments with one space between neighbours (its laws are `Query.SplitJoin` and `Query.LowerJoin`) |
| Query.Split | cogs/comics.py:18 | `str.split()`: the maximal runs of non-whitespace, in order (its laws are `Query.SplitTokens`, `Query.SplitFirst` and `Query.SplitJoin`) |
| Query.NormaliseQuery | cogs/comics.py:18-21 | the word list is `QueryWords(args)`: the whitespace-split words of the lower-cased joined arguments that are entirely alphabetic |
| Query.RemoveNonAlpha | cogs/comics.py:19-21 | removing a token with `remove` while iterating over a copy leaves exactly the alphabetic tokens, in order, with duplicates kept (`AlphaOnly`) |
| Query.RemoveStep | cogs/comics.py:19-21 | at a non-alphabetic token, `remove` deletes exactly the copy being visited, because all earlier copies are already gone |
| Query.KeepStep | cogs/comics.py:19-21 | at an alphabetic token the live list is not changed |
| Query.AlphaOnlyCount | cogs/comics.py:19-21 | every alphabetic word keeps all its copies; every other word keeps none |
| Query.AlphaOnlyMembers | cogs/comics.py:19-21 | a word is in the filtered list if and only if it is in the token list and alphabetic |
| Query.AlphaOnlySubsequence | cogs/comics.py:19-21 | the filtered list is a subsequence of the token list (relative order kept) |
| Query.AlphaOnlyEmpty | cogs/comics.py:19-24 | the filtered list is empty exactly when no token is alphabetic (the condition for the random short cut) |
| Query.AlphaOnlyAll | cogs/comics.py:19-21 | a list of alphabetic tokens passes the filter unchanged |
| Query.SplitJoin | cogs/comics.py:18 | splitting space-joined tokens gives the tokens back |
| Query.SplitTokens | cogs/comics.py:18 | every word of `split()` is non-empty and holds no whitespace |
| Query.SplitChars | cogs/comics.py:18 | every character of every word of `split()` occurs in the split string |
| Query.SplitCharIn | cogs/comics.py:18 | gives the position in the split string of any character of any word of `split()` |
| Query.LowerConcat | cogs/comics.py:18 | lower-casing distributes over concatenation |
| Query.LowerJoin | cogs/comics.py:18 | lower-casing the joined arguments is joining the lower-cased arguments |
| Query.LowerCharKind | cogs/comics.py:18 | lower-casing keeps whitespace whitespace and letters letters |
| Query.LowerToken | cogs/comics.py:18 | a lower-cased token is still a token |
| Query.LowerOfLower | cogs/comics.py:18 | a string without upper-case letters is unchanged by `lower()` |
| Query.QueryWordsOfTokens | cogs/comics.py:18-21 | when every argument is non-empty and holds no whitespace, the query words are the lower-cased alphabetic arguments, in order |
| Query.QueryWordsLowerCase | cogs/comics.py:18-21 | every character of every query word is a lower-case ASCII letter |
| Query.LowerAlphaArgs | cogs/comics.py:18-21 | lower-case alphabetic arguments are their own query words |
| Query.QueryWordsIdempotent | cogs/comics.py:18-21 | normalising the query words a second time changes nothing |
| Scoring.Blob.EntriesVisitEachKey | cogs/comics.py:29 | iterating over `items()` gives one entry per key of the dictionary, and the entry of every key is among them |
| Scoring.Score | cogs/comics.py:30-33 | an entry's count is at most the number of query words |
| Scoring.ScoreIsHitCount | cogs/comics.py:30-33 | the count is the number of positions `i` with `wList[i]` in the entry's keywords |
| Scoring.ScorePositive | cogs/comics.py:30-33 | the count is positive if and only if some query word is a keyword |
| Scoring.ScorePermutation | cogs/comics.py:31-33 | query lists with the same words and multiplicities get the same count |
| Scoring.ScoreAppend | cogs/comics.py:31-33 | one more query word raises the count by 1 if it is a keyword and leaves it unchanged otherwise |
| Scoring.ScoreConcat | cogs/comics.py:31-33 | the count of a concatenated query is the sum of the counts |
| Scoring.ScoreRemoveAt | cogs/comics.py:31-33 | removing one query word lowers the count by 1 exactly when it is a keyword |
| Scoring.MatchDict | cogs/comics.py:28-34 | the table has one key per distinct `num` of the blob, and every value is at most the number of query words |
| Scoring.MatchDictLastWins | cogs/comics.py:34 | under each `num` the table holds the score of the last entry with that number |
| Scoring.MatchDictPermutation | cogs/comics.py:28-34 | reordering the query words leaves the whole table unchanged |
| Scoring.MatchDictAppend | cogs/comics.py:28-34 | one more query word leaves the keys unchanged and raises a comic's count by 1 exactly when it is a keyword of that comic's last entry |
| Scoring.MatchDictNoHits | cogs/comics.py:28-34 | when no query word is a keyword of any entry, every count is 0 |
| Scoring.MatchDictAllZero | cogs/comics.py:28-39 | all counts are 0 if and only if no query word is a keyword of the last entry of any number |
| Scoring.LastOfNum | cogs/comics.py:34 | every key of the table has a last entry carrying that number |
| Scoring.MaxKeyExists | cogs/comics.py:36 | a non-empty table has a key of maximal value |
| Scoring.KeyWithMaxVal | cogs/comics.py:36 | `keywithmaxval` returns a key whose value is at least every other value |
| Comics.Comics.constructor | cogs/comics.py:7-8 | a cog with no query words, no table and no selected comic yet |
| Comics.Comics.CountEntry | cogs/comics.py:30-33 | the inner loop leaves in `count` the score of the entry's keywords and changes no other field |
| Comics.Comics.FillMatchDict | cogs/comics.py:28-34 | the outer loop leaves `matchDict == MatchDict(wList, entries)` and in `count` the score of the last entry |
| Comics.Comics.MatchAndReply | cogs/comics.py:28-45 | with a non-empty word list and blob: the table is `MatchDict(wList, entries)`, `n` is a maximal key, `count` is the last entry's score, the reply is random exactly when `matchDict[n]` is 0, a found comic is `n` with `matchDict[n] > 0` hits, and the reply is allowed |
| Comics.ReplyAllowed | cogs/comics.py:36-45 | the reply built from a maximal key of the table, random when its count is 0, is one of the allowed replies |
| Comics.Comics.Xkcd | cogs/comics.py:11-45 | the command's new state and reply: the word list; the random short cut that leaves the table and `n` unchanged; the table; a maximal `n`; random exactly when `matchDict[n]` is 0; a found comic is `n` with `matchDict[n] > 0` hits |
| Comics.FoundIsBest | cogs/comics.py:36-45 | a comic that is named has the largest count in the table and at least one hit |
| Comics.RandomIffNoHits | cogs/comics.py:23-41 | the reply is random if and only if there are no query words or no number's last entry shares a word with them |
| Comics.ReplyIgnoresWordOrder | cogs/comics.py:18-45 | reordering the query words does not change which replies are allowed |
| Comics.SampleBlob | cogs/comics.py:15 | a two-comic catalog, a valid blob with its entries in order |
| Comics.SampleTable | cogs/comics.py:28-34 | the table of the sample catalog has the two entries' scores under numbers 1 and 2 |
| Comics.TreeCalendarTable | cogs/comics.py:28-34 | for "tree calendar" the table is 1 ↦ 0, 2 ↦ 2 |
| Comics.SampleTreeCalendar | cogs/comics.py:36-45 | "tree calendar" names comic 2 with 2 hits, whatever the tie-break |
| Comics.XyzzyTable | cogs/comics.py:28-34 | for "xyzzy" every count is 0 |
| Comics.SampleNoMatch | cogs/comics.py:38-41 | "xyzzy" gets a random comic |
| Comics.SampleQueryWords | cogs/comics.py:18-21 | the sample queries are their own query words |
| Comics.SampleNumbersOnly | cogs/comics.py:17-26 | the arguments "1234", "4u" leave no query words, so the reply is random |
| Ask.StartsWithSlashes | cogs/ask.py:32 | `link.startswith('//')`: the link begins with two slashes |
| Ask.PopWhileIterating | cogs/ask.py:30-34 | the list iterator reads slot `i` of the live list, pops the first equal copy of a `//` link, then moves to `i + 1` (its laws are the `Ask.PopWhileIterating…` and `Ask.AskFilter…` lemmas) |
| Ask.AskFilter | cogs/ask.py:30-36 | the list the filter loop leaves, run from the first slot |
| Ask.SearchQuery | cogs/ask.py:47 | `query.replace(' ', '+')` (its laws are `Ask.ReplaceCharRemoves`, `Ask.ReplaceCharRoundTrip` and `Ask.SearchQueryInjective`) |
| Ask.ScrapeUri | cogs/ask.py:14 | the fetched URL: the constant template of the cog, filled at line 51 with the search terms in its one placeholder |
| Ask.GetAskLinks | cogs/ask.py:25-36 | an empty link list gives `None`; otherwise the list left by the pop-while-iterating loop (`AskFilter`) |
| Ask.AskFilterSound | cogs/ask.py:28-36 | the result is a subsequence of the links and never holds more copies of a link; a link not starting with `//` keeps all its copies; a link that loses a copy starts with `//` |
| Ask.PopWhileIteratingSubsequence | cogs/ask.py:30-34 | from any iterator position the loop leaves a subsequence of its list |
| Ask.PopWhileIteratingKeeps | cogs/ask.py:32-34 | from any iterator position a link not starting with `//` keeps its number of copies |
| Ask.AskFilterNoSlashes | cogs/ask.py:30-36 | a list without `//` links comes out unchanged |
| Ask.PopWhileIteratingNoSlashes | cogs/ask.py:30-36 | the loop leaves the list unchanged when no `//` link is at or after the iterator position |
| Ask.PopStep | cogs/ask.py:30-34 | popping the first copy of a `//` link at the iterator position deletes that slot, and the iterator moves on |
| Ask.SkippedAfterPop | cogs/ask.py:30-34 | on `[a, b]` of `//` links the filter leaves `[b]`: the second link moves into the popped slot and is never visited |
| Ask.SkippedThenPopped | cogs/ask.py:30-34 | on `[a, b, b]` of `//` links the filter leaves `[b]`: the skipped first `b` is popped when the second `b` is visited |
| Ask.PopFirstCopy | cogs/ask.py:34 | on `[a, c, a]` from iterator position 1, `index` finds the first `a`, so `pop` removes that copy and the result is `[c, a]` |
| Ask.PopHitsEarlierSurvivor | cogs/ask.py:30-34 | on `[a, a, c, a]` the third `a` pops the skipped second copy, and the result is `[c, a]` |
| Ask.OnlySlashLinkEmpties | cogs/ask.py:25-36 | a non-empty list can come out of the filter empty (not `None`) |
| Ask.ReplaceChar | cogs/ask.py:47 | `replace` keeps the length and changes exactly the replaced character |
| Ask.ReplaceCharRemoves | cogs/ask.py:47 | no space is left in the search terms |
| Ask.ReplaceCharRoundTrip | cogs/ask.py:47 | when the query holds no `+`, replacing `+` back by a space gives the query back |
| Ask.SearchQueryInjective | cogs/ask.py:47 | two queries without `+` that give the same search terms are equal |
| Ask.AskSearch | cogs/ask.py:39-58 | an empty query gives the prompt reply and no fetch; otherwise the fetched URL holds the search terms; no links gives the "nothing found" reply; results need at least three filtered links, and fewer give `IndexError` |
| Sequences.IndexOf | cogs/ask.py:34 | `list.index` gives the position of the first equal element |
| Sequences.RemoveAt | cogs/ask.py:34 | `list.pop(j)` shortens the list by one and drops exactly one copy of the element at `j` |
| Sequences.RemoveFirst | cogs/comics.py:21 | `list.remove(x)` shortens the list by one and drops exactly one copy of `x` |

## Left out

- Reading and decoding `data/xkcd_blob.json` (cogs/comics.py:14-15) is file I/O. The decoded blob is a parameter of `Xkcd`, and `Blob.Valid` says it is a dictionary: distinct keys in iteration order.
- `xklib.getRandomComic` and `xklib.getComic` (cogs/comics.py:25, 40, 43) are a foreign library and randomness. They become the `RandomComic` and `FoundComic` replies. The `randComic` and `comic` attributes they set, the comic titles and image links are not modelled.
- The message text sent with `bot.say` and `ctx.send` is chat presentation. Only which reply is sent is modelled.
- `tfidf_words` is taken to be a list of words, so `uw in ...` (cogs/comics.py:32) is a membership test. The blob file is not part of this model; if the field held a string, Python's `in` would test for a substring.
- `keywithmaxval` is in `cogs/utils`, which is not part of this model. `KeyWithMaxVal` returns some key of maximal value and leaves the tie-break open, and `AllowedReply` allows every maximal key.
- Comics.Comics.Xkcd: requires a non-empty blob when there are query words, because what `keywithmaxval` does with an empty table is not known.
- `str.lower` and `str.isalpha` are modelled for ASCII letters only. Python's Unicode case mapping and Unicode letters are not modelled. `str.isspace` and `str.split()` use Python's whitespace set, by code point.
- The `bot` attribute of the cogs and the `aio_session` of the ask cog are framework handles and not modelled. The ask cog's only other attribute is a constant template (`Ask.ScrapeUri`), so that cog is a module of functions, not a class.
- BeautifulSoup parsing of the page (cogs/ask.py:18-23) and the HTTP fetch with its headers (cogs/ask.py:50-51) are a foreign parser and network I/O. The hrefs that parsing extracts are a parameter, and `AskSearch` returns the URL it would fetch.
- The `print` calls in the filter loop (cogs/ask.py:31, 33) are output only.
- cogs/owner.py, cogs/mod.py, cogs/error.py and utils/aiohttp_wrap.py are extension loading, moderation, error-message dispatch and network glue. They are outside this model.
