/**
 * The search index: which catalog keys a query selects. A record matches a
 * word when the word occurs in its case-folded name, headline or one of its
 * ingredient names; a key is selected when its record matches every word of
 * the query.
 */
module Index {
  import opened Types
  import opened Text
  import opened Tokens

  /** `matches(recipeInfo, word)`: `word` is expected already case-folded. */
  predicate Matches(recipe: RecipeInfo, word: string) {
    || Contains(Lower(recipe.name), word)
    || Contains(Lower(recipe.headline), word)
    || exists i :: 0 <= i < |recipe.ingredients| && Contains(Lower(recipe.ingredients[i].name), word)
  }

  /** A record matches a word exactly when the word occurs in one of its three searched fields. */
  lemma MatchesIff(recipe: RecipeInfo, word: string)
    ensures Matches(recipe, word) <==>
      || IsSubstring(word, Lower(recipe.name))
      || IsSubstring(word, Lower(recipe.headline))
      || exists i :: 0 <= i < |recipe.ingredients| && IsSubstring(word, Lower(recipe.ingredients[i].name))
  {
    ContainsIsSubstring(Lower(recipe.name), word);
    ContainsIsSubstring(Lower(recipe.headline), word);
    forall i | 0 <= i < |recipe.ingredients|
      ensures Contains(Lower(recipe.ingredients[i].name), word) <==> IsSubstring(word, Lower(recipe.ingredients[i].name))
    {
      ContainsIsSubstring(Lower(recipe.ingredients[i].name), word);
    }
  }

  /** The record of `key` matches every one of `words`. */
  predicate Accepts(c: Catalog, key: string, words: seq<string>) {
    key in c.records && forall j :: 0 <= j < |words| ==> Matches(c.records[key], words[j])
  }

  /** The keys of `ks` whose record matches every one of `words`, in the order of `ks`. */
  function Filter(c: Catalog, ks: seq<string>, words: seq<string>): seq<string>
    decreases |ks|
  {
    if ks == [] then []
    else
      var rest := Filter(c, ks[..|ks| - 1], words);
      var key := ks[|ks| - 1];
      if Accepts(c, key, words) then rest + [key] else rest
  }

  /** The keys `findKeys(query)` leaves in `matchingKeys`, in iteration order. */
  function MatchingKeys(c: Catalog, query: string): seq<string> {
    Filter(c, c.keys, LowerAll(QueryWords(query)))
  }

  /** The records `search(query)` returns: the record of each matching key. */
  function IndexResults(c: Catalog, query: string): seq<RecipeInfo> {
    var keys := MatchingKeys(c, query);
    FilterMembers(c, c.keys, LowerAll(QueryWords(query)));
    seq(|keys|, i requires 0 <= i < |keys| => c.records[keys[i]])
  }

  /** Filtering keeps exactly the accepted keys, never adds one and never repeats one. */
  lemma {:induction false} FilterMembers(c: Catalog, ks: seq<string>, words: seq<string>)
    ensures forall k :: k in Filter(c, ks, words) <==> k in ks && Accepts(c, k, words)
    ensures |Filter(c, ks, words)| <= |ks|
    ensures Distinct(ks) ==> Distinct(Filter(c, ks, words))
    decreases |ks|
  {
    if ks != [] {
      var p := ks[..|ks| - 1];
      FilterMembers(c, p, words);
      assert ks == p + [ks[|ks| - 1]];
      if Distinct(ks) {
        assert Distinct(p);
        assert ks[|ks| - 1] !in p;
      }
    }
  }

  /** With no words, every key (all of which have records) survives. */
  lemma {:induction false} FilterNoWords(c: Catalog, ks: seq<string>)
    requires forall k :: k in ks ==> k in c.records
    ensures Filter(c, ks, []) == ks
    decreases |ks|
  {
    if ks != [] {
      FilterNoWords(c, ks[..|ks| - 1]);
      assert ks == ks[..|ks| - 1] + [ks[|ks| - 1]];
    }
  }

  lemma AcceptsAppend(c: Catalog, key: string, ws1: seq<string>, ws2: seq<string>)
    ensures Accepts(c, key, ws1 + ws2) <==> Accepts(c, key, ws1) && Accepts(c, key, ws2)
  {
    if Accepts(c, key, ws1) && Accepts(c, key, ws2) {
      forall j | 0 <= j < |ws1 + ws2| ensures Matches(c.records[key], (ws1 + ws2)[j]) {
        if j >= |ws1| { assert (ws1 + ws2)[j] == ws2[j - |ws1|]; }
      }
    }
    if Accepts(c, key, ws1 + ws2) {
      forall j | 0 <= j < |ws1| ensures Matches(c.records[key], ws1[j]) {
        assert (ws1 + ws2)[j] == ws1[j];
      }
      forall j | 0 <= j < |ws2| ensures Matches(c.records[key], ws2[j]) {
        assert (ws1 + ws2)[|ws1| + j] == ws2[j];
      }
    }
  }

  /**
   * Filtering by `ws1` and then by `ws2` is filtering by both: one round of
   * the outer loop of `findKeys` adds one word to the conjunction.
   */
  lemma {:induction false} FilterCompose(c: Catalog, ks: seq<string>, ws1: seq<string>, ws2: seq<string>)
    ensures Filter(c, Filter(c, ks, ws1), ws2) == Filter(c, ks, ws1 + ws2)
    decreases |ks|
  {
    if ks != [] {
      var p, key := ks[..|ks| - 1], ks[|ks| - 1];
      var f1 := Filter(c, p, ws1);
      FilterCompose(c, p, ws1, ws2);
      AcceptsAppend(c, key, ws1, ws2);
      if Accepts(c, key, ws1) {
        assert (f1 + [key])[..|f1|] == f1;
      }
    }
  }

  /** Filtering by one more word filters the keys that survived the earlier words. */
  lemma FilterNextWord(c: Catalog, words: seq<string>, w: nat)
    requires w < |words|
    ensures forall k :: k in Filter(c, c.keys, LowerAll(words[..w])) ==> k in c.keys
    ensures Filter(c, c.keys, LowerAll(words[..w + 1])) ==
      Filter(c, Filter(c, c.keys, LowerAll(words[..w])), [Lower(words[w])])
  {
    FilterMembers(c, c.keys, LowerAll(words[..w]));
    FilterCompose(c, c.keys, LowerAll(words[..w]), [Lower(words[w])]);
    assert words[..w + 1] == words[..w] + [words[w]];
    LowerAllAppend(words[..w], [words[w]]);
    assert LowerAll([words[w]]) == [Lower(words[w])];
  }

  /**
   * One step of the inner loop of `findKeys`: of the keys `ks`, the first
   * `n` have been visited and the accepted ones among them kept; the next
   * key is kept (when its record matches) or deleted.
   */
  lemma KeepOrDelete(c: Catalog, ks: seq<string>, n: nat, word: string, kept: seq<string>, i: nat)
    requires n < |ks| && ks[n] in c.records
    requires i == |Filter(c, ks[..n], [word])|
    requires kept == Filter(c, ks[..n], [word]) + ks[n..]
    ensures i < |kept| && kept[i] == ks[n]
    ensures Matches(c.records[ks[n]], word) ==>
      kept == Filter(c, ks[..n + 1], [word]) + ks[n + 1..] && i + 1 == |Filter(c, ks[..n + 1], [word])|
    ensures !Matches(c.records[ks[n]], word) ==>
      kept[..i] + kept[i + 1..] == Filter(c, ks[..n + 1], [word]) + ks[n + 1..] && i == |Filter(c, ks[..n + 1], [word])|
  {
    var f := Filter(c, ks[..n], [word]);
    FilterStep(c, ks, n, word);
    assert ks[n..] == [ks[n]] + ks[n + 1..];
    if !Matches(c.records[ks[n]], word) {
      assert kept[..i] == f && kept[i + 1..] == ks[n + 1..];
    }
  }

  lemma FilterStep(c: Catalog, ks: seq<string>, n: nat, word: string)
    requires n < |ks|
    ensures Filter(c, ks[..n + 1], [word]) ==
      Filter(c, ks[..n], [word]) + (if ks[n] in c.records && Matches(c.records[ks[n]], word) then [ks[n]] else [])
  {
    assert ks[..n + 1][..n] == ks[..n];
    assert [word][0] == word;
    if ks[n] in c.records && Matches(c.records[ks[n]], word) {
      assert Accepts(c, ks[n], [word]);
    }
  }

  /** A word that no record matches empties the result. */
  lemma {:induction false} FilterUnmatchedWord(c: Catalog, ks: seq<string>, words: seq<string>, j: nat)
    requires j < |words|
    requires forall k :: k in ks && k in c.records ==> !Matches(c.records[k], words[j])
    ensures Filter(c, ks, words) == []
    decreases |ks|
  {
    if ks != [] {
      FilterUnmatchedWord(c, ks[..|ks| - 1], words, j);
    }
  }

  /** Trimming aside, the matching keys are those that match every folded token. */
  lemma MatchingKeysOfWords(c: Catalog, query: string)
    ensures MatchingKeys(c, query) == Filter(c, c.keys, LowerAll(Words(query)))
  {
    TrimKeepsWords(query);
  }

  /**
   * A key is selected exactly when it is a catalog key and its record
   * matches every case-folded token of the query (AND across tokens, OR
   * across fields); selected keys are distinct.
   */
  lemma MatchingKeysMembers(c: Catalog, query: string)
    ensures Distinct(MatchingKeys(c, query))
    ensures forall k :: k in MatchingKeys(c, query) <==>
      k in c.keys && forall t :: t in Words(query) ==> Matches(c.records[k], Lower(t))
  {
    var ws := QueryWords(query);
    TrimKeepsWords(query);
    FilterMembers(c, c.keys, LowerAll(ws));
    forall k | k in c.keys
      ensures Accepts(c, k, LowerAll(ws)) <==> forall t :: t in ws ==> Matches(c.records[k], Lower(t))
    {
      if Accepts(c, k, LowerAll(ws)) {
        forall t | t in ws ensures Matches(c.records[k], Lower(t)) {
          var j :| 0 <= j < |ws| && ws[j] == t;
          assert LowerAll(ws)[j] == Lower(t);
        }
      }
    }
  }

  /** An empty or whitespace-only query selects every key, in catalog order. */
  lemma BlankQueryMatchesAll(c: Catalog, query: string)
    requires Blank(query)
    ensures MatchingKeys(c, query) == c.keys
  {
    TrimKeepsWords(query);
    WordsEmptyIffBlank(query);
    FilterNoWords(c, c.keys);
  }

  /** Case does not matter: folding the query first selects the same keys. */
  lemma CaseInsensitive(c: Catalog, query: string)
    ensures MatchingKeys(c, Lower(query)) == MatchingKeys(c, query)
  {
    var ws := QueryWords(query);
    QueryWordsOfLower(query);
    forall i | 0 <= i < |ws| ensures Lower(Lower(ws[i])) == Lower(ws[i]) {
      LowerIdempotent(ws[i]);
    }
    assert LowerAll(LowerAll(ws)) == LowerAll(ws);
  }

  /**
   * Adding words narrows the result: the keys of `query sep more` are the
   * keys of `query` that also match every word of `more`.
   */
  lemma RefineQuery(c: Catalog, query: string, sep: char, more: string)
    requires IsSpace(sep)
    ensures MatchingKeys(c, query + [sep] + more) == Filter(c, MatchingKeys(c, query), LowerAll(Words(more)))
  {
    var ws1, ws2 := LowerAll(Words(query)), LowerAll(Words(more));
    MatchingKeysOfWords(c, query);
    MatchingKeysOfWords(c, query + [sep] + more);
    WordsAcrossSpace(query, sep, more);
    LowerAllAppend(Words(query), Words(more));
    FilterCompose(c, c.keys, ws1, ws2);
  }

  /** Monotonicity: a key selected by the longer query is selected by the shorter one. */
  lemma RefineQueryNarrows(c: Catalog, query: string, sep: char, more: string)
    requires IsSpace(sep)
    ensures forall k :: k in MatchingKeys(c, query + [sep] + more) ==> k in MatchingKeys(c, query)
  {
    RefineQuery(c, query, sep, more);
    FilterMembers(c, MatchingKeys(c, query), LowerAll(Words(more)));
  }

  /** A token that no record matches makes the result empty, not an error. */
  lemma UnmatchedTokenSelectsNothing(c: Catalog, query: string, t: string)
    requires t in Words(query)
    requires forall k :: k in c.keys ==> !Matches(c.records[k], Lower(t))
    ensures MatchingKeys(c, query) == []
    ensures IndexResults(c, query) == []
  {
    var ws := QueryWords(query);
    TrimKeepsWords(query);
    var j :| 0 <= j < |ws| && ws[j] == t;
    FilterUnmatchedWord(c, c.keys, LowerAll(ws), j);
  }

  /** `SearchIndex` holds a read-only reference to the catalog. */
  class SearchIndex {
    const data: Catalog

    constructor(data: Catalog)
      ensures this.data == data
    {
      this.data := data;
    }

    /**
     * `findKeys(query)`: starts from every key and, word by word, deletes
     * each key whose record does not match the case-folded word.
     */
    method FindKeys(query: string) returns (keys: seq<string>)
      ensures keys == MatchingKeys(data, query)
      ensures Distinct(keys)
      ensures forall k :: k in keys <==>
        k in data.keys && forall t :: t in Words(query) ==> Matches(data.records[k], Lower(t))
      ensures Blank(query) ==> keys == data.keys
    {
      var matchingKeys := data.keys;
      var words := QueryWords(query);
      FilterNoWords(data, data.keys);
      assert LowerAll(words[..0]) == [];
      for w := 0 to |words|
        invariant matchingKeys == Filter(data, data.keys, LowerAll(words[..w]))
      {
        var lowerCaseWord := Lower(words[w]);
        FilterNextWord(data, words, w);
        matchingKeys := DeleteUnmatched(matchingKeys, lowerCaseWord);
      }
      assert words[..|words|] == words;
      keys := matchingKeys;
      MatchingKeysMembers(data, query);
      if Blank(query) {
        BlankQueryMatchesAll(data, query);
      }
    }

    /**
     * The inner loop of `findKeys`: visits every key of `matchingKeys` once
     * and deletes it when its record does not match `word`.
     */
    method DeleteUnmatched(matchingKeys: seq<string>, word: string) returns (kept: seq<string>)
      requires forall k :: k in matchingKeys ==> k in data.keys
      ensures kept == Filter(data, matchingKeys, [word])
    {
      kept := matchingKeys;
      ghost var n := 0;
      var i := 0;
      while i < |kept|
        invariant 0 <= n <= |matchingKeys|
        invariant i == |Filter(data, matchingKeys[..n], [word])|
        invariant kept == Filter(data, matchingKeys[..n], [word]) + matchingKeys[n..]
      {
        assert matchingKeys[n] in data.keys;
        KeepOrDelete(data, matchingKeys, n, word, kept, i);
        var key := kept[i];
        var recipeInfo := data.records[key];
        if !Matches(recipeInfo, word) {
          kept := kept[..i] + kept[i + 1..];
        } else {
          i := i + 1;
        }
        n := n + 1;
      }
      assert matchingKeys[..n] == matchingKeys;
    }

    /** `search(query)`: the record of every key `FindKeys` returns, in that order. */
    method Search(query: string) returns (recipes: seq<RecipeInfo>)
      ensures recipes == IndexResults(data, query)
      ensures |recipes| == |MatchingKeys(data, query)|
      ensures forall i :: 0 <= i < |recipes| ==>
        MatchingKeys(data, query)[i] in data.records && recipes[i] == data.records[MatchingKeys(data, query)[i]]
    {
      var keys := FindKeys(query);
      recipes := seq(|keys|, i requires 0 <= i < |keys| => data.records[keys[i]]);
    }
  }
}
