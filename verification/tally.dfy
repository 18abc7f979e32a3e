/**
 The keyword tally of count_words: for every post title and every entry of
 the word list, in that order, the dictionary entry keyed by the lowercased
 word is bumped when the lowercased word occurs in the lowercased title.

 `ScanWords`/`ScanTitles` follow the nested loops step by step; `TitleHits`
 and `Hits` count matching (title, entry) pairs per key independently of
 any dictionary, and the lemmas below connect the two.
 */
module Tally {
  import opened Text

  /** The `word_count` dictionary. */
  type WordCount = map<string, nat>

  /** `word_count.get(k, 0)`. */
  function Get(m: WordCount, k: string): nat
  {
    if k in m then m[k] else 0
  }

  /** `word.lower() in title.lower()`. */
  predicate Matches(word: string, title: string)
  {
    Contains(Lower(title), Lower(word))
  }

  /**
   The match is a substring test: it holds exactly when the lowercased entry
   occurs at some offset of the lowercased title, also inside a longer word.
   */
  lemma MatchesIff(word: string, title: string)
    ensures Matches(word, title) <==> exists i :: OccursAt(Lower(title), Lower(word), i)
  {
    assert Matches(word, title) == Contains(Lower(title), Lower(word));
    ContainsIff(Lower(title), Lower(word));
  }

  /** The match ignores case: lowercasing the entry or the title first changes nothing. */
  lemma MatchesIgnoresCase(word: string, title: string)
    ensures Matches(word, title) <==> Matches(Lower(word), Lower(title))
  {
    LowerIdempotent(word);
    LowerIdempotent(title);
  }

  /** An entry whose lowercased first letter is absent from the lowercased title cannot match it. */
  lemma NoMatchWithoutHead(word: string, title: string)
    requires Lower(word) != [] && Lower(word)[0] !in Lower(title)
    ensures !Matches(word, title)
  {
    if Contains(Lower(title), Lower(word)) {
      ContainsHead(Lower(title), Lower(word));
    }
  }

  /** A match inside a longer word counts: "go" matches "Going home". */
  lemma MatchesInsideLongerWord()
    ensures Matches("go", "Going home")
  {
    assert Lower("go") == "go";
    assert Lower("Going home")[..2] == "go";
  }

  /** One run of the inner loop body for entry `word` and title `title`. */
  function Step(m: WordCount, title: string, word: string): WordCount
  {
    if Matches(word, title) then m[Lower(word) := Get(m, Lower(word)) + 1] else m
  }

  /** The inner loop: every entry of `words`, in order, against one title. */
  function ScanWords(m: WordCount, title: string, words: seq<string>): WordCount
  {
    if words == [] then m
    else Step(ScanWords(m, title, words[..|words| - 1]), title, words[|words| - 1])
  }

  /** The outer loop: every title, in order, against the whole word list. */
  function ScanTitles(m: WordCount, titles: seq<string>, words: seq<string>): WordCount
  {
    if titles == [] then m
    else ScanWords(ScanTitles(m, titles[..|titles| - 1], words), titles[|titles| - 1], words)
  }

  /** How many entries of `words` lowercase to `k`. */
  function EntriesFor(words: seq<string>, k: string): nat
  {
    if words == [] then 0
    else EntriesFor(words[..|words| - 1], k) + (if Lower(words[|words| - 1]) == k then 1 else 0)
  }

  /** How many entries of `words` lowercase to `k` and match `title`. */
  function TitleHits(title: string, words: seq<string>, k: string): nat
  {
    if words == [] then 0
    else
      var w := words[|words| - 1];
      TitleHits(title, words[..|words| - 1], k) + (if Lower(w) == k && Matches(w, title) then 1 else 0)
  }

  /** How many (title, entry) pairs have an entry that lowercases to `k` and matches the title. */
  function Hits(titles: seq<string>, words: seq<string>, k: string): nat
  {
    if titles == [] then 0
    else Hits(titles[..|titles| - 1], words, k) + TitleHits(titles[|titles| - 1], words, k)
  }

  /**
   One title adds to key `k` the number of entries that lowercase to `k`
   when `k` occurs in the lowercased title, and nothing otherwise: how
   often `k` occurs in the title does not matter.
   */
  lemma {:induction false} TitleHitsByEntries(title: string, words: seq<string>, k: string)
    ensures TitleHits(title, words, k) == if Contains(Lower(title), k) then EntriesFor(words, k) else 0
  {
    if words != [] {
      TitleHitsByEntries(title, words[..|words| - 1], k);
    }
  }

  /** Scanning one title adds exactly its hits to every key and creates exactly the keys it hits. */
  lemma {:induction false} ScanWordsCounts(m: WordCount, title: string, words: seq<string>)
    ensures forall k :: Get(ScanWords(m, title, words), k) == Get(m, k) + TitleHits(title, words, k)
    ensures forall k :: k in ScanWords(m, title, words) <==> k in m || TitleHits(title, words, k) > 0
  {
    if words != [] {
      ScanWordsCounts(m, title, words[..|words| - 1]);
    }
  }

  /** Scanning a list of titles adds exactly their hits to every key and creates exactly the keys they hit. */
  lemma {:induction false} ScanTitlesCounts(m: WordCount, titles: seq<string>, words: seq<string>)
    ensures forall k :: Get(ScanTitles(m, titles, words), k) == Get(m, k) + Hits(titles, words, k)
    ensures forall k :: k in ScanTitles(m, titles, words) <==> k in m || Hits(titles, words, k) > 0
  {
    if titles != [] {
      var init := titles[..|titles| - 1];
      ScanTitlesCounts(m, init, words);
      ScanWordsCounts(ScanTitles(m, init, words), titles[|titles| - 1], words);
    }
  }

  /** Counts never decrease as titles are scanned. */
  lemma ScanTitlesMonotone(m: WordCount, titles: seq<string>, words: seq<string>, k: string)
    ensures Get(ScanTitles(m, titles, words), k) >= Get(m, k)
  {
    ScanTitlesCounts(m, titles, words);
  }

  /** A key with an entry behind it: some entry of `words` lowercases to `k`. */
  lemma {:induction false} EntriesWitness(words: seq<string>, k: string)
    requires EntriesFor(words, k) > 0
    ensures exists w :: w in words && Lower(w) == k
  {
    var init := words[..|words| - 1];
    if EntriesFor(init, k) > 0 {
      EntriesWitness(init, k);
      var w :| w in init && Lower(w) == k;
      assert w in words;
    } else {
      assert words[|words| - 1] in words;
    }
  }

  /** A key hit by some title is the lowercase of some entry of `words`. */
  lemma {:induction false} HitsWitness(titles: seq<string>, words: seq<string>, k: string)
    requires Hits(titles, words, k) > 0
    ensures exists w :: w in words && Lower(w) == k
  {
    var init := titles[..|titles| - 1];
    if Hits(init, words, k) > 0 {
      HitsWitness(init, words, k);
    } else {
      TitleHitsByEntries(titles[|titles| - 1], words, k);
      EntriesWitness(words, k);
    }
  }

  /**
   The tally built from an empty dictionary holds exactly the keys that some
   (title, entry) pair hits, each with its number of hits (so at least 1);
   every key is the lowercase of an entry, so it is already lowercase.
   */
  lemma TallyOfTitles(titles: seq<string>, words: seq<string>)
    ensures forall k :: k in ScanTitles(map[], titles, words) <==> Hits(titles, words, k) > 0
    ensures forall k :: k in ScanTitles(map[], titles, words) ==>
      ScanTitles(map[], titles, words)[k] == Hits(titles, words, k) >= 1
    ensures forall k :: k in ScanTitles(map[], titles, words) ==>
      (exists w :: w in words && Lower(w) == k) && IsLower(k)
  {
    var t := ScanTitles(map[], titles, words);
    ScanTitlesCounts(map[], titles, words);
    forall k | k in t ensures (exists w :: w in words && Lower(w) == k) && IsLower(k) {
      HitsWitness(titles, words, k);
      var w :| w in words && Lower(w) == k;
      LowerIdempotent(w);
    }
  }

  /** Scanning `a + b` is scanning `a`, then `b` from where `a` left off. */
  lemma {:induction false} ScanTitlesConcat(m: WordCount, a: seq<string>, b: seq<string>, words: seq<string>)
    ensures ScanTitles(m, a + b, words) == ScanTitles(ScanTitles(m, a, words), b, words)
  {
    if b == [] {
      assert a + b == a;
    } else {
      ScanTitlesConcat(m, a, b[..|b| - 1], words);
      assert (a + b)[..|a + b| - 1] == a + b[..|b| - 1];
    }
  }

  /** Entries are counted one by one over a concatenated word list. */
  lemma {:induction false} EntriesForConcat(a: seq<string>, b: seq<string>, k: string)
    ensures EntriesFor(a + b, k) == EntriesFor(a, k) + EntriesFor(b, k)
  {
    if b == [] {
      assert a + b == a;
    } else {
      EntriesForConcat(a, b[..|b| - 1], k);
      assert (a + b)[..|a + b| - 1] == a + b[..|b| - 1];
    }
  }

  /** The word list is not deduplicated: listing every entry twice doubles every title's contribution. */
  lemma DuplicateEntriesCountTwice(title: string, words: seq<string>, k: string)
    ensures TitleHits(title, words + words, k) == 2 * TitleHits(title, words, k)
  {
    TitleHitsByEntries(title, words, k);
    TitleHitsByEntries(title, words + words, k);
    EntriesForConcat(words, words, k);
  }

  /** Case variants of one word are separate entries: "python Python" adds 2 to "python" for a matching title. */
  lemma CaseVariantsCountSeparately()
    ensures ScanTitles(map[], ["Python"], ["python", "Python"]) == map["python" := 2]
  {
    assert Lower("python") == "python";
    assert Lower("Python") == "python";
    assert Matches("python", "Python") && Matches("Python", "Python");
    var once := Step(map[], "Python", "python");
    assert once == map["python" := 1];
    assert ["python", "Python"][..1] == ["python"];
    assert ScanWords(map[], "Python", ["python"]) == once;
    assert ScanWords(map[], "Python", ["python", "Python"]) == Step(once, "Python", "Python");
    assert ["Python"][..0] == [];
  }
}
