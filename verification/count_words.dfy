/**
 count_words: walk a subreddit's paginated hot listing, tally how many
 (title, entry) pairs match per lowercased entry, and print the tally in
 rank order.

 The network is abstracted: `pages[i]` is the answer to the i-th round of
 requests (the token request and the listing request together, as count_words
 issues both for every page). A round that gets a non-200 status or raises
 is a `Failure`.
 */
module CountWords {
  import opened Text
  import opened Tally
  import opened Ranking

  datatype Option<T> = None | Some(value: T)

  /** The answer to one round of requests: a failure, or the page's titles and its `after` cursor. */
  datatype PageResult =
    | Failure
    | Page(titles: seq<string>, after: Option<string>)

  /**
   How a run ends: aborted with nothing printed, finished with the final
   tally, or still asking for pages when the given answers run out. This
   records which path ran; count_words itself returns `None` on every path.
   */
  datatype Outcome =
    | Failed
    | Finished(tally: WordCount)
    | OutOfResponses

  /** Python's truth test `if after:`: present and non-empty. */
  predicate HasNext(after: Option<string>)
  {
    after.Some? && after.value != ""
  }

  /** The run goes no further than this page: it failed, or it names no next page. */
  predicate Stops(p: PageResult)
  {
    p.Failure? || !HasNext(p.after)
  }

  /** The recursion of count_words, one call per page, carrying `word_count` in `acc`. */
  function Walk(pages: seq<PageResult>, words: seq<string>, acc: WordCount): Outcome
  {
    if pages == [] then OutOfResponses
    else
      match pages[0]
      case Failure => Failed
      case Page(titles, after) =>
        var next := ScanTitles(acc, titles, words);
        if HasNext(after) then Walk(pages[1..], words, next) else Finished(next)
  }

  /** The first page the run stops at, or `|pages|` when every given page names a next one. */
  function StopIndex(pages: seq<PageResult>): (n: nat)
    ensures n <= |pages|
    ensures forall j :: 0 <= j < n ==> pages[j].Page? && HasNext(pages[j].after)
    ensures n < |pages| ==> Stops(pages[n])
  {
    if pages == [] || Stops(pages[0]) then 0 else 1 + StopIndex(pages[1..])
  }

  /** The titles of the successful pages, in listing order. */
  function AllTitles(pages: seq<PageResult>): seq<string>
  {
    if pages == [] then []
    else (if pages[0].Page? then pages[0].titles else []) + AllTitles(pages[1..])
  }

  /**
   Pagination is additive: a run reads pages up to the first one that fails
   or names no next page; if that page failed the run fails whatever was
   tallied before, otherwise its tally is the scan of all titles read, in
   order, starting from `acc`.
   */
  lemma {:induction false} WalkReadsUpToStop(pages: seq<PageResult>, words: seq<string>, acc: WordCount)
    ensures var n := StopIndex(pages);
      Walk(pages, words, acc) ==
        if n == |pages| then OutOfResponses
        else if pages[n].Failure? then Failed
        else Finished(ScanTitles(acc, AllTitles(pages[..n + 1]), words))
  {
    if pages != [] && pages[0].Page? {
      var titles := pages[0].titles;
      assert AllTitles(pages[..1]) == titles + AllTitles([]) == titles;
      if HasNext(pages[0].after) {
        var rest := pages[1..];
        var next := ScanTitles(acc, titles, words);
        WalkReadsUpToStop(rest, words, next);
        var n := StopIndex(pages);
        assert n == 1 + StopIndex(rest);
        assert Walk(pages, words, acc) == Walk(rest, words, next);
        if n < |pages| && pages[n].Page? {
          assert pages[..n + 1][0] == pages[0];
          assert pages[..n + 1][1..] == rest[..n];
          ScanTitlesConcat(acc, titles, AllTitles(rest[..n]), words);
          assert AllTitles(pages[..n + 1]) == titles + AllTitles(rest[..n]);
          assert StopIndex(rest) == n - 1 && rest[n - 1] == pages[n];
          assert Walk(rest, words, next) == Finished(ScanTitles(next, AllTitles(rest[..n]), words));
        } else if n < |pages| {
          assert rest[n - 1] == pages[n];
        }
      }
    }
  }

  /**
   A run from a fresh dictionary fails exactly when some page fails and
   every earlier page succeeded and named a next page; the tallies of those
   earlier pages are never printed.
   */
  lemma FailedIff(pages: seq<PageResult>, words: seq<string>)
    ensures Walk(pages, words, map[]) == Failed <==>
      exists n :: 0 <= n < |pages| && pages[n].Failure? &&
        forall j :: 0 <= j < n ==> pages[j].Page? && HasNext(pages[j].after)
  {
    WalkReadsUpToStop(pages, words, map[]);
    var s := StopIndex(pages);
    if exists n :: 0 <= n < |pages| && pages[n].Failure? &&
        forall j :: 0 <= j < n ==> pages[j].Page? && HasNext(pages[j].after)
    {
      var n :| 0 <= n < |pages| && pages[n].Failure? &&
        forall j :: 0 <= j < n ==> pages[j].Page? && HasNext(pages[j].after);
    }
  }

  /**
   A finished run's tally counts, for each key, the (title, entry) pairs of
   all pages read that match it; it holds no other key, every count is at
   least 1, and every key is the lowercase of an entry, hence lowercase.
   */
  lemma FinishedTally(pages: seq<PageResult>, words: seq<string>)
    requires Walk(pages, words, map[]).Finished?
    ensures StopIndex(pages) < |pages|
    ensures var t := Walk(pages, words, map[]).tally;
      var read := AllTitles(pages[..StopIndex(pages) + 1]);
      && (forall k :: k in t <==> Hits(read, words, k) > 0)
      && (forall k :: k in t ==> t[k] == Hits(read, words, k) >= 1)
      && (forall k :: k in t ==> (exists w :: w in words && Lower(w) == k) && IsLower(k))
  {
    WalkReadsUpToStop(pages, words, map[]);
    TallyOfTitles(AllTitles(pages[..StopIndex(pages) + 1]), words);
  }

  /** A failing first page fails the run; a single empty page finishes it with an empty tally. */
  lemma FailureAndEmptyListing(rest: seq<PageResult>, words: seq<string>)
    ensures Walk([Failure] + rest, words, map[]) == Failed
    ensures Walk([Page([], None)] + rest, words, map[]) == Finished(map[])
  {
  }

  /** The nested loops over one page's titles and the word list, updating `word_count` in place. */
  method ScanPage(tally0: WordCount, titles: seq<string>, words: seq<string>) returns (tally: WordCount)
    ensures tally == ScanTitles(tally0, titles, words)
  {
    tally := tally0;
    for j := 0 to |titles|
      invariant tally == ScanTitles(tally0, titles[..j], words)
    {
      var title := titles[j];
      ghost var before := tally;
      for w := 0 to |words|
        invariant tally == ScanWords(before, title, words[..w])
      {
        var key := Lower(words[w]);
        if Contains(Lower(title), key) {
          tally := tally[key := Get(tally, key) + 1];
        }
        assert words[..w + 1][..w] == words[..w];
      }
      assert words[..|words|] == words;
      assert titles[..j + 1][..j] == titles[..j];
    }
    assert titles[..|titles|] == titles;
  }

  /**
   count_words over the answers `pages`: the outcome is that of the
   recursion, and the printed `word: count` lines are the ranking of the
   final tally when the run finished with a non-empty tally, and nothing
   otherwise.
   */
  method Run(pages: seq<PageResult>, words: seq<string>) returns (outcome: Outcome, printed: seq<Entry>)
    ensures outcome == Walk(pages, words, map[])
    ensures outcome.Finished? && outcome.tally != map[] ==> IsRanking(printed, outcome.tally)
    ensures !(outcome.Finished? && outcome.tally != map[]) ==> printed == []
  {
    var tally: WordCount := map[];
    var i := 0;
    printed := [];
    while i < |pages|
      invariant 0 <= i <= |pages|
      invariant Walk(pages[i..], words, tally) == Walk(pages, words, map[])
    {
      assert pages[i..][0] == pages[i] && pages[i..][1..] == pages[i + 1..];
      match pages[i]
      case Failure =>
        return Failed, [];
      case Page(titles, after) =>
        tally := ScanPage(tally, titles, words);
        if !HasNext(after) {
          outcome := Finished(tally);
          if tally != map[] {
            FinishedTally(pages, words);
            var ranked := Rank(tally);
            forall e | e in ranked ensures Lower(e.word) == e.word {
              LowerFixedIffLower(e.word);
            }
            for j := 0 to |ranked|
              invariant printed == ranked[..j]
            {
              printed := printed + [Entry(Lower(ranked[j].word), ranked[j].count)];
            }
            assert ranked[..|ranked|] == ranked;
          }
          return;
        }
      i := i + 1;
    }
    outcome := OutOfResponses;
  }
}
