/**
 A worked run of count_words: one page with the titles "I love Python" and
 "Go is great", and the word list "python go java".

 The strings reach most lemmas here as parameters pinned by a `requires`
 (`title == "I love Python"`) rather than as literals, and each fact about
 them has a lemma of its own. The verifier unfolds recursive functions such
 as `Lower` and `Contains` without bound on literal arguments, and several
 such facts in one proof exceed its resource limit; parameters and small
 lemmas keep each proof cheap.
 */
module Scenarios {
  import opened Text
  import opened Tally
  import opened Ranking
  import opened CountWords

  /** "python" occurs in "i love python", at offset 7. */
  lemma ScenarioPythonFound()
    ensures Contains("i love python", "python")
  {
    ContainsIff("i love python", "python");
    assert OccursAt("i love python", "python", 7);
  }

  /** The scenario strings, lowercased one at a time. */
  lemma ScenarioFirstLowered(title: string)
    requires title == "I love Python"
    ensures Lower(title) == "i love python"
  {
    LowerPointwise(title, "i love python");
  }

  lemma ScenarioSecondLowered(title: string)
    requires title == "Go is great"
    ensures Lower(title) == "go is great"
  {
    LowerPointwise(title, "go is great");
  }

  lemma ScenarioWordLowered(word: string)
    requires word == "python" || word == "go" || word == "java"
    ensures Lower(word) == word
  {
    LowerPointwise(word, word);
  }

  /** Of the entries "python go java", only "python" matches "I love Python". */
  lemma ScenarioFirstTitle(title: string, python: string, go: string, java: string)
    requires title == "I love Python" && python == "python" && go == "go" && java == "java"
    ensures Matches(python, title) && !Matches(go, title) && !Matches(java, title)
  {
    ScenarioFirstLowered(title);
    ScenarioWordLowered(go);
    ScenarioWordLowered(java);
    assert 'g' !in "i love python" && 'j' !in "i love python";
    NoMatchWithoutHead(go, title);
    NoMatchWithoutHead(java, title);
    ScenarioFirstTitleHit(title, python);
  }

  lemma ScenarioFirstTitleHit(title: string, python: string)
    requires title == "I love Python" && python == "python"
    ensures Matches(python, title)
  {
    ScenarioFirstLowered(title);
    ScenarioWordLowered(python);
    ScenarioPythonFound();
  }

  /** Of the entries "python go java", only "go" matches "Go is great". */
  lemma ScenarioSecondTitle(title: string, python: string, go: string, java: string)
    requires title == "Go is great" && python == "python" && go == "go" && java == "java"
    ensures !Matches(python, title) && Matches(go, title) && !Matches(java, title)
  {
    ScenarioSecondLowered(title);
    ScenarioWordLowered(python);
    ScenarioWordLowered(go);
    ScenarioWordLowered(java);
    assert "go" <= "go is great";
    assert 'p' !in "go is great" && 'j' !in "go is great";
    NoMatchWithoutHead(python, title);
    NoMatchWithoutHead(java, title);
  }

  /** The ranking of the scenario tally puts "go" before "python". */
  lemma ScenarioRanking()
    ensures IsRanking([Entry("go", 1), Entry("python", 1)], map["python" := 1, "go" := 1])
  {
    assert LexLess("go", "python");
  }

  /** Scanning "I love Python" against "python go java" from an empty tally. */
  lemma ScenarioScanFirst(title: string, words: seq<string>)
    requires title == "I love Python" && words == ["python", "go", "java"]
    ensures ScanWords(map[], title, words) == map["python" := 1]
  {
    ScenarioFirstTitle(title, words[0], words[1], words[2]);
    ScenarioWordLowered(words[0]);
    var m1 := map["python" := 1];
    assert words[..2] == [words[0], words[1]] && words[..2][..1] == [words[0]] && words[..1][..0] == [];
    assert Step(map[], title, words[0]) == m1;
    assert ScanWords(map[], title, words[..1]) == m1;
    assert ScanWords(map[], title, words[..2]) == m1;
  }

  /** Scanning "Go is great" against "python go java" on top of the first title's tally. */
  lemma ScenarioScanSecond(title: string, words: seq<string>)
    requires title == "Go is great" && words == ["python", "go", "java"]
    ensures ScanWords(map["python" := 1], title, words) == map["python" := 1, "go" := 1]
  {
    ScenarioSecondTitle(title, words[0], words[1], words[2]);
    ScenarioWordLowered(words[1]);
    var m1 := map["python" := 1];
    assert words[..2] == [words[0], words[1]] && words[..2][..1] == [words[0]] && words[..1][..0] == [];
    assert ScanWords(m1, title, words[..1]) == m1;
    assert Step(m1, title, words[1]) == m1["go" := 1];
    assert ScanWords(m1, title, words[..2]) == m1["go" := 1];
  }

  /** The scenario page's titles scanned against "python go java". */
  lemma ScenarioScan(titles: seq<string>, words: seq<string>)
    requires titles == ["I love Python", "Go is great"]
    requires words == ["python", "go", "java"]
    ensures ScanTitles(map[], titles, words) == map["python" := 1, "go" := 1]
  {
    ScenarioScanFirst(titles[0], words);
    ScenarioScanSecond(titles[1], words);
    assert titles[..1] == [titles[0]] && titles[..1][..0] == [];
    assert ScanTitles(map[], titles[..1], words) == map["python" := 1];
  }

  /**
   One page with the titles "I love Python" and "Go is great" and the words
   "python go java": the run finishes with one hit each for "python" and
   "go", and the only ranking of that tally, hence the only lines `Run`
   can print, is `go: 1` then `python: 1`.
   */
  lemma TwoTitleScenario(pages: seq<PageResult>, words: seq<string>)
    requires pages == [Page(["I love Python", "Go is great"], None)]
    requires words == ["python", "go", "java"]
    ensures Walk(pages, words, map[]) == Finished(map["python" := 1, "go" := 1])
    ensures IsRanking([Entry("go", 1), Entry("python", 1)], map["python" := 1, "go" := 1])
    ensures forall printed :: IsRanking(printed, map["python" := 1, "go" := 1]) ==>
      printed == [Entry("go", 1), Entry("python", 1)]
  {
    ScenarioScan(pages[0].titles, words);
    ScenarioRanking();
    forall printed | IsRanking(printed, map["python" := 1, "go" := 1])
      ensures printed == [Entry("go", 1), Entry("python", 1)]
    {
      RankingUnique(printed, [Entry("go", 1), Entry("python", 1)], map["python" := 1, "go" := 1]);
    }
  }
}
