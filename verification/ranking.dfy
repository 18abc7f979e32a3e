/**
 The final ordering of count_words: the dictionary items sorted with the key
 `(-count, word)`, i.e. by descending count and then by ascending word.
 */
module Ranking {
  import opened Text

  /** One `word: count` line. */
  datatype Entry = Entry(word: string, count: nat)

  /** `a` sorts before `b` under the key `(-count, word)`. */
  predicate Before(a: Entry, b: Entry)
  {
    a.count > b.count || (a.count == b.count && LexLess(a.word, b.word))
  }

  /** Every entry sorts strictly before every later one. */
  predicate Ranked(s: seq<Entry>)
  {
    forall i, j :: 0 <= i < j < |s| ==> Before(s[i], s[j])
  }

  /** `s` holds exactly the items of `m`. */
  ghost predicate Lists(s: seq<Entry>, m: map<string, nat>)
  {
    forall e :: e in s <==> e.word in m && m[e.word] == e.count
  }

  /** `s` is `sorted(m.items(), key=lambda x: (-x[1], x[0]))`. */
  ghost predicate IsRanking(s: seq<Entry>, m: map<string, nat>)
  {
    Ranked(s) && Lists(s, m)
  }

  /** No entry sorts before itself. */
  lemma BeforeIrreflexive(a: Entry)
    ensures !Before(a, a)
  {
    LexLessIrreflexive(a.word);
  }

  /** Two entries never sort before each other. */
  lemma BeforeAsymmetric(a: Entry, b: Entry)
    ensures !(Before(a, b) && Before(b, a))
  {
    LexLessAsymmetric(a.word, b.word);
  }

  /** Entries for different words are ordered one way or the other. */
  lemma BeforeTotal(a: Entry, b: Entry)
    requires a.word != b.word
    ensures Before(a, b) || Before(b, a)
  {
    LexLessTotal(a.word, b.word);
  }

  /** The order is transitive. */
  lemma BeforeTransitive(a: Entry, b: Entry, c: Entry)
    requires Before(a, b) && Before(b, c)
    ensures Before(a, c)
  {
    if a.count == b.count == c.count {
      LexLessTransitive(a.word, b.word, c.word);
    }
  }

  /** Ordering each pair of neighbours is the same as ordering every pair. */
  lemma {:induction false} RankedIffNeighbours(s: seq<Entry>)
    ensures Ranked(s) <==> forall i :: 0 <= i < |s| - 1 ==> Before(s[i], s[i + 1])
  {
    if s != [] && forall i :: 0 <= i < |s| - 1 ==> Before(s[i], s[i + 1]) {
      RankedIffNeighbours(s[1..]);
      assert Ranked(s[1..]) by {
        forall i | 0 <= i < |s[1..]| - 1 ensures Before(s[1..][i], s[1..][i + 1]) {
          assert s[1..][i] == s[i + 1] && s[1..][i + 1] == s[i + 2];
        }
      }
      forall j | 0 < j < |s| ensures Before(s[0], s[j]) {
        if j > 1 {
          assert Before(s[1], s[j]) by { assert s[1] == s[1..][0] && s[j] == s[1..][j - 1]; }
          BeforeTransitive(s[0], s[1], s[j]);
        }
      }
      forall i, j | 0 < i < j < |s| ensures Before(s[i], s[j]) {
        assert s[i] == s[1..][i - 1] && s[j] == s[1..][j - 1];
      }
    }
  }

  /** Putting an entry that sorts before the head of a ranked sequence in front keeps it ranked. */
  lemma RankedCons(e: Entry, s: seq<Entry>)
    requires Ranked(s) && s != [] && Before(e, s[0])
    ensures Ranked([e] + s)
  {
    forall j | 0 < j < |s| ensures Before(e, s[j]) {
      BeforeTransitive(e, s[0], s[j]);
    }
  }

  /** Insert `e` into ranked `s` at the place the sort key gives it. */
  function Insert(e: Entry, s: seq<Entry>): (r: seq<Entry>)
    requires Ranked(s)
    requires forall x :: x in s ==> x.word != e.word
    ensures Ranked(r)
    ensures forall x :: x in r <==> x == e || x in s
    ensures |r| == |s| + 1
  {
    if s == [] then [e]
    else if Before(e, s[0]) then RankedCons(e, s); [e] + s
    else
      BeforeTotal(e, s[0]);
      var rest := Insert(e, s[1..]);
      assert forall x :: x in rest ==> Before(s[0], x);
      [s[0]] + rest
  }

  /** `sorted(m.items(), key=lambda x: (-x[1], x[0]))`, one item at a time. */
  method Rank(m: map<string, nat>) returns (s: seq<Entry>)
    ensures IsRanking(s, m)
  {
    s := [];
    var rest := m.Keys;
    while rest != {}
      invariant rest <= m.Keys
      invariant Ranked(s)
      invariant forall e :: e in s <==> e.word in m && e.word !in rest && m[e.word] == e.count
      decreases rest
    {
      var k :| k in rest;
      s := Insert(Entry(k, m[k]), s);
      rest := rest - {k};
    }
  }

  /** Two ranked sequences with the same entries are equal. */
  lemma {:induction false} RankedSameEntriesEqual(s1: seq<Entry>, s2: seq<Entry>)
    requires Ranked(s1) && Ranked(s2)
    requires forall e :: e in s1 <==> e in s2
    ensures s1 == s2
  {
    if s1 == [] {
      assert forall i :: 0 <= i < |s2| ==> s2[i] in s1;
    } else {
      assert s1[0] in s2;
      var a, b := s1[0], s2[0];
      if a != b {
        assert b in s1;
        var i :| 0 <= i < |s1| && s1[i] == b;
        var j :| 0 <= j < |s2| && s2[j] == a;
        BeforeAsymmetric(a, b);
        assert false;
      }
      forall e ensures e in s1[1..] <==> e in s2[1..] {
        if e in s1[1..] {
          var i :| 0 <= i < |s1[1..]| && s1[1..][i] == e;
          assert Before(s1[0], s1[i + 1]);
          BeforeIrreflexive(e);
          assert e in s2;
        }
        if e in s2[1..] {
          var j :| 0 <= j < |s2[1..]| && s2[1..][j] == e;
          assert Before(s2[0], s2[j + 1]);
          BeforeIrreflexive(e);
          assert e in s1;
        }
      }
      RankedSameEntriesEqual(s1[1..], s2[1..]);
      assert s1 == [a] + s1[1..] && s2 == [b] + s2[1..];
    }
  }

  /** The sorted item list of a dictionary is unique. */
  lemma RankingUnique(s1: seq<Entry>, s2: seq<Entry>, m: map<string, nat>)
    requires IsRanking(s1, m) && IsRanking(s2, m)
    ensures s1 == s2
  {
    RankedSameEntriesEqual(s1, s2);
  }

  /** A ranking is a permutation of the dictionary's items: one entry per key, no word twice. */
  lemma {:induction false} RankingIsPermutation(s: seq<Entry>, m: map<string, nat>)
    requires IsRanking(s, m)
    ensures |s| == |m|
    ensures forall i, j :: 0 <= i < j < |s| ==> s[i].word != s[j].word
  {
    forall i, j | 0 <= i < j < |s| ensures s[i].word != s[j].word {
      assert s[i] in s && s[j] in s;
      BeforeIrreflexive(s[i]);
    }
    if s != [] {
      var k := s[0].word;
      var m' := m - {k};
      assert s[0] in s;
      forall e ensures e in s[1..] <==> e.word in m' && m'[e.word] == e.count {
        if e in s[1..] {
          var i :| 0 <= i < |s[1..]| && s[1..][i] == e;
          assert e == s[i + 1] && e in s;
        }
        if e.word in m' && m'[e.word] == e.count {
          assert e in s;
          var i :| 0 <= i < |s| && s[i] == e;
          assert i != 0;
          assert e == s[1..][i - 1];
        }
      }
      assert Ranked(s[1..]) by {
        forall i, j | 0 <= i < j < |s[1..]| ensures Before(s[1..][i], s[1..][j]) {
          assert s[1..][i] == s[i + 1] && s[1..][j] == s[j + 1];
        }
      }
      RankingIsPermutation(s[1..], m');
      assert m'.Keys == m.Keys - {k};
    } else {
      forall k | k in m ensures Entry(k, m[k]) in s {
      }
      assert m == map[];
    }
  }
}
