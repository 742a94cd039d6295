/**
 * SearchingServiceImpl.sortLemmasByFrequency: every query lemma is scored by
 * the summed frequency of the stored lemma rows equal to it ignoring case,
 * over all sites, and the lemmas are ordered rarest first.
 */
module LemmaRanking {
  import opened Strings
  import opened Entities
  import opened LinkedMaps

  /** The sum of `frequency` over the rows whose text equals `w` ignoring case. */
  function FrequencySum(rows: seq<LemmaEntity>, w: string): int
    decreases |rows|
  {
    if |rows| == 0 then 0
    else
      var last := rows[|rows| - 1];
      FrequencySum(rows[..|rows| - 1], w) + (if EqualsIgnoreCase(last.text, w) then last.frequency else 0)
  }

  /** The inner loop of sortLemmasByFrequency, over the lemma table in stored order. */
  method Frequency(lemmaFromList: string, lemmaRows: seq<LemmaEntity>) returns (frequancy: int)
    ensures frequancy == FrequencySum(lemmaRows, lemmaFromList)
  {
    frequancy := 0;
    var i := 0;
    while i < |lemmaRows|
      invariant 0 <= i <= |lemmaRows|
      invariant frequancy == FrequencySum(lemmaRows[..i], lemmaFromList)
    {
      assert lemmaRows[..i + 1][..i] == lemmaRows[..i];
      if EqualsIgnoreCase(lemmaRows[i].text, lemmaFromList) {
        frequancy := frequancy + lemmaRows[i].frequency;
      }
      i := i + 1;
    }
    assert lemmaRows[..i] == lemmaRows;
  }

  /** The score adds up over any split of the table, such as the rows of different sites. */
  lemma {:induction false} FrequencySumConcat(a: seq<LemmaEntity>, b: seq<LemmaEntity>, w: string)
    ensures FrequencySum(a + b, w) == FrequencySum(a, w) + FrequencySum(b, w)
    decreases |b|
  {
    if |b| == 0 {
      assert a + b == a;
    } else {
      assert (a + b)[..|a + b| - 1] == a + b[..|b| - 1];
      FrequencySumConcat(a, b[..|b| - 1], w);
    }
  }

  /** A lemma that no row matches scores 0. */
  lemma {:induction false} NoMatchScoresZero(rows: seq<LemmaEntity>, w: string)
    requires forall i :: 0 <= i < |rows| ==> !EqualsIgnoreCase(rows[i].text, w)
    ensures FrequencySum(rows, w) == 0
    decreases |rows|
  {
    if |rows| > 0 {
      NoMatchScoresZero(rows[..|rows| - 1], w);
    }
  }

  /** Rows that do not match `w` ignoring case do not change its score. */
  lemma {:induction false} NonMatchingRowsIgnored(rows: seq<LemmaEntity>, other: seq<LemmaEntity>, w: string)
    requires forall i :: 0 <= i < |other| ==> !EqualsIgnoreCase(other[i].text, w)
    ensures FrequencySum(rows + other, w) == FrequencySum(rows, w)
  {
    FrequencySumConcat(rows, other, w);
    NoMatchScoresZero(other, w);
  }

  /** The key of the comparator `Comparator.comparingInt(Map.Entry::getValue)`. */
  function Score(e: (string, int)): int {
    e.1
  }

  /** The map `foundLemmas` built by the first loop: each lemma with its score, in set order. */
  function Scored(ws: seq<string>, rows: seq<LemmaEntity>): seq<(string, int)> {
    seq(|ws|, i requires 0 <= i < |ws| => (ws[i], FrequencySum(rows, ws[i])))
  }

  /** Distinct lemmas give a map whose keys are the lemmas in order. */
  lemma ScoredIsMap(ws: seq<string>, rows: seq<LemmaEntity>)
    requires Distinct(ws)
    ensures IsMap(Scored(ws, rows)) && Keys(Scored(ws, rows)) == ws
  {
    var m := Scored(ws, rows);
    forall a, b | 0 <= a < b < |m| ensures m[a].0 != m[b].0 {
      assert m[a].0 == ws[a] && m[b].0 == ws[b];
    }
  }

  /** The first loop of sortLemmasByFrequency: one put per query lemma. */
  method ScoreLemmas(lemmasList: seq<string>, lemmaRows: seq<LemmaEntity>) returns (foundLemmas: seq<(string, int)>)
    requires Distinct(lemmasList)
    ensures foundLemmas == Scored(lemmasList, lemmaRows)
  {
    foundLemmas := [];
    var i := 0;
    while i < |lemmasList|
      invariant 0 <= i <= |lemmasList|
      invariant foundLemmas == Scored(lemmasList[..i], lemmaRows)
    {
      var frequancy := Frequency(lemmasList[i], lemmaRows);
      assert forall j :: 0 <= j < |foundLemmas| ==> foundLemmas[j].0 != lemmasList[i] by {
        forall j | 0 <= j < |foundLemmas| ensures foundLemmas[j].0 != lemmasList[i] {
          assert foundLemmas[j].0 == lemmasList[j];
        }
      }
      foundLemmas := Put(foundLemmas, lemmasList[i], frequancy);
      assert lemmasList[..i + 1] == lemmasList[..i] + [lemmasList[i]];
      i := i + 1;
    }
    assert lemmasList[..i] == lemmasList;
  }

  /** The ranked lemmas carry their summed frequencies and form a map. */
  lemma RankedScores(ws: seq<string>, rows: seq<LemmaEntity>)
    requires Distinct(ws)
    ensures var r := SortBy(Scored(ws, rows), Score);
      && IsMap(r) && |r| == |ws|
      && (forall i :: 0 <= i < |r| ==> r[i].1 == FrequencySum(rows, r[i].0))
  {
    var m := Scored(ws, rows);
    var r := SortBy(m, Score);
    ScoredIsMap(ws, rows);
    SortedMap(m, Score);
    forall i | 0 <= i < |r| ensures r[i].1 == FrequencySum(rows, r[i].0) {
      assert r[i] in m;
    }
  }

  /** Every query lemma is ranked. */
  lemma RankedComplete(ws: seq<string>, rows: seq<LemmaEntity>, w: string)
    requires Distinct(ws) && w in ws
    ensures w in Keys(SortBy(Scored(ws, rows), Score))
  {
    var m := Scored(ws, rows);
    var r := SortBy(m, Score);
    ScoredIsMap(ws, rows);
    SortedMap(m, Score);
    var j :| 0 <= j < |ws| && ws[j] == w;
    assert m[j] in r;
    var k :| 0 <= k < |r| && r[k] == m[j];
    assert Keys(r)[k] == w;
  }

  /** Only query lemmas are ranked. */
  lemma RankedSound(ws: seq<string>, rows: seq<LemmaEntity>, w: string)
    requires Distinct(ws) && w in Keys(SortBy(Scored(ws, rows), Score))
    ensures w in ws
  {
    var m := Scored(ws, rows);
    var r := SortBy(m, Score);
    ScoredIsMap(ws, rows);
    SortedMap(m, Score);
    var k :| 0 <= k < |r| && Keys(r)[k] == w;
    assert r[k] in m;
    var j :| 0 <= j < |m| && m[j] == r[k];
    assert Keys(m)[j] == w;
  }

  /** The ranked lemmas are exactly the query lemmas. */
  lemma RankedKeys(ws: seq<string>, rows: seq<LemmaEntity>)
    requires Distinct(ws)
    ensures forall w :: w in ws <==> w in Keys(SortBy(Scored(ws, rows), Score))
  {
    forall w ensures w in ws <==> w in Keys(SortBy(Scored(ws, rows), Score)) {
      if w in ws {
        RankedComplete(ws, rows, w);
      }
      if w in Keys(SortBy(Scored(ws, rows), Score)) {
        RankedSound(ws, rows, w);
      }
    }
  }

  /**
   * sortLemmasByFrequency over the query lemmas (a set, enumerated in its
   * iteration order) and the lemma table.
   */
  method SortLemmasByFrequency(lemmasList: seq<string>, lemmaRows: seq<LemmaEntity>) returns (sortedMap: seq<(string, int)>)
    requires Distinct(lemmasList)
    ensures sortedMap == SortBy(Scored(lemmasList, lemmaRows), Score)
    ensures IsMap(sortedMap) && |sortedMap| == |lemmasList|
    ensures forall w :: w in lemmasList <==> w in Keys(sortedMap)
    ensures forall i :: 0 <= i < |sortedMap| ==> sortedMap[i].1 == FrequencySum(lemmaRows, sortedMap[i].0)
    ensures SortedBy(sortedMap, Score)
  {
    var foundLemmas := ScoreLemmas(lemmasList, lemmaRows);
    sortedMap := SortBy(foundLemmas, Score);
    RankedScores(lemmasList, lemmaRows);
    RankedKeys(lemmasList, lemmaRows);
  }
}
