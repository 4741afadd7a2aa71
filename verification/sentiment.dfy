/** Emotion post-processing of backend/app/core/sentiment.py: the
    classifier's label scores become a dict ordered by descending score, and
    an arc check reports the segments whose intended emotion scores too low.
    The classifier itself is a parameter. */
module Sentiment {
  import opened Wrappers
  import opened Text
  import opened Dicts
  import opened Sorting

  /** Label to score, in order. */
  type Scores = Dict<real>

  /** Only this many leading characters of a text reach the classifier. */
  const InputLimit: nat := 512
  /** The arc check's threshold when the caller gives none. */
  const DefaultThreshold: real := 0.5

  /** `{item['label']: item['score'] for item in results[0]}` */
  function ScoreTable(labels: Scores): Scores {
    Update([], labels)
  }

  /** The sort key with `reverse=True`: a higher score goes first. */
  predicate HigherScore(a: Entry<real>, b: Entry<real>) {
    a.value > b.value
  }

  /** `analyze_emotion(text)`, with `classify` giving the label/score list
      the model produces for its input. */
  function AnalyzeEmotion(text: string, classify: string -> Scores): Scores {
    Sort(ScoreTable(classify(Take(text, InputLimit))), HigherScore)
  }

  /** Reordering a dict with distinct keys changes no lookup. */
  lemma PermutedLookup<V>(d: Dict<V>, e: Dict<V>)
    requires DistinctKeys(d) && multiset(d) == multiset(e)
    ensures DistinctKeys(e)
    ensures forall k :: Lookup(e, k) == Lookup(d, k)
  {
    assert Distinct(d);
    forall m, n | 0 <= m < n < |e| ensures e[m].key != e[n].key {
      if e[m].key == e[n].key {
        assert e[m] in multiset(d) && e[n] in multiset(d);
        var p :| 0 <= p < |d| && d[p] == e[m];
        var q :| 0 <= q < |d| && d[q] == e[n];
        assert p == q;
        CountsTwice(e, m, n);
        DistinctOnce(d, e[m]);
      }
    }
    forall k ensures Lookup(e, k) == Lookup(d, k) {
      LookupFindsKey(d, k);
      LookupFindsKey(e, k);
      if HasKey(d, k) {
        var p :| 0 <= p < |d| && Keys(d)[p] == k;
        assert d[p] in multiset(e);
        var m :| 0 <= m < |e| && e[m] == d[p];
        LookupAt(d, p);
        LookupAt(e, m);
      } else {
        forall m | 0 <= m < |e| ensures Keys(e)[m] != k {
          assert e[m] in multiset(d);
          var p :| 0 <= p < |d| && d[p] == e[m];
          assert Keys(d)[p] == e[m].key;
        }
      }
    }
  }

  /** One entry per label the classifier reported, holding that label's
      score (its last one, should a label repeat); nothing when the
      classifier reports nothing. */
  lemma EmotionEntries(text: string, classify: string -> Scores)
    ensures var labels := classify(Take(text, InputLimit));
            var r := AnalyzeEmotion(text, classify);
            && DistinctKeys(r)
            && (forall k :: HasKey(r, k) <==> HasKey(labels, k))
            && (forall k :: Lookup(r, k) == LastValue(labels, k))
            && (r == [] <==> labels == [])
  {
    var labels := classify(Take(text, InputLimit));
    var table := ScoreTable(labels);
    var r := AnalyzeEmotion(text, classify);
    UpdateLookup([], labels);
    UpdateKeys([], labels);
    SortPermutes(table, HigherScore);
    PermutedLookup(table, r);
    forall k ensures HasKey(r, k) <==> HasKey(labels, k) {
      LookupFindsKey(r, k);
      LookupFindsKey(table, k);
    }
    if labels != [] {
      assert HasKey(labels, labels[0].key) by { assert Keys(labels)[0] == labels[0].key; }
    }
  }

  lemma HigherScoreIsStrictWeak()
    ensures StrictWeakOrder(HigherScore)
  {
  }

  /** Scores never increase along the result. */
  lemma EmotionDescending(text: string, classify: string -> Scores)
    ensures var r := AnalyzeEmotion(text, classify);
            forall i, j :: 0 <= i < j < |r| ==> r[i].value >= r[j].value
  {
    HigherScoreIsStrictWeak();
    SortOrdered(ScoreTable(classify(Take(text, InputLimit))), HigherScore);
  }

  /** Equal scores keep the order of the score table built from the
      classifier's list. */
  lemma EmotionTiesInOrder(text: string, classify: string -> Scores, i: nat, j: nat)
    requires var table := ScoreTable(classify(Take(text, InputLimit)));
             i < j < |table| && table[i].value == table[j].value
    ensures var table := ScoreTable(classify(Take(text, InputLimit)));
            Precedes(AnalyzeEmotion(text, classify), table[i], table[j])
  {
    SortStable(ScoreTable(classify(Take(text, InputLimit))), HigherScore, i, j);
  }

  /** Texts that agree on their first `InputLimit` characters get the same
      result: nothing past them is looked at. */
  lemma EmotionSeesOnlyPrefix(a: string, b: string, classify: string -> Scores)
    requires Take(a, InputLimit) == Take(b, InputLimit)
    ensures AnalyzeEmotion(a, classify) == AnalyzeEmotion(b, classify)
  {
  }

  // ---------------------------------------------------------------------
  // validate_arc
  // ---------------------------------------------------------------------

  /** `emotions.get(intended, 0)` */
  function IntendedScore(emotions: Scores, emotion: string): real {
    Lookup(emotions, emotion).GetOr(0.0)
  }

  /** The segment's score for the intended emotion is below the threshold. */
  predicate Deviates(segment: string, emotion: string, threshold: real, classify: string -> Scores) {
    IntendedScore(AnalyzeEmotion(segment, classify), emotion) < threshold
  }

  /** In the classifier's terms: the emotion's reported score is below the
      threshold, an emotion it did not report counting as 0. */
  lemma DeviatesByLabel(segment: string, emotion: string, threshold: real, classify: string -> Scores)
    ensures var labels := classify(Take(segment, InputLimit));
            Deviates(segment, emotion, threshold, classify)
            <==> LastValue(labels, emotion).GetOr(0.0) < threshold
  {
    var labels := classify(Take(segment, InputLimit));
    EmotionEntries(segment, classify);
    UpdateLookup([], labels);
  }

  /** `validate_arc(segments, intended_arc, threshold)`. None stands for the
      error raised when the classifier reports nothing for a segment, so
      that its top emotion cannot be taken. */
  method ValidateArc(segments: seq<string>, intended: seq<string>, threshold: real, classify: string -> Scores)
    returns (r: Option<seq<nat>>)
    ensures var n := if |segments| < |intended| then |segments| else |intended|;
            r.None? <==> exists i :: 0 <= i < n && AnalyzeEmotion(segments[i], classify) == []
    ensures var n := if |segments| < |intended| then |segments| else |intended|;
            r.Some? ==> forall i :: i in r.value <==> 0 <= i < n && Deviates(segments[i], intended[i], threshold, classify)
    ensures r.Some? ==> forall a, b :: 0 <= a < b < |r.value| ==> r.value[a] < r.value[b]
  {
    var deviations: seq<nat> := [];
    var i := 0;
    while i < |segments|
      invariant i <= |segments| && i <= |intended|
      invariant forall k :: 0 <= k < i ==> AnalyzeEmotion(segments[k], classify) != []
      invariant forall k :: k in deviations <==> 0 <= k < i && Deviates(segments[k], intended[k], threshold, classify)
      invariant forall a, b :: 0 <= a < b < |deviations| ==> deviations[a] < deviations[b]
      invariant forall a :: 0 <= a < |deviations| ==> deviations[a] < i
    {
      if i >= |intended| {
        break;
      }
      var emotions := AnalyzeEmotion(segments[i], classify);
      if emotions == [] {
        return None;
      }
      var dominant := emotions[0].key;
      if IntendedScore(emotions, intended[i]) < threshold {
        deviations := deviations + [i];
      }
      i := i + 1;
    }
    return Some(deviations);
  }
}
