/** Training of the tagger's tables from an ordered corpus of (word, tag) rows
    (createModel.py). The corpus is given as a sequence instead of being read
    from a CSV file, and the tables are returned instead of being pickled. */
module Estimator {
  import opened Sums
  import opened Words

  /** One corpus row: its `Word` and `Pos_meaning` columns. */
  datatype Row = Row(word: Word, tag: Tag)

  /** The three dictionaries the counting loop fills in. */
  datatype Counts = Counts(
    transitions: map<Tag, map<Tag, nat>>,
    emissions: map<Tag, map<Word, nat>>,
    tags: map<Tag, nat>)

  /** The trained bundle: transition table, emission table, tag set. */
  datatype Model = Model(
    transitions: map<Tag, map<Tag, real>>,
    emissions: map<Tag, map<Word, real>>,
    tags: set<Tag>)

  /** Number of iterations of `for i in range(len(data) - 1)`: one per
      adjacent pair, none for an empty corpus. */
  function Steps(data: seq<Row>): nat
  {
    if |data| == 0 then 0 else |data| - 1
  }

  /** `unique_tags`: every tag of every row, the last one included. */
  function TagSet(data: seq<Row>): (r: set<Tag>)
    ensures forall i :: 0 <= i < |data| ==> data[i].tag in r
    ensures forall t :: t in r ==> exists i :: 0 <= i < |data| && data[i].tag == t
  {
    set i | 0 <= i < |data| :: data[i].tag
  }

  /** Tags of the rows that the loop takes as the current row. */
  ghost function CurrentTags(data: seq<Row>): set<Tag>
  {
    set i | 0 <= i < Steps(data) :: data[i].tag
  }

  // ----- the counting loop (createModel.py, lines 22-38) -----

  /** The inner dictionary of `table` for `tag`, empty when there is none yet. */
  function RowOf<K>(table: map<Tag, map<K, nat>>, tag: Tag): map<K, nat>
  {
    if tag in table then table[tag] else map[]
  }

  /** Create the inner dictionary if needed, then add one to `table[tag][key]`. */
  function CountIn<K>(table: map<Tag, map<K, nat>>, tag: Tag, key: K): map<Tag, map<K, nat>>
  {
    table[tag := Bump(RowOf(table, tag), key)]
  }

  /** One iteration of the loop, with `cur` the row at `i` and `next` the tag at `i + 1`. */
  function Observe(c: Counts, cur: Row, next: Tag): Counts
  {
    Counts(
      CountIn(c.transitions, cur.tag, next),
      CountIn(c.emissions, cur.tag, cur.word),
      Bump(c.tags, cur.tag))
  }

  /** The three dictionaries after the first `k` iterations of the loop. */
  function Tally(data: seq<Row>, k: nat): Counts
    requires k <= Steps(data)
  {
    if k == 0 then Counts(map[], map[], map[])
    else Observe(Tally(data, k - 1), data[k - 1], data[k].tag)
  }

  /** The counting loop, updating the three dictionaries in place. */
  method CountObservations(data: seq<Row>)
      returns (transitionCounts: map<Tag, map<Tag, nat>>,
               emissionCounts: map<Tag, map<Word, nat>>,
               tagCounts: map<Tag, nat>)
    ensures Counts(transitionCounts, emissionCounts, tagCounts) == Tally(data, Steps(data))
  {
    transitionCounts, emissionCounts, tagCounts := map[], map[], map[];
    var i := 0;
    while i < |data| - 1
      invariant 0 <= i <= Steps(data)
      invariant transitionCounts == Tally(data, i).transitions
      invariant emissionCounts == Tally(data, i).emissions
      invariant tagCounts == Tally(data, i).tags
    {
      var currentTag := data[i].tag;
      var nextTag := data[i + 1].tag;
      var word := data[i].word;
      TallyStep(data, i);
      transitionCounts := CountPair(transitionCounts, currentTag, nextTag);
      emissionCounts := CountPair(emissionCounts, currentTag, word);
      tagCounts := tagCounts[currentTag := Get(tagCounts, currentTag) + 1];
      i := i + 1;
    }
  }

  /** One more iteration of the loop updates each dictionary by itself. */
  lemma TallyStep(data: seq<Row>, i: nat)
    requires i < Steps(data)
    ensures Tally(data, i + 1).transitions == CountIn(Tally(data, i).transitions, data[i].tag, data[i + 1].tag)
    ensures Tally(data, i + 1).emissions == CountIn(Tally(data, i).emissions, data[i].tag, data[i].word)
    ensures Tally(data, i + 1).tags == Bump(Tally(data, i).tags, data[i].tag)
  {
  }

  /** The body's update of a nested dictionary: create `table[tag]` when it
      is missing, then add one to `table[tag][key]`, starting from 0. */
  method CountPair<K>(table: map<Tag, map<K, nat>>, tag: Tag, key: K) returns (updated: map<Tag, map<K, nat>>)
    ensures updated == CountIn(table, tag, key)
  {
    updated := table;
    if tag !in updated {
      updated := updated[tag := map[]];
    }
    var inner := updated[tag];
    updated := updated[tag := inner[key := Get(inner, key) + 1]];
  }

  // ----- what the counts mean -----

  /** Row `i` has tag `a` and the row after it has tag `b`. */
  ghost predicate IsTransition(data: seq<Row>, i: nat, a: Tag, b: Tag)
    requires i + 1 < |data|
  {
    data[i].tag == a && data[i + 1].tag == b
  }

  /** Indices `i` among the first `k` current rows with tag `a` followed by tag `b`. */
  ghost function TransitionSites(data: seq<Row>, k: nat, a: Tag, b: Tag): set<nat>
    requires k <= Steps(data)
  {
    set i: nat | i < k && IsTransition(data, i, a, b)
  }

  /** Indices `i` among the first `k` current rows that are the row (w, t). */
  ghost function EmissionSites(data: seq<Row>, k: nat, t: Tag, w: Word): set<nat>
    requires k <= Steps(data)
  {
    set i: nat | i < k && data[i] == Row(w, t)
  }

  /** Indices `i` among the first `k` current rows with tag `t`. */
  ghost function TagSites(data: seq<Row>, k: nat, t: Tag): set<nat>
    requires k <= Steps(data)
  {
    set i: nat | i < k && data[i].tag == t
  }

  /** Counting `key` under `tag` adds one to that entry and leaves every other as it was. */
  lemma CountInEffect<K>(table: map<Tag, map<K, nat>>, tag: Tag, key: K, t: Tag, x: K)
    ensures Get(RowOf(CountIn(table, tag, key), t), x)
         == Get(RowOf(table, t), x) + (if t == tag && x == key then 1 else 0)
  {
  }

  /** After `k` iterations `transition_counts[a][b]` (a missing entry read as 0)
      is the number of indices i < k with tag a at i and tag b at i + 1. */
  lemma {:induction false} TransitionCountsAreSites(data: seq<Row>, k: nat, a: Tag, b: Tag)
    requires k <= Steps(data)
    ensures Get(RowOf(Tally(data, k).transitions, a), b) == |TransitionSites(data, k, a, b)|
  {
    if k > 0 {
      var i := k - 1;
      TransitionCountsAreSites(data, i, a, b);
      CountInEffect(Tally(data, i).transitions, data[i].tag, data[k].tag, a, b);
      if IsTransition(data, i, a, b) {
        assert TransitionSites(data, k, a, b) == TransitionSites(data, i, a, b) + {i};
      } else {
        assert TransitionSites(data, k, a, b) == TransitionSites(data, i, a, b);
      }
    }
  }

  /** After `k` iterations `emission_counts[t][w]` (a missing entry read as 0)
      is the number of indices i < k whose row is (w, t). */
  lemma {:induction false} EmissionCountsAreSites(data: seq<Row>, k: nat, t: Tag, w: Word)
    requires k <= Steps(data)
    ensures Get(RowOf(Tally(data, k).emissions, t), w) == |EmissionSites(data, k, t, w)|
  {
    if k > 0 {
      var i := k - 1;
      EmissionCountsAreSites(data, i, t, w);
      CountInEffect(Tally(data, i).emissions, data[i].tag, data[i].word, t, w);
      if data[i] == Row(w, t) {
        assert EmissionSites(data, k, t, w) == EmissionSites(data, i, t, w) + {i};
      } else {
        assert EmissionSites(data, k, t, w) == EmissionSites(data, i, t, w);
      }
    }
  }

  /** After `k` iterations `tag_counts[t]` (a missing entry read as 0) is the
      number of indices i < k with tag t. */
  lemma {:induction false} TagCountsAreSites(data: seq<Row>, k: nat, t: Tag)
    requires k <= Steps(data)
    ensures Get(Tally(data, k).tags, t) == |TagSites(data, k, t)|
  {
    if k > 0 {
      var i := k - 1;
      TagCountsAreSites(data, i, t);
      if data[i].tag == t {
        assert TagSites(data, k, t) == TagSites(data, i, t) + {i};
      } else {
        assert TagSites(data, k, t) == TagSites(data, i, t);
      }
    }
  }

  /** A table has a row for exactly the keys of `tags`, each row adds up to
      that tag's count, and no stored count is zero. */
  ghost predicate RowsMatch<K>(table: map<Tag, map<K, nat>>, tags: map<Tag, nat>)
  {
    && table.Keys == tags.Keys
    && (forall t :: t in tags ==> Total(table[t]) == tags[t])
    && (forall t, x :: t in table && x in table[t] ==> table[t][x] > 0)
  }

  /** Counting one entry of a table while counting its tag keeps them matched. */
  lemma CountInMatches<K>(table: map<Tag, map<K, nat>>, tags: map<Tag, nat>, tag: Tag, key: K)
    requires RowsMatch(table, tags)
    ensures RowsMatch(CountIn(table, tag, key), Bump(tags, tag))
  {
    TotalBump(RowOf(table, tag), key);
    if tag !in tags {
      assert Total(RowOf(table, tag)) == 0;
    }
  }

  /** The three dictionaries have one key set; each tag's outgoing transition
      counts and its emission counts both add up to its tag count; no stored
      count is zero. */
  ghost predicate Consistent(c: Counts)
  {
    && RowsMatch(c.transitions, c.tags)
    && RowsMatch(c.emissions, c.tags)
    && (forall t :: t in c.tags ==> c.tags[t] > 0)
  }

  /** One iteration keeps the dictionaries consistent and adds one to the total tag count. */
  lemma ObserveConsistent(c: Counts, cur: Row, next: Tag)
    requires Consistent(c)
    ensures Consistent(Observe(c, cur, next))
    ensures Total(Observe(c, cur, next).tags) == Total(c.tags) + 1
  {
    CountInMatches(c.transitions, c.tags, cur.tag, next);
    CountInMatches(c.emissions, c.tags, cur.tag, cur.word);
    TotalBump(c.tags, cur.tag);
  }

  /** After `k` iterations the dictionaries are consistent and the tag counts
      add up to `k`: n - 1 for a corpus of n >= 1 rows, 0 for an empty one. */
  lemma {:induction false} TallyConsistent(data: seq<Row>, k: nat)
    requires k <= Steps(data)
    ensures Consistent(Tally(data, k))
    ensures Total(Tally(data, k).tags) == k
  {
    if k > 0 {
      TallyConsistent(data, k - 1);
      ObserveConsistent(Tally(data, k - 1), data[k - 1], data[k].tag);
    }
  }

  /** A tag has rows in the dictionaries exactly when it is the tag of some
      row before the last. */
  lemma TallyKeys(data: seq<Row>)
    ensures Tally(data, Steps(data)).tags.Keys == CurrentTags(data)
    ensures Tally(data, Steps(data)).transitions.Keys == CurrentTags(data)
    ensures Tally(data, Steps(data)).emissions.Keys == CurrentTags(data)
  {
    var n, c := Steps(data), Tally(data, Steps(data));
    TallyConsistent(data, n);
    forall t
      ensures t in c.tags <==> t in CurrentTags(data)
    {
      TagCountsAreSites(data, n, t);
      if t in CurrentTags(data) {
        var i :| 0 <= i < n && data[i].tag == t;
        assert i in TagSites(data, n, t);
      }
      if t in c.tags {
        assert |TagSites(data, n, t)| > 0;
        var i :| i in TagSites(data, n, t);
      }
    }
  }

  /** Whatever the last row is, it adds nothing to the emission counts and the
      tag counts: only rows 0..n-2 are ever the current row. */
  lemma {:induction false} LastRowNotCounted(data: seq<Row>, last: Row)
    requires |data| > 0
    ensures Steps(data[..|data| - 1] + [last]) == Steps(data)
    ensures Tally(data[..|data| - 1] + [last], Steps(data)).emissions == Tally(data, Steps(data)).emissions
    ensures Tally(data[..|data| - 1] + [last], Steps(data)).tags == Tally(data, Steps(data)).tags
  {
    var other := data[..|data| - 1] + [last];
    SamePrefixSameEmissions(data, other, Steps(data));
  }

  lemma {:induction false} SamePrefixSameEmissions(d1: seq<Row>, d2: seq<Row>, k: nat)
    requires k <= Steps(d1) && k <= Steps(d2)
    requires d1[..k] == d2[..k]
    ensures Tally(d1, k).emissions == Tally(d2, k).emissions
    ensures Tally(d1, k).tags == Tally(d2, k).tags
  {
    if k > 0 {
      assert d1[..k - 1] == d2[..k - 1];
      assert d1[k - 1] == d1[..k][k - 1] == d2[..k][k - 1] == d2[k - 1];
      SamePrefixSameEmissions(d1, d2, k - 1);
    }
  }

  // ----- probabilities (createModel.py, lines 41 and 43) -----

  /** `transition_probs`: each count divided by the sum of its row. The source
      divides by zero for a row summing to 0, which the loop never builds. */
  ghost function TransitionProbs(counts: map<Tag, map<Tag, nat>>): (r: map<Tag, map<Tag, real>>)
    requires forall t :: t in counts ==> Total(counts[t]) > 0
    ensures r.Keys == counts.Keys
    ensures forall t :: t in r ==> r[t].Keys == counts[t].Keys
  {
    map t | t in counts :: Normalize(counts[t], Total(counts[t]))
  }

  /** `emission_probs`: each count divided by the tag's count. The source
      fails for a tag with no (or a zero) tag count, which the loop never builds. */
  function EmissionProbs(counts: map<Tag, map<Word, nat>>, tagCounts: map<Tag, nat>): (r: map<Tag, map<Word, real>>)
    requires forall t :: t in counts ==> t in tagCounts && tagCounts[t] > 0
    ensures r.Keys == counts.Keys
    ensures forall t :: t in r ==> r[t].Keys == counts[t].Keys
  {
    map t | t in counts :: Normalize(counts[t], tagCounts[t])
  }

  /** The whole of createModel.py on a corpus. */
  ghost function Train(data: seq<Row>): Model
  {
    var c := Tally(data, Steps(data));
    TallyConsistent(data, Steps(data));
    Model(TransitionProbs(c.transitions), EmissionProbs(c.emissions, c.tags), TagSet(data))
  }

  /** Every row of both probability tables sums to exactly one, and every
      stored probability lies in (0, 1]. */
  lemma TrainedRowsAreDistributions(data: seq<Row>)
    ensures forall t :: t in Train(data).transitions ==> RealTotal(Train(data).transitions[t]) == 1.0
    ensures forall t :: t in Train(data).emissions ==> RealTotal(Train(data).emissions[t]) == 1.0
    ensures forall a, b :: a in Train(data).transitions && b in Train(data).transitions[a] ==>
              0.0 < Train(data).transitions[a][b] <= 1.0
    ensures forall t, w :: t in Train(data).emissions && w in Train(data).emissions[t] ==>
              0.0 < Train(data).emissions[t][w] <= 1.0
  {
    var c, m := Tally(data, Steps(data)), Train(data);
    TallyConsistent(data, Steps(data));
    forall t | t in m.transitions
      ensures RealTotal(m.transitions[t]) == 1.0
      ensures forall b :: b in m.transitions[t] ==> 0.0 < m.transitions[t][b] <= 1.0
    {
      NormalizeSumsToOne(c.transitions[t]);
      forall b | b in c.transitions[t] ensures c.transitions[t][b] <= Total(c.transitions[t]) {
        TotalBound(c.transitions[t], b);
      }
      NormalizeInUnitInterval(c.transitions[t], Total(c.transitions[t]));
    }
    forall t | t in m.emissions
      ensures RealTotal(m.emissions[t]) == 1.0
      ensures forall w :: w in m.emissions[t] ==> 0.0 < m.emissions[t][w] <= 1.0
    {
      NormalizeSumsToOne(c.emissions[t]);
      forall w | w in c.emissions[t] ensures c.emissions[t][w] <= Total(c.emissions[t]) {
        TotalBound(c.emissions[t], w);
      }
      NormalizeInUnitInterval(c.emissions[t], c.tags[t]);
    }
  }

  /** A trained transition probability is the relative frequency of the
      pair: how often tag `t` is followed by `x`, over how often `t` is a
      current tag. */
  lemma TransitionProbIsFrequency(data: seq<Row>, t: Tag, x: Tag)
    requires t in Train(data).transitions && x in Train(data).transitions[t]
    ensures |TagSites(data, Steps(data), t)| > 0
    ensures Train(data).transitions[t][x]
         == |TransitionSites(data, Steps(data), t, x)| as real / |TagSites(data, Steps(data), t)| as real
  {
    var n := Steps(data);
    var c := Tally(data, n);
    TallyConsistent(data, n);
    TransitionCountsAreSites(data, n, t, x);
    TagCountsAreSites(data, n, t);
    assert Total(c.transitions[t]) == c.tags[t];
  }

  /** A trained emission probability is the relative frequency of the word
      under the tag: how often the row (w, t) is a current row, over how
      often `t` is a current tag. */
  lemma EmissionProbIsFrequency(data: seq<Row>, t: Tag, w: Word)
    requires t in Train(data).emissions && w in Train(data).emissions[t]
    ensures |TagSites(data, Steps(data), t)| > 0
    ensures Train(data).emissions[t][w]
         == |EmissionSites(data, Steps(data), t, w)| as real / |TagSites(data, Steps(data), t)| as real
  {
    var n := Steps(data);
    TallyConsistent(data, n);
    EmissionCountsAreSites(data, n, t, w);
    TagCountsAreSites(data, n, t);
  }

  /** Both tables have a row for exactly the tags of rows 0..n-2; all of them
      are in the tag set, which also holds the last row's tag. */
  lemma TrainedKeys(data: seq<Row>)
    ensures Train(data).transitions.Keys == CurrentTags(data)
    ensures Train(data).emissions.Keys == CurrentTags(data)
    ensures CurrentTags(data) <= Train(data).tags
    ensures |data| > 0 ==> Train(data).tags == CurrentTags(data) + {data[|data| - 1].tag}
  {
    TallyKeys(data);
    var m := Train(data);
    if |data| > 0 {
      var last := |data| - 1;
      forall t | t in m.tags ensures t in CurrentTags(data) + {data[last].tag} {
        var i :| 0 <= i < |data| && data[i].tag == t;
      }
    }
  }

  /** A tag that occurs only in the last row is in the tag set but has no row
      in either table. */
  lemma TagOnlyInLastRow(data: seq<Row>)
    requires |data| > 0
    requires forall i :: 0 <= i < |data| - 1 ==> data[i].tag != data[|data| - 1].tag
    ensures data[|data| - 1].tag in Train(data).tags
    ensures data[|data| - 1].tag !in Train(data).transitions
    ensures data[|data| - 1].tag !in Train(data).emissions
  {
    TrainedKeys(data);
  }
}
