/** Training (createModel.py) followed by tagging (app.py): what the service
    does with a bundle trained on a given corpus. */
module Pipeline {
  import opened Estimator
  import opened Words
  import Tagger
  import Sums

  /** `order` is an enumeration of the tag set `tags`. */
  ghost predicate Enumerates(order: seq<Tag>, tags: set<Tag>)
  {
    forall t :: t in order <==> t in tags
  }

  /** Tagging any word with the trained bundle succeeds exactly when every
      tag of the corpus also occurs in some row before the last; otherwise
      `emission_probs[tag]` raises for the missing tag. */
  lemma TrainedTaggingSucceedsIff(data: seq<Row>, order: seq<Tag>, word: Word)
    requires Enumerates(order, TagSet(data))
    ensures Tagger.GetPosMeaning(Train(data).emissions, order, word).Found?
        <==> TagSet(data) == CurrentTags(data)
  {
    TrainedKeys(data);
    var e := Train(data).emissions;
    if Tagger.HasRows(e, order) {
      forall t | t in TagSet(data) ensures t in CurrentTags(data) {
        var j :| 0 <= j < |order| && order[j] == t;
      }
    }
  }

  /** A tag that occurs only in the last corpus row makes every tagging
      request fail, whatever the word and whatever the enumeration order. */
  lemma LastOnlyTagBreaksTagging(data: seq<Row>, order: seq<Tag>, word: Word)
    requires |data| > 0
    requires forall i :: 0 <= i < |data| - 1 ==> data[i].tag != data[|data| - 1].tag
    requires Enumerates(order, TagSet(data))
    ensures Tagger.GetPosMeaning(Train(data).emissions, order, word).KeyError?
  {
    TagOnlyInLastRow(data);
    var t := data[|data| - 1].tag;
    var j :| 0 <= j < |order| && order[j] == t;
  }

  /** The three-row corpus ("राम", NNP), ("जातो", VM), ("शाळेत", NN). */
  function ToyCorpus(): seq<Row>
  {
    [Row("राम", "NNP"), Row("जातो", "VM"), Row("शाळेत", "NN")]
  }

  /** On the toy corpus NNP emits "राम" with probability 1 and VM emits
      "जातो" with probability 1; the last row's tag NN is in the tag set but
      has no emission row. */
  lemma ToyCorpusTraining()
    ensures Train(ToyCorpus()).emissions == map["NNP" := map["राम" := 1.0], "VM" := map["जातो" := 1.0]]
    ensures Train(ToyCorpus()).tags == {"NNP", "VM", "NN"}
  {
    var data := ToyCorpus();
    ToyCorpusCounts();
    ToyCorpusTags();
    var c := Tally(data, 2);
    ToyEmissionProbs();
    assert Train(data).emissions == EmissionProbs(c.emissions, c.tags);
  }

  /** Dividing the toy emission counts by the toy tag counts. */
  lemma ToyEmissionProbs()
    ensures EmissionProbs(map["NNP" := map["राम" := 1], "VM" := map["जातो" := 1]], map["NNP" := 1, "VM" := 1])
         == map["NNP" := map["राम" := 1.0], "VM" := map["जातो" := 1.0]]
  {
    Sums.NormalizeSingleton("राम", 1);
    Sums.NormalizeSingleton("जातो", 1);
  }

  /** The toy corpus has the tags of its three rows. */
  lemma ToyCorpusTags()
    ensures TagSet(ToyCorpus()) == {"NNP", "VM", "NN"}
  {
    var data := ToyCorpus();
    assert data[0].tag == "NNP" && data[1].tag == "VM" && data[2].tag == "NN";
  }

  /** The counting loop on the toy corpus: two iterations, for the rows of
      "राम" and "जातो". */
  lemma ToyCorpusCounts()
    ensures Steps(ToyCorpus()) == 2
    ensures Tally(ToyCorpus(), 2).emissions == map["NNP" := map["राम" := 1], "VM" := map["जातो" := 1]]
    ensures Tally(ToyCorpus(), 2).tags == map["NNP" := 1, "VM" := 1]
  {
    var data := ToyCorpus();
    var c1 := Tally(data, 1);
    assert c1.emissions == map["NNP" := map["राम" := 1]];
    assert c1.tags == map["NNP" := 1];
    assert Tally(data, 2) == Observe(c1, data[1], data[2].tag);
  }

  /** So tagging "राम" with the toy bundle raises for NN, in every enumeration order. */
  lemma ToyCorpusTaggingFails(order: seq<Tag>)
    requires Enumerates(order, TagSet(ToyCorpus()))
    ensures Tagger.GetPosMeaning(Train(ToyCorpus()).emissions, order, "राम") == Tagger.KeyError("NN")
  {
    ToyCorpusTraining();
    var e := Train(ToyCorpus()).emissions;
    var j :| 0 <= j < |order| && order[j] == "NN";
    assert "NN" !in e;
    var r := Tagger.GetPosMeaning(e, order, "राम");
    var i :| 0 <= i < |order| && order[i] == r.key && Tagger.HasRows(e, order[..i]);
    assert r.key in TagSet(ToyCorpus()) && r.key !in e;
  }
}
