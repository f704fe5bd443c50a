/** The word-relationship view (app.py, `generate_graph_data` and
    `get_pos_group`): one node per tagged word and a link between each
    pair of neighbours. */
module GraphView {
  import opened Tagger
  import opened Words

  /** `{"id": i, "word": ..., "pos_tag": ..., "group": ...}`. */
  datatype Node = Node(id: nat, word: Word, posTag: Tag, group: nat)

  /** `{"source": i, "target": i + 1, "value": 1}`. */
  datatype Link = Link(source: nat, target: nat, value: nat)

  datatype Graph = Graph(nodes: seq<Node>, links: seq<Link>)

  /** `pos_groups`: tag name to display group. */
  const PosGroups: map<Tag, nat> := map[
    "NN" := 1, "NNP" := 1,              // nouns
    "PRP" := 2,                         // pronoun
    "JJ" := 3,                          // adjective
    "RB" := 4,                          // adverb
    "VB" := 5, "VM" := 5, "VAUX" := 5,  // verbs
    "CC" := 6,                          // conjunction
    "PSP" := 7,                         // postposition
    "QF" := 8, "QC" := 8, "QO" := 8,    // quantifiers and numerals
    "SYM" := 9,                         // symbol
    "RDP" := 10,                        // reduplication
    "ECH" := 11,                        // echo word
    "UNK" := 12                         // unknown
  ]

  /** `get_pos_group`: the tag's group, 0 for a tag outside the table. */
  function PosGroup(posTag: Tag): (g: nat)
    ensures g <= 12
    ensures g == 0 <==> posTag !in PosGroups
    ensures posTag in PosGroups ==> g == PosGroups[posTag]
  {
    if posTag in PosGroups then PosGroups[posTag] else 0
  }

  /** Every group from 1 to 12 names some tag; 0 is left for the unclassified. */
  lemma GroupsCoverOneToTwelve()
    ensures PosGroups.Values == {1, 2, 3, 4, 5, 6, 7, 8, 9, 10, 11, 12}
  {
    assert PosGroups["NN"] == 1 && PosGroups["PRP"] == 2 && PosGroups["JJ"] == 3;
    assert PosGroups["RB"] == 4 && PosGroups["VB"] == 5 && PosGroups["CC"] == 6;
    assert PosGroups["PSP"] == 7 && PosGroups["QF"] == 8 && PosGroups["SYM"] == 9;
    assert PosGroups["RDP"] == 10 && PosGroups["ECH"] == 11 && PosGroups["UNK"] == 12;
  }

  /** `max(n - 1, 0)`: the number of neighbouring pairs among `n` words. */
  function Pairs(n: nat): nat
  {
    if n == 0 then 0 else n - 1
  }

  /** `generate_graph_data`: node i carries word i, its tag and the tag's
      group; link i joins node i to node i + 1 with weight 1. */
  method GenerateGraphData(taggedWords: seq<TaggedWord>) returns (graph: Graph)
    ensures |graph.nodes| == |taggedWords|
    ensures forall i :: 0 <= i < |taggedWords| ==>
              graph.nodes[i] == Node(i, taggedWords[i].word, taggedWords[i].posTag, PosGroup(taggedWords[i].posTag))
    ensures |graph.links| == Pairs(|taggedWords|)
    ensures forall i :: 0 <= i < |graph.links| ==> graph.links[i] == Link(i, i + 1, 1)
  {
    var nodes: seq<Node> := [];
    var links: seq<Link> := [];

    for i := 0 to |taggedWords|
      invariant |nodes| == i
      invariant forall j :: 0 <= j < i ==>
        nodes[j] == Node(j, taggedWords[j].word, taggedWords[j].posTag, PosGroup(taggedWords[j].posTag))
    {
      var item := taggedWords[i];
      nodes := nodes + [Node(i, item.word, item.posTag, PosGroup(item.posTag))];
    }

    var i := 0;
    while i < |taggedWords| - 1
      invariant 0 <= i <= Pairs(|taggedWords|)
      invariant |links| == i
      invariant forall j :: 0 <= j < i ==> links[j] == Link(j, j + 1, 1)
    {
      links := links + [Link(i, i + 1, 1)];
      i := i + 1;
    }

    graph := Graph(nodes, links);
  }
}
