/** Per-token tagging (app.py, `get_pos_meaning` and `tag_sentence`). The
    loaded bundle is passed in: the emission table and `order`, the sequence
    in which iterating the tag set visits its tags. The transition table is
    loaded by the service but never consulted here. */
module Tagger {
  import Tokenizer
  import opened Words

  /** A value, or the `KeyError` that `emission_probs[tag]` raises for a tag
      with no row in the emission table. */
  datatype Lookup<T> = Found(value: T) | KeyError(key: Tag)

  /** One entry of `tag_sentence`'s result: `{"word": ..., "pos_tag": ...}`. */
  datatype TaggedWord = TaggedWord(word: Word, posTag: Tag)

  /** The label returned when there is no tag to choose from. */
  const Unknown: Tag := "Unknown"

  /** `emission_probs[tag].get(word, 0)`. */
  function Score(emissions: map<Tag, map<Word, real>>, tag: Tag, word: Word): real
    requires tag in emissions
  {
    if word in emissions[tag] then emissions[tag][word] else 0.0
  }

  /** Every enumerated tag has a row in the emission table. */
  predicate HasRows(emissions: map<Tag, map<Word, real>>, order: seq<Tag>)
  {
    forall j :: 0 <= j < |order| ==> order[j] in emissions
  }

  /** The first enumerated tag without a row in the emission table: the one
      whose lookup raises. */
  function FirstMissing(emissions: map<Tag, map<Word, real>>, order: seq<Tag>): (t: Tag)
    requires !HasRows(emissions, order)
    ensures t !in emissions
    ensures exists i :: 0 <= i < |order| && order[i] == t && HasRows(emissions, order[..i])
  {
    if order[0] !in emissions then
      assert HasRows(emissions, order[..0]);
      order[0]
    else
      var t := FirstMissing(emissions, order[1..]);
      var i :| 0 <= i < |order[1..]| && order[1..][i] == t && HasRows(emissions, order[1..][..i]);
      assert order[..i + 1] == [order[0]] + order[1..][..i];
      t
  }

  /** `possible_tags`: the scores of the tags in enumeration order, or the
      `KeyError` of the first tag without a row. */
  function Scores(emissions: map<Tag, map<Word, real>>, order: seq<Tag>, word: Word): (r: Lookup<seq<real>>)
    ensures r.Found? <==> HasRows(emissions, order)
    ensures r.Found? ==>
              && |r.value| == |order|
              && forall j :: 0 <= j < |order| ==> r.value[j] == Score(emissions, order[j], word)
    ensures r.KeyError? ==> r.key == FirstMissing(emissions, order)
  {
    if order == [] then Found([])
    else if order[0] !in emissions then KeyError(order[0])
    else match Scores(emissions, order[1..], word)
      case KeyError(k) => KeyError(k)
      case Found(rest) => Found([Score(emissions, order[0], word)] + rest)
  }

  /** `max` over a non-empty sequence of scores: it keeps the first maximum,
      replacing it only by a strictly greater score. */
  function FirstMax(s: seq<real>): (r: nat)
    requires |s| > 0
    ensures r < |s|
    ensures forall j :: 0 <= j < |s| ==> s[j] <= s[r]
    ensures forall j :: 0 <= j < r ==> s[j] < s[r]
  {
    if |s| == 1 then 0
    else
      var best := FirstMax(s[..|s| - 1]);
      if s[|s| - 1] > s[best] then |s| - 1 else best
  }

  /** `get_pos_meaning`: the enumerated tag under which `word` has the
      highest emission probability, the earliest one on a tie, or `Unknown`
      when there are no tags. */
  function GetPosMeaning(emissions: map<Tag, map<Word, real>>, order: seq<Tag>, word: Word): (r: Lookup<Tag>)
    ensures r.KeyError? <==> !HasRows(emissions, order)
    ensures r.KeyError? ==> r.key == FirstMissing(emissions, order)
    ensures order == [] ==> r == Found(Unknown)
    ensures r.Found? && order != [] ==>
              exists i :: 0 <= i < |order| && r.value == order[i] &&
                (forall j :: 0 <= j < |order| ==> Score(emissions, order[j], word) <= Score(emissions, order[i], word)) &&
                (forall j :: 0 <= j < i ==> Score(emissions, order[j], word) < Score(emissions, order[i], word))
  {
    match Scores(emissions, order, word)
    case KeyError(k) => KeyError(k)
    case Found(s) =>
      if |s| == 0 then Found(Unknown)
      else
        var i := FirstMax(s);
        Found(order[i])
  }

  /** `Unknown` is only returned for an empty tag set, unless it is a tag itself. */
  lemma UnknownOnlyWithoutTags(emissions: map<Tag, map<Word, real>>, order: seq<Tag>, word: Word)
    requires Unknown !in order
    ensures GetPosMeaning(emissions, order, word) == Found(Unknown) <==> order == []
  {
  }

  /** A word that no enumerated tag emits scores 0 everywhere and gets the first tag. */
  lemma UnseenWordGetsFirstTag(emissions: map<Tag, map<Word, real>>, order: seq<Tag>, word: Word)
    requires HasRows(emissions, order) && order != []
    requires forall j :: 0 <= j < |order| ==> word !in emissions[order[j]]
    ensures GetPosMeaning(emissions, order, word) == Found(order[0])
  {
    var r := GetPosMeaning(emissions, order, word);
    var i :| 0 <= i < |order| && r.value == order[i] &&
      forall j :: 0 <= j < i ==> Score(emissions, order[j], word) < Score(emissions, order[i], word);
    assert !(Score(emissions, order[0], word) < Score(emissions, order[i], word));
  }

  /** A tag whose score for the word beats every other enumerated tag's is
      chosen, wherever it stands in the enumeration. */
  lemma StrictBestWins(emissions: map<Tag, map<Word, real>>, order: seq<Tag>, word: Word, best: Tag)
    requires HasRows(emissions, order) && best in order
    requires forall j :: 0 <= j < |order| && order[j] != best ==>
               Score(emissions, order[j], word) < Score(emissions, best, word)
    ensures GetPosMeaning(emissions, order, word) == Found(best)
  {
    var r := GetPosMeaning(emissions, order, word);
    var i :| 0 <= i < |order| && r.value == order[i] &&
      forall j :: 0 <= j < |order| ==> Score(emissions, order[j], word) <= Score(emissions, order[i], word);
    var b :| 0 <= b < |order| && order[b] == best;
    assert Score(emissions, order[b], word) <= Score(emissions, order[i], word);
  }

  /** `tag_sentence`: tokenize with the punctuation class `punct`, then tag
      each token in order. */
  method TagSentence(emissions: map<Tag, map<Word, real>>, order: seq<Tag>, punct: set<char>, sentence: string)
      returns (result: Lookup<seq<TaggedWord>>)
    ensures var tokens := Tokenizer.Tokens(punct, sentence);
      && (result.Found? <==> tokens == [] || HasRows(emissions, order))
      && (result.Found? ==>
            && |result.value| == |tokens|
            && forall i :: 0 <= i < |tokens| ==>
                 result.value[i] == TaggedWord(tokens[i], GetPosMeaning(emissions, order, tokens[i]).value))
      && (result.KeyError? ==> result.key == FirstMissing(emissions, order))
  {
    var tokens := Tokenizer.TokenizeMarathi(punct, sentence);
    var taggedWords: seq<TaggedWord> := [];
    for i := 0 to |tokens|
      invariant i > 0 ==> HasRows(emissions, order)
      invariant |taggedWords| == i
      invariant forall j :: 0 <= j < i ==>
        taggedWords[j] == TaggedWord(tokens[j], GetPosMeaning(emissions, order, tokens[j]).value)
    {
      var posTag := GetPosMeaning(emissions, order, tokens[i]);
      if posTag.KeyError? {
        return KeyError(posTag.key);
      }
      taggedWords := taggedWords + [TaggedWord(tokens[i], posTag.value)];
    }
    return Found(taggedWords);
  }
}
