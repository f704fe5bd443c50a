# Marathi part-of-speech tagger, modelled in Dafny

The repository trains a tagger from a corpus of (word, tag) rows, then uses it to tag Marathi text.

- **Training** (`createModel.py`) makes one pass over adjacent pairs of rows. It counts tag-to-tag transitions, tag-to-word emissions and tag occurrences into three dictionaries. It then divides each count by its row total to get a transition table and an emission table. It also collects the set of all tags.
- **Tagging** (`app.py`) has four steps:
  1. It splits text into tokens. Every punctuation character of a fixed class becomes a token of its own.
  2. Each token gets the enumerated tag with the highest emission probability for it. Ties go to the first such tag.
  3. The tagged tokens are listed in order.
  4. For display, the tagged tokens become a graph. Each word is a node, coloured by a fixed tag-to-group table, and neighbouring words are linked.

The Dafny project has seven modules:

- `Words` (`words.dfy`): the `Tag` and `Word` string types shared by training and tagging.
- `Sums` (`sums.dfy`): the sum of a map's values, the `sum(d.values())` of the source, and the facts about it that the training proofs need.
- `Estimator` (`estimator.dfy`): `createModel.py`.
  - The counting loop is the method `CountObservations`. It is proved equal to `Tally`, a function that folds `Observe` (one loop iteration) over the first k row pairs.
  - Lemmas about `Tally` say what each count means (a number of corpus indices), that the three dictionaries agree, and that the last row is never a current row.
  - `TransitionProbs`, `EmissionProbs` and `Train` are the probability comprehensions and the whole script. The lemmas about them prove that every probability is the relative frequency of its pair among rows 0..n-2 (the last row is never a current row, so it is never counted) and that every row is a probability distribution.
- `Tokenizer` (`tokenizer.dfy`): `tokenize_marathi`.
  - The regex substitution, `str.split()` and `str.strip()` are written out character by character (`Pad`, `Split`, `Strip`), and the method `TokenizeMarathi` runs the source's loop over them.
  - A one-pass scanner, `Scan`, is the reference. `PadSplitIsScan` proves the two agree, and the token properties are proved about `Scan`.
  - The constant `WrittenPunctuation` is the character class of app.py:23 as the file spells it. The constant `Punctuation` is the corrected class with the danda (see "## Findings"). The tokenizing functions and `Tagger.TagSentence` take the class as a parameter.
- `Tagger` (`tagger.dfy`): `get_pos_meaning` and `tag_sentence`.
  - The loaded bundle is passed in as the emission table plus `order`, the sequence in which iterating the tag set visits the tags.
  - The `KeyError` that `emission_probs[tag]` raises for a tag with no emission row is modelled as the `KeyError` case of the result.
- `GraphView` (`graph.dfy`): `generate_graph_data` and `get_pos_group`. The constant `PosGroups` is the `pos_groups` table of app.py:67-85.
- `Pipeline` (`pipeline.dfy`): training followed by tagging. It holds the lemma that ties the last-row rule of `createModel.py` to the `KeyError` in `app.py`.

Probabilities are exact `real`s. All integers are unbounded, which matches Python's.

Three consequences of the code are worth stating plainly:

- An unseen word does not get "Unknown". Every tag scores 0 for it, and `max` returns the first enumerated tag (`Tagger.UnseenWordGetsFirstTag`). `"Unknown"` comes back only when there are no tags at all.
- A tag with no emission row does not score 0. `emission_probs[tag]` raises `KeyError` for such a tag, whatever the word (`Tagger.GetPosMeaning`).
- The training loop can produce such a tag: one that occurs only in the last corpus row. For the corpus (राम, NNP), (जातो, VM), (शाळेत, NN), NN occurs only in the last row, so tagging any word with the trained bundle raises `KeyError` for NN (`Pipeline.ToyCorpusTaggingFails`).

## Model

| member | source | states |
|---|---|---|
| `Estimator.TagSet` | createModel.py:15 | the tag set holds the tag of every row, the last one included, and nothing else |
| `Estimator.CountObservations` | createModel.py:22-38 | the loop over `range(len(data) - 1)` leaves the three dictionaries equal to `Tally` after one iteration per adjacent pair (none for an empty corpus) |
| `Estimator.Observe` | createModel.py:23-38 | no contract; one iteration of the loop body, whose effect `Estimator.ObserveConsistent` states |
| `Estimator.Tally` | createModel.py:22-38 | no contract; the dictionaries after k iterations, a fold of `Observe`; its meaning is stated by the `*CountsAreSites` lemmas and `Estimator.TallyConsistent` |
| `Estimator.Steps` | createModel.py:22 | no contract; the length of `range(len(data) - 1)`, 0 for an empty corpus; `Estimator.TallyConsistent` states that the tag counts total it |
| `Estimator.RowOf` | createModel.py:28-29 | no contract; the inner dictionary of a tag, empty when `if current_tag not in ...` would create it; `Estimator.CountPair` states the creation |
| `Estimator.CountIn` | createModel.py:28-35 | no contract; the nested create-and-increment; `Estimator.CountInEffect` states that it adds one to the one entry and changes nothing else |
| `Estimator.CountInEffect` | createModel.py:28-35 | the nested create-and-increment adds one to the entry `[tag][key]`, read as 0 when missing, and leaves every other entry as it was |
| `Estimator.CountPair` | createModel.py:28-35 | creating a missing inner dictionary and then setting `d[tag][key] = d[tag].get(key, 0) + 1` adds one to that entry, and changes nothing else |
| `Estimator.TransitionCountsAreSites` | createModel.py:22-30 | `transition_counts[a][b]`, with a missing entry read as 0, is the number of indices i < n-1 with tag a at i and tag b at i+1 |
| `Estimator.EmissionCountsAreSites` | createModel.py:22-35 | `emission_counts[t][w]`, with a missing entry read as 0, is the number of indices i < n-1 whose row is (w, t) |
| `Estimator.TagCountsAreSites` | createModel.py:22-38 | `tag_counts[t]`, with a missing entry read as 0, is the number of indices i < n-1 with tag t |
| `Estimator.ObserveConsistent` | createModel.py:27-38 | one iteration keeps the three dictionaries on one key set, keeps each tag's transition and emission row sums equal to its tag count, creates no zero entry, and adds one to the total tag count |
| `Estimator.TallyConsistent` | createModel.py:22-38 | after k iterations the dictionaries share one key set, every transition row and every emission row sums to that tag's count, no count is 0, and the tag counts total k (so n-1 for n >= 1 rows, 0 for none) |
| `Estimator.TallyKeys` | createModel.py:22-38 | the three dictionaries have a row for exactly the tags of rows 0..n-2 |
| `Estimator.LastRowNotCounted` | createModel.py:22-25 | replacing the last row by any row leaves the emission counts and tag counts unchanged: the last row is never a current row |
| `Estimator.TransitionProbs` | createModel.py:41 | the transition table has a row for exactly the tags of `transition_counts`, and each row has exactly the next tags counted for that tag; `Estimator.TransitionProbIsFrequency` states the values |
| `Estimator.EmissionProbs` | createModel.py:43 | the emission table has a row for exactly the tags of `emission_counts`, and each row has exactly the words counted for that tag; `Estimator.EmissionProbIsFrequency` states the values |
| `Estimator.Train` | createModel.py:15-43 | no contract; the whole script, counting loop then both comprehensions plus the tag set, whose values `Estimator.TransitionProbIsFrequency` and `Estimator.EmissionProbIsFrequency` state, and whose rows and keys `Estimator.TrainedRowsAreDistributions` and `Estimator.TrainedKeys` state |
| `Estimator.TransitionProbIsFrequency` | createModel.py:22-41 | a trained transition probability t -> x is the number of indices i < n-1 with tag t at i and tag x at i+1, divided by the (positive) number of indices i < n-1 with tag t |
| `Estimator.EmissionProbIsFrequency` | createModel.py:22-43 | a trained emission probability t -> w is the number of indices i < n-1 whose row is (w, t), divided by the (positive) number of indices i < n-1 with tag t |
| `Estimator.TrainedRowsAreDistributions` | createModel.py:41-43 | every row of the transition table and of the emission table sums to exactly 1, and every stored probability lies in (0, 1] |
| `Estimator.TrainedKeys` | createModel.py:15-43 | both tables have rows for exactly the tags of rows 0..n-2, and these are in the tag set, which is them plus the last row's tag |
| `Estimator.TagOnlyInLastRow` | createModel.py:15-38 | a tag that occurs only in the last row is in the tag set but has no transition row and no emission row |
| `Sums.Get` | createModel.py:30-38 | no contract; `d.get(k, 0)`; `Sums.TotalBump` states its use in the increments |
| `Sums.Bump` | createModel.py:30-38 | no contract; `d[k] = d.get(k, 0) + 1`; `Sums.TotalBump` states its effect on the sum and `Estimator.CountInEffect` its effect on each entry |
| `Sums.Total` | createModel.py:41 | no contract; `sum(d.values())`, over the keys in an arbitrary order; `Sums.TotalBump` and `Sums.NormalizeSumsToOne` state its properties |
| `Sums.Normalize` | createModel.py:41-43 | no contract; the inner comprehension `{k: count / d for k, count in d.items()}`; `Sums.NormalizeSumsToOne` and `Sums.NormalizeInUnitInterval` state its effect |
| `Sums.TotalBump` | createModel.py:30 | `d[k] = d.get(k, 0) + 1` raises the sum of the dictionary's values by exactly one |
| `Sums.NormalizeSumsToOne` | createModel.py:41 | dividing each count of a row by the row's sum gives values summing to exactly 1 |
| `Sums.NormalizeInUnitInterval` | createModel.py:43 | dividing positive counts by a bound on each of them gives values in (0, 1] |
| `Tokenizer.TokenizeMarathi` | app.py:18-28 | the loop over the whitespace-split pieces of the padded text, stripping and keeping the non-empty ones, returns exactly the tokens of the one-pass scan |
| `Tokenizer.Pad` | app.py:23 | no contract; the substitution `re.sub(r'([...])', r' \1 ', text)` written out per character; `Tokenizer.PadOnlyAddsWhitespace` states its effect |
| `Tokenizer.PadOnlyAddsWhitespace` | app.py:23 | the substitution inserts nothing but whitespace: removing all whitespace from the padded text and from the input gives the same string |
| `Tokenizer.Split` | app.py:25 | no contract; `str.split()` as maximal runs of non-whitespace; `Tokenizer.SplitWellFormed` states its pieces' form and `Tokenizer.PadSplitIsScan` its result on padded text |
| `Tokenizer.IsWhitespace` | app.py:25-26 | no contract; the code points for which `str.isspace()` holds, the separators of `split()` and `strip()`; `Tokenizer.SplitWellFormed` and `Tokenizer.StripTrims` state their effect |
| `Tokenizer.Strip` | app.py:26-27 | no contract; `str.strip()` as leading then trailing trim; `Tokenizer.StripTrims` states its effect |
| `Tokenizer.StripTrims` | app.py:26-27 | `str.strip()` returns the stretch of the input between a whitespace-only prefix and a whitespace-only suffix, and the result neither starts nor ends with whitespace |
| `Tokenizer.PadSplitIsScan` | app.py:23-25 | padding every punctuation character with spaces and then splitting on whitespace is the same as the one-pass scan |
| `Tokenizer.SplitWellFormed` | app.py:25 | every piece of `str.split()` is non-empty and holds no whitespace |
| `Tokenizer.StripNoWhitespace` | app.py:26-27 | `strip()` leaves such a piece unchanged, so the `if token.strip()` filter drops nothing |
| `Tokenizer.TokensWellFormed` | app.py:23-27 | no token is empty or holds whitespace, and a token holding a punctuation character is exactly that one character, whatever surrounds it in the text |
| `Tokenizer.TokensConcat` | app.py:23-27 | joining the tokens gives the input with all whitespace removed, in the original order |
| `Tokenizer.NoTokensIffBlank` | app.py:25-28 | the token list is empty exactly when the input is empty or only whitespace |
| `Tokenizer.WordIsOneToken` | app.py:23-27 | a non-empty run of characters that are neither whitespace nor punctuation is exactly one token |
| `Tokenizer.TokensSplitAt` | app.py:23-27 | text joined at a whitespace character has the tokens of its two sides; joined at a punctuation character, that character is one token between them |
| `Tokenizer.CommaAndStopExample` | app.py:23 | with the class `Tokenizer.Punctuation`, "राम,आहे." gives ["राम", ",", "आहे", "."] |
| `Tokenizer.WrittenClassKeepsDanda` | app.py:23 | with the character class as the file spells it (`Tokenizer.WrittenPunctuation`: U+0440, U+0435, U+0434 and `,.!?;:'"()`), "राम।" stays one token |
| `Tokenizer.DandaIsolated` | app.py:23 | with the corrected class (`Tokenizer.Punctuation`: the danda U+0964 and `,.!?;:'"()`), "राम।" gives ["राम", "।"], and every danda in any text is a token of its own |
| `Tagger.Score` | app.py:13 | no contract; `emission_probs[tag].get(word, 0)` for a tag that has a row; `Tagger.Scores` states the list of them |
| `Tagger.Scores` | app.py:13 | `possible_tags` has one score per enumerated tag, in order, each `emission_probs[tag].get(word, 0)`; it raises exactly when some tag has no row, and then for the first such tag |
| `Tagger.FirstMissing` | app.py:13 | the tag the lookup raises for has no emission row, and every tag enumerated before it has one |
| `Tagger.FirstMax` | app.py:14 | `max` with `key=` returns a position whose score is at least every other score and strictly greater than every earlier one |
| `Tagger.GetPosMeaning` | app.py:12-15 | it raises `KeyError` exactly when some enumerated tag has no emission row, for the first one; with no tags it returns "Unknown"; otherwise it returns an enumerated tag whose score for the word is maximal and strictly above every earlier tag's |
| `Tagger.UnknownOnlyWithoutTags` | app.py:14 | when "Unknown" is not itself a tag, it is returned exactly when the tag set is empty |
| `Tagger.UnseenWordGetsFirstTag` | app.py:13-14 | a word that no enumerated tag emits gets the first enumerated tag |
| `Tagger.StrictBestWins` | app.py:13-14 | a tag whose score beats every other tag's is returned, wherever it stands in the enumeration |
| `Tagger.TagSentence` | app.py:31-39 | for a given punctuation class, it succeeds exactly when there are no tokens or every tag has an emission row; then entry i is (token i, tag of token i) with one entry per token; otherwise it raises for the first tag with no row |
| `GraphView.PosGroup` | app.py:66-88 | with `GraphView.PosGroups` the `pos_groups` table of app.py:67-85, the group is at most 12, is 0 exactly for a tag outside the table, and is the table's value otherwise |
| `GraphView.GroupsCoverOneToTwelve` | app.py:67-85 | the `pos_groups` table (`GraphView.PosGroups`) uses exactly the groups 1 to 12 |
| `GraphView.Pairs` | app.py:56 | no contract; the length of `range(len(tagged_words) - 1)`, 0 for no words; `GraphView.GenerateGraphData` states the link count with it |
| `GraphView.GenerateGraphData` | app.py:42-63 | n tagged words give n nodes (node i has id i, word i, tag i and the tag's group) and max(n-1, 0) links, link i joining node i to node i+1 with value 1 |
| `Pipeline.TrainedTaggingSucceedsIff` | app.py:13 | with a bundle trained on a corpus, tagging succeeds exactly when every tag of the corpus also occurs in some row before the last (createModel.py:15 against createModel.py:22) |
| `Pipeline.LastOnlyTagBreaksTagging` | app.py:13 | a tag that occurs only in the last corpus row makes every tagging call raise, for every word and every enumeration order |
| `Pipeline.ToyCorpusCounts` | createModel.py:22-38 | the loop runs twice on the three-row toy corpus and counts NNP -> राम once, VM -> जातो once, and each of NNP and VM once |
| `Pipeline.ToyCorpusTraining` | createModel.py:22-43 | training on (राम, NNP), (जातो, VM), (शाळेत, NN) gives NNP -> राम = 1 and VM -> जातो = 1, no NN row, and the tag set {NNP, VM, NN} |
| `Pipeline.ToyCorpusTaggingFails` | app.py:13 | tagging "राम" with that bundle raises `KeyError` for NN, in every enumeration order |

## Left out

- Flask set-up, routes, request parsing, `jsonify`, `render_template` and the "No text provided" 400 responses (app.py:1-5, app.py:90-136) are left out: they are web glue around the modelled functions. So is the route that returns the transition table unchanged.
- Loading and saving the bundle with pickle (app.py:8-9, createModel.py:45-49) is left out. The bundle is an explicit value passed to the functions, and `Train` returns it.
- Reading the corpus with pandas and `iloc` (createModel.py:1-11, createModel.py:23-25) is left out. The corpus is a `seq<Row>`, and malformed or missing cells are not modelled.
- `unique_words` (createModel.py:14) is computed but never used, so it is left out.
- IEEE floating-point rounding in the divisions is not modelled. Probabilities are exact reals, so "sums to 1" holds exactly instead of approximately.
- The regex engine is not modelled. Its effect on the text is written out as `Pad`. Whitespace is the fixed set of code points for which Python's `str.isspace()` holds.
- Python's set iteration order is left open. Every tagging member takes the enumeration as a parameter `order`.
- `Sums.Total` takes a map's keys in an arbitrary order, by choice. Because of that, it and `TransitionProbs` and `Train`, which use it, are ghost functions. The counting loop and `EmissionProbs` are compiled.
- TransitionProbs: the `ZeroDivisionError` for a row that sums to 0 is a precondition, not an error result. The counting loop never builds such a row (`TallyConsistent`).
- EmissionProbs: the `KeyError`/`ZeroDivisionError` for a tag without a positive tag count is a precondition, not an error result. The counting loop never builds such a tag (`TallyConsistent`).

## Findings

| source | as written | input that shows it | evidently intended | confidence | as-written member | corrected member |
|---|---|---|---|---|---|---|
| app.py:23 | The character class begins with the Cyrillic letters U+0440, U+0435 and U+0434. These are the UTF-8 bytes of the Devanagari danda U+0964 read as code page 866. So the danda is not in the class, and those three Cyrillic letters are split out of words instead. | "राम।" gives ["राम।"] | The danda is in the class: "राम।" gives ["राम", "।"]. The model gives the corrected class as `Tokenizer.Punctuation`, and `Tagger.TagSentence` takes the class as a parameter so either can be passed. | not executed; medium, since the letters may come from how the file was copied rather than from the repository itself | `Tokenizer.WrittenClassKeepsDanda` | `Tokenizer.DandaIsolated` |
