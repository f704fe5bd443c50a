/** The two kinds of string the corpus and the tagger share. */
module Words {
  /** A part-of-speech tag, such as "NN" or "VM". */
  type Tag = string

  /** A word of the corpus or a token of the text. */
  type Word = string
}
