/** Enumerations and small records shared by every component (tokenizer_types.h, token.h). */
module TokenTypes {
  import opened Bytes

  datatype SpecialTokenType = UNK | PAD | BOS | EOS | MASK | SEP | CLS | BLANK | CUSTOM
  datatype TokenizationAlgorithm = BPE | UNIGRAM | WORDPIECE | CHARLEVEL
  datatype ModelType = BERT | GPT2 | ROBERTA | XLNET | ALBERT | CUSTOM_MODEL
  datatype NormalizationForm = NONE | NFC | NFD | NFKC | NFKD
  datatype TruncationStrategy = LONGEST_FIRST | ONLY_FIRST | ONLY_SECOND

  /** A half-open byte range `[start, end)` of the input text. */
  datatype OffsetMapping = OffsetMapping(start: int, end: int)

  datatype Token = Token(id: int, text: Str, isSpecial: bool, offset: OffsetMapping)

  /** A BPE merge rule: the pair of adjacent parts it joins. */
  datatype MergeRule = MergeRule(first: Str, second: Str)
}
