/**
 * The model data an advanced tokenizer is built from (tokenizer_model.h, tokenizer_model.cpp):
 * a token -> id map, a token -> score map for Unigram, the BPE merge strings in order, and the
 * algorithm the data is meant for. Every operation overwrites or appends; nothing is checked.
 */
module TokenizerModels {
  import opened Bytes
  import opened TokenTypes

  class TokenizerModel {
    var vocab: map<Str, int>
    var scores: map<Str, real>
    var merges: seq<Str>
    var algorithm: TokenizationAlgorithm

    /** A fresh model holds no data and defaults to BPE. */
    constructor ()
      ensures vocab == map[] && scores == map[] && merges == [] && algorithm == BPE
    {
      vocab := map[];
      scores := map[];
      merges := [];
      algorithm := BPE;
    }

    /** `add_token_to_vocab`: the token's id is set, replacing any earlier one. */
    method AddTokenToVocab(token: Str, id: int)
      modifies this
      ensures vocab == old(vocab)[token := id]
      ensures scores == old(scores) && merges == old(merges) && algorithm == old(algorithm)
    {
      vocab := vocab[token := id];
    }

    /** `add_token_with_score`: the token's score is set, replacing any earlier one. */
    method AddTokenWithScore(token: Str, score: real)
      modifies this
      ensures scores == old(scores)[token := score]
      ensures vocab == old(vocab) && merges == old(merges) && algorithm == old(algorithm)
    {
      scores := scores[token := score];
    }

    /** `add_merge`: one more merge string at the end; duplicates are kept. */
    method AddMerge(merge: Str)
      modifies this
      ensures merges == old(merges) + [merge]
      ensures vocab == old(vocab) && scores == old(scores) && algorithm == old(algorithm)
    {
      merges := merges + [merge];
    }

    method SetAlgorithm(algo: TokenizationAlgorithm)
      modifies this
      ensures algorithm == algo
      ensures vocab == old(vocab) && scores == old(scores) && merges == old(merges)
    {
      algorithm := algo;
    }

    function GetAlgorithm(): TokenizationAlgorithm
      reads this
    {
      algorithm
    }
  }
}
