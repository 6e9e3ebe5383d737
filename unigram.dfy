/**
 * The unigram tokenizer (unigram_tokenizer.cpp). Despite its name, `viterbi_segment` ignores
 * the scores: it grows a segment byte by byte and emits it as soon as the vocabulary holds it,
 * and whatever is left at the end becomes the last segment.
 */
module Unigram {
  import opened Wrappers
  import opened Bytes
  import opened TokenTypes
  import opened Vocabulary
  import opened Config
  import opened SpecialTokens
  import opened Seqs

  /** The scan of `viterbi_segment` from byte `i` on, with `pending` not yet emitted. */
  function Scan(v: VocabState, text: Str, i: nat, pending: Str): seq<Str>
    requires i <= |text|
    decreases |text| - i
  {
    if i == |text| then (if pending == [] then [] else [pending])
    else
      var grown := pending + [text[i]];
      if HasToken(v, grown) then [grown] + Scan(v, text, i + 1, []) else Scan(v, text, i + 1, grown)
  }

  /** `viterbi_segment`. */
  function Segment(v: VocabState, text: Str): seq<Str>
  {
    if text == [] then []
    else
      var segs := Scan(v, text, 0, []);
      if segs == [] then ByteStrings(text) else segs
  }

  /** No non-empty prefix of `s` shorter than `upTo` bytes is a vocabulary token. */
  predicate NoTokenPrefix(v: VocabState, s: Str, upTo: nat)
    requires upTo <= |s|
  {
    forall j :: 0 < j < upTo ==> !HasToken(v, s[..j])
  }

  /**
   * What the scan produces: segments that concatenate to the pending bytes and the rest of the
   * text; all non-empty; all but possibly the last in the vocabulary; each one emitted at the
   * first length at which the vocabulary holds it, and a last segment not in the vocabulary
   * has no prefix in it at all.
   */
  lemma {:induction false} ScanSpec(v: VocabState, text: Str, i: nat, pending: Str)
    requires i <= |text|
    requires NoTokenPrefix(v, pending, |pending|) && (pending != [] ==> !HasToken(v, pending))
    ensures var segs := Scan(v, text, i, pending);
      && Concat(segs) == pending + text[i..]
      && (pending != [] || i < |text| ==> |segs| > 0)
      && (forall k :: 0 <= k < |segs| ==> segs[k] != [] && NoTokenPrefix(v, segs[k], |segs[k]|))
      && (forall k :: 0 <= k < |segs| - 1 ==> HasToken(v, segs[k]))
      && (|segs| > 0 && !HasToken(v, segs[|segs| - 1]) ==> NoTokenPrefix(v, segs[|segs| - 1], |segs[|segs| - 1]|))
    decreases |text| - i
  {
    var segs := Scan(v, text, i, pending);
    if i == |text| {
      if pending != [] {
        ConcatCons(pending, []);
      }
    } else {
      var grown: Str := pending + [text[i]];
      GrownPrefixes(v, pending, text[i]);
      if HasToken(v, grown) {
        ScanSpec(v, text, i + 1, []);
        var rest := Scan(v, text, i + 1, []);
        ConcatCons(grown, rest);
        SnocRest(pending, text, i);
        forall k | 0 < k < |segs| ensures segs[k] == rest[k - 1] { }
      } else {
        ScanSpec(v, text, i + 1, grown);
        SnocRest(pending, text, i);
      }
    }
  }

  /** Appending one byte adds one prefix to those already known not to be tokens. */
  lemma GrownPrefixes(v: VocabState, pending: Str, b: byte)
    requires NoTokenPrefix(v, pending, |pending|) && (pending != [] ==> !HasToken(v, pending))
    ensures NoTokenPrefix(v, pending + [b], |pending| + 1)
  {
    var grown: Str := pending + [b];
    forall j | 0 < j < |grown| ensures !HasToken(v, grown[..j]) {
      if j < |pending| {
        assert grown[..j] == pending[..j];
      } else {
        assert grown[..j] == pending;
      }
    }
  }

  lemma SnocRest(pending: Str, text: Str, i: nat)
    requires i < |text|
    ensures (pending + [text[i]]) + text[i + 1..] == pending + text[i..]
  {
    Snoc(pending, text, i);
  }

  lemma Snoc<T>(p: seq<T>, s: seq<T>, i: nat)
    requires i < |s|
    ensures (p + [s[i]]) + s[i + 1..] == p + s[i..]
  {
    assert s[i..] == [s[i]] + s[i + 1..];
  }

  /** A non-empty text always yields a segment, so the one-byte-per-segment fallback never runs. */
  lemma FallbackUnreachable(v: VocabState, text: Str)
    ensures Segment(v, text) == Scan(v, text, 0, [])
  {
    if text != [] {
      ScanSpec(v, text, 0, []);
    }
  }

  /**
   * The segments of `viterbi_segment` concatenate to the text; every one is non-empty; every
   * one except possibly the last is a vocabulary token; and a non-empty text gives at least one.
   */
  lemma SegmentSpec(v: VocabState, text: Str)
    ensures var segs := Segment(v, text);
      && Concat(segs) == text
      && (text != [] <==> |segs| > 0)
      && (forall k :: 0 <= k < |segs| ==> segs[k] != [] && NoTokenPrefix(v, segs[k], |segs[k]|))
      && (forall k :: 0 <= k < |segs| - 1 ==> HasToken(v, segs[k]))
  {
    FallbackUnreachable(v, text);
    if text != [] {
      ScanSpec(v, text, 0, []);
    }
  }

  /**
   * Decoding the ids of the segments gives back the text when the vocabulary is consistent and
   * holds the last segment; otherwise the unknown last segment (id -1) decodes to nothing.
   */
  lemma DecodeSegments(v: VocabState, text: Str)
    requires Valid(v) && Consistent(v)
    ensures var segs := Segment(v, text);
      && (segs == [] || HasToken(v, segs[|segs| - 1]) ==> Decoded(v, TokenIds(v, segs)) == text)
      && (segs != [] && !HasToken(v, segs[|segs| - 1]) ==>
            Decoded(v, TokenIds(v, segs)) + segs[|segs| - 1] == text)
  {
    var segs := Segment(v, text);
    SegmentSpec(v, text);
    if segs != [] {
      DecodedKnownInit(v, segs);
    }
  }

  /** When all segments but the last are known, decoding their ids loses at most the last one. */
  lemma DecodedKnownInit(v: VocabState, segs: seq<Str>)
    requires Valid(v) && Consistent(v) && segs != []
    requires forall k :: 0 <= k < |segs| - 1 ==> HasToken(v, segs[k])
    ensures var n := |segs| - 1;
      Decoded(v, TokenIds(v, segs)) == Concat(segs[..n]) + (if HasToken(v, segs[n]) then segs[n] else [])
  {
    var n := |segs| - 1;
    var ids := TokenIds(v, segs);
    var init: seq<Str> := segs[..n];
    DecodedSnoc(v, ids, n);
    assert ids[..n] == TokenIds(v, init);
    assert ids[..n + 1] == ids;
    TokenIdsTexts(v, init);
  }

  /** Decoding the tokens of `encode` gives back the normalized text, known segments or not. */
  lemma DecodeTokensSegments(v: VocabState, text: Str)
    ensures TokensText(TokensFor(v, Segment(v, text))) == text
  {
    var segs := Segment(v, text);
    TextsOfTokensFor(v, segs);
    SegmentSpec(v, text);
  }

  class UnigramTokenizer {
    var config: TokenizerConfig
    var vocab: Vocab
    var specialTokens: map<SpecialTokenType, Str>
    var scores: map<Str, real>

    /** The constructor: a fresh vocabulary holding the configured and the added specials. */
    constructor (c: TokenizerConfig, addedOrder: seq<Str>)
      requires IsKeyOrder(addedOrder, c.addedTokens)
      ensures config == c && fresh(vocab) && scores == map[]
      ensures vocab.State() == WithSpecialsOfType(SpecialVocab(c), addedOrder, CUSTOM)
      ensures specialTokens == SpecialMap(ConfiguredSpecials(c))
    {
      config := c;
      scores := map[];
      specialTokens := map[];
      vocab := new Vocab();
      new;
      InitializeSpecialTokens(addedOrder);
    }

    /**
     * `initialize_special_tokens`: the configured specials, then the configured added tokens as
     * CUSTOM specials, registered in the current vocabulary without clearing it.
     */
    method InitializeSpecialTokens(addedOrder: seq<Str>)
      requires IsKeyOrder(addedOrder, config.addedTokens)
      modifies this, vocab
      ensures config == old(config) && vocab == old(vocab) && scores == old(scores)
      ensures vocab.State() == WithSpecialsOfType(WithSpecials(old(vocab.State()), ConfiguredSpecials(config)), addedOrder, CUSTOM)
      ensures specialTokens == old(specialTokens) + SpecialMap(ConfiguredSpecials(config))
    {
      var m := RegisterSpecials(vocab, ConfiguredSpecials(config));
      specialTokens := specialTokens + m;
      RegisterAll(vocab, addedOrder, CUSTOM);
    }

    /** `pre_tokenize`: one single-byte string per byte of the text, which they spell again. */
    method PreTokenize(text: Str) returns (result: seq<Str>)
      ensures result == ByteStrings(text)
      ensures Concat(result) == text
    {
      result := [];
      for i := 0 to |text|
        invariant result == ByteStrings(text[..i])
      {
        assert ByteStrings(text[..i + 1]) == ByteStrings(text[..i]) + [[text[i]]];
        result := result + [[text[i]]];
      }
      assert text[..|text|] == text;
      ByteStringsConcat(text);
    }

    /** `viterbi_segment`. */
    method ViterbiSegment(text: Str) returns (result: seq<Str>)
      ensures result == Segment(vocab.State(), text)
    {
      if text == [] {
        return [];
      }
      result := [];
      var current: Str := [];
      for i := 0 to |text|
        invariant result + Scan(vocab.State(), text, i, current) == Scan(vocab.State(), text, 0, [])
      {
        current := current + [text[i]];
        if current in vocab.tokenToId {
          AppendCons(result, current, Scan(vocab.State(), text, i + 1, []));
          result := result + [current];
          current := [];
        }
      }
      if current != [] {
        result := result + [current];
      } else {
        AppendNil(result);
      }
      if result == [] {
        result := ByteStrings(text);
      }
    }

    /** `encode`: the segments of the normalized text as tokens. */
    method Encode(text: Str, normalize: Str -> Str) returns (tokens: seq<Token>)
      ensures tokens == TokensFor(vocab.State(), Segment(vocab.State(), normalize(text)))
    {
      var segs := ViterbiSegment(normalize(text));
      tokens := [];
      for k := 0 to |segs|
        invariant tokens == TokensFor(vocab.State(), segs[..k])
      {
        var seg := segs[k];
        tokens := tokens + [Token(GetTokenId(vocab.State(), seg), seg, IsSpecialToken(vocab.State(), seg), OffsetMapping(0, 0))];
      }
      assert segs[..|segs|] == segs;
    }

    /** `encode_to_ids`: the segments' ids, -1 for a segment the vocabulary lacks. */
    method EncodeToIds(text: Str, normalize: Str -> Str) returns (ids: seq<int>)
      ensures ids == TokenIds(vocab.State(), Segment(vocab.State(), normalize(text)))
    {
      var segs := ViterbiSegment(normalize(text));
      ids := [];
      for k := 0 to |segs|
        invariant ids == TokenIds(vocab.State(), segs[..k])
      {
        ids := ids + [GetTokenId(vocab.State(), segs[k])];
      }
      assert segs[..|segs|] == segs;
    }

    /** `decode`. */
    method Decode(tokens: seq<Token>) returns (text: Str)
      ensures text == TokensText(tokens)
    {
      text := [];
      for k := 0 to |tokens|
        invariant text == TokensText(tokens[..k])
      {
        TokensTextSnoc(tokens, k);
        text := text + tokens[k].text;
      }
      assert tokens[..|tokens|] == tokens;
    }

    /** `decode_from_ids`: the ids' texts concatenated, "" for unknown ids. */
    method DecodeFromIds(ids: seq<int>) returns (text: Str)
      ensures text == Decoded(vocab.State(), ids)
    {
      text := [];
      for k := 0 to |ids|
        invariant text == Decoded(vocab.State(), ids[..k])
      {
        DecodedSnoc(vocab.State(), ids, k);
        text := text + GetToken(vocab.State(), ids[k]);
      }
      assert ids[..|ids|] == ids;
    }

    /** `batch_encode`: one id list per text, in order. */
    method BatchEncode(texts: seq<Str>, normalize: Str -> Str) returns (batch: seq<seq<int>>)
      ensures |batch| == |texts|
      ensures forall k :: 0 <= k < |texts| ==>
        batch[k] == TokenIds(vocab.State(), Segment(vocab.State(), normalize(texts[k])))
    {
      batch := [];
      for k := 0 to |texts|
        invariant |batch| == k
        invariant forall j :: 0 <= j < k ==> batch[j] == TokenIds(vocab.State(), Segment(vocab.State(), normalize(texts[j])))
      {
        var ids := EncodeToIds(texts[k], normalize);
        batch := batch + [ids];
      }
    }

    /** `batch_decode`: one text per id list, in order. */
    method BatchDecode(batch: seq<seq<int>>) returns (texts: seq<Str>)
      ensures |texts| == |batch| && forall k :: 0 <= k < |batch| ==> texts[k] == Decoded(vocab.State(), batch[k])
    {
      texts := [];
      for k := 0 to |batch|
        invariant |texts| == k && forall j :: 0 <= j < k ==> texts[j] == Decoded(vocab.State(), batch[j])
      {
        var t := DecodeFromIds(batch[k]);
        texts := texts + [t];
      }
    }

    /** `add_special_tokens`: each string registered as a CUSTOM special. */
    method AddSpecialTokens(tokens: seq<Str>)
      modifies vocab
      ensures vocab.State() == WithSpecialsOfType(old(vocab.State()), tokens, CUSTOM)
    {
      RegisterAll(vocab, tokens, CUSTOM);
    }

    /** `get_special_tokens`: the recorded texts, in the map's visiting order. */
    function GetSpecialTokens(order: seq<SpecialTokenType>): (texts: seq<Str>)
      reads this
      requires IsKeyOrder(order, specialTokens)
      ensures texts == ListedSpecials(specialTokens, order)
    {
      ListedSpecials(specialTokens, order)
    }

    /** `get_special_token_id`: the vocabulary id of the type's recorded text, or -1. */
    function GetSpecialTokenId(ty: SpecialTokenType): (id: int)
      reads this, vocab
      ensures ty !in specialTokens ==> id == -1
      ensures ty in specialTokens ==> id == GetTokenId(vocab.State(), specialTokens[ty])
    {
      if ty in specialTokens then GetTokenId(vocab.State(), specialTokens[ty]) else -1
    }

    /** `set_config`: the configuration is replaced and the specials registered again. */
    method SetConfig(c: TokenizerConfig, addedOrder: seq<Str>)
      requires IsKeyOrder(addedOrder, c.addedTokens)
      modifies this, vocab
      ensures config == c && vocab == old(vocab) && scores == old(scores)
      ensures vocab.State() == WithSpecialsOfType(WithSpecials(old(vocab.State()), ConfiguredSpecials(c)), addedOrder, CUSTOM)
      ensures specialTokens == old(specialTokens) + SpecialMap(ConfiguredSpecials(c))
    {
      config := c;
      InitializeSpecialTokens(addedOrder);
    }

    /** `set_vocab`: the vocabulary is replaced and the specials registered in it. */
    method SetVocab(v: Vocab, addedOrder: seq<Str>)
      requires IsKeyOrder(addedOrder, config.addedTokens)
      modifies this, v
      ensures vocab == v && config == old(config) && scores == old(scores)
      ensures v.State() == WithSpecialsOfType(WithSpecials(old(v.State()), ConfiguredSpecials(config)), addedOrder, CUSTOM)
      ensures specialTokens == old(specialTokens) + SpecialMap(ConfiguredSpecials(config))
    {
      vocab := v;
      InitializeSpecialTokens(addedOrder);
    }

    /** `set_vocab_and_scores`: both fields replaced; unlike `set_vocab`, no specials are added. */
    method SetVocabAndScores(v: Vocab, s: map<Str, real>)
      modifies this
      ensures vocab == v && scores == s && v.State() == old(v.State())
      ensures config == old(config) && specialTokens == old(specialTokens)
    {
      vocab := v;
      scores := s;
    }

    /** `save`, `load` and `train` are not implemented and always throw. */
    method Save(path: Str) returns (r: Result<()>)
      ensures r == Err("UnigramTokenizer::save not implemented yet.")
    {
      return Err("UnigramTokenizer::save not implemented yet.");
    }

    method Load(path: Str) returns (r: Result<()>)
      ensures r == Err("UnigramTokenizer::load not implemented yet.")
    {
      return Err("UnigramTokenizer::load not implemented yet.");
    }

    method Train(corpus: seq<Str>, vocabSize: u64) returns (r: Result<()>)
      ensures r == Err("UnigramTokenizer::train not implemented yet. Use UnigramTrainer.")
    {
      return Err("UnigramTokenizer::train not implemented yet. Use UnigramTrainer.");
    }
  }
}
