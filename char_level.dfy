/**
 * The character-level tokenizer (char_level_tokenizer.cpp). Despite its name it works on
 * bytes: every byte of the normalized text is its own one-byte token, and training gives the
 * distinct bytes of the corpus the ids 0, 1, 2, ... in order of first occurrence.
 */
module CharLevel {
  import opened Wrappers
  import opened Bytes
  import opened TokenTypes
  import opened Vocabulary
  import opened Config
  import opened SpecialTokens

  // ---- training ----

  /** The normalized corpus texts, one after the other. */
  function NormalizedCorpus(normalize: Str -> Str, corpus: seq<Str>): Str
    decreases |corpus|
  {
    if corpus == [] then [] else NormalizedCorpus(normalize, corpus[..|corpus| - 1]) + normalize(corpus[|corpus| - 1])
  }

  lemma NormalizedCorpusSnoc(normalize: Str -> Str, corpus: seq<Str>, k: nat)
    requires k < |corpus|
    ensures NormalizedCorpus(normalize, corpus[..k + 1]) == NormalizedCorpus(normalize, corpus[..k]) + normalize(corpus[k])
  {
    assert corpus[..k + 1][..k] == corpus[..k];
  }

  /** The distinct bytes of `s`, in order of first occurrence. */
  function FirstOccurrences(s: Str): seq<byte>
    decreases |s|
  {
    if s == [] then []
    else
      var d := FirstOccurrences(s[..|s| - 1]);
      if s[|s| - 1] in d then d else d + [s[|s| - 1]]
  }

  /** Each byte of `s` is listed exactly once, and nothing else is. */
  lemma {:induction false} FirstOccurrencesSpec(s: Str)
    ensures forall i, j :: 0 <= i < j < |FirstOccurrences(s)| ==> FirstOccurrences(s)[i] != FirstOccurrences(s)[j]
    ensures forall b :: b in FirstOccurrences(s) <==> b in s
    decreases |s|
  {
    if s != [] {
      FirstOccurrencesSpec(s[..|s| - 1]);
      LastSplit(s);
    }
  }

  /**
   * First-occurrence order: the bytes of a prefix come first, in the same order, so a byte
   * met earlier in the text is listed before one met later.
   */
  lemma {:induction false} FirstOccurrencesPrefix(s: Str, p: nat)
    requires p <= |s|
    ensures FirstOccurrences(s[..p]) <= FirstOccurrences(s)
    decreases |s|
  {
    if p < |s| {
      var init := s[..|s| - 1];
      assert s[..p] == init[..p];
      FirstOccurrencesPrefix(init, p);
    } else {
      assert s[..p] == s;
    }
  }

  /**
   * The table `train` builds before the specials: `add_token_to_vocab([b], id_counter++)` for
   * each byte `b` of the corpus not yet present, starting from a cleared table.
   */
  function CharVocab(s: Str): VocabState
    decreases |s|
  {
    if s == [] then EmptyVocab()
    else
      var init := s[..|s| - 1];
      var v := CharVocab(init);
      var t: Str := [s[|s| - 1]];
      if t in v.tokenToId then v else WithToken(v, t, |FirstOccurrences(init)|)
  }

  /**
   * The trained table is valid and consistent; `next_id_` and the size are the number of
   * distinct bytes, and nothing is special.
   */
  lemma {:induction false} CharVocabShape(s: Str)
    ensures Valid(CharVocab(s)) && Consistent(CharVocab(s))
    ensures CharVocab(s).nextId == |FirstOccurrences(s)| && Size(CharVocab(s)) == |FirstOccurrences(s)|
    ensures CharVocab(s).specialTokenIds == map[] && CharVocab(s).specialIds == {}
    decreases |s|
  {
    if s != [] {
      var init := s[..|s| - 1];
      CharVocabShape(init);
      CharVocabTokens(init);
      FirstOccurrencesSpec(init);
    }
  }

  /** The trained table holds exactly the one-byte strings of the corpus bytes. */
  lemma {:induction false} CharVocabTokens(s: Str)
    ensures forall t :: HasToken(CharVocab(s), t) <==> |t| == 1 && t[0] in s
    decreases |s|
  {
    if s != [] {
      var init := s[..|s| - 1];
      var b := s[|s| - 1];
      CharVocabTokens(init);
      LastSplit(s);
      var v := CharVocab(init);
      var t: Str := [b];
      if t !in v.tokenToId {
        var r := WithToken(v, t, |FirstOccurrences(init)|);
        forall u ensures HasToken(r, u) <==> |u| == 1 && u[0] in s {
          if u != t {
            assert HasToken(r, u) <==> HasToken(v, u);
          }
        }
      }
    }
  }

  /** Membership in a non-empty sequence: in its initial part or its last element. */
  lemma LastSplit<T>(s: seq<T>)
    requires s != []
    ensures forall x :: x in s <==> x in s[..|s| - 1] || x == s[|s| - 1]
  {
    assert s == s[..|s| - 1] + [s[|s| - 1]];
  }

  /** The k-th distinct byte of the corpus has id k, both ways. */
  lemma {:induction false} CharVocabIds(s: Str)
    ensures forall k :: 0 <= k < |FirstOccurrences(s)| ==>
      GetTokenId(CharVocab(s), [FirstOccurrences(s)[k]]) == k && GetToken(CharVocab(s), k) == [FirstOccurrences(s)[k]]
    decreases |s|
  {
    if s != [] {
      var init := s[..|s| - 1];
      var b := s[|s| - 1];
      CharVocabIds(init);
      CharVocabShape(init);
      CharVocabTokens(init);
      FirstOccurrencesSpec(init);
      var v := CharVocab(init);
      var d := FirstOccurrences(init);
      var t: Str := [b];
      if t !in v.tokenToId {
        var r := WithToken(v, t, |d|);
        assert GetTokenId(r, t) == |d| && GetToken(r, |d|) == t;
        forall k | 0 <= k < |d| ensures GetTokenId(r, [d[k]]) == k && GetToken(r, k) == [d[k]] {
          assert [d[k]] != t;
        }
      } else {
        assert b in d;
      }
    }
  }

  /** One more byte of corpus: `train`'s loop body. */
  lemma CharVocabSnoc(s: Str, b: byte)
    ensures CharVocab(s + [b]) ==
      if [b] in CharVocab(s).tokenToId then CharVocab(s) else WithToken(CharVocab(s), [b], |FirstOccurrences(s)|)
    ensures FirstOccurrences(s + [b]) ==
      if [b] in CharVocab(s).tokenToId then FirstOccurrences(s) else FirstOccurrences(s) + [b]
  {
    assert (s + [b])[..|s|] == s;
    CharVocabTokens(s);
    FirstOccurrencesSpec(s);
  }

  /** The table `train` leaves: the corpus bytes, then the configured and the added specials. */
  function TrainedVocab(c: TokenizerConfig, corpus: Str, addedOrder: seq<Str>): VocabState
  {
    WithSpecialsOfType(WithSpecials(CharVocab(corpus), ConfiguredSpecials(c)), addedOrder, CUSTOM)
  }

  /**
   * After training, every corpus byte keeps the id of its first occurrence, and every other
   * token, the special ones, has an id at or above the number of distinct corpus bytes.
   */
  lemma TrainedVocabIds(c: TokenizerConfig, corpus: Str, addedOrder: seq<Str>)
    ensures var r := TrainedVocab(c, corpus, addedOrder);
      var d := FirstOccurrences(corpus);
      && Valid(r) && Consistent(r)
      && (forall k :: 0 <= k < |d| ==> GetTokenId(r, [d[k]]) == k)
      && (forall t :: HasToken(r, t) && !(|t| == 1 && t[0] in corpus) ==> GetTokenId(r, t) >= |d|)
  {
    var v := CharVocab(corpus);
    CharVocabShape(corpus);
    CharVocabTokens(corpus);
    CharVocabIds(corpus);
    var w := WithSpecials(v, ConfiguredSpecials(c));
    WithSpecialsEffect(v, ConfiguredSpecials(c));
    WithSpecialsFresh(v, ConfiguredSpecials(c));
    WithSpecialsOfTypeEffect(w, addedOrder, CUSTOM);
    WithSpecialsOfTypeFresh(w, addedOrder, CUSTOM);
  }

  // ---- encoding and decoding ----

  /** `encode_to_ids` then `decode_from_ids` gives back the normalized text when the table holds all its bytes. */
  lemma DecodeEncode(v: VocabState, normalized: Str)
    requires Valid(v) && Consistent(v)
    requires forall k :: 0 <= k < |normalized| ==> HasToken(v, [normalized[k]])
    ensures Decoded(v, TokenIds(v, ByteStrings(normalized))) == normalized
  {
    TokenIdsTexts(v, ByteStrings(normalized));
    ByteStringsConcat(normalized);
  }

  /** `decode(encode(t))` is the normalized text, whatever the table holds. */
  lemma DecodeTokensEncode(v: VocabState, normalized: Str)
    ensures TokensText(TokensFor(v, ByteStrings(normalized))) == normalized
  {
    TextsOfTokensFor(v, ByteStrings(normalized));
    ByteStringsConcat(normalized);
  }

  class CharLevelTokenizer {
    var config: TokenizerConfig
    var vocab: Vocab
    var specialTokens: map<SpecialTokenType, Str>

    /** The constructor: a fresh table holding the configured and the added specials. */
    constructor (c: TokenizerConfig, addedOrder: seq<Str>)
      requires IsKeyOrder(addedOrder, c.addedTokens)
      ensures config == c && fresh(vocab)
      ensures vocab.State() == WithSpecialsOfType(SpecialVocab(c), addedOrder, CUSTOM)
      ensures specialTokens == SpecialMap(ConfiguredSpecials(c))
    {
      config := c;
      specialTokens := map[];
      vocab := new Vocab();
      new;
      InitializeSpecialTokens(addedOrder);
    }

    /**
     * `initialize_special_tokens`: the non-empty configured specials, then the configured
     * added tokens as CUSTOM specials, registered in the current table without clearing it.
     */
    method InitializeSpecialTokens(addedOrder: seq<Str>)
      requires IsKeyOrder(addedOrder, config.addedTokens)
      modifies this, vocab
      ensures config == old(config) && vocab == old(vocab)
      ensures vocab.State() == WithSpecialsOfType(WithSpecials(old(vocab.State()), ConfiguredSpecials(config)), addedOrder, CUSTOM)
      ensures specialTokens == old(specialTokens) + SpecialMap(ConfiguredSpecials(config))
    {
      var m := RegisterSpecials(vocab, ConfiguredSpecials(config));
      specialTokens := specialTokens + m;
      RegisterAll(vocab, addedOrder, CUSTOM);
    }

    /** `encode`: one token per byte of the normalized text. */
    method Encode(text: Str, normalize: Str -> Str) returns (tokens: seq<Token>)
      ensures tokens == TokensFor(vocab.State(), ByteStrings(normalize(text)))
    {
      var normalized := normalize(text);
      tokens := [];
      for k := 0 to |normalized|
        invariant tokens == TokensFor(vocab.State(), ByteStrings(normalized[..k]))
      {
        var s: Str := [normalized[k]];
        tokens := tokens + [Token(GetTokenId(vocab.State(), s), s, IsSpecialToken(vocab.State(), s), OffsetMapping(0, 0))];
      }
      assert normalized[..|normalized|] == normalized;
    }

    /** `encode_to_ids`: one id per byte of the normalized text, -1 for a byte the table lacks. */
    method EncodeToIds(text: Str, normalize: Str -> Str) returns (ids: seq<int>)
      ensures ids == TokenIds(vocab.State(), ByteStrings(normalize(text)))
    {
      var normalized := normalize(text);
      ids := [];
      for k := 0 to |normalized|
        invariant ids == TokenIds(vocab.State(), ByteStrings(normalized[..k]))
      {
        ids := ids + [GetTokenId(vocab.State(), [normalized[k]])];
      }
      assert normalized[..|normalized|] == normalized;
    }

    /** `decode`: the tokens' texts appended. */
    method Decode(tokens: seq<Token>) returns (text: Str)
      ensures text == TokensText(tokens)
    {
      text := [];
      for k := 0 to |tokens|
        invariant text == TokensText(tokens[..k])
      {
        TokensTextSnoc(tokens, k);
        text := text + tokens[k].text;
      }
      assert tokens[..|tokens|] == tokens;
    }

    /** `decode_from_ids`: the ids' texts appended, "" for unknown ids. */
    method DecodeFromIds(ids: seq<int>) returns (text: Str)
      ensures text == Decoded(vocab.State(), ids)
    {
      text := [];
      for k := 0 to |ids|
        invariant text == Decoded(vocab.State(), ids[..k])
      {
        DecodedSnoc(vocab.State(), ids, k);
        text := text + GetToken(vocab.State(), ids[k]);
      }
      assert ids[..|ids|] == ids;
    }

    /** `batch_encode`: one id list per text, in order. */
    method BatchEncode(texts: seq<Str>, normalize: Str -> Str) returns (batch: seq<seq<int>>)
      ensures |batch| == |texts|
      ensures forall k :: 0 <= k < |texts| ==> batch[k] == TokenIds(vocab.State(), ByteStrings(normalize(texts[k])))
    {
      batch := [];
      for k := 0 to |texts|
        invariant |batch| == k
        invariant forall j :: 0 <= j < k ==> batch[j] == TokenIds(vocab.State(), ByteStrings(normalize(texts[j])))
      {
        var ids := EncodeToIds(texts[k], normalize);
        batch := batch + [ids];
      }
    }

    /** `batch_decode`: one text per id list, in order. */
    method BatchDecode(batch: seq<seq<int>>) returns (texts: seq<Str>)
      ensures |texts| == |batch| && forall k :: 0 <= k < |batch| ==> texts[k] == Decoded(vocab.State(), batch[k])
    {
      texts := [];
      for k := 0 to |batch|
        invariant |texts| == k && forall j :: 0 <= j < k ==> texts[j] == Decoded(vocab.State(), batch[j])
      {
        var t := DecodeFromIds(batch[k]);
        texts := texts + [t];
      }
    }

    /** `save` and `load` are not implemented and always throw. */
    method Save(path: Str) returns (r: Result<()>)
      ensures r == Err("CharLevelTokenizer::save not implemented yet.")
    {
      return Err("CharLevelTokenizer::save not implemented yet.");
    }

    method Load(path: Str) returns (r: Result<()>)
      ensures r == Err("CharLevelTokenizer::load not implemented yet.")
    {
      return Err("CharLevelTokenizer::load not implemented yet.");
    }

    /**
     * `train`: the table is cleared, each byte of each normalized text not yet present is
     * added with the next counter value, then the specials are registered after them.
     * `vocab_size` is ignored.
     */
    method Train(corpus: seq<Str>, vocabSize: u64, normalize: Str -> Str, addedOrder: seq<Str>)
      requires IsKeyOrder(addedOrder, config.addedTokens)
      modifies this, vocab
      ensures config == old(config) && vocab == old(vocab)
      ensures vocab.State() == TrainedVocab(config, NormalizedCorpus(normalize, corpus), addedOrder)
      ensures specialTokens == old(specialTokens) + SpecialMap(ConfiguredSpecials(config))
    {
      vocab.Clear();
      var idCounter := 0;
      ghost var seen: Str := [];
      for k := 0 to |corpus|
        invariant vocab == old(vocab) && config == old(config) && specialTokens == old(specialTokens)
        invariant seen == NormalizedCorpus(normalize, corpus[..k])
        invariant vocab.State() == CharVocab(seen) && idCounter == |FirstOccurrences(seen)|
      {
        NormalizedCorpusSnoc(normalize, corpus, k);
        idCounter := AddTextBytes(normalize(corpus[k]), seen, idCounter);
        seen := seen + normalize(corpus[k]);
      }
      assert corpus[..|corpus|] == corpus;
      InitializeSpecialTokens(addedOrder);
    }

    /** The inner loop of `train`: the bytes of one normalized text, after the corpus `before`. */
    method AddTextBytes(normalized: Str, ghost before: Str, counter: int) returns (next: int)
      requires vocab.State() == CharVocab(before) && counter == |FirstOccurrences(before)|
      modifies vocab
      ensures vocab.State() == CharVocab(before + normalized)
      ensures next == |FirstOccurrences(before + normalized)|
    {
      next := counter;
      ghost var seen := before;
      AppendTake(before, normalized, 0);
      for j := 0 to |normalized|
        invariant seen == before + normalized[..j]
        invariant vocab.State() == CharVocab(seen)
        invariant next == |FirstOccurrences(seen)|
      {
        var s: Str := [normalized[j]];
        CharVocabSnoc(seen, normalized[j]);
        AppendTake(before, normalized, j + 1);
        if s !in vocab.tokenToId {
          vocab.AddToken(s, next);
          next := next + 1;
        }
        seen := seen + [normalized[j]];
      }
      AppendTake(before, normalized, |normalized|);
    }
    /** `add_special_tokens`: each string registered as a CUSTOM special. */
    method AddSpecialTokens(tokens: seq<Str>)
      modifies vocab
      ensures vocab.State() == WithSpecialsOfType(old(vocab.State()), tokens, CUSTOM)
    {
      RegisterAll(vocab, tokens, CUSTOM);
    }

    /** `get_special_tokens`: the recorded texts, in the map's visiting order. */
    function GetSpecialTokens(order: seq<SpecialTokenType>): (texts: seq<Str>)
      reads this
      requires IsKeyOrder(order, specialTokens)
      ensures texts == ListedSpecials(specialTokens, order)
      ensures |texts| == |specialTokens|
      ensures forall ty :: ty in specialTokens ==> specialTokens[ty] in texts
    {
      ListedSpecials(specialTokens, order)
    }

    /** `get_special_token_id`: the table id of the type's recorded text, or -1. */
    function GetSpecialTokenId(ty: SpecialTokenType): (id: int)
      reads this, vocab
      ensures ty !in specialTokens ==> id == -1
      ensures ty in specialTokens ==> id == GetTokenId(vocab.State(), specialTokens[ty])
    {
      if ty in specialTokens then GetTokenId(vocab.State(), specialTokens[ty]) else -1
    }

    /** `set_config`: the configuration is replaced and the specials registered again. */
    method SetConfig(c: TokenizerConfig, addedOrder: seq<Str>)
      requires IsKeyOrder(addedOrder, c.addedTokens)
      modifies this, vocab
      ensures config == c && vocab == old(vocab)
      ensures vocab.State() == WithSpecialsOfType(WithSpecials(old(vocab.State()), ConfiguredSpecials(c)), addedOrder, CUSTOM)
      ensures specialTokens == old(specialTokens) + SpecialMap(ConfiguredSpecials(c))
    {
      config := c;
      InitializeSpecialTokens(addedOrder);
    }

    /** `set_vocab`: the table is replaced and the specials registered in it. */
    method SetVocab(v: Vocab, addedOrder: seq<Str>)
      requires IsKeyOrder(addedOrder, config.addedTokens)
      modifies this, v
      ensures vocab == v && config == old(config)
      ensures v.State() == WithSpecialsOfType(WithSpecials(old(v.State()), ConfiguredSpecials(config)), addedOrder, CUSTOM)
      ensures specialTokens == old(specialTokens) + SpecialMap(ConfiguredSpecials(config))
    {
      vocab := v;
      InitializeSpecialTokens(addedOrder);
    }
  }

  /** `before + s[..j]` grows one byte at a time and ends at `before + s`. */
  lemma AppendTake(before: Str, s: Str, j: nat)
    requires j <= |s|
    ensures j == 0 ==> before + s[..j] == before
    ensures 0 < j ==> before + s[..j] == (before + s[..j - 1]) + [s[j - 1]]
    ensures j == |s| ==> before + s[..j] == before + s
  {
    if 0 < j {
      assert s[..j] == s[..j - 1] + [s[j - 1]];
    }
  }
}
