/**
 * WordPiece (wordpiece_model.cpp, wordpiece_tokenizer.cpp). The model cuts a word greedily:
 * at each position it takes the longest piece in its vocabulary, written with a "##" prefix
 * when it does not start the word; at the first position with no such piece it appends the
 * unknown token and stops. The tokenizer looks the pieces up in the shared vocabulary and, when
 * decoding, strips one leading "##" from each piece before concatenating.
 */
module WordPiece {
  import opened Wrappers
  import opened Bytes
  import opened TokenTypes
  import opened Vocabulary
  import opened Config
  import opened SpecialTokens
  import opened Seqs

  function ContinuationPrefix(): (s: Str)
    ensures |s| == 2
  {
    "##"
  }

  /** The piece tried for `word[start..end)`: prefixed with "##" unless it starts the word. */
  function Candidate(word: Str, start: nat, end: nat): Str
    requires start < end <= |word|
  {
    if start > 0 then ContinuationPrefix() + word[start..end] else word[start..end]
  }

  /**
   * The inner loop of `tokenize`: `end` counts down from `end` and stops at the first candidate
   * found in the vocabulary.
   */
  function LongestEnd(vocab: map<Str, int>, word: Str, start: nat, end: nat): Option<nat>
    requires start <= end <= |word|
    decreases end
  {
    if end <= start then None
    else if Candidate(word, start, end) in vocab then Some(end)
    else LongestEnd(vocab, word, start, end - 1)
  }

  /** The piece chosen is the LONGEST candidate in the vocabulary; `None` means there is none. */
  lemma {:induction false} LongestEndSpec(vocab: map<Str, int>, word: Str, start: nat, end: nat)
    requires start <= end <= |word|
    ensures match LongestEnd(vocab, word, start, end)
      case None => forall e :: start < e <= end ==> Candidate(word, start, e) !in vocab
      case Some(e) =>
        && start < e <= end
        && Candidate(word, start, e) in vocab
        && forall e' :: e < e' <= end ==> Candidate(word, start, e') !in vocab
    decreases end
  {
    if end > start && Candidate(word, start, end) !in vocab {
      LongestEndSpec(vocab, word, start, end - 1);
    }
  }

  /** The pieces `tokenize` emits from position `start` on. */
  function Pieces(vocab: map<Str, int>, unk: Str, word: Str, start: nat): seq<Str>
    requires start <= |word|
    decreases |word| - start
  {
    if start == |word| then []
    else
      match LongestEnd(vocab, word, start, |word|)
      case None => [unk]
      case Some(e) =>
        LongestEndSpec(vocab, word, start, |word|);
        [Candidate(word, start, e)] + Pieces(vocab, unk, word, e)
  }

  /** `WordPieceModel::tokenize`. */
  function WordPieces(vocab: map<Str, int>, unk: Str, word: Str): seq<Str>
  {
    if word == [] then [] else Pieces(vocab, unk, word, 0)
  }

  /** Every step from `start` finds a piece: the word is covered without the unknown token. */
  predicate Covered(vocab: map<Str, int>, word: Str, start: nat)
    requires start <= |word|
    decreases |word| - start
  {
    start == |word| ||
    match LongestEnd(vocab, word, start, |word|)
    case None => false
    case Some(e) =>
      LongestEndSpec(vocab, word, start, |word|);
      Covered(vocab, word, e)
  }

  /**
   * The shape of the output: at most one piece per remaining byte; every piece is a vocabulary
   * key except a final unknown token, which appears exactly when the word is not covered; and
   * every piece carries the "##" prefix when it starts past position 0.
   */
  lemma {:induction false} PiecesSpec(vocab: map<Str, int>, unk: Str, word: Str, start: nat)
    requires start <= |word|
    ensures var ps := Pieces(vocab, unk, word, start);
      && |ps| <= |word| - start
      && (start < |word| ==> |ps| > 0)
      && (Covered(vocab, word, start) ==> forall k :: 0 <= k < |ps| ==> ps[k] in vocab)
      && (!Covered(vocab, word, start) ==>
            ps[|ps| - 1] == unk && forall k :: 0 <= k < |ps| - 1 ==> ps[k] in vocab)
      && (forall k :: 0 <= k < |ps| && (k > 0 || start > 0) && (k < |ps| - 1 || Covered(vocab, word, start)) ==>
            |ps[k]| > 2 && ps[k][..2] == ContinuationPrefix())
    decreases |word| - start
  {
    if start < |word| {
      LongestEndSpec(vocab, word, start, |word|);
      match LongestEnd(vocab, word, start, |word|)
      case None =>
      case Some(e) =>
        PiecesSpec(vocab, unk, word, e);
        var rest := Pieces(vocab, unk, word, e);
        var ps := Pieces(vocab, unk, word, start);
        assert ps == [Candidate(word, start, e)] + rest;
        forall k | 0 < k < |ps| ensures ps[k] == rest[k - 1] { }
        if start > 0 {
          assert Candidate(word, start, e)[..2] == ContinuationPrefix();
        }
    }
  }

  /** One leading "##" removed, as `decode` and `decode_from_ids` do. */
  function Strip(piece: Str): (r: Str)
    ensures |piece| >= 2 && piece[..2] == ContinuationPrefix() ==> piece == ContinuationPrefix() + r
    ensures !(|piece| >= 2 && piece[..2] == ContinuationPrefix()) ==> r == piece
  {
    if |piece| >= 2 && piece[..2] == ContinuationPrefix() then piece[2..] else piece
  }

  function StripAll(ps: seq<Str>): (r: seq<Str>)
    ensures |r| == |ps| && forall k :: 0 <= k < |ps| ==> r[k] == Strip(ps[k])
  {
    seq(|ps|, k requires 0 <= k < |ps| => Strip(ps[k]))
  }

  /** The decoded text of a list of pieces. */
  function Unpieced(ps: seq<Str>): Str
  {
    Concat(StripAll(ps))
  }

  lemma UnpiecedCons(p: Str, ps: seq<Str>)
    ensures Unpieced([p] + ps) == Strip(p) + Unpieced(ps)
  {
    assert StripAll([p] + ps) == [Strip(p)] + StripAll(ps);
    ConcatCons(Strip(p), StripAll(ps));
  }

  /** Past position 0, a covered word decodes back from its pieces. */
  lemma {:induction false} PiecesDecode(vocab: map<Str, int>, unk: Str, word: Str, start: nat)
    requires 0 < start <= |word| && Covered(vocab, word, start)
    ensures Unpieced(Pieces(vocab, unk, word, start)) == word[start..]
    decreases |word| - start
  {
    if start < |word| {
      LongestEndSpec(vocab, word, start, |word|);
      var e := LongestEnd(vocab, word, start, |word|).value;
      PiecesDecode(vocab, unk, word, e);
      var c := Candidate(word, start, e);
      assert c[..2] == ContinuationPrefix();
      assert Strip(c) == word[start..e];
      UnpiecedCons(c, Pieces(vocab, unk, word, e));
      assert word[start..] == word[start..e] + word[e..];
    }
  }

  /**
   * The decode round trip: a covered word that does not itself begin with "##" comes back from
   * its pieces. (A word beginning with "##" loses those two bytes: its first piece is not
   * prefixed, yet decoding strips it.)
   */
  lemma DecodeWordPieces(vocab: map<Str, int>, unk: Str, word: Str)
    requires Covered(vocab, word, 0)
    requires !(|word| >= 2 && word[..2] == ContinuationPrefix())
    ensures Unpieced(WordPieces(vocab, unk, word)) == word
  {
    if word != [] {
      LongestEndSpec(vocab, word, 0, |word|);
      var e := LongestEnd(vocab, word, 0, |word|).value;
      var c := Candidate(word, 0, e);
      if e >= 2 {
        assert c[..2] == word[..2];
      }
      assert Strip(c) == word[..e];
      if e < |word| {
        PiecesDecode(vocab, unk, word, e);
      }
      UnpiecedCons(c, Pieces(vocab, unk, word, e));
      assert word == word[..e] + word[e..];
    }
  }

  /** A word starting with "##" and found whole loses its first two bytes when decoded. */
  lemma DecodeDropsLeadingPrefix(vocab: map<Str, int>, unk: Str)
    requires "##a" in vocab
    ensures WordPieces(vocab, unk, "##a") == ["##a"]
    ensures Unpieced(WordPieces(vocab, unk, "##a")) == "a"
  {
    var word: Str := "##a";
    assert Candidate(word, 0, 3) == word;
    assert Pieces(vocab, unk, word, 0) == [word] + Pieces(vocab, unk, word, 3);
    UnpiecedCons(word, []);
  }

  /** `WordPieceModel`: the vocabulary, the unknown token and an unused length limit. */
  class WordPieceModel {
    var vocab: map<Str, int>
    var unkToken: Str
    var maxInputCharsPerWord: int

    /** The default constructor: empty vocabulary and unknown token. */
    constructor ()
      ensures vocab == map[] && unkToken == []
    {
      vocab := map[];
      unkToken := [];
      maxInputCharsPerWord := 100;
    }

    /** `initialize`: all three fields replaced. */
    method Initialize(v: map<Str, int>, unk: Str, maxChars: int)
      modifies this
      ensures vocab == v && unkToken == unk && maxInputCharsPerWord == maxChars
    {
      vocab := v;
      unkToken := unk;
      maxInputCharsPerWord := maxChars;
    }

    /** `tokenize`; `max_input_chars_per_word_` is never consulted. */
    method Tokenize(word: Str) returns (pieces: seq<Str>)
      ensures pieces == WordPieces(vocab, unkToken, word)
    {
      pieces := [];
      if word == [] {
        return;
      }
      var start := 0;
      while start < |word|
        invariant 0 <= start <= |word|
        invariant pieces + Pieces(vocab, unkToken, word, start) == WordPieces(vocab, unkToken, word)
        decreases |word| - start
      {
        var end, found := LongestPiece(vocab, word, start);
        if !found {
          pieces := pieces + [unkToken];
          return;
        }
        LongestEndSpec(vocab, word, start, |word|);
        ghost var rest: seq<Str> := Pieces(vocab, unkToken, word, end);
        AppendAssoc(pieces, [Candidate(word, start, end)], rest);
        pieces := pieces + [Candidate(word, start, end)];
        start := end;
      }
      AppendNil(pieces);
    }

    /** `batch_tokenize`: one result per word, in order. */
    method BatchTokenize(words: seq<Str>) returns (batch: seq<seq<Str>>)
      ensures |batch| == |words|
      ensures forall k :: 0 <= k < |words| ==> batch[k] == WordPieces(vocab, unkToken, words[k])
    {
      batch := [];
      for k := 0 to |words|
        invariant |batch| == k
        invariant forall j :: 0 <= j < k ==> batch[j] == WordPieces(vocab, unkToken, words[j])
      {
        var ps := Tokenize(words[k]);
        batch := batch + [ps];
      }
    }
  }

  /** The inner loop of `tokenize`: the end of the longest candidate at `start`, if any. */
  method LongestPiece(vocab: map<Str, int>, word: Str, start: nat) returns (end: nat, found: bool)
    requires start < |word|
    ensures found <==> LongestEnd(vocab, word, start, |word|).Some?
    ensures found ==> end == LongestEnd(vocab, word, start, |word|).value
  {
    end := |word|;
    while start < end
      invariant start <= end <= |word|
      invariant LongestEnd(vocab, word, start, end) == LongestEnd(vocab, word, start, |word|)
      decreases end
    {
      var chunk := Candidate(word, start, end);
      if chunk in vocab {
        return end, true;
      }
      end := end - 1;
    }
    return end, false;
  }

  // ---- the tokenizer ----

  /** `decode_from_ids`: every id's text with one leading "##" removed, concatenated. */
  function DecodeIds(v: VocabState, ids: seq<int>): Str
  {
    Unpieced(TokenTexts(v, ids))
  }

  /** `decode`: the same over the texts of the given tokens. */
  function DecodeTokens(ts: seq<Token>): Str
  {
    Unpieced(TextsOf(ts))
  }

  /** An id that the vocabulary does not know decodes to nothing. */
  lemma DecodeUnknownId(v: VocabState, id: int)
    requires Valid(v) && !HasId(v, id)
    ensures DecodeIds(v, [id]) == []
  {
    UnpiecedCons(GetToken(v, id), []);
    assert TokenTexts(v, [id]) == [GetToken(v, id)] + [];
  }

  /** `add_token_to_vocab(token, id)` for each (token, id) of the model's map, in `order`. */
  function WithModelVocab(v: VocabState, m: map<Str, int>, order: seq<Str>): VocabState
    requires forall k :: 0 <= k < |order| ==> order[k] in m
    decreases |order|
  {
    if order == [] then v else WithModelVocab(WithToken(v, order[0], m[order[0]]), m, order[1..])
  }

  /**
   * Copying the model's vocabulary never moves a token the shared vocabulary already had, and
   * every model token with a non-empty text ends up present.
   */
  lemma {:induction false} WithModelVocabEffect(v: VocabState, m: map<Str, int>, order: seq<Str>)
    requires Valid(v)
    requires forall k :: 0 <= k < |order| ==> order[k] in m
    ensures var r := WithModelVocab(v, m, order);
      && Valid(r)
      && (forall t :: HasToken(v, t) ==> GetTokenId(r, t) == GetTokenId(v, t))
      && (forall k :: 0 <= k < |order| && order[k] != [] ==> HasToken(r, order[k]))
    decreases |order|
  {
    if order != [] {
      var w := WithToken(v, order[0], m[order[0]]);
      WithModelVocabEffect(w, m, order[1..]);
      var r := WithModelVocab(w, m, order[1..]);
      forall k | 0 <= k < |order| && order[k] != [] ensures HasToken(r, order[k]) {
        if k > 0 {
          assert order[1..][k - 1] == order[k];
        } else {
          assert GetTokenId(r, order[0]) == GetTokenId(w, order[0]) != -1;
        }
      }
    }
  }

  /** A token new to the shared vocabulary receives the model's id for it. */
  lemma {:induction false} WithModelVocabIds(v: VocabState, m: map<Str, int>, order: seq<Str>, t: Str)
    requires Valid(v)
    requires forall k :: 0 <= k < |order| ==> order[k] in m
    requires forall i, j :: 0 <= i < j < |order| ==> order[i] != order[j]
    requires t in order && t != [] && !HasToken(v, t) && m[t] >= 0
    ensures GetTokenId(WithModelVocab(v, m, order), t) == m[t]
    decreases |order|
  {
    var w := WithToken(v, order[0], m[order[0]]);
    if order[0] == t {
      WithModelVocabEffect(w, m, order[1..]);
    } else {
      assert t in order[1..] by {
        var k :| 0 <= k < |order| && order[k] == t;
        assert order[1..][k - 1] == t;
      }
      forall i, j | 0 <= i < j < |order[1..]| ensures order[1..][i] != order[1..][j] {
        assert order[1..][i] == order[i + 1] && order[1..][j] == order[j + 1];
      }
      WithModelVocabIds(w, m, order[1..], t);
    }
  }

  class WordPieceTokenizer {
    var config: TokenizerConfig
    var vocab: Vocab
    var specialTokens: map<SpecialTokenType, Str>
    var model: WordPieceModel?

    /**
     * The constructor: a fresh vocabulary holding the configured specials, then the configured
     * added tokens as CUSTOM specials (visited in `addedOrder`); no model yet.
     */
    constructor (c: TokenizerConfig, addedOrder: seq<Str>)
      requires IsKeyOrder(addedOrder, c.addedTokens)
      ensures config == c && fresh(vocab) && model == null
      ensures vocab.State() == WithSpecialsOfType(SpecialVocab(c), addedOrder, CUSTOM)
      ensures specialTokens == SpecialMap(ConfiguredSpecials(c))
    {
      config := c;
      model := null;
      specialTokens := map[];
      vocab := new Vocab();
      new;
      InitializeSpecialTokens(addedOrder);
    }

    /**
     * `initialize_special_tokens`: the configured specials and then the added tokens are
     * registered in the current vocabulary, which is NOT cleared; the type -> text map keeps
     * earlier entries and overwrites the configured ones.
     */
    method InitializeSpecialTokens(addedOrder: seq<Str>)
      requires IsKeyOrder(addedOrder, config.addedTokens)
      modifies this, vocab
      ensures config == old(config) && vocab == old(vocab) && model == old(model)
      ensures vocab.State() == WithSpecialsOfType(WithSpecials(old(vocab.State()), ConfiguredSpecials(config)), addedOrder, CUSTOM)
      ensures specialTokens == old(specialTokens) + SpecialMap(ConfiguredSpecials(config))
    {
      var m := RegisterSpecials(vocab, ConfiguredSpecials(config));
      specialTokens := specialTokens + m;
      RegisterAll(vocab, addedOrder, CUSTOM);
    }

    /** `encode`: the model's pieces of the normalized text as tokens; an error without a model. */
    method Encode(text: Str, normalize: Str -> Str) returns (r: Result<seq<Token>>)
      ensures model == null ==> r == Err("WordPieceModel not set for WordPieceTokenizer.")
      ensures model != null ==>
        r == Ok(TokensFor(vocab.State(), WordPieces(model.vocab, model.unkToken, normalize(text))))
    {
      if model == null {
        return Err("WordPieceModel not set for WordPieceTokenizer.");
      }
      var pieces := model.Tokenize(normalize(text));
      var tokens: seq<Token> := [];
      for k := 0 to |pieces|
        invariant tokens == TokensFor(vocab.State(), pieces[..k])
      {
        var piece := pieces[k];
        tokens := tokens + [Token(GetTokenId(vocab.State(), piece), piece, IsSpecialToken(vocab.State(), piece), OffsetMapping(0, 0))];
      }
      assert pieces[..|pieces|] == pieces;
      return Ok(tokens);
    }

    /** `encode_to_ids`: each piece's id, -1 for pieces the shared vocabulary lacks. */
    method EncodeToIds(text: Str, normalize: Str -> Str) returns (r: Result<seq<int>>)
      ensures model == null ==> r == Err("WordPieceModel not set for WordPieceTokenizer.")
      ensures model != null ==>
        r == Ok(TokenIds(vocab.State(), WordPieces(model.vocab, model.unkToken, normalize(text))))
    {
      if model == null {
        return Err("WordPieceModel not set for WordPieceTokenizer.");
      }
      var pieces := model.Tokenize(normalize(text));
      var ids: seq<int> := [];
      for k := 0 to |pieces|
        invariant ids == TokenIds(vocab.State(), pieces[..k])
      {
        ids := ids + [GetTokenId(vocab.State(), pieces[k])];
      }
      assert pieces[..|pieces|] == pieces;
      return Ok(ids);
    }

    /** `decode`: every token's text with one leading "##" removed, concatenated. */
    method Decode(tokens: seq<Token>) returns (text: Str)
      ensures text == DecodeTokens(tokens)
    {
      text := [];
      for k := 0 to |tokens|
        invariant text == Unpieced(TextsOf(tokens)[..k])
      {
        UnpiecedSnoc(TextsOf(tokens), k);
        text := text + Strip(tokens[k].text);
      }
      assert TextsOf(tokens)[..|tokens|] == TextsOf(tokens);
    }

    /** `decode_from_ids`. */
    method DecodeFromIds(ids: seq<int>) returns (text: Str)
      ensures text == DecodeIds(vocab.State(), ids)
    {
      text := [];
      for k := 0 to |ids|
        invariant text == DecodeIds(vocab.State(), ids[..k])
      {
        var piece := GetToken(vocab.State(), ids[k]);
        DecodeIdsSnoc(vocab.State(), ids, k);
        text := text + Strip(piece);
      }
      assert ids[..|ids|] == ids;
    }

    /** `batch_encode`: one id list per text, in order; an error without a model. */
    method BatchEncode(texts: seq<Str>, normalize: Str -> Str) returns (r: Result<seq<seq<int>>>)
      ensures model == null && texts != [] ==> r == Err("WordPieceModel not set for WordPieceTokenizer.")
      ensures model == null && texts == [] ==> r == Ok([])
      ensures model != null ==> r.Ok? && |r.value| == |texts| && forall k :: 0 <= k < |texts| ==>
        r.value[k] == TokenIds(vocab.State(), WordPieces(model.vocab, model.unkToken, normalize(texts[k])))
    {
      var batch: seq<seq<int>> := [];
      for k := 0 to |texts|
        invariant model == null ==> k == 0 && batch == []
        invariant model != null ==> |batch| == k && forall j :: 0 <= j < k ==>
          batch[j] == TokenIds(vocab.State(), WordPieces(model.vocab, model.unkToken, normalize(texts[j])))
      {
        var ids := EncodeToIds(texts[k], normalize);
        if ids.Err? {
          return Err(ids.msg);
        }
        batch := batch + [ids.value];
      }
      return Ok(batch);
    }

    /** `batch_decode`: one text per id list, in order. */
    method BatchDecode(batch: seq<seq<int>>) returns (texts: seq<Str>)
      ensures |texts| == |batch| && forall k :: 0 <= k < |batch| ==> texts[k] == DecodeIds(vocab.State(), batch[k])
    {
      texts := [];
      for k := 0 to |batch|
        invariant |texts| == k && forall j :: 0 <= j < k ==> texts[j] == DecodeIds(vocab.State(), batch[j])
      {
        var t := DecodeFromIds(batch[k]);
        texts := texts + [t];
      }
    }

    /** `add_special_tokens`: each string registered as a CUSTOM special. */
    method AddSpecialTokens(tokens: seq<Str>)
      modifies vocab
      ensures vocab.State() == WithSpecialsOfType(old(vocab.State()), tokens, CUSTOM)
    {
      RegisterAll(vocab, tokens, CUSTOM);
    }

    /** `get_special_tokens`: the recorded texts, in the map's visiting order. */
    function GetSpecialTokens(order: seq<SpecialTokenType>): (texts: seq<Str>)
      reads this
      requires IsKeyOrder(order, specialTokens)
      ensures texts == ListedSpecials(specialTokens, order)
    {
      ListedSpecials(specialTokens, order)
    }

    /** `get_special_token_id`: the vocabulary id of the type's recorded text, or -1. */
    function GetSpecialTokenId(ty: SpecialTokenType): (id: int)
      reads this, vocab
      ensures ty !in specialTokens ==> id == -1
      ensures ty in specialTokens ==> id == GetTokenId(vocab.State(), specialTokens[ty])
    {
      if ty in specialTokens then GetTokenId(vocab.State(), specialTokens[ty]) else -1
    }

    /** `set_config`: the configuration is replaced and the specials registered again. */
    method SetConfig(c: TokenizerConfig, addedOrder: seq<Str>)
      requires IsKeyOrder(addedOrder, c.addedTokens)
      modifies this, vocab
      ensures config == c && vocab == old(vocab) && model == old(model)
      ensures vocab.State() == WithSpecialsOfType(WithSpecials(old(vocab.State()), ConfiguredSpecials(c)), addedOrder, CUSTOM)
      ensures specialTokens == old(specialTokens) + SpecialMap(ConfiguredSpecials(c))
    {
      config := c;
      InitializeSpecialTokens(addedOrder);
    }

    /** `set_vocab`: the shared vocabulary is replaced and the specials registered in it. */
    method SetVocab(v: Vocab, addedOrder: seq<Str>)
      requires IsKeyOrder(addedOrder, config.addedTokens)
      modifies this, v
      ensures vocab == v && config == old(config) && model == old(model)
      ensures v.State() == WithSpecialsOfType(WithSpecials(old(v.State()), ConfiguredSpecials(config)), addedOrder, CUSTOM)
      ensures specialTokens == old(specialTokens) + SpecialMap(ConfiguredSpecials(config))
    {
      vocab := v;
      InitializeSpecialTokens(addedOrder);
    }

    /**
     * `set_wordpiece_model`: the model is stored and, when there is one, each of its
     * (token, id) pairs is passed to `add_token_to_vocab` in `order`.
     */
    method SetWordPieceModel(m: WordPieceModel?, order: seq<Str>)
      requires m != null ==> IsKeyOrder(order, m.vocab)
      modifies this, vocab
      ensures model == m && vocab == old(vocab) && config == old(config) && specialTokens == old(specialTokens)
      ensures m == null ==> vocab.State() == old(vocab.State())
      ensures m != null ==> vocab.State() == WithModelVocab(old(vocab.State()), m.vocab, order)
    {
      model := m;
      if m == null {
        return;
      }
      var tokens := m.vocab;
      for k := 0 to |order|
        invariant model == m && vocab == old(vocab) && config == old(config) && specialTokens == old(specialTokens)
        invariant WithModelVocab(old(vocab.State()), tokens, order) == WithModelVocab(vocab.State(), tokens, order[k..])
      {
        assert order[k..][1..] == order[k + 1..];
        vocab.AddToken(order[k], tokens[order[k]]);
      }
    }

    /** `save`, `load` and `train` are not implemented and always throw. */
    method Save(path: Str) returns (r: Result<()>)
      ensures r == Err("WordPieceTokenizer::save not implemented yet.")
    {
      return Err("WordPieceTokenizer::save not implemented yet.");
    }

    method Load(path: Str) returns (r: Result<()>)
      ensures r == Err("WordPieceTokenizer::load not implemented yet.")
    {
      return Err("WordPieceTokenizer::load not implemented yet.");
    }

    method Train(corpus: seq<Str>, vocabSize: u64) returns (r: Result<()>)
      ensures r == Err("WordPieceTokenizer::train not implemented yet.")
    {
      return Err("WordPieceTokenizer::train not implemented yet.");
    }
  }

  /** Decoding one more piece appends that piece, stripped. */
  lemma UnpiecedSnoc(ps: seq<Str>, k: nat)
    requires k < |ps|
    ensures Unpieced(ps[..k + 1]) == Unpieced(ps[..k]) + Strip(ps[k])
  {
    var a := StripAll(ps[..k]);
    assert StripAll(ps[..k + 1]) == a + [Strip(ps[k])];
    ConcatAppend(a, [Strip(ps[k])]);
    assert Concat([Strip(ps[k])]) == Concat([]) + Strip(ps[k]);
  }

  /**
   * The token round trip: whatever the shared vocabulary holds, decoding the tokens `encode`
   * returns for a covered normalized text that does not begin with "##" gives that text back.
   */
  lemma DecodeEncodedTokens(v: VocabState, modelVocab: map<Str, int>, unk: Str, normalized: Str)
    requires Covered(modelVocab, normalized, 0)
    requires !(|normalized| >= 2 && normalized[..2] == ContinuationPrefix())
    ensures DecodeTokens(TokensFor(v, WordPieces(modelVocab, unk, normalized))) == normalized
  {
    var ps := WordPieces(modelVocab, unk, normalized);
    assert TextsOf(TokensFor(v, ps)) == ps;
    DecodeWordPieces(modelVocab, unk, normalized);
  }

  lemma DecodeIdsSnoc(v: VocabState, ids: seq<int>, k: nat)
    requires k < |ids|
    ensures DecodeIds(v, ids[..k + 1]) == DecodeIds(v, ids[..k]) + Strip(GetToken(v, ids[k]))
  {
    var a: seq<Str> := StripAll(TokenTexts(v, ids[..k]));
    assert StripAll(TokenTexts(v, ids[..k + 1])) == a + [Strip(GetToken(v, ids[k]))];
    ConcatAppend(a, [Strip(GetToken(v, ids[k]))]);
    assert Concat([Strip(GetToken(v, ids[k]))]) == Concat([]) + Strip(GetToken(v, ids[k]));
  }

  /**
   * The tokenizer round trip: with a consistent shared vocabulary that holds every piece, a
   * normalized text that is covered and does not begin with "##" decodes back from its ids.
   */
  lemma EncodeDecode(v: VocabState, modelVocab: map<Str, int>, unk: Str, normalized: Str)
    requires Valid(v) && Consistent(v)
    requires Covered(modelVocab, normalized, 0)
    requires !(|normalized| >= 2 && normalized[..2] == ContinuationPrefix())
    requires forall p :: p in WordPieces(modelVocab, unk, normalized) ==> HasToken(v, p)
    ensures DecodeIds(v, TokenIds(v, WordPieces(modelVocab, unk, normalized))) == normalized
  {
    var ps := WordPieces(modelVocab, unk, normalized);
    TokenIdsTexts(v, ps);
    DecodeWordPieces(modelVocab, unk, normalized);
  }
}
