/**
 * The advanced tokenizer (tokenizer_advanced.h, tokenizer_advanced.cpp): it owns a vocabulary,
 * builds one concrete tokenizer for the model's algorithm, and encodes a text by normalizing
 * it, pre-tokenizing it, handing the joined pre-tokens to the concrete tokenizer and passing
 * the ids through the post-processor.
 *
 * Collaborators the source holds through `shared_ptr` are fields here: the model and the
 * vocabulary are objects; the normalizer is the configuration it was built from, and
 * `normalizeWith(c, text)` is what `UnicodeNormalizer(c).normalize(text)` returns (every
 * component builds its own normalizer from the configuration). `unordered_map` visiting orders
 * are parameters, as elsewhere in the model.
 */
module Advanced {
  import opened Wrappers
  import opened Bytes
  import opened TokenTypes
  import opened Vocabulary
  import opened Config
  import opened SpecialTokens
  import opened Files
  import opened TokenizerModels
  import PreTokenizing
  import PostProcessing
  import Bpe
  import Unigram
  import WordPiece
  import CharLevel
  import BpeTraining
  import UnigramTraining

  /** `TokenizationOptions` with its member initialisers; only `return_attention_mask` is ever read. */
  datatype TokenizationOptions = TokenizationOptions(
    addSpecialTokens: bool,
    returnAttentionMask: bool,
    returnTokenTypeIds: bool,
    returnOverflowingTokens: bool,
    returnLength: bool,
    maxLength: int,
    padToMaxLength: bool)

  function DefaultOptions(): TokenizationOptions
  {
    TokenizationOptions(true, false, false, false, false, 512, false)
  }

  datatype BatchEncoding = BatchEncoding(
    inputIds: seq<seq<int>>,
    attentionMask: seq<seq<int>>,
    tokenTypeIds: seq<seq<int>>,
    offsetMapping: seq<seq<OffsetMapping>>,
    length: seq<nat>)

  function EmptyEncoding(): BatchEncoding
  {
    BatchEncoding([], [], [], [], [])
  }

  /** `n` ones: the row `attention_mask.emplace_back(n, 1)` adds. */
  function Ones(n: nat): (row: seq<int>)
    ensures |row| == n && forall i :: 0 <= i < n ==> row[i] == 1
  {
    seq(n, _ => 1)
  }

  /** What `encode` returns for the ids it settled on: one row of ids, and a mask row when asked. */
  function Encoding(ids: seq<int>, options: TokenizationOptions): BatchEncoding
  {
    BatchEncoding([ids], if options.returnAttentionMask then [Ones(|ids|)] else [], [], [], [])
  }

  /** An error of the id pipeline is the error of `encode`. */
  function Encoded(r: Result<seq<int>>, options: TokenizationOptions): Result<BatchEncoding>
  {
    if r.Ok? then Ok(Encoding(r.value, options)) else Err(r.msg)
  }

  /**
   * `tokenizer_impl_`: the concrete tokenizer, one case per algorithm. The WordPiece case also
   * names the model object the constructor built and handed to it.
   */
  datatype Implementation =
    | BpeImpl(bpe: Bpe.BpeTokenizer)
    | UnigramImpl(unigram: Unigram.UnigramTokenizer)
    | WordPieceImpl(wordPiece: WordPiece.WordPieceTokenizer, pieces: WordPiece.WordPieceModel)
    | CharLevelImpl(charLevel: CharLevel.CharLevelTokenizer)
  {
    function Objects(): set<object>
    {
      match this
      case BpeImpl(b) => {b}
      case UnigramImpl(u) => {u}
      case WordPieceImpl(w, m) => {w, m}
      case CharLevelImpl(c) => {c}
    }

    /** The vocabulary the implementation holds. */
    function SharedVocab(): Vocab
      reads Objects()
    {
      match this
      case BpeImpl(b) => b.vocab
      case UnigramImpl(u) => u.vocab
      case WordPieceImpl(w, _) => w.vocab
      case CharLevelImpl(c) => c.vocab
    }

    /** The configuration the implementation was built from. */
    function SharedConfig(): TokenizerConfig
      reads Objects()
    {
      match this
      case BpeImpl(b) => b.config
      case UnigramImpl(u) => u.config
      case WordPieceImpl(w, _) => w.config
      case CharLevelImpl(c) => c.config
    }

    function Algorithm(): TokenizationAlgorithm
    {
      match this
      case BpeImpl(_) => BPE
      case UnigramImpl(_) => UNIGRAM
      case WordPieceImpl(_, _) => WORDPIECE
      case CharLevelImpl(_) => CHARLEVEL
    }
  }

  /** `pre_tokenizer_`: none, a regex pre-tokenizer, or the byte-level one. */
  datatype PreTokenizerSlot = NoPreTokenizer | RegexSlot(regex: PreTokenizing.RegexPreTokenizer) | ByteLevelSlot
  {
    function Objects(): set<object>
    {
      if RegexSlot? then {regex} else {}
    }

    /** A regex pre-tokenizer's patterns are compiled. */
    ghost predicate Ready()
      reads Objects()
    {
      RegexSlot? ==> regex.Valid()
    }
  }

  /** `post_processor_`: none, one of the value processors, or a composite one. */
  datatype PostProcessorSlot =
    | NoPostProcessor
    | SingleSlot(processor: PostProcessing.PostProcessor)
    | CompositeSlot(composite: PostProcessing.CompositePostProcessor)
  {
    function Objects(): set<object>
    {
      if CompositeSlot? then {composite} else {}
    }
  }

  /**
   * The vocabulary the constructor fills before the implementation sees it: the configured
   * specials, then `add_token_to_vocab` for each model (token, id) pair in `vocabOrder`, then
   * `add_token_with_score` for each scored token in `scoreOrder` (the score is dropped and a
   * fresh id drawn), then the configured added tokens as CUSTOM specials in `addedOrder`.
   */
  function Populated(c: TokenizerConfig, mv: map<Str, int>, vocabOrder: seq<Str>, scoreOrder: seq<Str>,
                     addedOrder: seq<Str>): VocabState
    requires forall k :: 0 <= k < |vocabOrder| ==> vocabOrder[k] in mv
  {
    WithSpecialsOfType(WithTokens(WordPiece.WithModelVocab(SpecialVocab(c), mv, vocabOrder), scoreOrder), addedOrder, CUSTOM)
  }

  /**
   * What the implementation's `set_vocab` leaves in the shared vocabulary `s`: the BPE one
   * clears it and registers the configured specials; the others register the configured
   * specials and the added tokens on top of what is there.
   */
  function AfterSetVocab(impl: Implementation, c: TokenizerConfig, addedOrder: seq<Str>, s: VocabState): VocabState
  {
    if impl.BpeImpl? then SpecialVocab(c)
    else WithSpecialsOfType(WithSpecials(s, ConfiguredSpecials(c)), addedOrder, CUSTOM)
  }

  /** The strings `train` hands to `add_merge`: each rule as "first second". */
  function MergeStrings(rules: seq<MergeRule>): (ms: seq<Str>)
    ensures |ms| == |rules|
    ensures forall k :: 0 <= k < |rules| ==> ms[k] == rules[k].first + " " + rules[k].second
  {
    seq(|rules|, k requires 0 <= k < |rules| => rules[k].first + " " + rules[k].second)
  }

  /**
   * What a BPE training run on a non-empty corpus produces, for a fresh trainer configured by
   * `c`: the merge rules it appends and the vocabulary it leaves.
   */
  function BpeOutcome(c: TokenizerConfig, normalize: Str -> Str, corpus: seq<Str>, wordOrder: seq<Str>,
                      byteOrder: seq<Str>, wordOrders: nat -> seq<Str>, pairOrders: nat -> seq<(Str, Str)>)
    : (seq<MergeRule>, VocabState)
    requires BpeTraining.TrainOrders(c, normalize, corpus, wordOrder, byteOrder, wordOrders, pairOrders)
  {
    var wc := BpeTraining.CountOf(BpeTraining.CorpusWords(c, normalize, corpus));
    var seeded := BpeTraining.InitialVocab(c, c.minFrequency, BpeTraining.ByteCounts(wc, wordOrder), byteOrder);
    var n := BpeTraining.Rounds(Size(seeded), c.vocabSize as int, wc);
    (BpeTraining.RulesUpTo(wc, wordOrders, pairOrders, n),
     WithTokens(seeded, BpeTraining.TokensUpTo(wc, wordOrders, pairOrders, n)))
  }

  /**
   * What `train` promises for BPE, on values: `r` is its result, `before` and `merges` the
   * model's merge strings before and after, `after` the shared vocabulary afterwards. The
   * checks come in the trainer's order; a run on a non-empty corpus appends the learnt rules
   * and leaves the trained vocabulary as the implementation's `set_vocab` makes it.
   */
  ghost predicate BpeTrained(c: TokenizerConfig, normalize: Str -> Str, impl: Implementation, addedOrder: seq<Str>,
                             paths: seq<Str>, files: map<Str, seq<Str>>, vocabSize: u64,
                             wordOrder: seq<Str>, byteOrder: seq<Str>, wordOrders: nat -> seq<Str>,
                             pairOrders: nat -> seq<(Str, Str)>,
                             r: Result<()>, before: seq<Str>, merges: seq<Str>, after: VocabState)
    requires vocabSize != 0 && (forall p :: p in paths ==> p in files) ==>
      BpeTraining.TrainOrders(c.(vocabSize := vocabSize), normalize, NonEmpty(AllLines(paths, files)),
                              wordOrder, byteOrder, wordOrders, pairOrders)
  {
    && (vocabSize == 0 ==> r == Err("Vocabulary size must be positive"))
    && (vocabSize != 0 && paths == [] ==> r == Err("No file paths provided"))
    && (vocabSize != 0 && paths != [] && (exists p :: p in paths && p !in files) ==>
          r == Err("Failed to open file: " + FirstMissing(paths, files)))
    && (vocabSize != 0 && paths != [] && (forall p :: p in paths ==> p in files) ==>
          var corpus := NonEmpty(AllLines(paths, files));
          && (corpus == [] ==> r == Err("Empty corpus provided for training"))
          && (corpus != [] ==>
                var outcome := BpeOutcome(c.(vocabSize := vocabSize), normalize, corpus,
                                          wordOrder, byteOrder, wordOrders, pairOrders);
                && r == Ok(())
                && merges == before + MergeStrings(outcome.0)
                && after == AfterSetVocab(impl, c, addedOrder, outcome.1)))
  }

  /**
   * What `train` promises for Unigram, on values: `r` is its result, `cleared` what is left in
   * the vocabulary the tokenizer held before, `after` the vocabulary it holds afterwards.
   */
  ghost predicate UnigramTrained(c: TokenizerConfig, impl: Implementation, addedOrder: seq<Str>,
                                 paths: seq<Str>, files: map<Str, seq<Str>>, ranking: seq<Str>,
                                 r: Result<()>, cleared: VocabState, after: VocabState)
  {
    && (paths == [] ==> r == Err("No file paths provided for UnigramTrainer::train_from_files"))
    && (paths != [] && (exists p :: p in paths && p !in files) ==>
          r == Err("Failed to open training file: " + FirstMissing(paths, files)))
    && (paths != [] && (forall p :: p in paths ==> p in files) ==>
          && r == Ok(())
          && cleared == EmptyVocab()
          && after == AfterSetVocab(impl, c, addedOrder, UnigramTraining.TrainedVocab(c, ranking, c.maxTokens)))
  }

  /**
   * The trainer part of `train` for BPE: a trainer built from `c`, given the vocabulary size,
   * trains from the files into `vocab`; the result is the rules it learnt.
   */
  method RunBpeTrainer(c: TokenizerConfig, vocabSize: u64, paths: seq<Str>, files: map<Str, seq<Str>>, vocab: Vocab,
                       normalize: Str -> Str, wordOrder: seq<Str>, byteOrder: seq<Str>, wordOrders: nat -> seq<Str>,
                       pairOrders: nat -> seq<(Str, Str)>) returns (r: Result<seq<MergeRule>>)
    requires vocabSize != 0 && (forall p :: p in paths ==> p in files) ==>
      BpeTraining.TrainOrders(c.(vocabSize := vocabSize), normalize, NonEmpty(AllLines(paths, files)),
                              wordOrder, byteOrder, wordOrders, pairOrders)
    modifies vocab
    ensures r.Err? ==> vocab.State() == old(vocab.State())
    ensures vocabSize == 0 ==> r == Err("Vocabulary size must be positive")
    ensures vocabSize != 0 && paths == [] ==> r == Err("No file paths provided")
    ensures vocabSize != 0 && paths != [] && (exists p :: p in paths && p !in files) ==>
      r == Err("Failed to open file: " + FirstMissing(paths, files))
    ensures vocabSize != 0 && paths != [] && (forall p :: p in paths ==> p in files) ==>
      var corpus := NonEmpty(AllLines(paths, files));
      && (corpus == [] ==> r == Err("Empty corpus provided for training"))
      && (corpus != [] ==>
            var outcome := BpeOutcome(c.(vocabSize := vocabSize), normalize, corpus, wordOrder, byteOrder, wordOrders, pairOrders);
            r == Ok(outcome.0) && vocab.State() == outcome.1)
  {
    var trainer := new BpeTraining.BpeTrainer(c);
    var sized := trainer.SetVocabSize(vocabSize);
    if sized.Err? {
      return Err(sized.msg);
    }
    r := TrainSized(trainer, c.(vocabSize := vocabSize), paths, files, vocab, normalize,
                    wordOrder, byteOrder, wordOrders, pairOrders);
  }

  /** `train_from_files` on a trainer that holds `c` and no rules yet; the result is the rules it learnt. */
  method TrainSized(trainer: BpeTraining.BpeTrainer, c: TokenizerConfig, paths: seq<Str>, files: map<Str, seq<Str>>,
                    vocab: Vocab, normalize: Str -> Str, wordOrder: seq<Str>, byteOrder: seq<Str>,
                    wordOrders: nat -> seq<Str>, pairOrders: nat -> seq<(Str, Str)>) returns (r: Result<seq<MergeRule>>)
    requires trainer.config == c && trainer.minFrequency == c.minFrequency && trainer.vocabSize == c.vocabSize
    requires trainer.mergeRules == []
    requires (forall p :: p in paths ==> p in files) ==>
      BpeTraining.TrainOrders(c, normalize, NonEmpty(AllLines(paths, files)), wordOrder, byteOrder, wordOrders, pairOrders)
    modifies trainer, vocab
    ensures r.Err? ==> vocab.State() == old(vocab.State())
    ensures paths == [] ==> r == Err("No file paths provided")
    ensures paths != [] && (exists p :: p in paths && p !in files) ==>
      r == Err("Failed to open file: " + FirstMissing(paths, files))
    ensures paths != [] && (forall p :: p in paths ==> p in files) ==>
      var corpus := NonEmpty(AllLines(paths, files));
      && (corpus == [] ==> r == Err("Empty corpus provided for training"))
      && (corpus != [] ==>
            var outcome := BpeOutcome(c, normalize, corpus, wordOrder, byteOrder, wordOrders, pairOrders);
            r == Ok(outcome.0) && vocab.State() == outcome.1)
  {
    var done := trainer.TrainFromFiles(paths, files, vocab, normalize, wordOrder, byteOrder, wordOrders, pairOrders);
    if done.Err? {
      return Err(done.msg);
    }
    ghost var outcome := BpeOutcome(c, normalize, NonEmpty(AllLines(paths, files)),
                                    wordOrder, byteOrder, wordOrders, pairOrders);
    assert trainer.mergeRules == [] + outcome.0;
    assert [] + outcome.0 == outcome.0;
    return Ok(trainer.mergeRules);
  }

  /**
   * The trainer part of `train` for Unigram: a trainer built from `c` trains from the files
   * into a vocabulary of its own, which is returned with the outcome.
   */
  method RunUnigramTrainer(c: TokenizerConfig, paths: seq<Str>, files: map<Str, seq<Str>>, normalize: Str -> Str,
                           ranking: seq<Str>) returns (r: Result<()>, v: Vocab)
    requires (forall p :: p in paths ==> p in files) ==> UnigramRanking(c, normalize, AllLines(paths, files), ranking)
    ensures fresh(v)
    ensures paths == [] ==> r == Err("No file paths provided for UnigramTrainer::train_from_files")
    ensures paths != [] && (exists p :: p in paths && p !in files) ==>
      r == Err("Failed to open training file: " + FirstMissing(paths, files))
    ensures paths != [] && (forall p :: p in paths ==> p in files) ==>
      r == Ok(()) && v.State() == UnigramTraining.TrainedVocab(c, ranking, c.maxTokens)
  {
    var trainer := new UnigramTraining.UnigramTrainer.FromConfig(c);
    r := trainer.TrainFromFiles(paths, files, normalize, ranking);
    v := trainer.vocab;
  }

  /** The ranking a Unigram training run on `lines` needs, for a trainer configured by `c`. */
  ghost predicate UnigramRanking(c: TokenizerConfig, normalize: Str -> Str, lines: seq<Str>, ranking: seq<Str>)
  {
    UnigramTraining.IsRanking(ranking,
      UnigramTraining.Candidates(UnigramTraining.Frequencies(c.useRegex, c.regexPattern, normalize, lines), c.minFrequency))
  }

  /** What an implementation's `encode_to_ids` reads besides the shared vocabulary. */
  datatype Encoder =
    | BpeEncoder(ranks: map<Str, int>)
    | UnigramEncoder
    | WordPieceEncoder(pieces: map<Str, int>, unk: Str)
    | CharLevelEncoder

  /** An implementation's `encode_to_ids` on a text it has already normalized. */
  function EncoderIds(e: Encoder, v: VocabState, n: Str): seq<int>
  {
    match e
    case BpeEncoder(ranks) => Bpe.Ids(Bpe.WordsTokens(v, ranks, Words(n)))
    case UnigramEncoder => TokenIds(v, Unigram.Segment(v, n))
    case WordPieceEncoder(pieces, unk) => TokenIds(v, WordPiece.WordPieces(pieces, unk, n))
    case CharLevelEncoder => TokenIds(v, ByteStrings(n))
  }

  /** How a pre-tokenizer splits: not at all, by regex passes, or into single bytes. */
  datatype Splitter = Whole | RegexSplitter(patterns: seq<Str>, find: PreTokenizing.Finder) | ByteSplitter
  {
    ghost predicate Ready()
    {
      RegexSplitter? ==> PreTokenizing.FinderOrdered(find)
    }
  }

  function PreTokensOf(sp: Splitter, normalized: Str): seq<Str>
    requires sp.Ready()
  {
    match sp
    case Whole => [normalized]
    case RegexSplitter(patterns, find) => PreTokenizing.PreTokenized(patterns, find, normalized)
    case ByteSplitter => PreTokenizing.ByteLevelPreTokenize(normalized)
  }

  /** The string `encode` hands to the implementation: one pre-token as it is, several joined. */
  function CombinedOf(sp: Splitter, normalized: Str): Str
    requires sp.Ready()
  {
    var pieces := PreTokensOf(sp, normalized);
    if |pieces| == 1 then pieces[0] else Concat(pieces)
  }

  /** A post-processor: none, one value processor, or a composite's list of them. */
  datatype Post = NoPost | OnePost(processor: PostProcessing.PostProcessor) | ChainPost(processors: seq<PostProcessing.PostProcessor>)

  /** `process_ids`, or the ids unchanged without a post-processor. */
  function PostIdsOf(post: Post, ids: seq<int>): Result<seq<int>>
  {
    match post
    case NoPost => Ok(ids)
    case OnePost(p) => PostProcessing.ProcessedIds(p, ids)
    case ChainPost(ps) => PostProcessing.FoldIds(ps, ids)
  }

  /**
   * Everything `encode` reads: the normalizer's settings, the configuration the implementation
   * normalizes with, the pre-tokenizer, the implementation, the shared vocabulary and the
   * post-processor.
   */
  datatype Pipeline = Pipeline(
    normalization: TokenizerConfig,
    config: TokenizerConfig,
    normalizeWith: (TokenizerConfig, Str) -> Str,
    splitter: Splitter,
    encoder: Encoder,
    vocab: VocabState,
    post: Post)

  /**
   * The ids `encode` settles on for `text`: normalize, pre-tokenize and join, let the
   * implementation normalize again and encode, then post-process (which may fail).
   */
  function Run(p: Pipeline, text: Str): Result<seq<int>>
    requires p.splitter.Ready()
  {
    var combined := CombinedOf(p.splitter, p.normalizeWith(p.normalization, text));
    PostIdsOf(p.post, EncoderIds(p.encoder, p.vocab, p.normalizeWith(p.config, combined)))
  }

  /** `Run` on each text, in order. */
  function RunAll(p: Pipeline, texts: seq<Str>): (results: seq<Result<seq<int>>>)
    requires p.splitter.Ready()
    ensures |results| == |texts|
    ensures forall k :: 0 <= k < |texts| ==> results[k] == Run(p, texts[k])
  {
    seq(|texts|, k requires 0 <= k < |texts| => Run(p, texts[k]))
  }

  class TokenizerAdvanced {
    const config: TokenizerConfig
    const model: TokenizerModel
    var normalizer: Option<TokenizerConfig>
    const normalizeWith: (TokenizerConfig, Str) -> Str
    const preTokenizer: PreTokenizerSlot
    var postProcessor: PostProcessorSlot
    const impl: Implementation
    var vocab: Vocab
    /** The order in which every visit of `config.added_tokens` meets its keys. */
    const addedOrder: seq<Str>

    /** The normalizer each component builds from the configuration. */
    function Norm(): Str -> Str
    {
      t => normalizeWith(config, t)
    }

    /**
     * The implementation shares this tokenizer's vocabulary and configuration, a BPE
     * implementation's rank table mirrors its rules, a WordPiece implementation holds the
     * model built for it, and a regex pre-tokenizer's patterns are compiled.
     */
    ghost predicate Valid()
      reads this, impl.Objects(), preTokenizer.Objects()
    {
      && IsKeyOrder(addedOrder, config.addedTokens)
      && impl.SharedVocab() == vocab
      && impl.SharedConfig() == config
      && (impl.BpeImpl? ==> impl.bpe.Valid())
      && (impl.WordPieceImpl? ==> impl.wordPiece.model == impl.pieces)
      && preTokenizer.Ready()
      && SplitterOf().Ready()
    }

    /** What the implementation's `encode_to_ids` reads besides the shared vocabulary. */
    function EncoderOf(): Encoder
      reads impl.Objects()
    {
      match impl
      case BpeImpl(b) => BpeEncoder(b.mergeRanks)
      case UnigramImpl(_) => UnigramEncoder
      case WordPieceImpl(_, m) => WordPieceEncoder(m.vocab, m.unkToken)
      case CharLevelImpl(_) => CharLevelEncoder
    }

    /** How the pre-tokenizer splits. */
    function SplitterOf(): Splitter
      reads preTokenizer.Objects()
    {
      match preTokenizer
      case NoPreTokenizer => Whole
      case RegexSlot(r) => RegexSplitter(r.patterns, r.find)
      case ByteLevelSlot => ByteSplitter
    }

    /** What the post-processor does to ids. */
    function PostOf(): Post
      reads this, postProcessor.Objects()
    {
      match postProcessor
      case NoPostProcessor => NoPost
      case SingleSlot(p) => OnePost(p)
      case CompositeSlot(c) => ChainPost(c.processors)
    }

    /** Everything `encode` reads, as a value. */
    function Pipe(): Pipeline
      requires normalizer.Some?
      reads this, vocab, impl.Objects(), preTokenizer.Objects(), postProcessor.Objects()
    {
      Pipeline(normalizer.value, config, normalizeWith, SplitterOf(), EncoderOf(), vocab.State(), PostOf())
    }

    /** `tokenizer_impl_->decode_from_ids(ids)`. */
    function ImplDecoded(ids: seq<int>): Str
      reads this, vocab
    {
      if impl.WordPieceImpl? then WordPiece.DecodeIds(vocab.State(), ids) else Decoded(vocab.State(), ids)
    }

    /**
     * The constructor. The shared model pointer must not be null: the algorithm switch reads it
     * unguarded. Every algorithm has a case, so the "unsupported algorithm" throw cannot happen.
     */
    constructor (c: TokenizerConfig, m: TokenizerModel, normalizer: Option<TokenizerConfig>,
                 normalizeWith: (TokenizerConfig, Str) -> Str, preTokenizer: PreTokenizerSlot,
                 postProcessor: PostProcessorSlot,
                 vocabOrder: seq<Str>, scoreOrder: seq<Str>, addedOrder: seq<Str>)
      requires IsKeyOrder(vocabOrder, m.vocab) && IsKeyOrder(scoreOrder, m.scores)
      requires IsKeyOrder(addedOrder, c.addedTokens)
      requires preTokenizer.Ready()
      ensures Valid() && fresh(vocab)
      ensures config == c && model == m && this.normalizer == normalizer && this.normalizeWith == normalizeWith
      ensures this.preTokenizer == preTokenizer && this.postProcessor == postProcessor && this.addedOrder == addedOrder
      ensures impl.Algorithm() == m.algorithm && fresh(impl.Objects())
      ensures vocab.State() == AfterSetVocab(impl, c, addedOrder, Populated(c, m.vocab, vocabOrder, scoreOrder, addedOrder))
      ensures impl.BpeImpl? ==> impl.bpe.mergeRules == Bpe.ParseRules(m.merges)
      ensures impl.UnigramImpl? ==> impl.unigram.scores == m.scores
      ensures impl.WordPieceImpl? ==>
        impl.pieces.vocab == m.vocab && impl.pieces.unkToken == c.unkToken && impl.pieces.maxInputCharsPerWord == 100
    {
      var v, built := Assemble(c, m, vocabOrder, scoreOrder, addedOrder);
      config := c;
      model := m;
      this.normalizer := normalizer;
      this.normalizeWith := normalizeWith;
      this.preTokenizer := preTokenizer;
      this.postProcessor := postProcessor;
      this.addedOrder := addedOrder;
      impl := built;
      vocab := v;
    }

    /** The pre-tokenizing step of `encode`: one pre-token is used as it is, several are joined. */
    method Combine(normalized: Str) returns (combined: Str)
      requires Valid() && normalizer.Some?
      ensures combined == CombinedOf(SplitterOf(), normalized)
      ensures Valid() && Pipe() == old(Pipe())
    {
      var preTokenized: seq<Str>;
      match preTokenizer {
        case NoPreTokenizer =>
          preTokenized := [normalized];
        case RegexSlot(rp) =>
          preTokenized := rp.PreTokenize(normalized);
        case ByteLevelSlot =>
          preTokenized := PreTokenizing.ByteLevelPreTokenize(normalized);
      }
      if |preTokenized| == 1 {
        combined := preTokenized[0];
      } else {
        combined := PreTokenizing.JoinPieces(preTokenized);
      }
    }

    /** The implementation's `encode_to_ids`, dispatched on its kind. */
    method ImplEncodeToIds(s: Str) returns (ids: seq<int>)
      requires Valid() && normalizer.Some?
      ensures ids == EncoderIds(EncoderOf(), vocab.State(), normalizeWith(config, s))
      ensures Valid() && Pipe() == old(Pipe())
    {
      match impl {
        case BpeImpl(b) =>
          ids := b.EncodeToIds(s, Norm());
        case UnigramImpl(u) =>
          ids := u.EncodeToIds(s, Norm());
        case WordPieceImpl(w, _) =>
          var r := w.EncodeToIds(s, Norm());
          ids := r.value;
        case CharLevelImpl(c) =>
          ids := c.EncodeToIds(s, Norm());
      }
    }

    /** The post-processor's `process_ids`, dispatched on its kind. */
    method PostProcessIds(ids: seq<int>) returns (r: Result<seq<int>>)
      requires Valid() && normalizer.Some?
      ensures r == PostIdsOf(PostOf(), ids)
      ensures Valid() && Pipe() == old(Pipe())
    {
      match postProcessor {
        case NoPostProcessor =>
          r := Ok(ids);
        case SingleSlot(p) =>
          r := PostProcessing.RunIds(p, ids);
        case CompositeSlot(c) =>
          r := c.ProcessIds(ids);
      }
    }

    /**
     * `encode`: normalize, pre-tokenize, join the pre-tokens, encode the joined text, then
     * post-process. The result has exactly one row of ids, and a mask row of as many ones only
     * when `return_attention_mask` is set. A null normalizer is dereferenced unguarded, so one
     * must be present.
     */
    method Encode(text: Str, options: TokenizationOptions) returns (r: Result<BatchEncoding>)
      requires Valid() && normalizer.Some?
      ensures Valid() && r == Encoded(Run(Pipe(), text), options)
      ensures Pipe() == old(Pipe())
    {
      var normalized := normalizeWith(normalizer.value, text);
      var combined := Combine(normalized);
      var ids := ImplEncodeToIds(combined);
      var processed := PostProcessIds(ids);
      if processed.Err? {
        return Err(processed.msg);
      }
      return Ok(Encoding(processed.value, options));
    }

    /**
     * `encode_batch`: `encode` on each text in order, each outcome merged into the batch; the
     * first error propagates. BatchedOutcome and BatchedRows say what the batch then holds.
     */
    method EncodeBatch(texts: seq<Str>, options: TokenizationOptions) returns (r: Result<BatchEncoding>)
      requires Valid() && normalizer.Some?
      ensures r == Batched(EncodedAll(RunAll(Pipe(), texts), options), options)
    {
      ghost var pipe := Pipe();
      var encoding := EmptyEncoding();
      for i := 0 to |texts|
        invariant Valid() && normalizer.Some? && Pipe() == pipe
        invariant Batched(EncodedAll(RunAll(pipe, texts[..i]), options), options) == Ok(encoding)
      {
        var single := Encode(texts[i], options);
        RunAllSnoc(pipe, texts, i, options);
        BatchedSnoc(EncodedAll(RunAll(pipe, texts[..i]), options), single, options);
        if single.Err? {
          RunAllPrefix(pipe, texts, i + 1, options);
          BatchedStop(EncodedAll(RunAll(pipe, texts), options), i + 1, options);
          return Err(single.msg);
        }
        encoding := Merged(encoding, single.value, options);
      }
      assert texts[..|texts|] == texts;
      return Ok(encoding);
    }

    /** `decode`: the implementation's `decode_from_ids`; `skip_special_tokens` is ignored. */
    method Decode(ids: seq<int>, skipSpecialTokens: bool) returns (text: Str)
      requires Valid()
      ensures text == ImplDecoded(ids)
    {
      match impl {
        case BpeImpl(b) =>
          text := b.DecodeFromIds(ids);
        case UnigramImpl(u) =>
          text := u.DecodeFromIds(ids);
        case WordPieceImpl(w, _) =>
          text := w.DecodeFromIds(ids);
        case CharLevelImpl(c) =>
          text := c.DecodeFromIds(ids);
      }
    }

    /** `decode_batch`: one string per id list, in order. */
    method DecodeBatch(batch: seq<seq<int>>, skipSpecialTokens: bool) returns (texts: seq<Str>)
      requires Valid()
      ensures |texts| == |batch|
      ensures forall k :: 0 <= k < |batch| ==> texts[k] == ImplDecoded(batch[k])
    {
      texts := [];
      for i := 0 to |batch|
        invariant |texts| == i
        invariant forall k :: 0 <= k < i ==> texts[k] == ImplDecoded(batch[k])
      {
        var text := Decode(batch[i], skipSpecialTokens);
        texts := texts + [text];
      }
    }

    /** `add_special_tokens`: despite the name, plain `add_tokens`, each drawing a fresh id. */
    method AddSpecialTokens(tokens: seq<Str>)
      requires Valid()
      modifies vocab
      ensures Valid()
      ensures vocab.State() == WithTokens(old(vocab.State()), tokens)
    {
      vocab.AddTokens(tokens);
    }

    method Save(path: Str) returns (r: Result<()>)
      ensures r == Err("TokenizerAdvanced::save not implemented yet.")
    {
      return Err("TokenizerAdvanced::save not implemented yet.");
    }

    method Load(path: Str) returns (r: Result<()>)
      ensures r == Err("TokenizerAdvanced::load not implemented yet.")
    {
      return Err("TokenizerAdvanced::load not implemented yet.");
    }

    function GetVocabSize(): nat
      reads this, vocab
    {
      Size(vocab.State())
    }

    function TokenToId(token: Str): (id: int)
      reads this, vocab
      ensures Vocabulary.Valid(vocab.State()) ==> (id == -1 <==> !HasToken(vocab.State(), token))
    {
      GetTokenId(vocab.State(), token)
    }

    function IdToToken(id: int): (token: Str)
      reads this, vocab
      ensures Vocabulary.Valid(vocab.State()) ==> (token == [] <==> !HasId(vocab.State(), id))
    {
      GetToken(vocab.State(), id)
    }

    /**
     * `train`, dispatched on the model's algorithm as it is now. BPE trains into the shared
     * vocabulary and appends the rules to the model as "first second" strings; Unigram clears
     * the shared vocabulary and replaces it with the trainer's. Either way the implementation's
     * `set_vocab` then runs on the vocabulary, which for a BPE implementation wipes it back to
     * the specials. Any other algorithm is refused. The files are read from `files`.
     */
    method Train(paths: seq<Str>, files: map<Str, seq<Str>>, vocabSize: u64,
                 wordOrder: seq<Str>, byteOrder: seq<Str>, wordOrders: nat -> seq<Str>,
                 pairOrders: nat -> seq<(Str, Str)>, ranking: seq<Str>) returns (r: Result<()>)
      requires Valid()
      requires model.algorithm == BPE && vocabSize != 0 && (forall p :: p in paths ==> p in files) ==>
        BpeTraining.TrainOrders(config.(vocabSize := vocabSize), Norm(), NonEmpty(AllLines(paths, files)),
                  wordOrder, byteOrder, wordOrders, pairOrders)
      requires model.algorithm == UNIGRAM && (forall p :: p in paths ==> p in files) ==>
        UnigramRanking(config, Norm(), AllLines(paths, files), ranking)
      modifies this, vocab, model, impl.Objects()
      ensures Valid()
      ensures normalizer == old(normalizer) && postProcessor == old(postProcessor)
      ensures model.vocab == old(model.vocab) && model.scores == old(model.scores) && model.algorithm == old(model.algorithm)
      ensures r.Err? ==> vocab == old(vocab) && vocab.State() == old(vocab.State()) && model.merges == old(model.merges)
      ensures old(model.algorithm) !in {BPE, UNIGRAM} ==> r == Err("Training is not supported for this algorithm.")
      ensures old(model.algorithm) == BPE ==>
        && vocab == old(vocab)
        && BpeTrained(config, Norm(), impl, addedOrder, paths, files, vocabSize, wordOrder, byteOrder, wordOrders,
                      pairOrders, r, old(model.merges), model.merges, vocab.State())
      ensures old(model.algorithm) == UNIGRAM ==>
        && model.merges == old(model.merges)
        && (r.Ok? ==> fresh(vocab))
        && UnigramTrained(config, impl, addedOrder, paths, files, ranking, r, old(vocab).State(), vocab.State())
    {
      var algo := model.GetAlgorithm();
      if algo == BPE {
        r := TrainBpe(paths, files, vocabSize, wordOrder, byteOrder, wordOrders, pairOrders);
      } else if algo == UNIGRAM {
        r := TrainUnigram(paths, files, ranking);
      } else {
        return Err("Training is not supported for this algorithm.");
      }
    }

    /** The BPE branch of `train`, followed by the implementation's `set_vocab`. */
    method TrainBpe(paths: seq<Str>, files: map<Str, seq<Str>>, vocabSize: u64,
                    wordOrder: seq<Str>, byteOrder: seq<Str>, wordOrders: nat -> seq<Str>,
                    pairOrders: nat -> seq<(Str, Str)>) returns (r: Result<()>)
      requires Valid()
      requires vocabSize != 0 && (forall p :: p in paths ==> p in files) ==>
        BpeTraining.TrainOrders(config.(vocabSize := vocabSize), Norm(), NonEmpty(AllLines(paths, files)),
                  wordOrder, byteOrder, wordOrders, pairOrders)
      modifies vocab, model, impl.Objects()
      ensures Valid()
      ensures model.vocab == old(model.vocab) && model.scores == old(model.scores) && model.algorithm == old(model.algorithm)
      ensures r.Err? ==> vocab.State() == old(vocab.State()) && model.merges == old(model.merges)
      ensures BpeTrained(config, Norm(), impl, addedOrder, paths, files, vocabSize, wordOrder, byteOrder, wordOrders,
                         pairOrders, r, old(model.merges), model.merges, vocab.State())
    {
      var trained := LearnBpeRules(paths, files, vocabSize, wordOrder, byteOrder, wordOrders, pairOrders);
      if trained.Err? {
        return Err(trained.msg);
      }
      FinishBpe(trained.value);
      return Ok(());
    }

    /** The trainer run of `train` for BPE, on this tokenizer's configuration and shared vocabulary. */
    method LearnBpeRules(paths: seq<Str>, files: map<Str, seq<Str>>, vocabSize: u64,
                         wordOrder: seq<Str>, byteOrder: seq<Str>, wordOrders: nat -> seq<Str>,
                         pairOrders: nat -> seq<(Str, Str)>) returns (r: Result<seq<MergeRule>>)
      requires Valid()
      requires vocabSize != 0 && (forall p :: p in paths ==> p in files) ==>
        BpeTraining.TrainOrders(config.(vocabSize := vocabSize), Norm(), NonEmpty(AllLines(paths, files)),
                  wordOrder, byteOrder, wordOrders, pairOrders)
      modifies vocab
      ensures Valid()
      ensures r.Err? ==> vocab.State() == old(vocab.State())
      ensures vocabSize == 0 ==> r == Err("Vocabulary size must be positive")
      ensures vocabSize != 0 && paths == [] ==> r == Err("No file paths provided")
      ensures vocabSize != 0 && paths != [] && (exists p :: p in paths && p !in files) ==>
        r == Err("Failed to open file: " + FirstMissing(paths, files))
      ensures vocabSize != 0 && paths != [] && (forall p :: p in paths ==> p in files) ==>
        var corpus := NonEmpty(AllLines(paths, files));
        && (corpus == [] ==> r == Err("Empty corpus provided for training"))
        && (corpus != [] ==>
              var outcome := BpeOutcome(config.(vocabSize := vocabSize), Norm(), corpus,
                                        wordOrder, byteOrder, wordOrders, pairOrders);
              r == Ok(outcome.0) && vocab.State() == outcome.1)
    {
      r := RunBpeTrainer(config, vocabSize, paths, files, vocab, Norm(), wordOrder, byteOrder, wordOrders, pairOrders);
    }

    /** What `train` does after a BPE trainer has run: the rules go to the model, then `set_vocab`. */
    method FinishBpe(rules: seq<MergeRule>)
      requires Valid()
      modifies vocab, model, impl.Objects()
      ensures Valid()
      ensures model.merges == old(model.merges) + MergeStrings(rules)
      ensures model.vocab == old(model.vocab) && model.scores == old(model.scores) && model.algorithm == old(model.algorithm)
      ensures vocab.State() == AfterSetVocab(impl, config, addedOrder, old(vocab.State()))
    {
      assert forall o :: o in impl.Objects() ==> allocated(o) && o != this && o != vocab && o != model;
      AppendMerges(rules);
      SetImplVocab(vocab);
    }

    /** The loop of `train` that hands each new rule to `add_merge`. */
    method AppendMerges(rules: seq<MergeRule>)
      modifies model
      ensures model.merges == old(model.merges) + MergeStrings(rules)
      ensures model.vocab == old(model.vocab) && model.scores == old(model.scores) && model.algorithm == old(model.algorithm)
    {
      for k := 0 to |rules|
        invariant model.merges == old(model.merges) + MergeStrings(rules[..k])
        invariant model.vocab == old(model.vocab) && model.scores == old(model.scores) && model.algorithm == old(model.algorithm)
      {
        assert MergeStrings(rules[..k + 1]) == MergeStrings(rules[..k]) + [rules[k].first + " " + rules[k].second];
        model.AddMerge(rules[k].first + " " + rules[k].second);
      }
      assert rules[..|rules|] == rules;
    }

    /** The Unigram branch of `train`, followed by the implementation's `set_vocab`. */
    method TrainUnigram(paths: seq<Str>, files: map<Str, seq<Str>>, ranking: seq<Str>) returns (r: Result<()>)
      requires Valid()
      requires (forall p :: p in paths ==> p in files) ==> UnigramRanking(config, Norm(), AllLines(paths, files), ranking)
      modifies this, vocab, impl.Objects()
      ensures Valid()
      ensures normalizer == old(normalizer) && postProcessor == old(postProcessor)
      ensures r.Err? ==> vocab == old(vocab) && vocab.State() == old(vocab.State())
      ensures r.Ok? ==> fresh(vocab)
      ensures UnigramTrained(config, impl, addedOrder, paths, files, ranking, r, old(vocab).State(), vocab.State())
    {
      var trained, newVocab := RunUnigramTrainer(config, paths, files, Norm(), ranking);
      if trained.Err? {
        return trained;
      }
      FinishUnigram(newVocab);
      return Ok(());
    }

    /**
     * What `train` does after a Unigram trainer has run: the shared vocabulary is cleared and
     * replaced by the trainer's, which the implementation then adopts with `set_vocab`.
     */
    method FinishUnigram(v: Vocab)
      requires Valid() && v != vocab
      modifies this, vocab, v, impl.Objects()
      ensures Valid()
      ensures normalizer == old(normalizer) && postProcessor == old(postProcessor)
      ensures old(vocab).State() == EmptyVocab()
      ensures vocab == v && vocab.State() == AfterSetVocab(impl, config, addedOrder, old(v.State()))
    {
      assert forall o :: o in impl.Objects() ==> allocated(o) && o != this && o != vocab && o != v;
      ClearVocab();
      AdoptVocab(v);
    }

    /** `vocab_->clear()` on the shared vocabulary. */
    method ClearVocab()
      requires Valid()
      modifies vocab
      ensures Valid() && vocab.State() == EmptyVocab()
      ensures vocab == old(vocab) && normalizer == old(normalizer) && postProcessor == old(postProcessor)
    {
      assert forall o :: o in impl.Objects() ==> allocated(o) && o != vocab;
      vocab.Clear();
    }

    /** `vocab_ = new_vocab` followed by `tokenizer_impl_->set_vocab(vocab_)`. */
    method AdoptVocab(v: Vocab)
      requires Valid()
      modifies this, v, impl.Objects()
      ensures Valid() && vocab == v && v.State() == AfterSetVocab(impl, config, addedOrder, old(v.State()))
      ensures normalizer == old(normalizer) && postProcessor == old(postProcessor)
    {
      assert forall o :: o in impl.Objects() ==> allocated(o) && o != this && o != v;
      vocab := v;
      SetImplVocab(v);
    }

    /** `tokenizer_impl_->set_vocab(v)`: the implementation adopts `v` and registers its specials in it. */
    method SetImplVocab(v: Vocab)
      requires IsKeyOrder(addedOrder, config.addedTokens) && impl.SharedConfig() == config
      modifies v, impl.Objects()
      ensures impl.SharedVocab() == v && impl.SharedConfig() == old(impl.SharedConfig())
      ensures v.State() == AfterSetVocab(impl, config, addedOrder, old(v.State()))
      ensures impl.BpeImpl? ==> impl.bpe.mergeRules == old(impl.bpe.mergeRules) && impl.bpe.mergeRanks == old(impl.bpe.mergeRanks)
      ensures impl.WordPieceImpl? ==> impl.wordPiece.model == old(impl.wordPiece.model)
    {
      match impl {
        case BpeImpl(b) =>
          b.SetVocab(v);
        case UnigramImpl(u) =>
          u.SetVocab(v, addedOrder);
        case WordPieceImpl(w, _) =>
          w.SetVocab(v, addedOrder);
        case CharLevelImpl(c) =>
          c.SetVocab(v, addedOrder);
      }
    }

    /** `set_normalization_form`: changes the normalizer's form, when there is a normalizer. */
    method SetNormalizationForm(form: NormalizationForm)
      requires Valid()
      modifies this
      ensures Valid() && vocab == old(vocab) && postProcessor == old(postProcessor)
      ensures normalizer == if old(normalizer).Some? then Some(old(normalizer).value.(normalization := form)) else None
    {
      if normalizer.Some? {
        normalizer := Some(normalizer.value.(normalization := form));
      }
    }

    /** `set_strip_accents`: changes the normalizer's accent stripping, when there is a normalizer. */
    method SetStripAccents(strip: bool)
      requires Valid()
      modifies this
      ensures Valid() && vocab == old(vocab) && postProcessor == old(postProcessor)
      ensures normalizer == if old(normalizer).Some? then Some(old(normalizer).value.(stripAccents := strip)) else None
    {
      if normalizer.Some? {
        normalizer := Some(normalizer.value.(stripAccents := strip));
      }
    }

    /** `set_lowercase`: changes the normalizer's lowercasing, when there is a normalizer. */
    method SetLowercase(lowercase: bool)
      requires Valid()
      modifies this
      ensures Valid() && vocab == old(vocab) && postProcessor == old(postProcessor)
      ensures normalizer == if old(normalizer).Some? then Some(old(normalizer).value.(lowercase := lowercase)) else None
    {
      if normalizer.Some? {
        normalizer := Some(normalizer.value.(lowercase := lowercase));
      }
    }

    /**
     * `add_pre_tokenizer_pattern`: only a regex pre-tokenizer takes the pattern, with its
     * `regex_error` when the pattern does not compile; others ignore it.
     */
    method AddPreTokenizerPattern(pattern: Str) returns (r: Result<()>)
      requires Valid()
      modifies preTokenizer.Objects()
      ensures Valid()
      ensures !preTokenizer.RegexSlot? ==> r == Ok(())
      ensures preTokenizer.RegexSlot? ==>
        preTokenizer.regex.config.preTokenizerPatterns == old(preTokenizer.regex.config.preTokenizerPatterns) + [pattern]
      ensures preTokenizer.RegexSlot? ==>
        r == if PreTokenizing.AllCompile(preTokenizer.regex.config.preTokenizerPatterns, preTokenizer.regex.compiles)
             then Ok(()) else Err(PreTokenizing.RegexError)
      ensures preTokenizer.RegexSlot? && PreTokenizing.AllCompile(old(preTokenizer.regex.config.preTokenizerPatterns), preTokenizer.regex.compiles) ==>
        preTokenizer.regex.patterns == old(preTokenizer.regex.patterns) + (if preTokenizer.regex.compiles(pattern) then [pattern] else [])
    {
      match preTokenizer {
        case RegexSlot(rp) =>
          assert rp !in impl.Objects();
          r := rp.AddPattern(pattern);
        case _ =>
          r := Ok(());
      }
    }

    /** `create_bert_post_processor`: a BERT processor over the current vocabulary; the flag is ignored. */
    method CreateBertPostProcessor(addSpecialTokens: bool)
      requires Valid()
      modifies this
      ensures Valid() && vocab == old(vocab) && normalizer == old(normalizer)
      ensures postProcessor == SingleSlot(PostProcessing.NewBert(config, vocab.State()))
    {
      postProcessor := SingleSlot(PostProcessing.NewBert(config, vocab.State()));
    }
  }

  /** The mask rows for a list of id rows: one row of ones per id row, of the same length. */
  function MaskRows(rows: seq<seq<int>>): (masks: seq<seq<int>>)
    ensures |masks| == |rows|
    ensures forall k :: 0 <= k < |rows| ==> |masks[k]| == |rows[k]| && forall i :: 0 <= i < |rows[k]| ==> masks[k][i] == 1
  {
    seq(|rows|, k requires 0 <= k < |rows| => Ones(|rows[k]|))
  }

  /**
   * One turn of `encode_batch`'s loop: when the single encoding has ids, its first row of ids,
   * of mask (when asked and present), of token types (when asked and present) and of offsets
   * (when present) join the batch, with the length of its ids.
   */
  function Merged(batch: BatchEncoding, single: BatchEncoding, options: TokenizationOptions): BatchEncoding
  {
    if single.inputIds == [] then batch
    else batch.(
      inputIds := batch.inputIds + [single.inputIds[0]],
      attentionMask := if options.returnAttentionMask && single.attentionMask != []
                       then batch.attentionMask + [single.attentionMask[0]] else batch.attentionMask,
      tokenTypeIds := if options.returnTokenTypeIds && single.tokenTypeIds != []
                      then batch.tokenTypeIds + [single.tokenTypeIds[0]] else batch.tokenTypeIds,
      offsetMapping := if single.offsetMapping != []
                       then batch.offsetMapping + [single.offsetMapping[0]] else batch.offsetMapping,
      length := batch.length + [|single.inputIds[0]|])
  }

  /** `encode_batch` over the outcomes of `encode`: merged in order, the first error propagated. */
  function Batched(singles: seq<Result<BatchEncoding>>, options: TokenizationOptions): Result<BatchEncoding>
    decreases |singles|
  {
    if singles == [] then Ok(EmptyEncoding())
    else
      var before := Batched(singles[..|singles| - 1], options);
      var last := singles[|singles| - 1];
      if before.Err? then before
      else if last.Err? then Err(last.msg)
      else Ok(Merged(before.value, last.value, options))
  }

  /** `encode`'s result for each outcome of the id pipeline. */
  function EncodedAll(results: seq<Result<seq<int>>>, options: TokenizationOptions): (singles: seq<Result<BatchEncoding>>)
    ensures |singles| == |results|
    ensures forall k :: 0 <= k < |results| ==> singles[k] == Encoded(results[k], options)
  {
    seq(|results|, k requires 0 <= k < |results| => Encoded(results[k], options))
  }

  lemma RunAllSnoc(p: Pipeline, texts: seq<Str>, i: nat, options: TokenizationOptions)
    requires p.splitter.Ready() && i < |texts|
    ensures EncodedAll(RunAll(p, texts[..i + 1]), options) ==
            EncodedAll(RunAll(p, texts[..i]), options) + [Encoded(Run(p, texts[i]), options)]
  {
  }

  lemma RunAllPrefix(p: Pipeline, texts: seq<Str>, n: nat, options: TokenizationOptions)
    requires p.splitter.Ready() && n <= |texts|
    ensures EncodedAll(RunAll(p, texts), options)[..n] == EncodedAll(RunAll(p, texts[..n]), options)
  {
  }

  lemma BatchedSnoc(singles: seq<Result<BatchEncoding>>, last: Result<BatchEncoding>, options: TokenizationOptions)
    ensures Batched(singles + [last], options) ==
      if Batched(singles, options).Err? then Batched(singles, options)
      else if last.Err? then Err(last.msg)
      else Ok(Merged(Batched(singles, options).value, last.value, options))
  {
    assert (singles + [last])[..|singles|] == singles;
  }

  /** Once a prefix of the outcomes has failed, the batch fails with the same error. */
  lemma {:induction false} BatchedStop(singles: seq<Result<BatchEncoding>>, n: nat, options: TokenizationOptions)
    requires n <= |singles| && Batched(singles[..n], options).Err?
    ensures Batched(singles, options) == Batched(singles[..n], options)
    decreases |singles|
  {
    if n < |singles| {
      assert singles[..|singles| - 1][..n] == singles[..n];
      BatchedStop(singles[..|singles| - 1], n, options);
    } else {
      assert singles[..n] == singles;
    }
  }

  /**
   * Whether `encode_batch` fails, given `encode`'s id outcome for each text: it fails exactly
   * when some text fails, and then with the first failure's message.
   */
  lemma {:induction false} BatchedOutcome(results: seq<Result<seq<int>>>, options: TokenizationOptions)
    ensures var b := Batched(EncodedAll(results, options), options);
      && (b.Ok? <==> forall k :: 0 <= k < |results| ==> results[k].Ok?)
      && (b.Err? ==> exists k :: 0 <= k < |results| && results[k] == Err(b.msg) && forall j :: 0 <= j < k ==> results[j].Ok?)
    decreases |results|
  {
    if results != [] {
      var n := |results| - 1;
      var init := results[..n];
      BatchedOutcome(init, options);
      assert EncodedAll(results, options) == EncodedAll(init, options) + [Encoded(results[n], options)];
      BatchedSnoc(EncodedAll(init, options), Encoded(results[n], options), options);
    }
  }

  /**
   * The shape of a batch merged from successful encodings: the length of each row of ids, a
   * row of ones per row of ids when the mask is asked for (and no mask rows otherwise), and no
   * token type ids or offsets.
   */
  ghost predicate WellFormedBatch(b: BatchEncoding, options: TokenizationOptions)
  {
    && |b.length| == |b.inputIds|
    && (forall k :: 0 <= k < |b.inputIds| ==> b.length[k] == |b.inputIds[k]|)
    && b.attentionMask == (if options.returnAttentionMask then MaskRows(b.inputIds) else [])
    && b.tokenTypeIds == [] && b.offsetMapping == []
  }

  /** Merging one more successful encoding appends its ids and keeps the batch's shape. */
  lemma MergedRow(rows: BatchEncoding, ids: seq<int>, options: TokenizationOptions)
    requires WellFormedBatch(rows, options)
    ensures var b := Merged(rows, Encoding(ids, options), options);
      b.inputIds == rows.inputIds + [ids] && WellFormedBatch(b, options)
  {
    assert MaskRows(rows.inputIds + [ids]) == MaskRows(rows.inputIds) + [Ones(|ids|)];
  }

  /**
   * What a successful `encode_batch` holds, given `encode`'s id outcome for each text: one row
   * of ids per text, in order, in a well-formed batch.
   */
  lemma {:induction false} BatchedRows(results: seq<Result<seq<int>>>, options: TokenizationOptions)
    ensures var b := Batched(EncodedAll(results, options), options);
      b.Ok? ==>
        && |b.value.inputIds| == |results|
        && (forall k :: 0 <= k < |results| ==> results[k].Ok? && b.value.inputIds[k] == results[k].value)
        && WellFormedBatch(b.value, options)
    decreases |results|
  {
    if results != [] {
      var n := |results| - 1;
      var init := results[..n];
      BatchedRows(init, options);
      assert EncodedAll(results, options) == EncodedAll(init, options) + [Encoded(results[n], options)];
      BatchedSnoc(EncodedAll(init, options), Encoded(results[n], options), options);
      var before := Batched(EncodedAll(init, options), options);
      if before.Ok? && results[n].Ok? {
        var ids, rows := results[n].value, before.value;
        MergedRow(rows, ids, options);
        var b := Merged(rows, Encoding(ids, options), options);
        forall k | 0 <= k < |results|
          ensures results[k].Ok? && b.inputIds[k] == results[k].value
        {
          if k < n {
            assert results[k] == init[k];
          }
        }
      }
    }
  }

  /** The part of the constructor before its fields are set: the shared vocabulary, then the implementation. */
  method Assemble(c: TokenizerConfig, m: TokenizerModel, vocabOrder: seq<Str>, scoreOrder: seq<Str>, addedOrder: seq<Str>)
    returns (v: Vocab, impl: Implementation)
    requires IsKeyOrder(vocabOrder, m.vocab) && IsKeyOrder(scoreOrder, m.scores)
    requires IsKeyOrder(addedOrder, c.addedTokens)
    ensures fresh(v) && fresh(impl.Objects()) && impl.Algorithm() == m.algorithm
    ensures impl.SharedVocab() == v && impl.SharedConfig() == c
    ensures v.State() == AfterSetVocab(impl, c, addedOrder, Populated(c, m.vocab, vocabOrder, scoreOrder, addedOrder))
    ensures impl.BpeImpl? ==> impl.bpe.Valid() && impl.bpe.mergeRules == Bpe.ParseRules(m.merges)
    ensures impl.UnigramImpl? ==> impl.unigram.scores == m.scores
    ensures impl.WordPieceImpl? ==>
      && impl.wordPiece.model == impl.pieces
      && impl.pieces.vocab == m.vocab && impl.pieces.unkToken == c.unkToken && impl.pieces.maxInputCharsPerWord == 100
  {
    v := PopulateVocab(c, m, vocabOrder, scoreOrder, addedOrder);
    impl := BuildImpl(c, m, v, vocabOrder, addedOrder);
  }

  /**
   * The part of the constructor that fills a fresh vocabulary: the configured specials, the
   * model's tokens with their ids, the scored tokens with fresh ids, then the added tokens.
   */
  method PopulateVocab(c: TokenizerConfig, m: TokenizerModel, vocabOrder: seq<Str>, scoreOrder: seq<Str>,
                       addedOrder: seq<Str>) returns (v: Vocab)
    requires IsKeyOrder(vocabOrder, m.vocab) && IsKeyOrder(scoreOrder, m.scores)
    ensures fresh(v)
    ensures v.State() == Populated(c, m.vocab, vocabOrder, scoreOrder, addedOrder)
  {
    v := new Vocab();
    var _ := RegisterSpecials(v, ConfiguredSpecials(c));
    AddModelVocab(v, m.vocab, vocabOrder);
    AddScored(v, m.scores, scoreOrder);
    RegisterAll(v, addedOrder, CUSTOM);
  }

  /**
   * The constructor's switch on the model's algorithm: the concrete tokenizer for it, set up
   * from the model's data, and then given the shared vocabulary `v`.
   */
  method BuildImpl(c: TokenizerConfig, m: TokenizerModel, v: Vocab, vocabOrder: seq<Str>, addedOrder: seq<Str>)
    returns (impl: Implementation)
    requires IsKeyOrder(vocabOrder, m.vocab) && IsKeyOrder(addedOrder, c.addedTokens)
    modifies v
    ensures fresh(impl.Objects()) && impl.Algorithm() == m.algorithm
    ensures impl.SharedVocab() == v && impl.SharedConfig() == c
    ensures v.State() == AfterSetVocab(impl, c, addedOrder, old(v.State()))
    ensures impl.BpeImpl? ==> impl.bpe.vocab == v && impl.bpe.config == c && impl.bpe.Valid()
    ensures impl.BpeImpl? ==> impl.bpe.mergeRules == Bpe.ParseRules(m.merges)
    ensures impl.UnigramImpl? ==> impl.unigram.vocab == v && impl.unigram.config == c && impl.unigram.scores == m.scores
    ensures impl.WordPieceImpl? ==>
      && impl.wordPiece.vocab == v && impl.wordPiece.config == c && impl.wordPiece.model == impl.pieces
      && impl.pieces.vocab == m.vocab && impl.pieces.unkToken == c.unkToken && impl.pieces.maxInputCharsPerWord == 100
    ensures impl.CharLevelImpl? ==> impl.charLevel.vocab == v && impl.charLevel.config == c
  {
    match m.algorithm {
      case BPE =>
        var b := BuildBpe(c, m.merges, v);
        impl := BpeImpl(b);
      case UNIGRAM =>
        var u := BuildUnigram(c, m.scores, v, addedOrder);
        impl := UnigramImpl(u);
      case WORDPIECE =>
        var w, wm := BuildWordPiece(c, m.vocab, v, vocabOrder, addedOrder);
        impl := WordPieceImpl(w, wm);
      case CHARLEVEL =>
        var ch := BuildCharLevel(c, v, addedOrder);
        impl := CharLevelImpl(ch);
    }
  }

  /** The BPE case of the constructor: the rules parsed from the model, then `set_vocab`. */
  method BuildBpe(c: TokenizerConfig, merges: seq<Str>, v: Vocab) returns (b: Bpe.BpeTokenizer)
    modifies v
    ensures fresh(b) && b.vocab == v && b.config == c && b.Valid() && b.mergeRules == Bpe.ParseRules(merges)
    ensures v.State() == SpecialVocab(c)
  {
    b := new Bpe.BpeTokenizer(c);
    b.SetMergeRules(merges);
    b.SetVocab(v);
  }

  /** The Unigram case of the constructor: the vocabulary and the model's scores, then `set_vocab`. */
  method BuildUnigram(c: TokenizerConfig, scores: map<Str, real>, v: Vocab, addedOrder: seq<Str>)
    returns (u: Unigram.UnigramTokenizer)
    requires IsKeyOrder(addedOrder, c.addedTokens)
    modifies v
    ensures fresh(u) && u.vocab == v && u.config == c && u.scores == scores
    ensures v.State() == WithSpecialsOfType(WithSpecials(old(v.State()), ConfiguredSpecials(c)), addedOrder, CUSTOM)
  {
    u := new Unigram.UnigramTokenizer(c, addedOrder);
    u.SetVocabAndScores(v, scores);
    u.SetVocab(v, addedOrder);
  }

  /**
   * The WordPiece case of the constructor: a model over the model's vocabulary with the
   * configured unknown token and a 100-character word limit, then `set_vocab`.
   */
  method BuildWordPiece(c: TokenizerConfig, mv: map<Str, int>, v: Vocab, vocabOrder: seq<Str>, addedOrder: seq<Str>)
    returns (w: WordPiece.WordPieceTokenizer, wm: WordPiece.WordPieceModel)
    requires IsKeyOrder(vocabOrder, mv) && IsKeyOrder(addedOrder, c.addedTokens)
    modifies v
    ensures fresh(w) && fresh(wm) && w.vocab == v && w.config == c && w.model == wm
    ensures wm.vocab == mv && wm.unkToken == c.unkToken && wm.maxInputCharsPerWord == 100
    ensures v.State() == WithSpecialsOfType(WithSpecials(old(v.State()), ConfiguredSpecials(c)), addedOrder, CUSTOM)
  {
    w := new WordPiece.WordPieceTokenizer(c, addedOrder);
    wm := new WordPiece.WordPieceModel();
    wm.Initialize(mv, c.unkToken, 100);
    w.SetWordPieceModel(wm, vocabOrder);
    w.SetVocab(v, addedOrder);
  }

  /** The character-level case of the constructor: `set_vocab` on a fresh tokenizer. */
  method BuildCharLevel(c: TokenizerConfig, v: Vocab, addedOrder: seq<Str>) returns (ch: CharLevel.CharLevelTokenizer)
    requires IsKeyOrder(addedOrder, c.addedTokens)
    modifies v
    ensures fresh(ch) && ch.vocab == v && ch.config == c
    ensures v.State() == WithSpecialsOfType(WithSpecials(old(v.State()), ConfiguredSpecials(c)), addedOrder, CUSTOM)
  {
    ch := new CharLevel.CharLevelTokenizer(c, addedOrder);
    ch.SetVocab(v, addedOrder);
  }


  /** The constructor's loop over the model's (token, id) pairs, `add_token_to_vocab` on each. */
  method AddModelVocab(v: Vocab, mv: map<Str, int>, order: seq<Str>)
    requires forall k :: 0 <= k < |order| ==> order[k] in mv
    modifies v
    ensures v.State() == WordPiece.WithModelVocab(old(v.State()), mv, order)
  {
    for k := 0 to |order|
      invariant WordPiece.WithModelVocab(old(v.State()), mv, order) == WordPiece.WithModelVocab(v.State(), mv, order[k..])
    {
      assert order[k..][1..] == order[k + 1..];
      v.AddToken(order[k], mv[order[k]]);
    }
  }

  /** The constructor's loop over the model's scored tokens, `add_token_with_score` on each. */
  method AddScored(v: Vocab, scores: map<Str, real>, order: seq<Str>)
    requires forall k :: 0 <= k < |order| ==> order[k] in scores
    modifies v
    ensures v.State() == WithTokens(old(v.State()), order)
  {
    for k := 0 to |order|
      invariant WithTokens(old(v.State()), order) == WithTokens(v.State(), order[k..])
    {
      assert order[k..][1..] == order[k + 1..];
      v.AddTokenWithScore(order[k], scores[order[k]], -1);
    }
  }
}
