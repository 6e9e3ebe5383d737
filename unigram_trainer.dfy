/**
 * The unigram trainer (unigram_trainer.cpp): it counts the chunks of every non-empty
 * normalized line (one UTF-8 character per chunk, or the whole line in regex mode), keeps the
 * chunks seen at least `min_frequency_` times, sorts them by decreasing frequency and adds at
 * most `max_tokens_` of them, after the special tokens, to a cleared vocabulary.
 */
module UnigramTraining {
  import opened Wrappers
  import opened Bytes
  import opened TokenTypes
  import opened Vocabulary
  import opened Config
  import opened SpecialTokens
  import opened Utf8
  import opened Seqs
  import opened Files

  function Min(a: nat, b: nat): nat
  {
    if a <= b then a else b
  }

  // ---- tokenize_text ----

  /** Character mode of `tokenize_text` from byte `i`: `text.substr(i, len)`, cut short at the end. */
  function Chunks(text: Str, i: nat): seq<Str>
    requires i <= |text|
    decreases |text| - i
  {
    if i == |text| then []
    else
      var end := Min(i + LenientLength(text[i]), |text|);
      [text[i..end]] + Chunks(text, end)
  }

  /** `tokenize_text`: the whole text in regex mode with a pattern, otherwise the chunks. */
  function TextTokens(useRegex: bool, pattern: Str, text: Str): seq<Str>
  {
    if useRegex && pattern != [] then [text] else Chunks(text, 0)
  }

  /** The chunks concatenate back to the text. */
  lemma {:induction false} ChunksConcat(text: Str, i: nat)
    requires i <= |text|
    ensures Concat(Chunks(text, i)) == text[i..]
    decreases |text| - i
  {
    if i < |text| {
      var end := Min(i + LenientLength(text[i]), |text|);
      ChunksConcat(text, end);
      var c: Str := text[i..end];
      ConcatCons(c, Chunks(text, end));
      assert text[i..] == c + text[end..];
    }
  }

  /**
   * Each chunk is 1 to 4 bytes long, exactly as many as its first byte announces, except that
   * the last may be cut short by the end of the text.
   */
  lemma {:induction false} ChunksLengths(text: Str, i: nat)
    requires i <= |text|
    ensures forall k :: 0 <= k < |Chunks(text, i)| ==>
      1 <= |Chunks(text, i)[k]| <= LenientLength(Chunks(text, i)[k][0])
    ensures forall k :: 0 <= k < |Chunks(text, i)| - 1 ==>
      |Chunks(text, i)[k]| == LenientLength(Chunks(text, i)[k][0])
    decreases |text| - i
  {
    if i < |text| {
      var end := Min(i + LenientLength(text[i]), |text|);
      ChunksLengths(text, end);
      var rest := Chunks(text, end);
      var cs := Chunks(text, i);
      var c: Str := text[i..end];
      assert cs == [c] + rest;
      assert |c| == end - i && c[0] == text[i];
      assert end == |text| ==> rest == [];
      forall k | 0 < k < |cs| ensures cs[k] == rest[k - 1] { }
    }
  }

  /** In character mode the chunks spell the text, each 1 to 4 bytes long. */
  lemma TextTokensSpec(useRegex: bool, pattern: Str, text: Str)
    ensures Concat(TextTokens(useRegex, pattern, text)) == text
    ensures useRegex && pattern != [] ==> TextTokens(useRegex, pattern, text) == [text]
    ensures !(useRegex && pattern != []) ==>
      forall k :: 0 <= k < |TextTokens(useRegex, pattern, text)| ==> 1 <= |TextTokens(useRegex, pattern, text)[k]| <= 4
  {
    if useRegex && pattern != [] {
      ConcatCons(text, []);
      assert [text] + [] == [text];
    } else {
      ChunksConcat(text, 0);
      ChunksLengths(text, 0);
    }
  }

  // ---- process_text ----

  function Count(freq: map<Str, nat>, t: Str): nat
  {
    if t in freq then freq[t] else 0
  }

  /** `frequencies[tok]++` for every non-empty token in order. */
  function Tally(freq: map<Str, nat>, toks: seq<Str>): map<Str, nat>
    decreases |toks|
  {
    if toks == [] then freq
    else
      var f := Tally(freq, toks[..|toks| - 1]);
      var t := toks[|toks| - 1];
      if t == [] then f else f[t := Count(f, t) + 1]
  }

  /**
   * Tallying adds, for each non-empty string, its number of occurrences to its count, and makes
   * a key of it exactly when it occurs; the empty string is never counted.
   */
  lemma {:induction false} TallySpec(freq: map<Str, nat>, toks: seq<Str>, t: Str)
    ensures t != [] ==> Count(Tally(freq, toks), t) == Count(freq, t) + multiset(toks)[t]
    ensures t != [] ==> (t in Tally(freq, toks) <==> t in freq || t in toks)
    ensures t == [] ==> (t in Tally(freq, toks) <==> t in freq)
    decreases |toks|
  {
    if toks != [] {
      var init := toks[..|toks| - 1];
      TallySpec(freq, init, t);
      assert toks == init + [toks[|toks| - 1]];
      assert multiset(toks) == multiset(init) + multiset{toks[|toks| - 1]};
    }
  }

  lemma {:induction false} TallyAppend(freq: map<Str, nat>, a: seq<Str>, b: seq<Str>)
    ensures Tally(freq, a + b) == Tally(Tally(freq, a), b)
    decreases |b|
  {
    if b == [] {
      assert a + b == a;
    } else {
      assert (a + b)[..|a + b| - 1] == a + b[..|b| - 1];
      TallyAppend(freq, a, b[..|b| - 1]);
    }
  }

  /** `process_text`: an empty line is skipped before normalization; otherwise its tokens are tallied. */
  function LineTally(useRegex: bool, pattern: Str, normalize: Str -> Str, freq: map<Str, nat>, line: Str): map<Str, nat>
  {
    if line == [] then freq else Tally(freq, TextTokens(useRegex, pattern, normalize(line)))
  }

  /** The frequencies gathered from a list of lines, in order. */
  function Frequencies(useRegex: bool, pattern: Str, normalize: Str -> Str, lines: seq<Str>): map<Str, nat>
    decreases |lines|
  {
    if lines == [] then map[]
    else LineTally(useRegex, pattern, normalize, Frequencies(useRegex, pattern, normalize, lines[..|lines| - 1]), lines[|lines| - 1])
  }

  /** All tokens of the non-empty lines, one line after the other. */
  function CorpusTokens(useRegex: bool, pattern: Str, normalize: Str -> Str, lines: seq<Str>): seq<Str>
    decreases |lines|
  {
    if lines == [] then []
    else
      var last := lines[|lines| - 1];
      CorpusTokens(useRegex, pattern, normalize, lines[..|lines| - 1])
        + (if last == [] then [] else TextTokens(useRegex, pattern, normalize(last)))
  }

  /**
   * The gathered frequency of every non-empty string is its number of occurrences among the
   * tokens of the non-empty lines; exactly the strings that occur are keys; "" never is.
   */
  lemma {:induction false} FrequenciesSpec(useRegex: bool, pattern: Str, normalize: Str -> Str, lines: seq<Str>, t: Str)
    ensures var freq := Frequencies(useRegex, pattern, normalize, lines);
      var toks := CorpusTokens(useRegex, pattern, normalize, lines);
      && (t in freq <==> t != [] && t in toks)
      && (t != [] ==> Count(freq, t) == multiset(toks)[t])
  {
    FrequenciesTally(useRegex, pattern, normalize, lines);
    TallySpec(map[], CorpusTokens(useRegex, pattern, normalize, lines), t);
  }

  lemma {:induction false} FrequenciesTally(useRegex: bool, pattern: Str, normalize: Str -> Str, lines: seq<Str>)
    ensures Frequencies(useRegex, pattern, normalize, lines) == Tally(map[], CorpusTokens(useRegex, pattern, normalize, lines))
    decreases |lines|
  {
    if lines != [] {
      var init := lines[..|lines| - 1];
      var last := lines[|lines| - 1];
      FrequenciesTally(useRegex, pattern, normalize, init);
      if last != [] {
        var tt := TextTokens(useRegex, pattern, normalize(last));
        assert CorpusTokens(useRegex, pattern, normalize, lines) == CorpusTokens(useRegex, pattern, normalize, init) + tt;
        assert Frequencies(useRegex, pattern, normalize, lines) == Tally(Frequencies(useRegex, pattern, normalize, init), tt);
        TallyAppend(map[], CorpusTokens(useRegex, pattern, normalize, init), tt);
      } else {
        var ct := CorpusTokens(useRegex, pattern, normalize, init);
        AppendNil(ct);
        assert CorpusTokens(useRegex, pattern, normalize, lines) == ct;
      }
    }
  }

  // ---- build_vocab ----

  /** The candidates of `build_vocab`: the strings whose frequency reaches the minimum. */
  function Candidates(freq: map<Str, nat>, minFrequency: nat): (m: map<Str, nat>)
    ensures forall t :: t in m <==> t in freq && freq[t] >= minFrequency
  {
    map t | t in freq && freq[t] >= minFrequency :: freq[t]
  }

  /**
   * One outcome of `std::sort` with the "greater frequency first" comparison: every candidate
   * once, by non-increasing frequency. The sort is not stable and the map's order is
   * unspecified, so equal frequencies may come in any order.
   */
  ghost predicate IsRanking(ranking: seq<Str>, cands: map<Str, nat>)
  {
    && IsKeyOrder(ranking, cands)
    && forall i, j :: 0 <= i < j < |ranking| ==> cands[ranking[i]] >= cands[ranking[j]]
  }

  /** The candidates actually added: the first `max_tokens_` of the ranking. */
  function Kept(ranking: seq<Str>, maxTokens: nat): seq<Str>
  {
    ranking[..Min(maxTokens, |ranking|)]
  }

  /** The vocabulary `build_vocab` leaves: the configured specials, then the kept candidates. */
  function TrainedVocab(c: TokenizerConfig, ranking: seq<Str>, maxTokens: nat): VocabState
  {
    WithTokens(SpecialVocab(c), Kept(ranking, maxTokens))
  }

  /**
   * What training yields: a valid, consistent vocabulary that holds every kept candidate and
   * nothing besides the specials and candidates, with at most `max_tokens_` tokens more than
   * the specials.
   */
  lemma TrainedVocabSpec(c: TokenizerConfig, freq: map<Str, nat>, minFrequency: nat, ranking: seq<Str>, maxTokens: nat)
    requires IsRanking(ranking, Candidates(freq, minFrequency))
    requires forall t :: t in freq ==> t != []
    ensures var r := TrainedVocab(c, ranking, maxTokens);
      && Valid(r) && Consistent(r)
      && Size(r) <= Size(SpecialVocab(c)) + maxTokens
      && (forall t :: t in Kept(ranking, maxTokens) ==> HasToken(r, t) && t in Candidates(freq, minFrequency))
      && (forall t :: HasToken(r, t) ==> HasToken(SpecialVocab(c), t) || t in Candidates(freq, minFrequency))
  {
    var kept := Kept(ranking, maxTokens);
    var r := TrainedVocab(c, ranking, maxTokens);
    WithSpecialsEffect(EmptyVocab(), ConfiguredSpecials(c));
    WithTokensEffect(SpecialVocab(c), kept);
    forall t | t in kept ensures HasToken(r, t) && t in Candidates(freq, minFrequency) {
      var k :| 0 <= k < |kept| && kept[k] == t;
      assert ranking[k] == t;
    }
    forall t | HasToken(r, t) ensures HasToken(SpecialVocab(c), t) || t in Candidates(freq, minFrequency) {
      WithTokensOnly(SpecialVocab(c), kept, t);
    }
  }

  /** With no more candidates than `max_tokens_`, every candidate is kept. */
  lemma KeptAll(cands: map<Str, nat>, ranking: seq<Str>, maxTokens: nat)
    requires IsRanking(ranking, cands) && |cands| <= maxTokens
    ensures forall t :: t in cands <==> t in Kept(ranking, maxTokens)
  {
    KeyOrderSize(ranking, cands);
    assert Kept(ranking, maxTokens) == ranking;
  }

  /** No candidate left out is more frequent than any candidate kept. */
  lemma KeptAreMostFrequent(cands: map<Str, nat>, ranking: seq<Str>, maxTokens: nat, t: Str, u: Str)
    requires IsRanking(ranking, cands)
    requires t in cands && t !in Kept(ranking, maxTokens) && u in Kept(ranking, maxTokens)
    ensures u in cands && cands[u] >= cands[t]
  {
    var kept := Kept(ranking, maxTokens);
    var i :| 0 <= i < |ranking| && ranking[i] == t;
    var j :| 0 <= j < |kept| && kept[j] == u;
    assert ranking[j] == u;
    assert i >= |kept|;
  }

  class UnigramTrainer {
    var config: TokenizerConfig
    var minFrequency: u64
    var maxTokens: u64
    var useRegex: bool
    var regexPattern: Str
    var vocab: Vocab

    /**
     * The default constructor: minimum frequency 2, at most 30000 tokens, no regex, and a
     * configuration with those values, an empty pattern, no normalization form, no accent
     * stripping and no lowercasing.
     */
    constructor ()
      ensures minFrequency == 2 && maxTokens == 30000 && !useRegex && regexPattern == []
      ensures config == Default().(minFrequency := 2, maxTokens := 30000, useRegex := false, regexPattern := [],
                                   normalization := NONE, stripAccents := false, lowercase := false)
      ensures fresh(vocab) && vocab.State() == EmptyVocab()
    {
      minFrequency := 2;
      maxTokens := 30000;
      useRegex := false;
      regexPattern := [];
      vocab := new Vocab();
      config := Default().(minFrequency := 2, maxTokens := 30000, useRegex := false, regexPattern := [],
                           normalization := NONE, stripAccents := false, lowercase := false);
    }

    /** The constructor from a configuration: the settings are copied from it. */
    constructor FromConfig(c: TokenizerConfig)
      ensures config == c && minFrequency == c.minFrequency && maxTokens == c.maxTokens
      ensures useRegex == c.useRegex && regexPattern == c.regexPattern
      ensures fresh(vocab) && vocab.State() == EmptyVocab()
    {
      config := c;
      minFrequency := c.minFrequency;
      maxTokens := c.maxTokens;
      useRegex := c.useRegex;
      regexPattern := c.regexPattern;
      vocab := new Vocab();
    }

    /** `set_config`: the configuration and every setting taken from it. */
    method SetConfig(c: TokenizerConfig)
      modifies this
      ensures config == c && minFrequency == c.minFrequency && maxTokens == c.maxTokens
      ensures useRegex == c.useRegex && regexPattern == c.regexPattern && vocab == old(vocab)
    {
      config := c;
      minFrequency := c.minFrequency;
      maxTokens := c.maxTokens;
      useRegex := c.useRegex;
      regexPattern := c.regexPattern;
    }

    /** `set_min_frequency`: 0 is refused; otherwise the field and the configuration both change. */
    method SetMinFrequency(freq: u64) returns (r: Result<()>)
      modifies this
      ensures freq == 0 ==> r == Err("Minimum frequency must be >= 1") && unchanged(this)
      ensures freq != 0 ==> r == Ok(()) && minFrequency == freq && config == old(config).(minFrequency := freq)
      ensures maxTokens == old(maxTokens) && useRegex == old(useRegex) && regexPattern == old(regexPattern) && vocab == old(vocab)
    {
      if freq == 0 {
        return Err("Minimum frequency must be >= 1");
      }
      minFrequency := freq;
      config := config.(minFrequency := freq);
      return Ok(());
    }

    /** `set_max_tokens`: 0 is refused; otherwise the field and the configuration both change. */
    method SetMaxTokens(max: u64) returns (r: Result<()>)
      modifies this
      ensures max == 0 ==> r == Err("Maximum tokens must be >= 1") && unchanged(this)
      ensures max != 0 ==> r == Ok(()) && maxTokens == max && config == old(config).(maxTokens := max)
      ensures minFrequency == old(minFrequency) && useRegex == old(useRegex) && regexPattern == old(regexPattern) && vocab == old(vocab)
    {
      if max == 0 {
        return Err("Maximum tokens must be >= 1");
      }
      maxTokens := max;
      config := config.(maxTokens := max);
      return Ok(());
    }

    /** `set_use_regex`. */
    method SetUseRegex(use: bool)
      modifies this
      ensures useRegex == use && config == old(config).(useRegex := use)
      ensures minFrequency == old(minFrequency) && maxTokens == old(maxTokens) && regexPattern == old(regexPattern) && vocab == old(vocab)
    {
      useRegex := use;
      config := config.(useRegex := use);
    }

    /** `set_regex_pattern`. */
    method SetRegexPattern(pattern: Str)
      modifies this
      ensures regexPattern == pattern && config == old(config).(regexPattern := pattern)
      ensures minFrequency == old(minFrequency) && maxTokens == old(maxTokens) && useRegex == old(useRegex) && vocab == old(vocab)
    {
      regexPattern := pattern;
      config := config.(regexPattern := pattern);
    }

    /** `tokenize_text`. */
    method TokenizeText(text: Str) returns (tokens: seq<Str>)
      ensures tokens == TextTokens(useRegex, regexPattern, text)
    {
      if useRegex && regexPattern != [] {
        return [text];
      }
      tokens := [];
      var i := 0;
      while i < |text|
        invariant 0 <= i <= |text|
        invariant tokens + Chunks(text, i) == Chunks(text, 0)
        decreases |text| - i
      {
        var len := LenientLength(text[i]);
        var end := Min(i + len, |text|);
        AppendCons(tokens, text[i..end], Chunks(text, end));
        tokens := tokens + [text[i..end]];
        i := end;
      }
      AppendNil(tokens);
    }

    /** `process_text`: the counts of the line's non-empty tokens incremented in place. */
    method ProcessText(line: Str, freq: map<Str, nat>, normalize: Str -> Str) returns (counts: map<Str, nat>)
      ensures counts == LineTally(useRegex, regexPattern, normalize, freq, line)
    {
      if line == [] {
        return freq;
      }
      var tokens := TokenizeText(normalize(line));
      counts := freq;
      for k := 0 to |tokens|
        invariant counts == Tally(freq, tokens[..k])
      {
        assert tokens[..k + 1][..k] == tokens[..k];
        if tokens[k] != [] {
          counts := counts[tokens[k] := Count(counts, tokens[k]) + 1];
        }
      }
      assert tokens[..|tokens|] == tokens;
    }

    /**
     * `build_vocab`: the vocabulary is cleared, the specials registered (the vocabulary ignores
     * the empty ones), then the first `max_tokens_` entries of `ranking` added.
     */
    method BuildVocab(freq: map<Str, nat>, ranking: seq<Str>)
      requires IsRanking(ranking, Candidates(freq, minFrequency))
      modifies vocab
      ensures vocab.State() == TrainedVocab(config, ranking, maxTokens)
    {
      RegisterConfiguredSpecials();
      AddRanked(ranking);
    }

    /** The second half of `build_vocab`: `add_token` on the ranked candidates until `max_tokens_` calls. */
    method AddRanked(ranking: seq<Str>)
      modifies vocab
      ensures vocab.State() == WithTokens(old(vocab.State()), Kept(ranking, maxTokens))
    {
      ghost var start := vocab.State();
      var countAdded: u64 := 0;
      var k := 0;
      while k < |ranking|
        invariant 0 <= k <= |ranking| && countAdded as int == k && k <= Min(maxTokens, |ranking|)
        invariant vocab.State() == WithTokens(start, ranking[..k])
        decreases |ranking| - k
      {
        if countAdded >= maxTokens {
          break;
        }
        TakeSnoc(ranking, k);
        WithTokensSnoc(start, ranking[..k], ranking[k]);
        vocab.AddToken(ranking[k], -1);
        countAdded := countAdded + 1;
        k := k + 1;
      }
      assert k == Min(maxTokens, |ranking|);
    }

    /** The first half of `build_vocab`: cleared, then UNK, PAD, BOS, EOS and the non-empty MASK, SEP, CLS. */
    method RegisterConfiguredSpecials()
      modifies vocab
      ensures vocab.State() == SpecialVocab(config)
    {
      vocab.Clear();
      vocab.AddSpecialToken(config.unkToken, UNK);
      vocab.AddSpecialToken(config.padToken, PAD);
      vocab.AddSpecialToken(config.bosToken, BOS);
      vocab.AddSpecialToken(config.eosToken, EOS);
      if config.maskToken != [] {
        vocab.AddSpecialToken(config.maskToken, MASK);
      }
      if config.sepToken != [] {
        vocab.AddSpecialToken(config.sepToken, SEP);
      }
      if config.clsToken != [] {
        vocab.AddSpecialToken(config.clsToken, CLS);
      }
      SpecialVocabSteps(config);
    }

    /**
     * `train`: an empty list of lines is refused before anything changes; otherwise the
     * frequencies of all lines are gathered and the vocabulary rebuilt from them. The order in
     * which `std::sort` leaves the candidates is the parameter `ranking`.
     */
    method Train(texts: seq<Str>, normalize: Str -> Str, ranking: seq<Str>) returns (r: Result<()>)
      requires IsRanking(ranking, Candidates(Frequencies(useRegex, regexPattern, normalize, texts), minFrequency))
      modifies vocab
      ensures texts == [] ==> r == Err("Empty corpus provided for UnigramTrainer::train") && vocab.State() == old(vocab.State())
      ensures texts != [] ==> r == Ok(()) && vocab.State() == TrainedVocab(config, ranking, maxTokens)
    {
      if texts == [] {
        return Err("Empty corpus provided for UnigramTrainer::train");
      }
      var freq := GatherFrequencies(texts, normalize);
      BuildVocab(freq, ranking);
      return Ok(());
    }

    /**
     * `train_from_files`: an empty list of paths is refused; a path that cannot be opened
     * (absent from `files`, which maps each readable path to its lines) is refused with its
     * name, before the vocabulary changes; otherwise the lines of all files are counted in
     * order and the vocabulary rebuilt.
     */
    method TrainFromFiles(paths: seq<Str>, files: map<Str, seq<Str>>, normalize: Str -> Str, ranking: seq<Str>)
      returns (r: Result<()>)
      requires (forall p :: p in paths ==> p in files) ==>
        IsRanking(ranking, Candidates(Frequencies(useRegex, regexPattern, normalize, AllLines(paths, files)), minFrequency))
      modifies vocab
      ensures paths == [] ==>
        r == Err("No file paths provided for UnigramTrainer::train_from_files") && vocab.State() == old(vocab.State())
      ensures paths != [] && (exists p :: p in paths && p !in files) ==>
        r == Err("Failed to open training file: " + FirstMissing(paths, files)) && vocab.State() == old(vocab.State())
      ensures paths != [] && (forall p :: p in paths ==> p in files) ==>
        r == Ok(()) && vocab.State() == TrainedVocab(config, ranking, maxTokens)
    {
      if paths == [] {
        return Err("No file paths provided for UnigramTrainer::train_from_files");
      }
      var read := ReadAll(paths, files);
      if read.Err? {
        return Err(read.msg);
      }
      var freq := GatherFrequencies(read.value, normalize);
      BuildVocab(freq, ranking);
      return Ok(());
    }

    /**
     * `train_from_file`: a path that cannot be opened is refused with its name; otherwise the
     * file's lines are counted and the vocabulary rebuilt, even from an empty file.
     */
    method TrainFromFile(path: Str, files: map<Str, seq<Str>>, normalize: Str -> Str, ranking: seq<Str>)
      returns (r: Result<()>)
      requires path in files ==>
        IsRanking(ranking, Candidates(Frequencies(useRegex, regexPattern, normalize, files[path]), minFrequency))
      modifies vocab
      ensures path !in files ==> r == Err("Failed to open training file: " + path) && vocab.State() == old(vocab.State())
      ensures path in files ==> r == Ok(()) && vocab.State() == TrainedVocab(config, ranking, maxTokens)
    {
      if path !in files {
        return Err("Failed to open training file: " + path);
      }
      var freq := GatherFrequencies(files[path], normalize);
      BuildVocab(freq, ranking);
      return Ok(());
    }

    /** The loop shared by the training entry points: `process_text` on every line in order. */
    method GatherFrequencies(lines: seq<Str>, normalize: Str -> Str) returns (freq: map<Str, nat>)
      ensures freq == Frequencies(useRegex, regexPattern, normalize, lines)
    {
      freq := map[];
      for k := 0 to |lines|
        invariant freq == Frequencies(useRegex, regexPattern, normalize, lines[..k])
      {
        assert lines[..k + 1][..k] == lines[..k];
        freq := ProcessText(lines[k], freq, normalize);
      }
      assert lines[..|lines|] == lines;
    }
  }

  /**
   * The reading half of `train_from_files`: the lines of every file in order, or the error for
   * the first path that cannot be opened.
   */
  method ReadAll(paths: seq<Str>, files: map<Str, seq<Str>>) returns (r: Result<seq<Str>>)
    ensures (exists p :: p in paths && p !in files) ==> r == Err("Failed to open training file: " + FirstMissing(paths, files))
    ensures (forall p :: p in paths ==> p in files) ==> r == Ok(AllLines(paths, files))
  {
    var lines: seq<Str> := [];
    for k := 0 to |paths|
      invariant forall j :: 0 <= j < k ==> paths[j] in files
      invariant lines == AllLines(paths[..k], files)
    {
      if paths[k] !in files {
        FirstMissingAt(paths, files, k);
        return Err("Failed to open training file: " + paths[k]);
      }
      assert paths[..k + 1][..k] == paths[..k];
      lines := lines + files[paths[k]];
    }
    assert paths[..|paths|] == paths;
    return Ok(lines);
  }

  /**
   * `build_vocab`'s seven registrations equal `SpecialVocab`: registering an empty text is a
   * no-op, so guarding MASK, SEP and CLS changes nothing.
   */
  lemma SpecialVocabSteps(c: TokenizerConfig)
    ensures SpecialVocab(c) ==
      WithSpecialToken(WithSpecialToken(WithSpecialToken(WithSpecialToken(WithSpecialToken(WithSpecialToken(
        WithSpecialToken(EmptyVocab(), c.unkToken, UNK), c.padToken, PAD), c.bosToken, BOS), c.eosToken, EOS),
        c.maskToken, MASK), c.sepToken, SEP), c.clsToken, CLS)
  {
    var ps := ConfiguredSpecials(c);
    var v0 := WithSpecialToken(EmptyVocab(), c.unkToken, UNK);
    assert SpecialVocab(c) == WithSpecials(v0, ps[1..]);
    var v1 := WithSpecialToken(v0, c.padToken, PAD);
    assert ps[1..][1..] == ps[2..];
    assert WithSpecials(v0, ps[1..]) == WithSpecials(v1, ps[2..]);
    var v2 := WithSpecialToken(v1, c.bosToken, BOS);
    assert ps[2..][1..] == ps[3..];
    assert WithSpecials(v1, ps[2..]) == WithSpecials(v2, ps[3..]);
    var v3 := WithSpecialToken(v2, c.eosToken, EOS);
    assert ps[3..][1..] == ps[4..];
    assert WithSpecials(v2, ps[3..]) == WithSpecials(v3, ps[4..]);
    var v4 := WithSpecialToken(v3, c.maskToken, MASK);
    assert ps[4..][1..] == ps[5..];
    assert WithSpecials(v3, ps[4..]) == WithSpecials(v4, ps[5..]);
    var v5 := WithSpecialToken(v4, c.sepToken, SEP);
    assert ps[5..][1..] == ps[6..];
    assert WithSpecials(v4, ps[5..]) == WithSpecials(v5, ps[6..]);
    var v6 := WithSpecialToken(v5, c.clsToken, CLS);
    assert ps[6..][1..] == ps[7..];
    assert WithSpecials(v5, ps[6..]) == WithSpecials(v6, ps[7..]);
  }
}
