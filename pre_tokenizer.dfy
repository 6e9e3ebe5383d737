/**
 * The pre-tokenizers (pre_tokenizer.cpp, byte_level_pre_tokenizer.cpp): they cut a text into the
 * pieces a model then tokenizes.
 *
 * The regex pre-tokenizer keeps its own copy of the configuration and one compiled regex per
 * configured pattern. With no pattern it splits on runs of whitespace. Otherwise each pattern
 * in turn cuts the current text into the text before each match, the match itself and the text
 * after the last match; the pieces of one pass, joined again, are the text of the next pass.
 *
 * The regex engine is a parameter: `find(pattern, text)` lists the matches of `pattern` in
 * `text` as (position, length) pairs, in the order `std::sregex_iterator` visits them.
 */
module PreTokenizing {
  import opened Bytes
  import opened Config
  import Seqs
  import opened Wrappers

  type Finder = (Str, Str) -> seq<(nat, nat)>

  /** Matches in order, none overlapping the one before, all inside a text of length `n`. */
  predicate Ordered(ms: seq<(nat, nat)>, n: nat)
  {
    forall k :: 0 <= k < |ms| ==> ms[k].0 + ms[k].1 <= n && (k > 0 ==> ms[k - 1].0 + ms[k - 1].1 <= ms[k].0)
  }

  /** The regex engine never reports a match out of order or outside the text. */
  ghost predicate FinderOrdered(find: Finder)
  {
    forall p, t :: Ordered(find(p, t), |t|)
  }

  /** `last_pos` after the first `k` matches. */
  function End(ms: seq<(nat, nat)>, k: nat): nat
    requires k <= |ms|
  {
    if k == 0 then 0 else ms[k - 1].0 + ms[k - 1].1
  }

  /** The text skipped before match `k`, when there is any. */
  function Before(text: Str, ms: seq<(nat, nat)>, k: nat): seq<Str>
    requires k < |ms| && Ordered(ms, |text|)
  {
    if ms[k].0 > End(ms, k) then [text[End(ms, k)..ms[k].0]] else []
  }

  /** The pieces pushed for the first `k` matches: each skipped gap, then the match. */
  function Pieces(text: Str, ms: seq<(nat, nat)>, k: nat): seq<Str>
    requires k <= |ms| && Ordered(ms, |text|)
  {
    if k == 0 then []
    else Pieces(text, ms, k - 1) + Before(text, ms, k - 1) + [text[ms[k - 1].0..End(ms, k)]]
  }

  /** One pass of a pattern: the pieces of all matches, then the rest of the text if any. */
  function Split(text: Str, ms: seq<(nat, nat)>): seq<Str>
    requires Ordered(ms, |text|)
  {
    Pieces(text, ms, |ms|) + Tail(text, ms)
  }

  /** The pieces of the first `k` matches spell the text up to the end of match `k`. */
  lemma {:induction false} PiecesConcat(text: Str, ms: seq<(nat, nat)>, k: nat)
    requires k <= |ms| && Ordered(ms, |text|)
    ensures Concat(Pieces(text, ms, k)) == text[..End(ms, k)]
  {
    if k > 0 {
      var e0 := End(ms, k - 1);
      var st := ms[k - 1].0;
      var e1 := End(ms, k);
      var before := Pieces(text, ms, k - 1);
      var gap := Before(text, ms, k - 1);
      var m := text[st..e1];
      assert Pieces(text, ms, k) == before + gap + [m];
      PiecesConcat(text, ms, k - 1);
      ConcatAppend(before + gap, [m]);
      ConcatAppend(before, gap);
      ConcatSingle(m);
      if st > e0 {
        ConcatSingle(text[e0..st]);
        SliceJoin(text, e0, st, e1);
      } else {
        assert Concat(gap) == [];
        SliceJoin(text, e0, e0, e1);
      }
    }
  }

  lemma SliceJoin<T>(s: seq<T>, a: nat, b: nat, c: nat)
    requires a <= b <= c <= |s|
    ensures s[..a] + s[a..b] + s[b..c] == s[..c]
  {
    assert s[..c] == s[..a] + s[a..b] + s[b..c];
  }

  /** The text after the last match, when there is any. */
  function Tail(text: Str, ms: seq<(nat, nat)>): seq<Str>
    requires Ordered(ms, |text|)
  {
    if End(ms, |ms|) < |text| then [text[End(ms, |ms|)..]] else []
  }

  lemma ConcatSingle(s: Str)
    ensures Concat([s]) == s
  {
    assert [s][..0] == [];
  }

  lemma TakeDrop<T>(s: seq<T>, e: nat)
    requires e <= |s|
    ensures s[..e] + s[e..] == s
  {
  }

  /** A pass loses nothing and adds nothing: its pieces spell the text again. */
  lemma SplitConcat(text: Str, ms: seq<(nat, nat)>)
    requires Ordered(ms, |text|)
    ensures Concat(Split(text, ms)) == text
  {
    var e := End(ms, |ms|);
    var pieces := Pieces(text, ms, |ms|);
    var tail := Tail(text, ms);
    assert Split(text, ms) == pieces + tail;
    PiecesConcat(text, ms, |ms|);
    ConcatAppend(pieces, tail);
    if e < |text| {
      ConcatSingle(text[e..]);
      TakeDrop(text, e);
    } else {
      assert Concat(tail) == [];
      Seqs.AppendNil(text[..e]);
    }
  }

  /**
   * The passes of `pre_tokenize`, pattern after pattern: the text each pass starts from and the
   * pieces the last pass produced.
   */
  function Passes(ps: seq<Str>, find: Finder, text: Str): (Str, seq<Str>)
    requires FinderOrdered(find)
    decreases |ps|
  {
    if ps == [] then (text, [])
    else
      var current := Passes(ps[..|ps| - 1], find, text).0;
      var tokens := Split(current, find(ps[|ps| - 1], current));
      (Concat(tokens), tokens)
  }

  /**
   * Since a pass spells its text again, every pass starts from the original text: only the
   * last pattern decides the pieces.
   */
  lemma {:induction false} PassesLast(ps: seq<Str>, find: Finder, text: Str)
    requires FinderOrdered(find)
    ensures Passes(ps, find, text).0 == text
    ensures ps != [] ==> Passes(ps, find, text).1 == Split(text, find(ps[|ps| - 1], text))
    decreases |ps|
  {
    if ps != [] {
      PassesLast(ps[..|ps| - 1], find, text);
      SplitConcat(text, find(ps[|ps| - 1], text));
    }
  }

  /** `handle_special_cases`: every token stays as it is. */
  function HandleSpecialCases(token: Str): seq<Str>
  {
    [token]
  }

  /** `pre_tokenize`: whitespace-separated words without patterns, the passes' pieces with them. */
  function PreTokenized(ps: seq<Str>, find: Finder, text: Str): seq<Str>
    requires FinderOrdered(find)
  {
    if ps == [] then Words(text) else Passes(ps, find, text).1
  }

  /**
   * What a pre-tokenization is: without patterns, the words of the text, which hold no
   * whitespace and spell the text without its whitespace; with patterns, the pieces of the last
   * pattern's pass, which spell the text exactly.
   */
  lemma PreTokenizedSpec(ps: seq<Str>, find: Finder, text: Str)
    requires FinderOrdered(find)
    ensures ps == [] ==> Concat(PreTokenized(ps, find, text)) == Squeeze(text)
    ensures ps == [] ==> forall k :: 0 <= k < |PreTokenized(ps, find, text)| ==> NoSpace(PreTokenized(ps, find, text)[k])
    ensures ps != [] ==> PreTokenized(ps, find, text) == Split(text, find(ps[|ps| - 1], text))
    ensures ps != [] ==> Concat(PreTokenized(ps, find, text)) == text
  {
    if ps == [] {
      WordsConcat(text);
    } else {
      PassesLast(ps, find, text);
      SplitConcat(text, find(ps[|ps| - 1], text));
    }
  }

  /**
   * Whether `std::regex` accepts a pattern under the ECMAScript grammar. The regex library is
   * not part of this model, so this is a parameter like the matcher.
   */
  type Compiles = Str -> bool

  /** The `what()` of a `std::regex_error` is implementation-defined; the model uses this text. */
  const RegexError: string := "regex_error"

  /** Every pattern compiles. */
  predicate AllCompile(ps: seq<Str>, compiles: Compiles)
  {
    forall i :: 0 <= i < |ps| ==> compiles(ps[i])
  }

  /**
   * How far `compile_patterns` gets: the patterns before this index all compile, and the one at
   * it, if any, does not.
   */
  function FirstFailure(ps: seq<Str>, compiles: Compiles): (n: nat)
    ensures n <= |ps|
    ensures forall i :: 0 <= i < n ==> compiles(ps[i])
    ensures n < |ps| ==> !compiles(ps[n])
    decreases |ps|
  {
    if ps == [] || !compiles(ps[0]) then 0
    else FirstFailure(ps[1..], compiles) + 1
  }

  /** Those two facts pin the index down: no other index has them both. */
  lemma FirstFailureUnique(ps: seq<Str>, compiles: Compiles, m: nat)
    requires m <= |ps| && forall i :: 0 <= i < m ==> compiles(ps[i])
    requires m < |ps| ==> !compiles(ps[m])
    ensures m == FirstFailure(ps, compiles)
  {
  }

  /** The patterns compiled when `compile_patterns` returns or throws. */
  function Compiled(ps: seq<Str>, compiles: Compiles): seq<Str>
  {
    ps[..FirstFailure(ps, compiles)]
  }

  /**
   * The compiled patterns are a prefix of the configured ones, and all of them exactly when
   * every pattern compiles, which is when `compile_patterns` does not throw.
   */
  lemma CompiledSpec(ps: seq<Str>, compiles: Compiles)
    ensures Compiled(ps, compiles) <= ps
    ensures Compiled(ps, compiles) == ps <==> AllCompile(ps, compiles)
  {
    if AllCompile(ps, compiles) {
      FirstFailureUnique(ps, compiles, |ps|);
    }
    assert ps[..|ps|] == ps;
  }

  /**
   * One more pattern after patterns that all compile: it is compiled after them when it
   * compiles; otherwise only they are.
   */
  lemma CompiledSnoc(ps: seq<Str>, p: Str, compiles: Compiles)
    requires AllCompile(ps, compiles)
    ensures Compiled(ps + [p], compiles) == if compiles(p) then ps + [p] else ps
  {
    var qs := ps + [p];
    assert qs[..|ps|] == ps;
    if compiles(p) {
      assert qs[..|qs|] == qs;
      FirstFailureUnique(qs, compiles, |qs|);
    } else {
      FirstFailureUnique(qs, compiles, |ps|);
    }
  }

  /** `RegexPreTokenizer`: its configuration and the patterns compiled from it. */
  class RegexPreTokenizer {
    var config: TokenizerConfig
    var patterns: seq<Str>
    const find: Finder
    const compiles: Compiles

    /**
     * The compiled patterns are those of the configuration up to the first that does not
     * compile: all of them, unless the last compilation threw.
     */
    ghost predicate Valid()
      reads this
    {
      patterns == Compiled(config.preTokenizerPatterns, compiles) && FinderOrdered(find)
    }

    /** The member initialiser `config_(config)`, before the body compiles anything. */
    constructor Init(c: TokenizerConfig, find: Finder, compiles: Compiles)
      ensures config == c && patterns == [] && this.find == find && this.compiles == compiles
    {
      config := c;
      patterns := [];
      this.find := find;
      this.compiles := compiles;
    }

    /**
     * The constructor: the configuration's patterns are compiled. A pattern that does not
     * compile throws `regex_error` out of the constructor, and no pre-tokenizer is made.
     */
    static method Create(c: TokenizerConfig, find: Finder, compiles: Compiles) returns (r: Result<RegexPreTokenizer>)
      requires FinderOrdered(find)
      ensures r.Err? <==> !AllCompile(c.preTokenizerPatterns, compiles)
      ensures r.Err? ==> r.msg == RegexError
      ensures r.Ok? ==> fresh(r.value) && r.value.Valid() && r.value.config == c
      ensures r.Ok? ==> r.value.patterns == c.preTokenizerPatterns
      ensures r.Ok? ==> r.value.find == find && r.value.compiles == compiles
    {
      var t := new RegexPreTokenizer.Init(c, find, compiles);
      var compiled := t.CompilePatterns();
      CompiledSpec(c.preTokenizerPatterns, compiles);
      if compiled.Err? {
        return Err(compiled.msg);
      }
      return Ok(t);
    }

    /**
     * `compile_patterns`: rebuilt from the configuration, in order. The first pattern that does
     * not compile throws `regex_error`; `emplace_back` then leaves the patterns before it.
     */
    method CompilePatterns() returns (r: Result<()>)
      modifies this
      ensures config == old(config)
      ensures patterns == Compiled(config.preTokenizerPatterns, compiles)
      ensures r == if AllCompile(config.preTokenizerPatterns, compiles) then Ok(()) else Err(RegexError)
    {
      var ps := config.preTokenizerPatterns;
      patterns := [];
      var i := 0;
      while i < |ps|
        invariant 0 <= i <= |ps|
        invariant config == old(config)
        invariant patterns == ps[..i]
        invariant forall j :: 0 <= j < i ==> compiles(ps[j])
      {
        if !compiles(ps[i]) {
          FirstFailureUnique(ps, compiles, i);
          return Err(RegexError);
        }
        assert ps[..i + 1] == ps[..i] + [ps[i]];
        patterns := patterns + [ps[i]];
        i := i + 1;
      }
      assert ps[..i] == ps;
      FirstFailureUnique(ps, compiles, i);
      return Ok(());
    }

    /**
     * `set_config`: the new configuration, recompiled. A pattern that does not compile throws
     * with the new configuration already in place.
     */
    method SetConfig(c: TokenizerConfig) returns (r: Result<()>)
      requires Valid()
      modifies this
      ensures Valid() && config == c
      ensures r == if AllCompile(c.preTokenizerPatterns, compiles) then Ok(()) else Err(RegexError)
      ensures r.Ok? ==> patterns == c.preTokenizerPatterns
    {
      config := c;
      r := CompilePatterns();
      CompiledSpec(c.preTokenizerPatterns, compiles);
    }

    function GetConfig(): TokenizerConfig
      reads this
    {
      config
    }

    /**
     * `add_pattern`: one more pattern at the end of the configuration, then everything
     * recompiled. From a fully compiled state the pattern is compiled after the others when it
     * compiles; otherwise it throws, the configuration keeps the pattern, and only the others
     * are compiled.
     */
    method AddPattern(pattern: Str) returns (r: Result<()>)
      requires Valid()
      modifies this
      ensures Valid()
      ensures config == old(config).(preTokenizerPatterns := old(config).preTokenizerPatterns + [pattern])
      ensures r == if AllCompile(config.preTokenizerPatterns, compiles) then Ok(()) else Err(RegexError)
      ensures AllCompile(old(config).preTokenizerPatterns, compiles) ==>
        (r.Ok? <==> compiles(pattern)) && patterns == old(patterns) + (if compiles(pattern) then [pattern] else [])
    {
      var before := config.preTokenizerPatterns;
      CompiledSpec(before, compiles);
      config := config.(preTokenizerPatterns := config.preTokenizerPatterns + [pattern]);
      r := CompilePatterns();
      if AllCompile(before, compiles) {
        CompiledSnoc(before, pattern, compiles);
        if !compiles(pattern) {
          assert !compiles(config.preTokenizerPatterns[|before|]);
        } else {
          assert AllCompile(config.preTokenizerPatterns, compiles);
        }
      }
    }

    /** `clear_patterns`: no pattern left, so pre-tokenizing splits on whitespace again. */
    method ClearPatterns()
      requires Valid()
      modifies this
      ensures Valid() && patterns == []
      ensures config == old(config).(preTokenizerPatterns := [])
      ensures forall text :: PreTokenized(patterns, find, text) == Words(text)
    {
      config := config.(preTokenizerPatterns := []);
      patterns := [];
    }

    /** `pre_tokenize`. */
    method PreTokenize(text: Str) returns (finalTokens: seq<Str>)
      requires Valid()
      ensures finalTokens == PreTokenized(patterns, find, text)
    {
      var tokens: seq<Str>;
      if patterns == [] {
        tokens := Words(text);
      } else {
        tokens := RunPasses(text);
      }
      finalTokens := HandleAll(tokens);
    }

    /** The loop over the patterns, each pass starting from the joined pieces of the one before. */
    method RunPasses(text: Str) returns (tokens: seq<Str>)
      requires FinderOrdered(find)
      ensures tokens == Passes(patterns, find, text).1
    {
      tokens := [];
      var current := text;
      var i := 0;
      while i < |patterns|
        invariant 0 <= i <= |patterns|
        invariant Passes(patterns[..i], find, text) == (current, tokens)
      {
        assert patterns[..i + 1][..i] == patterns[..i];
        tokens := SplitText(current, find(patterns[i], current));
        current := JoinPieces(tokens);
        i := i + 1;
      }
      assert patterns[..i] == patterns;
    }

    /** `batch_pre_tokenize`: each text pre-tokenized on its own. */
    method BatchPreTokenize(texts: seq<Str>) returns (batch: seq<seq<Str>>)
      requires Valid()
      ensures |batch| == |texts|
      ensures forall k :: 0 <= k < |texts| ==> batch[k] == PreTokenized(patterns, find, texts[k])
    {
      batch := [];
      var i := 0;
      while i < |texts|
        invariant 0 <= i <= |texts|
        invariant |batch| == i
        invariant forall k :: 0 <= k < i ==> batch[k] == PreTokenized(patterns, find, texts[k])
      {
        var tokens := PreTokenize(texts[i]);
        PreTokenizedStep(batch, tokens, patterns, find, texts, i);
        batch := batch + [tokens];
        i := i + 1;
      }
    }
  }

  lemma PreTokenizedStep(batch: seq<seq<Str>>, tokens: seq<Str>, ps: seq<Str>, find: Finder, texts: seq<Str>, i: nat)
    requires FinderOrdered(find)
    requires i < |texts| && |batch| == i
    requires forall k :: 0 <= k < i ==> batch[k] == PreTokenized(ps, find, texts[k])
    requires tokens == PreTokenized(ps, find, texts[i])
    ensures forall k :: 0 <= k < i + 1 ==> (batch + [tokens])[k] == PreTokenized(ps, find, texts[k])
  {
  }

  /** The loop over the tokens, each one through `handle_special_cases`. */
  method HandleAll(tokens: seq<Str>) returns (finalTokens: seq<Str>)
    ensures finalTokens == tokens
  {
    finalTokens := [];
    var j := 0;
    while j < |tokens|
      invariant 0 <= j <= |tokens|
      invariant finalTokens == tokens[..j]
    {
      finalTokens := finalTokens + HandleSpecialCases(tokens[j]);
      assert tokens[..j + 1] == tokens[..j] + [tokens[j]];
      j := j + 1;
    }
    assert tokens[..j] == tokens;
  }

  /** The loop over one pattern's matches, with its `last_pos`. */
  method SplitText(text: Str, ms: seq<(nat, nat)>) returns (pieces: seq<Str>)
    requires Ordered(ms, |text|)
    ensures pieces == Split(text, ms)
  {
    pieces := [];
    var lastPos := 0;
    var k := 0;
    while k < |ms|
      invariant 0 <= k <= |ms|
      invariant lastPos == End(ms, k)
      invariant pieces == Pieces(text, ms, k)
    {
      var (position, length) := ms[k];
      if position > lastPos {
        pieces := pieces + [text[lastPos..position]];
      }
      pieces := pieces + [text[position..position + length]];
      lastPos := position + length;
      k := k + 1;
    }
    if lastPos < |text| {
      pieces := pieces + [text[lastPos..]];
    } else {
      Seqs.AppendNil(pieces);
    }
  }

  /** The loop that joins the pieces of a pass into the next pass's text. */
  method JoinPieces(pieces: seq<Str>) returns (s: Str)
    ensures s == Concat(pieces)
  {
    s := [];
    var i := 0;
    while i < |pieces|
      invariant 0 <= i <= |pieces|
      invariant s == Concat(pieces[..i])
    {
      assert pieces[..i + 1][..i] == pieces[..i];
      s := s + pieces[i];
      i := i + 1;
    }
    assert pieces[..i] == pieces;
  }

  /**
   * `ByteLevelPreTokenizer::pre_tokenize`: every byte on its own, in order, so there are as
   * many pieces as bytes and the pieces spell the text. The pre-tokenizer keeps a copy of the
   * configuration but never reads it, so it is a function of the text alone.
   */
  function ByteLevelPreTokenize(text: Str): (tokens: seq<Str>)
    ensures |tokens| == |text|
    ensures forall i :: 0 <= i < |text| ==> tokens[i] == [text[i]]
    ensures Concat(tokens) == text
    decreases |text|
  {
    if text == [] then []
    else
      var init := ByteLevelPreTokenize(text[..|text| - 1]);
      assert (init + [[text[|text| - 1]]])[..|init|] == init;
      assert text[..|text| - 1] + [text[|text| - 1]] == text;
      init + [[text[|text| - 1]]]
  }

  /** `ByteLevelPreTokenizer::batch_pre_tokenize`: one result per text, in order. */
  function ByteLevelBatch(texts: seq<Str>): (batch: seq<seq<Str>>)
    ensures |batch| == |texts|
    ensures forall k :: 0 <= k < |texts| ==> Concat(batch[k]) == texts[k] && |batch[k]| == |texts[k]|
  {
    seq(|texts|, k requires 0 <= k < |texts| => ByteLevelPreTokenize(texts[k]))
  }
}
