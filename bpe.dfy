/**
 * The byte-pair-encoding tokenizer (bpe_tokenizer.cpp). A word starts as one part per byte;
 * each round joins the adjacent pair whose "first second" key has the smallest merge rank,
 * the leftmost such pair on a tie, until no adjacent pair is ranked. The parts are then looked
 * up in the shared vocabulary, with the UNK special id for parts it does not hold.
 *
 * The pure functions state the segmentation (`MergeAll`), the rank table (`RanksOf`) and the
 * rule parser (`ParseRules`); the class `BpeTokenizer` holds the C++ object's fields and its
 * methods are proved against those functions.
 */
module Bpe {
  import opened Wrappers
  import opened Bytes
  import opened TokenTypes
  import opened Vocabulary
  import opened Config
  import opened SpecialTokens

  // ---- merge ranks ----

  /** The `merge_ranks_` key of a pair of parts: the two joined by one space. */
  function PairKey(a: Str, b: Str): (k: Str)
    ensures |k| == |a| + 1 + |b| && k[|a|] == ' '
    ensures k[..|a|] == a && k[|a| + 1..] == b
  {
    a + " " + b
  }

  function RuleKey(r: MergeRule): Str
  {
    PairKey(r.first, r.second)
  }

  /** The table `build_merge_ranks` fills: rule i's key maps to i, a later duplicate overwriting. */
  function RanksOf(rules: seq<MergeRule>): map<Str, int>
    decreases |rules|
  {
    if rules == [] then map[]
    else RanksOf(rules[..|rules| - 1])[RuleKey(rules[|rules| - 1]) := |rules| - 1]
  }

  /**
   * A key is ranked iff some rule has it, and its rank is the LAST index of a rule with that key.
   */
  lemma RanksOfSpec(rules: seq<MergeRule>, key: Str)
    ensures key in RanksOf(rules) <==> exists i :: 0 <= i < |rules| && RuleKey(rules[i]) == key
    ensures key in RanksOf(rules) ==>
      var i := RanksOf(rules)[key];
      && 0 <= i < |rules| && RuleKey(rules[i]) == key
      && forall j :: i < j < |rules| ==> RuleKey(rules[j]) != key
  {
    RanksOfHas(rules, key);
    if key in RanksOf(rules) {
      RanksOfLast(rules, key);
    }
  }

  lemma {:induction false} RanksOfHas(rules: seq<MergeRule>, key: Str)
    ensures key in RanksOf(rules) <==> exists i :: 0 <= i < |rules| && RuleKey(rules[i]) == key
    decreases |rules|
  {
    if rules != [] {
      var n := |rules| - 1;
      var init := rules[..n];
      RanksOfHas(init, key);
      if i :| 0 <= i < |rules| && RuleKey(rules[i]) == key {
        if i < n {
          assert init[i] == rules[i];
        }
      }
      if key in RanksOf(init) {
        var i :| 0 <= i < |init| && RuleKey(init[i]) == key;
        assert rules[i] == init[i];
      }
    }
  }

  lemma {:induction false} RanksOfLast(rules: seq<MergeRule>, key: Str)
    requires key in RanksOf(rules)
    ensures var i := RanksOf(rules)[key];
      && 0 <= i < |rules| && RuleKey(rules[i]) == key
      && forall j :: i < j < |rules| ==> RuleKey(rules[j]) != key
    decreases |rules|
  {
    var n := |rules| - 1;
    var init := rules[..n];
    if RuleKey(rules[n]) != key {
      RanksOfLast(init, key);
      var i := RanksOf(init)[key];
      assert RanksOf(rules)[key] == i;
      assert rules[i] == init[i];
      forall j | i < j < |rules| ensures RuleKey(rules[j]) != key {
        if j < n {
          assert rules[j] == init[j];
        }
      }
    }
  }

  /** Ranks are rule indices, hence never negative. */
  lemma RanksNonNegative(rules: seq<MergeRule>)
    ensures NonNegative(RanksOf(rules))
  {
    forall key | key in RanksOf(rules) ensures RanksOf(rules)[key] >= 0 {
      RanksOfSpec(rules, key);
    }
  }

  predicate NonNegative(ranks: map<Str, int>)
  {
    forall key :: key in ranks ==> ranks[key] >= 0
  }

  // ---- set_merge_rules ----

  /** One string of `set_merge_rules`: split at its first space, or dropped when it has none. */
  function ParseRule(m: Str): (r: Option<MergeRule>)
  {
    FindSpec(m, ' ', 0);
    match Find(m, ' ', 0)
    case None => None
    case Some(p) => Some(MergeRule(m[..p], m[p + 1..]))
  }

  /** A string yields a rule iff it holds a space; the rule's first part has none, and its key is the string. */
  lemma ParseRuleSpec(m: Str)
    ensures ParseRule(m).None? <==> ' ' !in m
    ensures ParseRule(m).Some? ==> RuleKey(ParseRule(m).value) == m && ' ' !in ParseRule(m).value.first
  {
    FindSpec(m, ' ', 0);
    match Find(m, ' ', 0)
    case None =>
    case Some(p) =>
      var r := ParseRule(m).value;
      assert m == m[..p] + " " + m[p + 1..];
      assert forall k :: 0 <= k < |r.first| ==> r.first[k] == m[k];
  }

  /** The rules `set_merge_rules` keeps, in order. */
  function ParseRules(merges: seq<Str>): seq<MergeRule>
    decreases |merges|
  {
    if merges == [] then []
    else
      var init := ParseRules(merges[..|merges| - 1]);
      match ParseRule(merges[|merges| - 1])
      case None => init
      case Some(r) => init + [r]
  }

  /** The strings holding a space, in order. */
  function WithSpace(merges: seq<Str>): seq<Str>
    decreases |merges|
  {
    if merges == [] then []
    else
      var init := WithSpace(merges[..|merges| - 1]);
      if ' ' in merges[|merges| - 1] then init + [merges[|merges| - 1]] else init
  }

  function RuleKeys(rules: seq<MergeRule>): (ks: seq<Str>)
    ensures |ks| == |rules|
    ensures forall i :: 0 <= i < |rules| ==> ks[i] == RuleKey(rules[i])
  {
    seq(|rules|, i requires 0 <= i < |rules| => RuleKey(rules[i]))
  }

  /**
   * Parsing loses nothing but the strings without a space: writing each kept rule back as
   * "first second" gives exactly the strings that hold a space, in their original order.
   */
  lemma {:induction false} ParseRulesKeys(merges: seq<Str>)
    ensures RuleKeys(ParseRules(merges)) == WithSpace(merges)
    ensures forall i :: 0 <= i < |ParseRules(merges)| ==> ' ' !in ParseRules(merges)[i].first
    decreases |merges|
  {
    if merges != [] {
      var init := merges[..|merges| - 1];
      var last := merges[|merges| - 1];
      ParseRulesKeys(init);
      ParseRuleSpec(last);
      var rs := ParseRules(init);
      if ParseRule(last).Some? {
        assert RuleKeys(rs + [ParseRule(last).value]) == RuleKeys(rs) + [last];
      }
    }
  }

  // ---- the merge loop of encode_bpe ----

  /** The initial parts of a word: one single-byte string per byte. */
  function InitialParts(word: Str): (parts: seq<Str>)
    ensures |parts| == |word|
    ensures forall i :: 0 <= i < |word| ==> parts[i] == [word[i]]
  {
    seq(|word|, i requires 0 <= i < |word| => [word[i]])
  }

  /** Adjacent parts i and i+1 form a pair that has a rank. */
  predicate Ranked(ranks: map<Str, int>, parts: seq<Str>, i: int)
  {
    0 <= i && i + 1 < |parts| && PairKey(parts[i], parts[i + 1]) in ranks
  }

  function RankAt(ranks: map<Str, int>, parts: seq<Str>, i: int): int
    requires Ranked(ranks, parts, i)
  {
    ranks[PairKey(parts[i], parts[i + 1])]
  }

  /** Pair i is the one a round merges: ranked, of minimal rank, and leftmost among those. */
  ghost predicate IsBest(ranks: map<Str, int>, parts: seq<Str>, i: int)
  {
    && Ranked(ranks, parts, i)
    && (forall j :: Ranked(ranks, parts, j) ==> RankAt(ranks, parts, i) <= RankAt(ranks, parts, j))
    && (forall j :: 0 <= j < i && Ranked(ranks, parts, j) ==> RankAt(ranks, parts, i) < RankAt(ranks, parts, j))
  }

  /** The leftmost minimal-rank pair at or after index `from`, if any pair there is ranked. */
  function BestFrom(ranks: map<Str, int>, parts: seq<Str>, from: nat): (r: Option<nat>)
    ensures r.Some? ==> from <= r.value && Ranked(ranks, parts, r.value)
    decreases |parts| - from
  {
    if from + 1 >= |parts| then None
    else
      var rest := BestFrom(ranks, parts, from + 1);
      if !Ranked(ranks, parts, from) then rest
      else if rest.Some? && RankAt(ranks, parts, rest.value) < RankAt(ranks, parts, from) then rest
      else Some(from)
  }

  function BestPair(ranks: map<Str, int>, parts: seq<Str>): Option<nat>
  {
    BestFrom(ranks, parts, 0)
  }

  lemma {:induction false} BestFromSpec(ranks: map<Str, int>, parts: seq<Str>, from: nat)
    ensures var r := BestFrom(ranks, parts, from);
      && (r.None? <==> forall j :: from <= j ==> !Ranked(ranks, parts, j))
      && (r.Some? ==>
          && (forall j :: from <= j && Ranked(ranks, parts, j) ==> RankAt(ranks, parts, r.value) <= RankAt(ranks, parts, j))
          && (forall j :: from <= j < r.value && Ranked(ranks, parts, j) ==> RankAt(ranks, parts, r.value) < RankAt(ranks, parts, j)))
    decreases |parts| - from
  {
    if from + 1 < |parts| {
      BestFromSpec(ranks, parts, from + 1);
    }
  }

  /** `BestPair` finds no pair exactly when none is ranked, and otherwise the pair a round merges. */
  lemma BestPairSpec(ranks: map<Str, int>, parts: seq<Str>)
    ensures BestPair(ranks, parts).None? <==> forall j :: !Ranked(ranks, parts, j)
    ensures BestPair(ranks, parts).Some? ==> IsBest(ranks, parts, BestPair(ranks, parts).value)
  {
    BestFromSpec(ranks, parts, 0);
  }

  /** At most one pair is the leftmost of minimal rank. */
  lemma BestUnique(ranks: map<Str, int>, parts: seq<Str>, i: int, j: int)
    requires IsBest(ranks, parts, i) && IsBest(ranks, parts, j)
    ensures i == j
  {
  }

  /** Parts i and i+1 joined into one part. */
  function MergeAt(parts: seq<Str>, i: nat): (r: seq<Str>)
    requires i + 1 < |parts|
    ensures |r| == |parts| - 1
  {
    parts[..i] + [parts[i] + parts[i + 1]] + parts[i + 2..]
  }

  /** The parts once no ranked pair is left, each round merging the best pair. */
  function MergeAll(ranks: map<Str, int>, parts: seq<Str>): seq<Str>
    decreases |parts|
  {
    match BestPair(ranks, parts)
    case None => parts
    case Some(i) => MergeAll(ranks, MergeAt(parts, i))
  }

  /** The parts `encode_bpe` ends with for a word. */
  function Segment(ranks: map<Str, int>, word: Str): seq<Str>
  {
    MergeAll(ranks, InitialParts(word))
  }

  lemma MergeAtConcat(parts: seq<Str>, i: nat)
    requires i + 1 < |parts|
    ensures Concat(MergeAt(parts, i)) == Concat(parts)
  {
    var a: seq<Str> := parts[..i];
    var x: Str := parts[i];
    var y: Str := parts[i + 1];
    var b: seq<Str> := parts[i + 2..];
    SplitAround(parts, i);
    assert MergeAt(parts, i) == a + [x + y] + b;
    ConcatMiddle(a + [x], y, b);
    ConcatMiddle(a, x + y, b);
    assert (a + [x])[..|a|] == a;
    var ca, cb := Concat(a), Concat(b);
    assert Concat(a + [x]) == ca + x;
    Regroup(ca, x, y, cb);
  }

  lemma SplitAround<T>(s: seq<T>, i: nat)
    requires i + 1 < |s|
    ensures s == (s[..i] + [s[i]]) + [s[i + 1]] + s[i + 2..]
  {
  }

  /** Overwriting element i and erasing element i+1 replaces the two by the one value. */
  lemma UpdateErase<T>(s: seq<T>, i: nat, v: T)
    requires i + 1 < |s|
    ensures s[i := v][..i + 1] + s[i := v][i + 2..] == s[..i] + [v] + s[i + 2..]
  {
  }

  lemma Regroup<T>(p: seq<T>, q: seq<T>, r: seq<T>, s: seq<T>)
    ensures p + q + r + s == p + (q + r) + s
  {
  }

  /** One string in the middle of a list contributes itself to the concatenation. */
  lemma ConcatMiddle(a: seq<Str>, m: Str, b: seq<Str>)
    ensures Concat(a + [m] + b) == Concat(a) + m + Concat(b)
  {
    ConcatAppend(a + [m], b);
    assert (a + [m])[..|a|] == a;
  }

  predicate AllNonEmpty(parts: seq<Str>)
  {
    forall i :: 0 <= i < |parts| ==> parts[i] != []
  }

  /**
   * What the merge loop guarantees: the parts still spell the word, none is empty, there are no
   * more of them than at the start, at least one is left of a non-empty word, and no adjacent
   * pair of the result is ranked.
   */
  lemma {:induction false} MergeAllSpec(ranks: map<Str, int>, parts: seq<Str>)
    requires AllNonEmpty(parts)
    ensures var r := MergeAll(ranks, parts);
      && Concat(r) == Concat(parts)
      && AllNonEmpty(r)
      && |r| <= |parts|
      && (|parts| > 0 ==> |r| > 0)
      && forall j :: !Ranked(ranks, r, j)
    decreases |parts|
  {
    BestPairSpec(ranks, parts);
    match BestPair(ranks, parts)
    case None =>
    case Some(i) =>
      var m := MergeAt(parts, i);
      MergeAtConcat(parts, i);
      assert AllNonEmpty(m) by {
        forall k | 0 <= k < |m| ensures m[k] != [] {
          if k < i { assert m[k] == parts[k]; }
          else if k > i { assert m[k] == parts[k + 1]; }
        }
      }
      MergeAllSpec(ranks, m);
  }

  /** `encode_bpe("")` produces no parts; every other word is covered exactly by its parts. */
  lemma SegmentSpec(ranks: map<Str, int>, word: Str)
    ensures var parts := Segment(ranks, word);
      && (word == [] <==> parts == [])
      && Concat(parts) == word
      && AllNonEmpty(parts)
      && |parts| <= |word|
      && forall j :: !Ranked(ranks, parts, j)
  {
    var init := InitialParts(word);
    MergeAllSpec(ranks, init);
    InitialPartsConcat(word);
  }

  lemma {:induction false} InitialPartsConcat(word: Str)
    ensures Concat(InitialParts(word)) == word
    decreases |word|
  {
    if word != [] {
      var w := word[..|word| - 1];
      InitialPartsConcat(w);
      assert InitialParts(word)[..|word| - 1] == InitialParts(w);
    }
  }

  // ---- tokens ----

  /** The token for one part: its vocabulary id, or `unk` when absent. */
  function PartToken(v: VocabState, unk: int, part: Str): (t: Token)
    ensures t.text == part
    ensures Valid(v) ==> (HasToken(v, part) ==> t.id == GetTokenId(v, part)) && (!HasToken(v, part) ==> t.id == unk)
  {
    var id := GetTokenId(v, part);
    Token(if id >= 0 then id else unk, part, IsSpecialToken(v, part), OffsetMapping(0, 0))
  }

  function PartTokens(v: VocabState, parts: seq<Str>): (ts: seq<Token>)
    ensures |ts| == |parts|
    ensures forall i :: 0 <= i < |parts| ==> ts[i] == PartToken(v, GetSpecialTokenId(v, UNK), parts[i])
  {
    seq(|parts|, i requires 0 <= i < |parts| => PartToken(v, GetSpecialTokenId(v, UNK), parts[i]))
  }

  /** The tokens `encode_bpe` returns for a word. */
  function WordTokens(v: VocabState, ranks: map<Str, int>, word: Str): seq<Token>
  {
    PartTokens(v, Segment(ranks, word))
  }

  /** The tokens of a sequence of words, one after the other. */
  function WordsTokens(v: VocabState, ranks: map<Str, int>, words: seq<Str>): seq<Token>
    decreases |words|
  {
    if words == [] then [] else WordsTokens(v, ranks, words[..|words| - 1]) + WordTokens(v, ranks, words[|words| - 1])
  }

  function Ids(ts: seq<Token>): (ids: seq<int>)
    ensures |ids| == |ts|
    ensures forall i :: 0 <= i < |ts| ==> ids[i] == ts[i].id
  {
    seq(|ts|, i requires 0 <= i < |ts| => ts[i].id)
  }

  /** The token texts of `encode_bpe(word)` spell the word. */
  lemma WordTokensText(v: VocabState, ranks: map<Str, int>, word: Str)
    ensures Concat(TextsOf(WordTokens(v, ranks, word))) == word
  {
    SegmentSpec(ranks, word);
    assert TextsOf(WordTokens(v, ranks, word)) == Segment(ranks, word);
  }

  /**
   * Decoding inverts encoding for a word whose parts are all in a consistent vocabulary:
   * `decode_from_ids(ids of encode_bpe(word)) == word`.
   */
  lemma DecodeEncodeWord(v: VocabState, ranks: map<Str, int>, word: Str)
    requires Valid(v) && Consistent(v)
    requires forall p :: p in Segment(ranks, word) ==> HasToken(v, p)
    ensures Decoded(v, Ids(WordTokens(v, ranks, word))) == word
  {
    var parts := Segment(ranks, word);
    var ts := WordTokens(v, ranks, word);
    forall i | 0 <= i < |parts| ensures TokenTexts(v, Ids(ts))[i] == parts[i] {
      assert parts[i] in parts;
    }
    assert TokenTexts(v, Ids(ts)) == parts;
    SegmentSpec(ranks, word);
  }

  /** A part the vocabulary lacks gets the UNK special's id, -1 when no UNK is registered. */
  lemma UnknownPartId(v: VocabState, ranks: map<Str, int>, word: Str, i: int)
    requires Valid(v)
    requires 0 <= i < |Segment(ranks, word)| && !HasToken(v, Segment(ranks, word)[i])
    ensures WordTokens(v, ranks, word)[i].id == GetSpecialTokenId(v, UNK)
    ensures UNK !in v.specialTokenIds ==> WordTokens(v, ranks, word)[i].id == -1
  {
  }

  /** The token texts of `encode(text)` are the normalized text with its whitespace removed. */
  lemma {:induction false} WordsTokensText(v: VocabState, ranks: map<Str, int>, words: seq<Str>)
    ensures Concat(TextsOf(WordsTokens(v, ranks, words))) == Concat(words)
    decreases |words|
  {
    if words != [] {
      var init := words[..|words| - 1];
      var last := words[|words| - 1];
      WordsTokensText(v, ranks, init);
      WordTokensText(v, ranks, last);
      TokenStrsAppend(WordsTokens(v, ranks, init), WordTokens(v, ranks, last));
      ConcatAppend(TextsOf(WordsTokens(v, ranks, init)), TextsOf(WordTokens(v, ranks, last)));
    }
  }

  lemma TokenStrsAppend(a: seq<Token>, b: seq<Token>)
    ensures TextsOf(a + b) == TextsOf(a) + TextsOf(b)
  {
  }

  lemma EncodeText(v: VocabState, ranks: map<Str, int>, normalized: Str)
    ensures Concat(TextsOf(WordsTokens(v, ranks, Words(normalized)))) == Squeeze(normalized)
  {
    WordsTokensText(v, ranks, Words(normalized));
    WordsConcat(normalized);
  }

  // ---- the tokenizer object ----

  class BpeTokenizer {
    var config: TokenizerConfig
    var vocab: Vocab
    var specialTokens: map<SpecialTokenType, Str>
    var mergeRules: seq<MergeRule>
    var mergeRanks: map<Str, int>

    /** The rank table always mirrors the rule list. */
    ghost predicate Valid()
      reads this
    {
      mergeRanks == RanksOf(mergeRules)
    }

    /** A fresh vocabulary holding only the configured specials, and no merge rules. */
    constructor (c: TokenizerConfig)
      ensures config == c && fresh(vocab)
      ensures vocab.State() == SpecialVocab(c)
      ensures specialTokens == SpecialMap(ConfiguredSpecials(c))
      ensures mergeRules == [] && mergeRanks == map[]
      ensures Valid()
    {
      config := c;
      mergeRules := [];
      mergeRanks := map[];
      specialTokens := map[];
      vocab := new Vocab();
      new;
      InitializeSpecialTokens();
    }

    /** `initialize_special_tokens`: clears the shared vocabulary, then registers the configured specials. */
    method InitializeSpecialTokens()
      modifies this, vocab
      ensures vocab == old(vocab) && config == old(config)
      ensures vocab.State() == SpecialVocab(config)
      ensures specialTokens == SpecialMap(ConfiguredSpecials(config))
      ensures mergeRules == old(mergeRules) && mergeRanks == old(mergeRanks)
    {
      vocab.Clear();
      specialTokens := RegisterSpecials(vocab, ConfiguredSpecials(config));
    }

    /** `set_config`: the new configuration's specials replace the whole vocabulary. */
    method SetConfig(c: TokenizerConfig)
      modifies this, vocab
      ensures config == c && vocab == old(vocab)
      ensures vocab.State() == SpecialVocab(c)
      ensures specialTokens == SpecialMap(ConfiguredSpecials(c))
      ensures mergeRules == old(mergeRules) && mergeRanks == old(mergeRanks)
    {
      config := c;
      InitializeSpecialTokens();
    }

    /**
     * `set_vocab`: adopts the given vocabulary and then clears it, so whatever it held is lost
     * and only the configured specials remain.
     */
    method SetVocab(v: Vocab)
      modifies this, v
      ensures vocab == v && config == old(config)
      ensures v.State() == SpecialVocab(config)
      ensures specialTokens == SpecialMap(ConfiguredSpecials(config))
      ensures mergeRules == old(mergeRules) && mergeRanks == old(mergeRanks)
    {
      vocab := v;
      InitializeSpecialTokens();
    }

    /** `build_merge_ranks`. */
    method BuildMergeRanks()
      modifies this
      ensures Valid()
      ensures mergeRules == old(mergeRules) && vocab == old(vocab) && config == old(config)
      ensures specialTokens == old(specialTokens)
    {
      var ranks := map[];
      var i := 0;
      while i < |mergeRules|
        invariant 0 <= i <= |mergeRules|
        invariant ranks == RanksOf(mergeRules[..i])
      {
        assert mergeRules[..i + 1][..i] == mergeRules[..i];
        ranks := ranks[RuleKey(mergeRules[i]) := i];
        i := i + 1;
      }
      assert mergeRules[..|mergeRules|] == mergeRules;
      mergeRanks := ranks;
    }

    /** `set_merge_rules`: parses "first second" strings, then rebuilds the ranks. */
    method SetMergeRules(merges: seq<Str>)
      modifies this
      ensures mergeRules == ParseRules(merges) && Valid()
      ensures vocab == old(vocab) && config == old(config) && specialTokens == old(specialTokens)
    {
      var rules := [];
      var k := 0;
      while k < |merges|
        invariant 0 <= k <= |merges|
        invariant rules == ParseRules(merges[..k])
      {
        assert merges[..k + 1][..k] == merges[..k];
        var rule := ParseRule(merges[k]);
        if rule.Some? {
          rules := rules + [rule.value];
        }
        k := k + 1;
      }
      assert merges[..|merges|] == merges;
      mergeRules := rules;
      BuildMergeRanks();
    }

    /** `add_special_tokens`: each non-empty string not yet present becomes a CUSTOM special. */
    method AddSpecialTokens(tokens: seq<Str>)
      modifies vocab
      ensures vocab.State() == WithSpecialsOfType(old(vocab.State()), tokens, CUSTOM)
    {
      RegisterAll(vocab, tokens, CUSTOM);
    }

    /** `encode_bpe(word)`. */
    method EncodeBpe(word: Str) returns (tokens: seq<Token>)
      requires Valid()
      ensures tokens == WordTokens(vocab.State(), mergeRanks, word)
    {
      if word == [] {
        return [];
      }
      var parts := SplitBytes(word);
      RanksNonNegative(mergeRules);
      parts := MergeParts(mergeRanks, parts);
      tokens := LookUpParts(vocab.State(), parts);
    }

    /** `encode`: `encode_bpe` on each whitespace-separated word of the normalized text. */
    method Encode(text: Str, normalize: Str -> Str) returns (tokens: seq<Token>)
      requires Valid()
      ensures tokens == WordsTokens(vocab.State(), mergeRanks, Words(normalize(text)))
    {
      var words := Words(normalize(text));
      tokens := [];
      var k := 0;
      while k < |words|
        invariant 0 <= k <= |words|
        invariant tokens == WordsTokens(vocab.State(), mergeRanks, words[..k])
      {
        assert words[..k + 1][..k] == words[..k];
        var sub := EncodeBpe(words[k]);
        tokens := tokens + sub;
        k := k + 1;
      }
      assert words[..|words|] == words;
    }

    /** `encode_to_ids`: the ids of `encode(text)`. */
    method EncodeToIds(text: Str, normalize: Str -> Str) returns (ids: seq<int>)
      requires Valid()
      ensures ids == Ids(WordsTokens(vocab.State(), mergeRanks, Words(normalize(text))))
    {
      var tokens := Encode(text, normalize);
      ids := [];
      var k := 0;
      while k < |tokens|
        invariant 0 <= k <= |tokens|
        invariant ids == Ids(tokens[..k])
      {
        ids := ids + [tokens[k].id];
        k := k + 1;
      }
      assert tokens[..|tokens|] == tokens;
    }

    /** `decode_from_ids`. */
    method DecodeFromIds(ids: seq<int>) returns (text: Str)
      ensures text == Decoded(vocab.State(), ids)
    {
      text := [];
      var k := 0;
      while k < |ids|
        invariant 0 <= k <= |ids|
        invariant text == Decoded(vocab.State(), ids[..k])
      {
        assert TokenTexts(vocab.State(), ids[..k + 1])[..k] == TokenTexts(vocab.State(), ids[..k]);
        text := text + GetToken(vocab.State(), ids[k]);
        k := k + 1;
      }
      assert ids[..|ids|] == ids;
    }
  }

  /**
   * One round's pair search: the index of the leftmost pair of minimal rank, or -1 when no
   * adjacent pair is ranked.
   */
  method BestMerge(ranks: map<Str, int>, parts: seq<Str>) returns (idx: int)
    requires NonNegative(ranks)
    ensures idx == -1 <==> forall j :: !Ranked(ranks, parts, j)
    ensures idx != -1 ==> IsBest(ranks, parts, idx)
  {
    var bestRank := -1;
    idx := -1;
    var i := 0;
    while i + 1 < |parts|
      invariant 0 <= i && (|parts| > 0 ==> i <= |parts| - 1)
      invariant idx == -1 <==> forall j :: j < i ==> !Ranked(ranks, parts, j)
      invariant idx == -1 ==> bestRank == -1
      invariant idx != -1 ==>
        && 0 <= idx < i && Ranked(ranks, parts, idx) && bestRank == RankAt(ranks, parts, idx)
        && (forall j :: j < i && Ranked(ranks, parts, j) ==> bestRank <= RankAt(ranks, parts, j))
        && (forall j :: 0 <= j < idx && Ranked(ranks, parts, j) ==> bestRank < RankAt(ranks, parts, j))
    {
      var key := PairKey(parts[i], parts[i + 1]);
      assert Ranked(ranks, parts, i) <==> key in ranks;
      if key in ranks {
        if bestRank == -1 || ranks[key] < bestRank {
          bestRank := ranks[key];
          idx := i;
        }
      }
      i := i + 1;
    }
  }

  /** The start of `encode_bpe`: one single-byte part per byte of the word. */
  method SplitBytes(word: Str) returns (parts: seq<Str>)
    ensures parts == InitialParts(word)
  {
    parts := [];
    var i := 0;
    while i < |word|
      invariant 0 <= i <= |word|
      invariant parts == InitialParts(word[..i])
    {
      parts := parts + [[word[i]]];
      i := i + 1;
    }
    assert word[..|word|] == word;
  }

  /**
   * The merge loop of `encode_bpe`: while more than one part is left, join the best pair in
   * place; stop when no adjacent pair is ranked.
   */
  method MergeParts(ranks: map<Str, int>, start: seq<Str>) returns (parts: seq<Str>)
    requires NonNegative(ranks)
    ensures parts == MergeAll(ranks, start)
  {
    parts := start;
    while |parts| > 1
      invariant MergeAll(ranks, parts) == MergeAll(ranks, start)
      decreases |parts|
    {
      var idx := BestMerge(ranks, parts);
      BestPairSpec(ranks, parts);
      if idx == -1 {
        return;
      }
      BestUnique(ranks, parts, idx, BestPair(ranks, parts).value);
      ghost var before := parts;
      parts := parts[idx := parts[idx] + parts[idx + 1]];
      parts := parts[..idx + 1] + parts[idx + 2..];
      UpdateErase(before, idx, before[idx] + before[idx + 1]);
    }
    BestPairSpec(ranks, parts);
  }

  /** The lookup loop of `encode_bpe`: each part's id, or the UNK special's id when absent. */
  method LookUpParts(v: VocabState, parts: seq<Str>) returns (tokens: seq<Token>)
    ensures tokens == PartTokens(v, parts)
  {
    var unk := GetSpecialTokenId(v, UNK);
    tokens := [];
    var k := 0;
    while k < |parts|
      invariant 0 <= k <= |parts|
      invariant tokens == PartTokens(v, parts[..k])
    {
      var id := GetTokenId(v, parts[k]);
      tokens := tokens + [Token(if id >= 0 then id else unk, parts[k], IsSpecialToken(v, parts[k]), OffsetMapping(0, 0))];
      k := k + 1;
    }
    assert parts[..|parts|] == parts;
  }
}
