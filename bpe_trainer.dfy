/**
 * The BPE trainer (bpe_trainer.cpp). Training counts the corpus words (each with "</w>"
 * appended), seeds the shared vocabulary with the special tokens and the frequent single bytes,
 * and then, round after round, appends the most frequent adjacent byte pair as a merge rule.
 *
 * The words come from whitespace splitting, so none holds a space; the round's rewrite of
 * "first second" into "firstsecond" therefore never fires and the word counts are the same in
 * every round. The model proves exactly that.
 *
 * `unordered_map` iteration order is not fixed by the source: each loop over such a map takes
 * the order as a parameter listing every key once. Each round of `train` rebuilds both maps
 * and so may visit them in a new order; round `r` takes its orders from `wordOrders(r)` and
 * `pairOrders(r)`. Pairs tied at the highest count are the rule rather than the exception
 * (every word ends in "</w>"), so different rounds may pick different pairs of that count.
 */
module BpeTraining {
  import opened Wrappers
  import opened Bytes
  import opened TokenTypes
  import opened Vocabulary
  import opened Config
  import opened SpecialTokens
  import opened Files
  import Seqs

  /** The end-of-word marker appended to every counted word. */
  function EndOfWord(): (s: Str)
    ensures |s| == 4 && ' ' !in s
  {
    "</w>"
  }

  /** `m[k] += amount`, a missing key counting as 0. */
  function Bump<K>(m: map<K, int>, k: K, amount: int): (r: map<K, int>)
    ensures r.Keys == m.Keys + {k}
    ensures r[k] == (if k in m then m[k] else 0) + amount
    ensures forall j :: j in m && j != k ==> r[j] == m[j]
  {
    m[k := (if k in m then m[k] else 0) + amount]
  }

  // ---- get_word_counts ----

  /** The text whose words are counted: the normalized line, ASCII-lowercased when configured. */
  function Prepared(c: TokenizerConfig, normalize: Str -> Str, text: Str): Str
  {
    if c.lowercase then Lower(normalize(text)) else normalize(text)
  }

  function Suffixed(ws: seq<Str>): (r: seq<Str>)
    ensures |r| == |ws|
    ensures forall i :: 0 <= i < |ws| ==> r[i] == ws[i] + EndOfWord()
  {
    seq(|ws|, i requires 0 <= i < |ws| => ws[i] + EndOfWord())
  }

  /** The counted words of one line. */
  function LineWords(c: TokenizerConfig, normalize: Str -> Str, text: Str): seq<Str>
  {
    Suffixed(Words(Prepared(c, normalize, text)))
  }

  /** The counted words of a corpus, line after line. */
  function CorpusWords(c: TokenizerConfig, normalize: Str -> Str, corpus: seq<Str>): seq<Str>
    decreases |corpus|
  {
    if corpus == [] then []
    else CorpusWords(c, normalize, corpus[..|corpus| - 1]) + LineWords(c, normalize, corpus[|corpus| - 1])
  }

  /** `counts[w]++` for each word in order. */
  function CountOf(ws: seq<Str>): map<Str, int>
    decreases |ws|
  {
    if ws == [] then map[] else Bump(CountOf(ws[..|ws| - 1]), ws[|ws| - 1], 1)
  }

  /** The word-count map holds exactly the words that occur, each with its number of occurrences. */
  lemma {:induction false} CountOfSpec(ws: seq<Str>, w: Str)
    ensures w in CountOf(ws) <==> w in ws
    ensures w in CountOf(ws) ==> CountOf(ws)[w] == multiset(ws)[w]
    decreases |ws|
  {
    if ws != [] {
      var init := ws[..|ws| - 1];
      CountOfSpec(init, w);
      assert ws == init + [ws[|ws| - 1]];
    }
  }

  /** Every counted word holds no space and is longer than one byte (it ends in "</w>"). */
  lemma {:induction false} CorpusWordsShape(c: TokenizerConfig, normalize: Str -> Str, corpus: seq<Str>)
    ensures forall w :: w in CorpusWords(c, normalize, corpus) ==> ' ' !in w && |w| >= 4
    decreases |corpus|
  {
    if corpus != [] {
      CorpusWordsShape(c, normalize, corpus[..|corpus| - 1]);
      var ws := Words(Prepared(c, normalize, corpus[|corpus| - 1]));
      forall i | 0 <= i < |ws| ensures ' ' !in ws[i] + EndOfWord() {
        assert NoSpace(ws[i]);
      }
    }
  }

  /** No counted word holds a space. */
  lemma CorpusCountsNoSpace(c: TokenizerConfig, normalize: Str -> Str, corpus: seq<Str>)
    ensures forall w :: w in CountOf(CorpusWords(c, normalize, corpus)) ==> ' ' !in w
  {
    CorpusWordsShape(c, normalize, corpus);
    forall w | w in CountOf(CorpusWords(c, normalize, corpus)) ensures ' ' !in w {
      CountOfSpec(CorpusWords(c, normalize, corpus), w);
    }
  }

  /** All counts are at least 1. */
  lemma CountsPositive(ws: seq<Str>)
    ensures forall w :: w in CountOf(ws) ==> CountOf(ws)[w] >= 1
  {
    forall w | w in CountOf(ws) ensures CountOf(ws)[w] >= 1 {
      CountOfSpec(ws, w);
    }
  }

  // ---- initial byte counts and initialize_vocab ----

  /** `counts[std::string(1, ch)] += count` for each byte of `w`, in order. */
  function AddBytes(m: map<Str, int>, w: Str, count: int): map<Str, int>
    decreases |w|
  {
    if w == [] then m else Bump(AddBytes(m, w[..|w| - 1], count), [w[|w| - 1]], count)
  }

  /** The single-byte counts `train` builds from the word counts, visiting the words in `order`. */
  function ByteCounts(wc: map<Str, int>, order: seq<Str>): map<Str, int>
    requires forall k :: 0 <= k < |order| ==> order[k] in wc
    decreases |order|
  {
    if order == [] then map[]
    else AddBytes(ByteCounts(wc, order[..|order| - 1]), order[|order| - 1], wc[order[|order| - 1]])
  }

  lemma {:induction false} AddBytesKeys(m: map<Str, int>, w: Str, count: int)
    ensures AddBytes(m, w, count).Keys == m.Keys + set i | 0 <= i < |w| :: [w[i]]
    decreases |w|
  {
    if w != [] {
      var init := w[..|w| - 1];
      AddBytesKeys(m, init, count);
      assert (set i | 0 <= i < |w| :: [w[i]]) == (set i | 0 <= i < |init| :: [init[i]]) + {[w[|w| - 1]]} by {
        forall i | 0 <= i < |init| ensures init[i] == w[i] { }
        assert forall i | 0 <= i < |w| :: [w[i]] in (set i | 0 <= i < |init| :: [init[i]]) + {[w[|w| - 1]]} by {
          forall i | 0 <= i < |w| ensures [w[i]] in (set i | 0 <= i < |init| :: [init[i]]) + {[w[|w| - 1]]} {
            if i < |init| { assert [w[i]] == [init[i]]; }
          }
        }
      }
    }
  }

  /** Every key of the byte counts is a one-byte string. */
  lemma {:induction false} ByteCountsKeys(wc: map<Str, int>, order: seq<Str>)
    requires forall k :: 0 <= k < |order| ==> order[k] in wc
    ensures forall t :: t in ByteCounts(wc, order) ==> |t| == 1
    decreases |order|
  {
    if order != [] {
      var init := order[..|order| - 1];
      ByteCountsKeys(wc, init);
      AddBytesKeys(ByteCounts(wc, init), order[|order| - 1], wc[order[|order| - 1]]);
    }
  }

  /** The bytes `initialize_vocab` adds: those whose count reaches `min_frequency_`, in visiting order. */
  function Frequent(counts: map<Str, int>, order: seq<Str>, minFrequency: int): (r: seq<Str>)
    requires forall k :: 0 <= k < |order| ==> order[k] in counts
    ensures |r| <= |order|
    ensures forall t :: t in r ==> t in order && counts[t] >= minFrequency
    ensures forall t :: t in order && counts[t] >= minFrequency ==> t in r
    decreases |order|
  {
    if order == [] then []
    else (if counts[order[0]] >= minFrequency then [order[0]] else []) + Frequent(counts, order[1..], minFrequency)
  }

  lemma FrequentStep(counts: map<Str, int>, order: seq<Str>, k: nat, minFrequency: int)
    requires k < |order| && forall i :: 0 <= i < |order| ==> order[i] in counts
    ensures Frequent(counts, order[k..], minFrequency)
         == (if counts[order[k]] >= minFrequency then [order[k]] else []) + Frequent(counts, order[k + 1..], minFrequency)
  {
    assert order[k..][1..] == order[k + 1..];
  }

  lemma WithTokensCons(v: VocabState, t: Str, rest: seq<Str>)
    ensures WithTokens(v, [t] + rest) == WithTokens(WithToken(v, t, -1), rest)
  {
    assert ([t] + rest)[1..] == rest;
  }

  /** One step of the `initialize_vocab` loop over the byte counts. */
  lemma FrequentWithTokens(v: VocabState, counts: map<Str, int>, order: seq<Str>, k: nat, minFrequency: int)
    requires k < |order| && forall i :: 0 <= i < |order| ==> order[i] in counts
    ensures WithTokens(v, Frequent(counts, order[k..], minFrequency))
         == WithTokens(if counts[order[k]] >= minFrequency then WithToken(v, order[k], -1) else v,
                       Frequent(counts, order[k + 1..], minFrequency))
  {
    FrequentStep(counts, order, k, minFrequency);
    var rest: seq<Str> := Frequent(counts, order[k + 1..], minFrequency);
    if counts[order[k]] >= minFrequency {
      WithTokensCons(v, order[k], rest);
    } else {
      Seqs.NilAppend(rest);
    }
  }

  /** Counting one more word bumps its count by one. */
  lemma CountOfSnoc(ws: seq<Str>, w: Str)
    ensures CountOf(ws + [w]) == Bump(CountOf(ws), w, 1)
  {
    assert (ws + [w])[..|ws|] == ws;
  }

  /** The vocabulary after `initialize_vocab`: cleared, the specials, then the frequent bytes. */
  function InitialVocab(c: TokenizerConfig, minFrequency: int, counts: map<Str, int>, order: seq<Str>): VocabState
    requires forall k :: 0 <= k < |order| ==> order[k] in counts
  {
    WithTokens(SpecialVocab(c), Frequent(counts, order, minFrequency))
  }

  /**
   * `initialize_vocab` keeps every non-empty configured special and every frequent byte, and
   * holds at most seven tokens more than there are frequent bytes.
   */
  lemma InitialVocabSpec(c: TokenizerConfig, minFrequency: int, counts: map<Str, int>, order: seq<Str>)
    requires forall k :: 0 <= k < |order| ==> order[k] in counts
    requires forall t :: t in counts ==> t != []
    ensures var r := InitialVocab(c, minFrequency, counts, order);
      && Valid(r) && Consistent(r)
      && (forall t :: t in order && counts[t] >= minFrequency ==> HasToken(r, t))
      && (forall t :: t != [] && t in Texts(ConfiguredSpecials(c)) ==> HasToken(r, t))
      && Size(r) <= 7 + |Frequent(counts, order, minFrequency)|
  {
    var f := Frequent(counts, order, minFrequency);
    var ps := ConfiguredSpecials(c);
    var sv := SpecialVocab(c);
    WithSpecialsEffect(EmptyVocab(), ps);
    WithTokensEffect(sv, f);
    var r := InitialVocab(c, minFrequency, counts, order);
    forall t | t in order && counts[t] >= minFrequency ensures HasToken(r, t) {
      var k :| 0 <= k < |f| && f[k] == t;
    }
    forall t | t != [] && t in Texts(ps) ensures HasToken(r, t) {
      var k :| 0 <= k < |ps| && Texts(ps)[k] == t;
      assert HasToken(sv, ps[k].1);
      assert GetTokenId(r, t) == GetTokenId(sv, t);
    }
  }

  // ---- get_pair_counts ----

  /** `counts[{w[i], w[i+1]}] += count` for each adjacent pair of bytes of `w`, in order. */
  function AddPairs(m: map<(Str, Str), int>, w: Str, count: int): map<(Str, Str), int>
    decreases |w|
  {
    if |w| < 2 then m
    else Bump(AddPairs(m, w[..|w| - 1], count), ([w[|w| - 2]], [w[|w| - 1]]), count)
  }

  /** `get_pair_counts`: the adjacent byte pairs of the words visited in `order`, weighted by count. */
  function PairCountsOf(wc: map<Str, int>, order: seq<Str>): map<(Str, Str), int>
    requires forall k :: 0 <= k < |order| ==> order[k] in wc
    decreases |order|
  {
    if order == [] then map[]
    else AddPairs(PairCountsOf(wc, order[..|order| - 1]), order[|order| - 1], wc[order[|order| - 1]])
  }

  lemma {:induction false} AddPairsGrows(m: map<(Str, Str), int>, w: Str, count: int)
    requires count >= 1 && forall p :: p in m ==> m[p] >= 1
    ensures var r := AddPairs(m, w, count);
      && m.Keys <= r.Keys
      && (|w| >= 2 ==> |r| > 0)
      && forall p :: p in r ==> r[p] >= 1
    decreases |w|
  {
    if |w| >= 2 {
      AddPairsGrows(m, w[..|w| - 1], count);
    }
  }

  /**
   * With positive word counts, every pair count is positive, and there is a pair as soon as
   * some visited word has two bytes.
   */
  lemma {:induction false} PairCountsSpec(wc: map<Str, int>, order: seq<Str>)
    requires forall k :: 0 <= k < |order| ==> order[k] in wc
    requires forall w :: w in wc ==> wc[w] >= 1
    ensures forall p :: p in PairCountsOf(wc, order) ==> PairCountsOf(wc, order)[p] >= 1
    ensures (exists k :: 0 <= k < |order| && |order[k]| >= 2) ==> |PairCountsOf(wc, order)| > 0
    decreases |order|
  {
    if order != [] {
      var init := order[..|order| - 1];
      var last := order[|order| - 1];
      PairCountsSpec(wc, init);
      AddPairsGrows(PairCountsOf(wc, init), last, wc[last]);
      if k :| 0 <= k < |order| && |order[k]| >= 2 {
        if k < |init| {
          assert init[k] == order[k];
        }
      }
    }
  }

  // ---- the best pair of a round ----

  /**
   * The scan over `pair_counts_`: `best_pair` starts as a pair of empty strings and `max_freq`
   * as 0, and a pair replaces them when its count is strictly greater.
   */
  function BestOf(pc: map<(Str, Str), int>, order: seq<(Str, Str)>): ((Str, Str), int)
    requires forall k :: 0 <= k < |order| ==> order[k] in pc
    decreases |order|
  {
    if order == [] then (([], []), 0)
    else
      var (best, most) := BestOf(pc, order[..|order| - 1]);
      var last := order[|order| - 1];
      if pc[last] > most then (last, pc[last]) else (best, most)
  }

  /**
   * The scan returns the largest count (0 when no count is positive) and, when that is
   * positive, the FIRST pair in visiting order that has it.
   */
  lemma {:induction false} BestOfSpec(pc: map<(Str, Str), int>, order: seq<(Str, Str)>)
    requires forall k :: 0 <= k < |order| ==> order[k] in pc
    ensures var (best, most) := BestOf(pc, order);
      && most >= 0
      && (forall j :: 0 <= j < |order| ==> pc[order[j]] <= most)
      && (most == 0 ==> best == ([], []))
      && (most > 0 ==> exists k :: 0 <= k < |order| && order[k] == best && pc[best] == most
                                && forall j :: 0 <= j < k ==> pc[order[j]] < most)
    decreases |order|
  {
    if order != [] {
      var init := order[..|order| - 1];
      BestOfSpec(pc, init);
      var (best, most) := BestOf(pc, init);
      var last := order[|order| - 1];
      forall j | 0 <= j < |init| ensures init[j] == order[j] { }
      if pc[last] > most {
        assert forall j :: 0 <= j < |order| - 1 ==> pc[order[j]] < pc[last] by {
          forall j | 0 <= j < |order| - 1 ensures pc[order[j]] < pc[last] { assert init[j] == order[j]; }
        }
      } else if most > 0 {
        var k :| 0 <= k < |init| && init[k] == best && pc[best] == most && forall j :: 0 <= j < k ==> pc[init[j]] < most;
        assert order[k] == best;
      }
    }
  }

  // ---- the round's rewrite of word_counts_ ----

  /** The first position at or after `from` where `pat` occurs in `s` (`std::string::find`). */
  function FindSub(s: Str, pat: Str, from: nat): (r: Option<nat>)
    ensures r.Some? ==> from <= r.value && r.value + |pat| <= |s| && s[r.value..r.value + |pat|] == pat
    decreases |s| - from
  {
    if from + |pat| > |s| then None
    else if s[from..from + |pat|] == pat then Some(from)
    else FindSub(s, pat, from + 1)
  }

  /** A pattern holding a space never occurs in a string without one. */
  lemma FindSubNoSpace(s: Str, pat: Str, from: nat)
    requires ' ' in pat && ' ' !in s
    ensures FindSub(s, pat, from) == None
  {
  }

  /**
   * The rewrite loop: while "first second" occurs at or after `from`, replace it with
   * "firstsecond" and search again from the same position. Each replacement removes one space,
   * which bounds the loop.
   */
  function ReplacePair(s: Str, first: Str, second: Str, from: nat): Str
    decreases multiset(s)[' ']
  {
    var pat := first + " " + second;
    match FindSub(s, pat, from)
    case None => s
    case Some(p) =>
      SpliceFewer(s, first, second, p);
      ReplacePair(Splice(s, first, second, p), first, second, p)
  }

  /** `s.replace(p, |first + " " + second|, first + second)`. */
  function Splice(s: Str, first: Str, second: Str, p: nat): Str
    requires p + |first| + 1 + |second| <= |s|
  {
    s[..p] + (first + second) + s[p + |first| + 1 + |second|..]
  }

  lemma ReplacePairStep(s: Str, first: Str, second: Str, from: nat)
    ensures FindSub(s, first + " " + second, from).None? ==> ReplacePair(s, first, second, from) == s
    ensures FindSub(s, first + " " + second, from).Some? ==>
      var p := FindSub(s, first + " " + second, from).value;
      ReplacePair(s, first, second, from) == ReplacePair(Splice(s, first, second, p), first, second, p)
  {
  }

  /** Replacing an occurrence of "first second" by "firstsecond" removes one space. */
  lemma SpliceFewer(s: Str, first: Str, second: Str, p: nat)
    requires p + |first + " " + second| <= |s| && s[p..p + |first + " " + second|] == first + " " + second
    ensures multiset(Splice(s, first, second, p))[' '] < multiset(s)[' ']
  {
    DropOne(s, first, ' ', second, p);
  }

  lemma DropOne<T>(s: seq<T>, f: seq<T>, x: T, g: seq<T>, p: nat)
    requires p + |f| + 1 + |g| <= |s| && s[p..p + |f| + 1 + |g|] == f + [x] + g
    ensures multiset(s[..p] + (f + g) + s[p + |f| + 1 + |g|..])[x] < multiset(s)[x]
  {
    SpliceCount(s, p, p + |f| + 1 + |g|, f + g, x);
    MiddleCount(f, x, g);
  }

  lemma SpliceCount<T>(s: seq<T>, p: nat, q: nat, rep: seq<T>, x: T)
    requires p <= q <= |s|
    ensures multiset(s[..p] + rep + s[q..])[x] + multiset(s[p..q])[x] == multiset(s)[x] + multiset(rep)[x]
  {
    assert s == s[..p] + s[p..q] + s[q..];
  }

  lemma MiddleCount<T>(f: seq<T>, x: T, g: seq<T>)
    ensures multiset(f + [x] + g)[x] == multiset(f + g)[x] + 1
  {
  }

  /** A word without a space comes out of the rewrite unchanged. */
  lemma ReplacePairNoSpace(s: Str, first: Str, second: Str)
    requires ' ' !in s
    ensures ReplacePair(s, first, second, 0) == s
  {
    FindSubNoSpace(s, first + " " + second, 0);
  }

  /** `next_word_counts[merged_word] = count` for each word in visiting order. */
  function Rewritten(wc: map<Str, int>, order: seq<Str>, first: Str, second: Str): map<Str, int>
    requires forall k :: 0 <= k < |order| ==> order[k] in wc
    decreases |order|
  {
    if order == [] then map[]
    else
      var w := order[|order| - 1];
      Rewritten(wc, order[..|order| - 1], first, second)[ReplacePair(w, first, second, 0) := wc[w]]
  }

  /** When no word holds a space, a round rebuilds exactly the same word counts. */
  lemma {:induction false} RewrittenUnchanged(wc: map<Str, int>, order: seq<Str>, first: Str, second: Str)
    requires forall k :: 0 <= k < |order| ==> order[k] in wc && ' ' !in order[k]
    ensures Rewritten(wc, order, first, second) == map k | k in order :: wc[k]
    decreases |order|
  {
    if order != [] {
      var init := order[..|order| - 1];
      var w := order[|order| - 1];
      RewrittenUnchanged(wc, init, first, second);
      ReplacePairNoSpace(w, first, second);
      assert order == init + [w];
    }
  }

  /** With the words listed once each, the rebuilt map is the word-count map itself. */
  lemma RoundKeepsCounts(wc: map<Str, int>, order: seq<Str>, first: Str, second: Str)
    requires IsKeyOrder(order, wc)
    requires forall w :: w in wc ==> ' ' !in w
    ensures Rewritten(wc, order, first, second) == wc
  {
    RewrittenUnchanged(wc, order, first, second);
  }

  // ---- the whole of train ----

  /** The word counts `train` works on: no word holds a space or is shorter than two bytes. */
  ghost predicate WellCounted(wc: map<Str, int>)
  {
    forall w :: w in wc ==> ' ' !in w && |w| >= 2 && wc[w] >= 1
  }

  /** Round `r` visits the words in `wordOrders(r)` and the pairs in `pairOrders(r)`. */
  ghost predicate RoundOrders(wc: map<Str, int>, wordOrders: nat -> seq<Str>, pairOrders: nat -> seq<(Str, Str)>)
  {
    forall r: nat :: IsKeyOrder(wordOrders(r), wc) && IsKeyOrder(pairOrders(r), PairCountsOf(wc, wordOrders(r)))
  }

  /**
   * The visiting orders a training run on `corpus` meets: those of the word counts, of the
   * byte counts, and of each round's words and pairs.
   */
  ghost predicate TrainOrders(c: TokenizerConfig, normalize: Str -> Str, corpus: seq<Str>, wordOrder: seq<Str>,
                              byteOrder: seq<Str>, wordOrders: nat -> seq<Str>, pairOrders: nat -> seq<(Str, Str)>)
  {
    var wc := CountOf(CorpusWords(c, normalize, corpus));
    && IsKeyOrder(wordOrder, wc)
    && IsKeyOrder(byteOrder, ByteCounts(wc, wordOrder))
    && RoundOrders(wc, wordOrders, pairOrders)
  }

  /** The pair counts of round `r`. */
  function RoundPairs(wc: map<Str, int>, wordOrders: nat -> seq<Str>, pairOrders: nat -> seq<(Str, Str)>, r: nat)
    : map<(Str, Str), int>
    requires RoundOrders(wc, wordOrders, pairOrders)
  {
    PairCountsOf(wc, wordOrders(r))
  }

  /** The pair round `r` picks. */
  function PickOf(wc: map<Str, int>, wordOrders: nat -> seq<Str>, pairOrders: nat -> seq<(Str, Str)>, r: nat): (Str, Str)
    requires RoundOrders(wc, wordOrders, pairOrders)
  {
    assert IsKeyOrder(pairOrders(r), RoundPairs(wc, wordOrders, pairOrders, r));
    BestOf(RoundPairs(wc, wordOrders, pairOrders, r), pairOrders(r)).0
  }

  /** The rules the first `n` rounds append, one per round. */
  function RulesUpTo(wc: map<Str, int>, wordOrders: nat -> seq<Str>, pairOrders: nat -> seq<(Str, Str)>, n: nat)
    : (rules: seq<MergeRule>)
    requires RoundOrders(wc, wordOrders, pairOrders)
    ensures |rules| == n
  {
    if n == 0 then []
    else
      var p := PickOf(wc, wordOrders, pairOrders, n - 1);
      RulesUpTo(wc, wordOrders, pairOrders, n - 1) + [MergeRule(p.0, p.1)]
  }

  /** The tokens the first `n` rounds add, one per round: the picked pair's concatenation. */
  function TokensUpTo(wc: map<Str, int>, wordOrders: nat -> seq<Str>, pairOrders: nat -> seq<(Str, Str)>, n: nat)
    : (tokens: seq<Str>)
    requires RoundOrders(wc, wordOrders, pairOrders)
    ensures |tokens| == n
  {
    if n == 0 then []
    else
      var p := PickOf(wc, wordOrders, pairOrders, n - 1);
      TokensUpTo(wc, wordOrders, pairOrders, n - 1) + [p.0 + p.1]
  }

  /** One more round appends its rule and its token. */
  lemma UpToSnoc(wc: map<Str, int>, wordOrders: nat -> seq<Str>, pairOrders: nat -> seq<(Str, Str)>, k: nat)
    requires RoundOrders(wc, wordOrders, pairOrders)
    ensures var p := PickOf(wc, wordOrders, pairOrders, k);
      && RulesUpTo(wc, wordOrders, pairOrders, k + 1) == RulesUpTo(wc, wordOrders, pairOrders, k) + [MergeRule(p.0, p.1)]
      && TokensUpTo(wc, wordOrders, pairOrders, k + 1) == TokensUpTo(wc, wordOrders, pairOrders, k) + [p.0 + p.1]
  {
  }

  /** Rule `r` and token `r` come from the pair round `r` picks. */
  lemma {:induction false} UpToSpec(wc: map<Str, int>, wordOrders: nat -> seq<Str>, pairOrders: nat -> seq<(Str, Str)>,
                                    n: nat, r: nat)
    requires RoundOrders(wc, wordOrders, pairOrders) && r < n
    ensures var p := PickOf(wc, wordOrders, pairOrders, r);
      && RulesUpTo(wc, wordOrders, pairOrders, n)[r] == MergeRule(p.0, p.1)
      && TokensUpTo(wc, wordOrders, pairOrders, n)[r] == p.0 + p.1
    decreases n
  {
    if r < n - 1 {
      UpToSpec(wc, wordOrders, pairOrders, n - 1, r);
    }
  }

  /**
   * The number of rounds `train` runs: none when the seeded vocabulary already has `vocab_size`
   * tokens or when there is no word (and so no pair); otherwise one per missing token.
   */
  function Rounds(seeded: nat, vocabSize: int, wc: map<Str, int>): (n: nat)
    ensures n <= if seeded < vocabSize then vocabSize - seeded else 0
  {
    if seeded >= vocabSize || |wc| == 0 then 0 else vocabSize - seeded
  }

  /**
   * A round merges exactly when there is a word: every word has a pair, so the pair counts are
   * not empty, and every count is positive, so the best count is not 0.
   */
  lemma RoundMerges(wc: map<Str, int>, wordOrder: seq<Str>, pairOrder: seq<(Str, Str)>)
    requires WellCounted(wc) && IsKeyOrder(wordOrder, wc) && IsKeyOrder(pairOrder, PairCountsOf(wc, wordOrder))
    ensures var pc := PairCountsOf(wc, wordOrder);
      (|pc| > 0 && BestOf(pc, pairOrder).1 != 0) == (|wc| > 0)
  {
    var pc := PairCountsOf(wc, wordOrder);
    PairCountsSpec(wc, wordOrder);
    BestOfSpec(pc, pairOrder);
    if |wc| > 0 {
      var w :| w in wc;
      assert w in wordOrder;
      var p :| p in pc;
      assert p in pairOrder;
    }
  }

  /**
   * Each rule appended by a round is a pair of highest count in that round's pair counts, and
   * that count is the same whatever order the round visits the pairs in.
   */
  lemma PickIsMaximal(wc: map<Str, int>, wordOrders: nat -> seq<Str>, pairOrders: nat -> seq<(Str, Str)>, r: nat)
    requires WellCounted(wc) && |wc| > 0 && RoundOrders(wc, wordOrders, pairOrders)
    ensures var pc := RoundPairs(wc, wordOrders, pairOrders, r);
      var best := PickOf(wc, wordOrders, pairOrders, r);
      && best in pc
      && (forall p :: p in pc ==> pc[p] <= pc[best])
      && pc[best] >= 1
  {
    var pc := RoundPairs(wc, wordOrders, pairOrders, r);
    var order := pairOrders(r);
    assert IsKeyOrder(wordOrders(r), wc) && IsKeyOrder(order, pc);
    RoundMerges(wc, wordOrders(r), order);
    BestOfSpec(pc, order);
    var best := PickOf(wc, wordOrders, pairOrders, r);
    forall p | p in pc ensures pc[p] <= pc[best] {
      var j :| 0 <= j < |order| && order[j] == p;
    }
  }

  /** The word-count map is empty exactly when the corpus has no word. */
  lemma CountOfEmpty(ws: seq<Str>)
    ensures |CountOf(ws)| == 0 <==> ws == []
  {
    if ws != [] {
      CountOfSpec(ws, ws[0]);
    }
  }

  /** What `RoundOrders` says of round `r`. */
  lemma RoundOrdersAt(wc: map<Str, int>, wordOrders: nat -> seq<Str>, pairOrders: nat -> seq<(Str, Str)>, r: nat)
    requires RoundOrders(wc, wordOrders, pairOrders)
    ensures IsKeyOrder(wordOrders(r), wc) && IsKeyOrder(pairOrders(r), PairCountsOf(wc, wordOrders(r)))
    ensures PickOf(wc, wordOrders, pairOrders, r) == BestOf(PairCountsOf(wc, wordOrders(r)), pairOrders(r)).0
  {
  }

  /** The word counts `get_word_counts` builds are the ones `train` works on. */
  lemma CorpusWellCounted(c: TokenizerConfig, normalize: Str -> Str, corpus: seq<Str>)
    ensures WellCounted(CountOf(CorpusWords(c, normalize, corpus)))
  {
    var ws := CorpusWords(c, normalize, corpus);
    CorpusWordsShape(c, normalize, corpus);
    CountsPositive(ws);
    forall w | w in CountOf(ws) ensures ' ' !in w && |w| >= 2 {
      CountOfSpec(ws, w);
    }
  }

  class BpeTrainer {
    var config: TokenizerConfig
    var minFrequency: u64
    var vocabSize: u64
    var wordCounts: map<Str, int>
    var pairCounts: map<(Str, Str), int>
    var mergeRules: seq<MergeRule>

    /** The limits start from the configuration; the maps and the rule list start empty. */
    constructor (c: TokenizerConfig)
      ensures config == c && minFrequency == c.minFrequency && vocabSize == c.vocabSize
      ensures wordCounts == map[] && pairCounts == map[] && mergeRules == []
    {
      config := c;
      minFrequency := c.minFrequency;
      vocabSize := c.vocabSize;
      wordCounts := map[];
      pairCounts := map[];
      mergeRules := [];
    }

    /** `set_vocab_size`: 0 is refused; otherwise the field and the configuration both change. */
    method SetVocabSize(size: u64) returns (r: Result<()>)
      modifies this
      ensures size == 0 ==> r == Err("Vocabulary size must be positive") && unchanged(this)
      ensures size != 0 ==> r == Ok(()) && vocabSize == size && config == old(config).(vocabSize := size)
      ensures size != 0 ==> minFrequency == old(minFrequency) && mergeRules == old(mergeRules)
      ensures wordCounts == old(wordCounts) && pairCounts == old(pairCounts)
    {
      if size == 0 {
        return Err("Vocabulary size must be positive");
      }
      vocabSize := size;
      config := config.(vocabSize := size);
      return Ok(());
    }

    /** `set_min_frequency`: 0 is refused; otherwise the field and the configuration both change. */
    method SetMinFrequency(freq: u64) returns (r: Result<()>)
      modifies this
      ensures freq == 0 ==> r == Err("Minimum frequency must be at least 1") && unchanged(this)
      ensures freq != 0 ==> r == Ok(()) && minFrequency == freq && config == old(config).(minFrequency := freq)
      ensures freq != 0 ==> vocabSize == old(vocabSize) && mergeRules == old(mergeRules)
      ensures wordCounts == old(wordCounts) && pairCounts == old(pairCounts)
    {
      if freq == 0 {
        return Err("Minimum frequency must be at least 1");
      }
      minFrequency := freq;
      config := config.(minFrequency := freq);
      return Ok(());
    }

    /** `get_word_counts`. */
    method GetWordCounts(corpus: seq<Str>, normalize: Str -> Str) returns (counts: map<Str, int>)
      ensures counts == CountOf(CorpusWords(config, normalize, corpus))
    {
      counts := map[];
      var k := 0;
      while k < |corpus|
        invariant 0 <= k <= |corpus|
        invariant counts == CountOf(CorpusWords(config, normalize, corpus[..k]))
      {
        ghost var taken := corpus[..k + 1];
        assert taken[..k] == corpus[..k] && taken[k] == corpus[k];
        assert CorpusWords(config, normalize, taken) ==
          CorpusWords(config, normalize, corpus[..k]) + LineWords(config, normalize, corpus[k]);
        counts := CountLine(counts, CorpusWords(config, normalize, corpus[..k]), Words(Prepared(config, normalize, corpus[k])));
        k := k + 1;
      }
      assert corpus[..|corpus|] == corpus;
    }

    /** `initialize_vocab`. */
    method InitializeVocab(vocab: Vocab, counts: map<Str, int>, order: seq<Str>)
      requires forall k :: 0 <= k < |order| ==> order[k] in counts
      modifies vocab
      ensures vocab.State() == InitialVocab(config, minFrequency, counts, order)
    {
      vocab.Clear();
      var _ := RegisterSpecials(vocab, ConfiguredSpecials(config));
      var k := 0;
      while k < |order|
        invariant 0 <= k <= |order|
        invariant InitialVocab(config, minFrequency, counts, order) == WithTokens(vocab.State(), Frequent(counts, order[k..], minFrequency))
      {
        FrequentWithTokens(vocab.State(), counts, order, k, minFrequency);
        if counts[order[k]] >= minFrequency {
          vocab.AddToken(order[k], -1);
        }
        k := k + 1;
      }
    }

    /**
     * `train`. An empty corpus is refused before anything changes. Otherwise the word counts
     * are rebuilt, the vocabulary is seeded, and each round appends the best pair of its pair
     * counts as a rule and adds that pair's concatenation to the vocabulary.
     */
    method Train(corpus: seq<Str>, vocab: Vocab, vocabSize: u64, normalize: Str -> Str,
                 wordOrder: seq<Str>, byteOrder: seq<Str>,
                 wordOrders: nat -> seq<Str>, pairOrders: nat -> seq<(Str, Str)>) returns (r: Result<()>)
      requires TrainOrders(config, normalize, corpus, wordOrder, byteOrder, wordOrders, pairOrders)
      modifies this, vocab
      ensures config == old(config) && minFrequency == old(minFrequency) && this.vocabSize == old(this.vocabSize)
      ensures corpus == [] ==> r == Err("Empty corpus provided for training") && unchanged(this) && unchanged(vocab)
      ensures corpus != [] ==> r == Ok(()) && wordCounts == CountOf(CorpusWords(config, normalize, corpus))
      ensures corpus != [] ==>
        var seeded := InitialVocab(config, minFrequency, ByteCounts(wordCounts, wordOrder), byteOrder);
        var n := Rounds(Size(seeded), vocabSize as int, wordCounts);
        && mergeRules == old(mergeRules) + RulesUpTo(wordCounts, wordOrders, pairOrders, n)
        && vocab.State() == WithTokens(seeded, TokensUpTo(wordCounts, wordOrders, pairOrders, n))
        && pairCounts == (if Size(seeded) < vocabSize as int
                          then RoundPairs(wordCounts, wordOrders, pairOrders, if n > 0 then n - 1 else 0)
                          else old(pairCounts))
    {
      if corpus == [] {
        return Err("Empty corpus provided for training");
      }
      Prepare(corpus, vocab, normalize, wordOrder, byteOrder);
      CorpusWellCounted(config, normalize, corpus);
      RunRounds(vocab, vocabSize as int, wordOrders, pairOrders);
      return Ok(());
    }

    /**
     * `train_from_file`: a path that cannot be opened is refused, with its name, before anything
     * changes; otherwise the file's non-empty lines, in order, are the corpus of `train` with the
     * trainer's own vocabulary size.
     */
    method TrainFromFile(path: Str, files: map<Str, seq<Str>>, vocab: Vocab, normalize: Str -> Str,
                         wordOrder: seq<Str>, byteOrder: seq<Str>,
                         wordOrders: nat -> seq<Str>, pairOrders: nat -> seq<(Str, Str)>) returns (r: Result<()>)
      requires path in files ==>
        TrainOrders(config, normalize, NonEmpty(files[path]), wordOrder, byteOrder, wordOrders, pairOrders)
      modifies this, vocab
      ensures config == old(config) && minFrequency == old(minFrequency) && vocabSize == old(vocabSize)
      ensures path !in files ==> r == Err("Failed to open training file: " + path) && unchanged(this) && unchanged(vocab)
      ensures path in files && NonEmpty(files[path]) == [] ==>
        r == Err("Empty corpus provided for training") && unchanged(this) && unchanged(vocab)
      ensures path in files && NonEmpty(files[path]) != [] ==>
        var corpus := NonEmpty(files[path]);
        && r == Ok(()) && wordCounts == CountOf(CorpusWords(config, normalize, corpus))
        && var seeded := InitialVocab(config, minFrequency, ByteCounts(wordCounts, wordOrder), byteOrder);
           var n := Rounds(Size(seeded), vocabSize as int, wordCounts);
           && mergeRules == old(mergeRules) + RulesUpTo(wordCounts, wordOrders, pairOrders, n)
           && vocab.State() == WithTokens(seeded, TokensUpTo(wordCounts, wordOrders, pairOrders, n))
    {
      if path !in files {
        return Err("Failed to open training file: " + path);
      }
      var lines := files[path];
      var corpus: seq<Str> := [];
      for j := 0 to |lines|
        invariant corpus == NonEmpty(lines[..j])
      {
        assert lines[..j + 1][..j] == lines[..j];
        if lines[j] != [] {
          corpus := corpus + [lines[j]];
        }
      }
      assert lines[..|lines|] == lines;
      r := Train(corpus, vocab, vocabSize, normalize, wordOrder, byteOrder, wordOrders, pairOrders);
    }

    /**
     * `train_from_files`: an empty list of paths is refused, and so is a path that cannot be
     * opened, with its name, before anything changes; otherwise the non-empty lines of all
     * files, in order, are the corpus of `train` with the trainer's own vocabulary size.
     */
    method TrainFromFiles(paths: seq<Str>, files: map<Str, seq<Str>>, vocab: Vocab, normalize: Str -> Str,
                          wordOrder: seq<Str>, byteOrder: seq<Str>,
                          wordOrders: nat -> seq<Str>, pairOrders: nat -> seq<(Str, Str)>) returns (r: Result<()>)
      requires (forall p :: p in paths ==> p in files) ==>
        TrainOrders(config, normalize, NonEmpty(AllLines(paths, files)), wordOrder, byteOrder, wordOrders, pairOrders)
      modifies this, vocab
      ensures config == old(config) && minFrequency == old(minFrequency) && vocabSize == old(vocabSize)
      ensures paths == [] ==> r == Err("No file paths provided") && unchanged(this) && unchanged(vocab)
      ensures paths != [] && (exists p :: p in paths && p !in files) ==>
        r == Err("Failed to open file: " + FirstMissing(paths, files)) && unchanged(this) && unchanged(vocab)
      ensures paths != [] && (forall p :: p in paths ==> p in files) && NonEmpty(AllLines(paths, files)) == [] ==>
        r == Err("Empty corpus provided for training") && unchanged(this) && unchanged(vocab)
      ensures paths != [] && (forall p :: p in paths ==> p in files) && NonEmpty(AllLines(paths, files)) != [] ==>
        var corpus := NonEmpty(AllLines(paths, files));
        && r == Ok(()) && wordCounts == CountOf(CorpusWords(config, normalize, corpus))
        && var seeded := InitialVocab(config, minFrequency, ByteCounts(wordCounts, wordOrder), byteOrder);
           var n := Rounds(Size(seeded), vocabSize as int, wordCounts);
           && mergeRules == old(mergeRules) + RulesUpTo(wordCounts, wordOrders, pairOrders, n)
           && vocab.State() == WithTokens(seeded, TokensUpTo(wordCounts, wordOrders, pairOrders, n))
    {
      if paths == [] {
        return Err("No file paths provided");
      }
      var read := ReadCorpus(paths, files);
      if read.Err? {
        return Err(read.msg);
      }
      r := Train(read.value, vocab, vocabSize, normalize, wordOrder, byteOrder, wordOrders, pairOrders);
    }

    /** The part of `train` before its loop: count the words, then `initialize_vocab`. */
    method Prepare(corpus: seq<Str>, vocab: Vocab, normalize: Str -> Str, wordOrder: seq<Str>, byteOrder: seq<Str>)
      requires var wc := CountOf(CorpusWords(config, normalize, corpus));
        && IsKeyOrder(wordOrder, wc)
        && IsKeyOrder(byteOrder, ByteCounts(wc, wordOrder))
      modifies this, vocab
      ensures config == old(config) && minFrequency == old(minFrequency) && vocabSize == old(vocabSize)
      ensures mergeRules == old(mergeRules) && pairCounts == old(pairCounts)
      ensures wordCounts == CountOf(CorpusWords(config, normalize, corpus))
      ensures vocab.State() == InitialVocab(config, minFrequency, ByteCounts(wordCounts, wordOrder), byteOrder)
    {
      wordCounts := GetWordCounts(corpus, normalize);
      var byteCounts := CountBytes(wordCounts, wordOrder);
      InitializeVocab(vocab, byteCounts, byteOrder);
    }

    /**
     * The loop of `train`, from `i = vocab->size()` up to `vocab_size`. The word counts never
     * change, so every round merges as long as there is a word.
     */
    method RunRounds(vocab: Vocab, target: int, wordOrders: nat -> seq<Str>, pairOrders: nat -> seq<(Str, Str)>)
      requires WellCounted(wordCounts) && RoundOrders(wordCounts, wordOrders, pairOrders)
      modifies this, vocab
      ensures config == old(config) && minFrequency == old(minFrequency) && vocabSize == old(vocabSize)
      ensures wordCounts == old(wordCounts)
      ensures var n := Rounds(Size(old(vocab.State())), target, wordCounts);
        && mergeRules == old(mergeRules) + RulesUpTo(wordCounts, wordOrders, pairOrders, n)
        && vocab.State() == WithTokens(old(vocab.State()), TokensUpTo(wordCounts, wordOrders, pairOrders, n))
        && pairCounts == (if Size(old(vocab.State())) < target
                          then RoundPairs(wordCounts, wordOrders, pairOrders, if n > 0 then n - 1 else 0)
                          else old(pairCounts))
    {
      ghost var wc := wordCounts;
      ghost var seeded := vocab.State();
      ghost var rules0 := mergeRules;
      ghost var pairs0 := pairCounts;
      var start := |vocab.tokenToId|;
      var i := start;
      while i < target
        invariant i == start || start < i <= target
        invariant wordCounts == wc
        invariant config == old(config) && minFrequency == old(minFrequency) && vocabSize == old(vocabSize)
        invariant i > start ==> |wc| > 0
        invariant mergeRules == rules0 + RulesUpTo(wc, wordOrders, pairOrders, i - start)
        invariant vocab.State() == WithTokens(seeded, TokensUpTo(wc, wordOrders, pairOrders, i - start))
        invariant pairCounts == (if i > start then RoundPairs(wc, wordOrders, pairOrders, i - start - 1) else pairs0)
        decreases target - i
      {
        var merged := RoundAt(vocab, i - start, wordOrders, pairOrders, wc, seeded, rules0);
        if !merged {
          break;
        }
        i := i + 1;
      }
      assert Size(seeded) == start && (i > start ==> i == target);
    }

    /** Round `k` of the loop, in the terms of the loop's invariant. */
    method RoundAt(vocab: Vocab, k: nat, wordOrders: nat -> seq<Str>, pairOrders: nat -> seq<(Str, Str)>,
                   ghost wc: map<Str, int>, ghost seeded: VocabState, ghost rules0: seq<MergeRule>)
      returns (merged: bool)
      requires wordCounts == wc && WellCounted(wc) && RoundOrders(wc, wordOrders, pairOrders)
      requires mergeRules == rules0 + RulesUpTo(wc, wordOrders, pairOrders, k)
      requires vocab.State() == WithTokens(seeded, TokensUpTo(wc, wordOrders, pairOrders, k))
      modifies this, vocab
      ensures config == old(config) && minFrequency == old(minFrequency) && vocabSize == old(vocabSize)
      ensures wordCounts == wc && merged == (|wc| > 0)
      ensures pairCounts == RoundPairs(wc, wordOrders, pairOrders, k)
      ensures merged ==> mergeRules == rules0 + RulesUpTo(wc, wordOrders, pairOrders, k + 1)
      ensures merged ==> vocab.State() == WithTokens(seeded, TokensUpTo(wc, wordOrders, pairOrders, k + 1))
      ensures !merged ==> mergeRules == old(mergeRules) && vocab.State() == old(vocab.State())
    {
      ghost var best := PickOf(wc, wordOrders, pairOrders, k);
      UpToSnoc(wc, wordOrders, pairOrders, k);
      Seqs.AppendAssoc(rules0, RulesUpTo(wc, wordOrders, pairOrders, k), [MergeRule(best.0, best.1)]);
      WithTokensSnoc(seeded, TokensUpTo(wc, wordOrders, pairOrders, k), best.0 + best.1);
      RoundOrdersAt(wc, wordOrders, pairOrders, k);
      RoundMerges(wc, wordOrders(k), pairOrders(k));
      merged := Round(vocab, wordOrders(k), pairOrders(k));
    }

    /** One round of the loop of `train`; `false` when the round breaks out of the loop. */
    method Round(vocab: Vocab, wordOrder: seq<Str>, pairOrder: seq<(Str, Str)>) returns (merged: bool)
      requires IsKeyOrder(wordOrder, wordCounts) && forall w :: w in wordCounts ==> ' ' !in w
      requires IsKeyOrder(pairOrder, PairCountsOf(wordCounts, wordOrder))
      modifies this, vocab
      ensures config == old(config) && minFrequency == old(minFrequency) && vocabSize == old(vocabSize)
      ensures wordCounts == old(wordCounts)
      ensures pairCounts == PairCountsOf(old(wordCounts), wordOrder)
      ensures merged == (|pairCounts| > 0 && BestOf(pairCounts, pairOrder).1 != 0)
      ensures var best := BestOf(pairCounts, pairOrder).0;
        mergeRules == old(mergeRules) + (if merged then [MergeRule(best.0, best.1)] else [])
      ensures var best := BestOf(pairCounts, pairOrder).0;
        vocab.State() == (if merged then WithToken(old(vocab.State()), best.0 + best.1, -1) else old(vocab.State()))
    {
      pairCounts := GetPairCounts(wordCounts, wordOrder);
      if |pairCounts| == 0 {
        return false;
      }
      var pair, maxFreq := PickBest(pairCounts, pairOrder);
      if maxFreq == 0 {
        return false;
      }
      ApplyMerge(vocab, wordOrder, pair);
      return true;
    }

    /** The merging half of a round: record the rule, add the merged token, rewrite the words. */
    method ApplyMerge(vocab: Vocab, wordOrder: seq<Str>, pair: (Str, Str))
      requires IsKeyOrder(wordOrder, wordCounts) && forall w :: w in wordCounts ==> ' ' !in w
      modifies this, vocab
      ensures config == old(config) && minFrequency == old(minFrequency) && vocabSize == old(vocabSize)
      ensures wordCounts == old(wordCounts) && pairCounts == old(pairCounts)
      ensures mergeRules == old(mergeRules) + [MergeRule(pair.0, pair.1)]
      ensures vocab.State() == WithToken(old(vocab.State()), pair.0 + pair.1, -1)
    {
      mergeRules := mergeRules + [MergeRule(pair.0, pair.1)];
      vocab.AddToken(pair.0 + pair.1, -1);
      var next := RewriteWords(wordCounts, wordOrder, pair.0, pair.1);
      RoundKeepsCounts(wordCounts, wordOrder, pair.0, pair.1);
      wordCounts := next;
    }
  }

  /**
   * The reading half of `train_from_files`: the non-empty lines of every file in order, or the
   * error for the first path that cannot be opened.
   */
  method ReadCorpus(paths: seq<Str>, files: map<Str, seq<Str>>) returns (r: Result<seq<Str>>)
    ensures (exists p :: p in paths && p !in files) ==> r == Err("Failed to open file: " + FirstMissing(paths, files))
    ensures (forall p :: p in paths ==> p in files) ==> r == Ok(NonEmpty(AllLines(paths, files)))
  {
    var corpus: seq<Str> := [];
    for k := 0 to |paths|
      invariant forall j :: 0 <= j < k ==> paths[j] in files
      invariant corpus == NonEmpty(AllLines(paths[..k], files))
    {
      if paths[k] !in files {
        FirstMissingAt(paths, files, k);
        return Err("Failed to open file: " + paths[k]);
      }
      var lines := files[paths[k]];
      ghost var before := AllLines(paths[..k], files);
      for j := 0 to |lines|
        invariant corpus == NonEmpty(before) + NonEmpty(lines[..j])
      {
        assert lines[..j + 1][..j] == lines[..j];
        if lines[j] != [] {
          corpus := corpus + [lines[j]];
        }
      }
      assert lines[..|lines|] == lines;
      NonEmptyAppend(before, lines);
      assert paths[..k + 1][..k] == paths[..k];
    }
    assert paths[..|paths|] == paths;
    return Ok(corpus);
  }

  /** The inner loop of `get_word_counts` for one line: `counts[word + "</w>"]++` per word. */
  method CountLine(counts0: map<Str, int>, before: seq<Str>, words: seq<Str>) returns (counts: map<Str, int>)
    requires counts0 == CountOf(before)
    ensures counts == CountOf(before + Suffixed(words))
  {
    counts := counts0;
    var j := 0;
    assert before + Suffixed(words)[..0] == before;
    while j < |words|
      invariant 0 <= j <= |words|
      invariant counts == CountOf(before + Suffixed(words)[..j])
    {
      var w := words[j] + EndOfWord();
      var done: seq<Str> := Suffixed(words)[..j];
      Seqs.TakeSnoc(Suffixed(words), j);
      Seqs.AppendAssoc(before, done, [w]);
      CountOfSnoc(before + done, w);
      counts := counts[w := (if w in counts then counts[w] else 0) + 1];
      j := j + 1;
    }
    assert Suffixed(words)[..|words|] == Suffixed(words);
  }

  /** The loop of `train` that builds the single-byte counts. */
  method CountBytes(wc: map<Str, int>, order: seq<Str>) returns (counts: map<Str, int>)
    requires forall k :: 0 <= k < |order| ==> order[k] in wc
    ensures counts == ByteCounts(wc, order)
  {
    counts := map[];
    var k := 0;
    while k < |order|
      invariant 0 <= k <= |order|
      invariant counts == ByteCounts(wc, order[..k])
    {
      assert order[..k + 1][..k] == order[..k];
      var w := order[k];
      var i := 0;
      ghost var before := counts;
      while i < |w|
        invariant 0 <= i <= |w|
        invariant counts == AddBytes(before, w[..i], wc[w])
      {
        assert w[..i + 1][..i] == w[..i];
        counts := counts[[w[i]] := (if [w[i]] in counts then counts[[w[i]]] else 0) + wc[w]];
        i := i + 1;
      }
      assert w[..|w|] == w;
      k := k + 1;
    }
    assert order[..|order|] == order;
  }

  /** `get_pair_counts`. */
  method GetPairCounts(wc: map<Str, int>, order: seq<Str>) returns (counts: map<(Str, Str), int>)
    requires forall k :: 0 <= k < |order| ==> order[k] in wc
    ensures counts == PairCountsOf(wc, order)
  {
    counts := map[];
    var k := 0;
    while k < |order|
      invariant 0 <= k <= |order|
      invariant counts == PairCountsOf(wc, order[..k])
    {
      assert order[..k + 1][..k] == order[..k];
      var w := order[k];
      ghost var before := counts;
      var i := if |w| == 0 then 0 else 1;
      while i < |w|
        invariant (|w| == 0 && i == 0) || 1 <= i <= |w|
        invariant counts == AddPairs(before, w[..i], wc[w])
      {
        assert w[..i + 1][..i] == w[..i];
        var p := ([w[i - 1]], [w[i]]);
        counts := counts[p := (if p in counts then counts[p] else 0) + wc[w]];
        i := i + 1;
      }
      assert w[..|w|] == w;
      k := k + 1;
    }
    assert order[..|order|] == order;
  }

  /** The best-pair scan of a round. */
  method PickBest(pc: map<(Str, Str), int>, order: seq<(Str, Str)>) returns (best: (Str, Str), most: int)
    requires forall k :: 0 <= k < |order| ==> order[k] in pc
    ensures (best, most) == BestOf(pc, order)
  {
    best, most := ([], []), 0;
    var k := 0;
    while k < |order|
      invariant 0 <= k <= |order|
      invariant (best, most) == BestOf(pc, order[..k])
    {
      assert order[..k + 1][..k] == order[..k];
      var freq := pc[order[k]];
      if freq > most {
        most := freq;
        best := order[k];
      }
      k := k + 1;
    }
    assert order[..|order|] == order;
  }

  /** The rewrite loop of a round: each word, with "first second" replaced, keeps its count. */
  method RewriteWords(wc: map<Str, int>, order: seq<Str>, first: Str, second: Str) returns (next: map<Str, int>)
    requires forall k :: 0 <= k < |order| ==> order[k] in wc
    ensures next == Rewritten(wc, order, first, second)
  {
    next := map[];
    var k := 0;
    while k < |order|
      invariant 0 <= k <= |order|
      invariant next == Rewritten(wc, order[..k], first, second)
    {
      assert order[..k + 1][..k] == order[..k];
      var merged := ReplaceLoop(order[k], first, second);
      next := next[merged := wc[order[k]]];
      k := k + 1;
    }
    assert order[..|order|] == order;
  }

  /** `while ((pos = w.find(first + " " + second, pos)) != npos) w.replace(pos, |pattern|, first + second)`. */
  method ReplaceLoop(word: Str, first: Str, second: Str) returns (merged: Str)
    ensures merged == ReplacePair(word, first, second, 0)
  {
    var pat: Str := first + " " + second;
    merged := word;
    var pos := 0;
    while true
      invariant ReplacePair(merged, first, second, pos) == ReplacePair(word, first, second, 0)
      decreases multiset(merged)[' ']
    {
      var found := FindSub(merged, pat, pos);
      if found.None? {
        ReplacePairStep(merged, first, second, pos);
        return;
      }
      var p := found.value;
      SpliceFewer(merged, first, second, p);
      ReplacePairStep(merged, first, second, pos);
      merged := Splice(merged, first, second, p);
      pos := p;
    }
  }
}
