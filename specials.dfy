/**
 * Registering the configured special tokens in a vocabulary. Several tokenizers share the
 * same pattern (bpe_tokenizer.cpp, char_level_tokenizer.cpp, unigram_tokenizer.cpp,
 * tokenizer_encoder.cpp, tokenizer_advanced.cpp): for each (type, text) pair in a fixed order,
 * `add_special_token(text, type)` when the text is non-empty.
 */
module SpecialTokens {
  import opened Wrappers
  import opened Bytes
  import opened TokenTypes
  import opened Vocabulary
  import opened Config

  /** The seven configured special tokens in registration order UNK, PAD, BOS, EOS, MASK, SEP, CLS. */
  function ConfiguredSpecials(c: TokenizerConfig): (ps: seq<(SpecialTokenType, Str)>)
    ensures |ps| == 7
    ensures ps[0] == (UNK, c.unkToken) && ps[6] == (CLS, c.clsToken)
  {
    [(UNK, c.unkToken), (PAD, c.padToken), (BOS, c.bosToken), (EOS, c.eosToken),
     (MASK, c.maskToken), (SEP, c.sepToken), (CLS, c.clsToken)]
  }

  /** The texts of a list of (type, text) pairs. */
  function Texts(ps: seq<(SpecialTokenType, Str)>): (ts: seq<Str>)
    ensures |ts| == |ps|
    ensures forall k :: 0 <= k < |ps| ==> ts[k] == ps[k].1
  {
    seq(|ps|, k requires 0 <= k < |ps| => ps[k].1)
  }

  /** `add_special_token(text, type)` for each pair in order (an empty text is ignored by the vocabulary). */
  function WithSpecials(v: VocabState, ps: seq<(SpecialTokenType, Str)>): VocabState
    decreases |ps|
  {
    if ps == [] then v else WithSpecials(WithSpecialToken(v, ps[0].1, ps[0].0), ps[1..])
  }

  /** Custom special tokens: every string registered with the one type `ty`. */
  function WithSpecialsOfType(v: VocabState, tokens: seq<Str>, ty: SpecialTokenType): VocabState
    decreases |tokens|
  {
    if tokens == [] then v else WithSpecialsOfType(WithSpecialToken(v, tokens[0], ty), tokens[1..], ty)
  }

  /** The vocabulary `initialize_special_tokens` leaves: cleared, then the configured specials. */
  function SpecialVocab(c: TokenizerConfig): VocabState
  {
    WithSpecials(EmptyVocab(), ConfiguredSpecials(c))
  }

  /** The `special_tokens_` map: type -> text for every non-empty configured text. */
  function SpecialMap(ps: seq<(SpecialTokenType, Str)>): (m: map<SpecialTokenType, Str>)
    ensures forall ty :: ty in m ==> m[ty] != []
    decreases |ps|
  {
    if ps == [] then map[]
    else
      var rest := SpecialMap(ps[..|ps| - 1]);
      var last := ps[|ps| - 1];
      if last.1 != [] then rest[last.0 := last.1] else rest
  }

  /**
   * `get_special_tokens` of the tokenizers: the text recorded for each type, visiting the
   * unordered map in `order`. Every recorded text is listed, and nothing else.
   */
  function ListedSpecials(m: map<SpecialTokenType, Str>, order: seq<SpecialTokenType>): (ts: seq<Str>)
    requires IsKeyOrder(order, m)
    ensures |ts| == |m|
    ensures forall ty :: ty in m ==> m[ty] in ts
    ensures forall t :: t in ts ==> exists ty :: ty in m && m[ty] == t
  {
    KeyOrderSize(order, m);
    var ts := seq(|order|, k requires 0 <= k < |order| => m[order[k]]);
    assert forall ty :: ty in m ==> m[ty] in ts by {
      forall ty | ty in m ensures m[ty] in ts {
        var k :| 0 <= k < |order| && order[k] == ty;
        assert ts[k] == m[ty];
      }
    }
    ts
  }

  /** A duplicate-free listing of a map's keys is as long as the map. */
  lemma {:induction false} KeyOrderSize<K(!new), V>(order: seq<K>, m: map<K, V>)
    requires IsKeyOrder(order, m)
    ensures |order| == |m|
    decreases |order|
  {
    if order != [] {
      var k := order[0];
      var rest := m - {k};
      assert IsKeyOrder(order[1..], rest) by {
        forall i | 0 <= i < |order[1..]| ensures order[1..][i] in rest {
          assert order[1..][i] == order[i + 1] != order[0];
        }
        forall key | key in rest ensures key in order[1..] {
          var i :| 0 <= i < |order| && order[i] == key;
          assert i != 0;
          assert order[1..][i - 1] == key;
        }
      }
      KeyOrderSize(order[1..], rest);
    }
  }

  /**
   * The registration step of `initialize_special_tokens`: for each pair with a non-empty text,
   * `add_special_token(text, type)` on the shared vocabulary and `special_tokens_[type] = text`
   * on a map that starts out cleared.
   */
  method RegisterSpecials(v: Vocab, ps: seq<(SpecialTokenType, Str)>) returns (m: map<SpecialTokenType, Str>)
    modifies v
    ensures v.State() == WithSpecials(old(v.State()), ps)
    ensures m == SpecialMap(ps)
  {
    m := map[];
    var k := 0;
    while k < |ps|
      invariant 0 <= k <= |ps|
      invariant WithSpecials(old(v.State()), ps) == WithSpecials(v.State(), ps[k..])
      invariant m == SpecialMap(ps[..k])
    {
      var (ty, text) := ps[k];
      if text != [] {
        v.AddSpecialToken(text, ty);
        m := m[ty := text];
      }
      assert ps[k..][1..] == ps[k + 1..];
      assert ps[..k + 1][..k] == ps[..k];
      k := k + 1;
    }
    assert ps[..|ps|] == ps;
  }

  /** `add_special_token(token, type)` for each string in order, all with one type. */
  method RegisterAll(v: Vocab, tokens: seq<Str>, ty: SpecialTokenType)
    modifies v
    ensures v.State() == WithSpecialsOfType(old(v.State()), tokens, ty)
  {
    var k := 0;
    while k < |tokens|
      invariant 0 <= k <= |tokens|
      invariant WithSpecialsOfType(old(v.State()), tokens, ty) == WithSpecialsOfType(v.State(), tokens[k..], ty)
    {
      assert tokens[k..][1..] == tokens[k + 1..];
      v.AddSpecialToken(tokens[k], ty);
      k := k + 1;
    }
  }

  /**
   * Registering a list of specials keeps the table valid and consistent, adds every non-empty
   * text, adds nothing that is not one of the texts, and leaves earlier tokens' ids alone.
   */
  lemma {:induction false} WithSpecialsEffect(v: VocabState, ps: seq<(SpecialTokenType, Str)>)
    requires Valid(v) && Consistent(v)
    ensures var r := WithSpecials(v, ps);
      && Valid(r) && Consistent(r)
      && (forall k :: 0 <= k < |ps| && ps[k].1 != [] ==> HasToken(r, ps[k].1))
      && (forall t :: HasToken(r, t) ==> HasToken(v, t) || t in Texts(ps))
      && (forall t :: HasToken(v, t) ==> GetTokenId(r, t) == GetTokenId(v, t))
      && Size(r) <= Size(v) + |ps|
    decreases |ps|
  {
    if ps != [] {
      var w := WithSpecialToken(v, ps[0].1, ps[0].0);
      WithSpecialTokenConsistent(v, ps[0].1, ps[0].0);
      WithSpecialsEffect(w, ps[1..]);
      var r := WithSpecials(w, ps[1..]);
      forall k | 0 <= k < |ps| && ps[k].1 != [] ensures HasToken(r, ps[k].1) {
        if k > 0 {
          assert ps[1..][k - 1] == ps[k];
        } else {
          assert HasToken(w, ps[0].1);
        }
      }
      forall t | HasToken(r, t) ensures HasToken(v, t) || t in Texts(ps) {
        if !HasToken(w, t) {
          var k :| 0 <= k < |ps[1..]| && Texts(ps[1..])[k] == t;
          assert Texts(ps)[k + 1] == t;
        }
      }
    }
  }

  /** Pairs whose types differ from `ty` leave the id registered for `ty` alone. */
  lemma {:induction false} WithSpecialsKeepsType(v: VocabState, ps: seq<(SpecialTokenType, Str)>, ty: SpecialTokenType)
    requires Valid(v)
    requires forall k :: 0 <= k < |ps| ==> ps[k].0 != ty
    ensures GetSpecialTokenId(WithSpecials(v, ps), ty) == GetSpecialTokenId(v, ty)
    decreases |ps|
  {
    if ps != [] {
      assert forall k :: 0 <= k < |ps[1..]| ==> ps[1..][k] == ps[k + 1];
      WithSpecialsKeepsType(WithSpecialToken(v, ps[0].1, ps[0].0), ps[1..], ty);
    }
  }

  /** The type registered first, with a non-empty text and never again, gets id 0 and that text. */
  lemma FirstSpecial(ps: seq<(SpecialTokenType, Str)>)
    requires |ps| > 0 && ps[0].1 != []
    requires forall k :: 1 <= k < |ps| ==> ps[k].0 != ps[0].0
    ensures var r := WithSpecials(EmptyVocab(), ps);
      GetSpecialTokenId(r, ps[0].0) == 0 && GetTokenId(r, ps[0].1) == 0 && GetToken(r, 0) == ps[0].1
  {
    var w := WithSpecialToken(EmptyVocab(), ps[0].1, ps[0].0);
    assert forall k :: 0 <= k < |ps[1..]| ==> ps[1..][k] == ps[k + 1];
    WithSpecialsKeepsType(w, ps[1..], ps[0].0);
    WithSpecialsEffect(w, ps[1..]);
    WithSpecialTokenConsistent(EmptyVocab(), ps[0].1, ps[0].0);
  }

  /** A type whose only pair has an empty text is never registered. */
  lemma FirstSpecialEmpty(ps: seq<(SpecialTokenType, Str)>)
    requires |ps| > 0 && ps[0].1 == []
    requires forall k :: 1 <= k < |ps| ==> ps[k].0 != ps[0].0
    ensures GetSpecialTokenId(WithSpecials(EmptyVocab(), ps), ps[0].0) == -1
  {
    assert WithSpecialToken(EmptyVocab(), [], ps[0].0) == EmptyVocab();
    assert forall k :: 0 <= k < |ps[1..]| ==> ps[1..][k] == ps[k + 1];
    WithSpecialsKeepsType(EmptyVocab(), ps[1..], ps[0].0);
  }

  /** A non-empty UNK text is registered first, so it receives id 0 and is the UNK special. */
  lemma SpecialVocabUnk(c: TokenizerConfig)
    requires c.unkToken != []
    ensures var r := SpecialVocab(c);
      GetSpecialTokenId(r, UNK) == 0 && GetTokenId(r, c.unkToken) == 0 && GetToken(r, 0) == c.unkToken
  {
    FirstSpecial(ConfiguredSpecials(c));
  }

  /** With the unk text empty, no UNK special is registered: `get_special_token_id(UNK)` is -1. */
  lemma SpecialVocabNoUnk(c: TokenizerConfig)
    requires c.unkToken == []
    ensures GetSpecialTokenId(SpecialVocab(c), UNK) == -1
  {
    FirstSpecialEmpty(ConfiguredSpecials(c));
  }

  /**
   * Registering custom specials keeps the table valid and consistent, adds every non-empty
   * string and leaves earlier tokens' ids alone.
   */
  lemma {:induction false} WithSpecialsOfTypeEffect(v: VocabState, tokens: seq<Str>, ty: SpecialTokenType)
    requires Valid(v) && Consistent(v)
    ensures var r := WithSpecialsOfType(v, tokens, ty);
      && Valid(r) && Consistent(r)
      && (forall k :: 0 <= k < |tokens| && tokens[k] != [] ==> HasToken(r, tokens[k]))
      && (forall t :: HasToken(v, t) ==> GetTokenId(r, t) == GetTokenId(v, t))
    decreases |tokens|
  {
    if tokens != [] {
      var w := WithSpecialToken(v, tokens[0], ty);
      WithSpecialTokenConsistent(v, tokens[0], ty);
      WithSpecialsOfTypeEffect(w, tokens[1..], ty);
      var r := WithSpecialsOfType(w, tokens[1..], ty);
      forall k | 0 <= k < |tokens| && tokens[k] != [] ensures HasToken(r, tokens[k]) {
        if k > 0 {
          assert tokens[1..][k - 1] == tokens[k];
        } else {
          assert HasToken(w, tokens[0]);
        }
      }
    }
  }

  /** The tokens a registration adds get ids at or above the table's `next_id_`, which never decreases. */
  lemma {:induction false} WithSpecialsFresh(v: VocabState, ps: seq<(SpecialTokenType, Str)>)
    requires Valid(v) && Consistent(v)
    ensures var r := WithSpecials(v, ps);
      && r.nextId >= v.nextId
      && forall t :: HasToken(r, t) && !HasToken(v, t) ==> GetTokenId(r, t) >= v.nextId
    decreases |ps|
  {
    if ps != [] {
      var w := WithSpecialToken(v, ps[0].1, ps[0].0);
      WithSpecialTokenConsistent(v, ps[0].1, ps[0].0);
      WithSpecialsFresh(w, ps[1..]);
      WithSpecialsEffect(w, ps[1..]);
    }
  }

  /** The same for custom specials. */
  lemma {:induction false} WithSpecialsOfTypeFresh(v: VocabState, tokens: seq<Str>, ty: SpecialTokenType)
    requires Valid(v) && Consistent(v)
    ensures var r := WithSpecialsOfType(v, tokens, ty);
      && r.nextId >= v.nextId
      && forall t :: HasToken(r, t) && !HasToken(v, t) ==> GetTokenId(r, t) >= v.nextId
    decreases |tokens|
  {
    if tokens != [] {
      var w := WithSpecialToken(v, tokens[0], ty);
      WithSpecialTokenConsistent(v, tokens[0], ty);
      WithSpecialsOfTypeFresh(w, tokens[1..], ty);
      WithSpecialsOfTypeEffect(w, tokens[1..], ty);
    }
  }

  /** `special_tokens_` holds a type iff its configured text is non-empty, with that text. */
  lemma {:induction false} SpecialMapSpec(ps: seq<(SpecialTokenType, Str)>, ty: SpecialTokenType)
    requires forall i, j :: 0 <= i < j < |ps| ==> ps[i].0 != ps[j].0
    ensures ty in SpecialMap(ps) <==> exists k :: 0 <= k < |ps| && ps[k].0 == ty && ps[k].1 != []
    ensures forall k :: 0 <= k < |ps| && ps[k].0 == ty && ps[k].1 != [] ==> SpecialMap(ps)[ty] == ps[k].1
    decreases |ps|
  {
    if ps != [] {
      var init := ps[..|ps| - 1];
      SpecialMapSpec(init, ty);
      forall k | 0 <= k < |init| ensures init[k] == ps[k] { }
    }
  }

  /** The seven configured specials have seven distinct types. */
  lemma ConfiguredTypesDistinct(c: TokenizerConfig)
    ensures var ps := ConfiguredSpecials(c);
      forall i, j :: 0 <= i < j < |ps| ==> ps[i].0 != ps[j].0
  {
  }
}
