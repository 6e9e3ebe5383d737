/**
 * The vocabulary table (vocab.cpp): a token -> id map, an id -> token map, the ids registered
 * per special-token type and a `next_id_` counter. The pure functions on `VocabState` say what
 * each operation does to the table and what each lookup answers; the class `Vocab` is the
 * mutable object the tokenizers share, and its methods are specified by those functions.
 */
module Vocabulary {
  import opened Bytes
  import opened TokenTypes

  datatype VocabState = VocabState(
    tokenToId: map<Str, int>,
    idToToken: map<int, Str>,
    specialTokenIds: map<SpecialTokenType, int>,
    specialIds: set<int>,
    nextId: int)

  /**
   * What every operation keeps: tokens are non-empty, every id in use lies below `nextId`,
   * every id's text maps back to that id, and registered special ids have a text.
   */
  ghost predicate Valid(v: VocabState)
  {
    && v.nextId >= 0
    && (forall t :: t in v.tokenToId ==> t != [] && 0 <= v.tokenToId[t] < v.nextId && v.tokenToId[t] in v.idToToken)
    && (forall id :: id in v.idToToken ==>
          0 <= id < v.nextId && v.idToToken[id] in v.tokenToId && v.tokenToId[v.idToToken[id]] == id)
    && (forall ty :: ty in v.specialTokenIds ==> v.specialTokenIds[ty] in v.specialIds)
    && (forall id :: id in v.specialIds ==> id in v.idToToken)
  }

  /** No two tokens share an id: `get_token(get_token_id(t)) == t` for every token. */
  ghost predicate Consistent(v: VocabState)
  {
    forall t :: t in v.tokenToId ==> v.tokenToId[t] in v.idToToken && v.idToToken[v.tokenToId[t]] == t
  }

  /** The table after construction or `clear`: all four maps empty and `next_id_` 0. */
  function EmptyVocab(): (v: VocabState)
    ensures Valid(v) && Consistent(v)
    ensures Size(v) == 0 && v.nextId == 0
    ensures forall t :: GetTokenId(v, t) == -1
    ensures forall ty :: GetSpecialTokenId(v, ty) == -1
  {
    VocabState(map[], map[], map[], {}, 0)
  }

  /** `get_token_id`: the token's id, or -1 when it is absent. */
  function GetTokenId(v: VocabState, token: Str): (id: int)
    ensures Valid(v) ==> (id == -1 <==> token !in v.tokenToId)
    ensures Valid(v) ==> id < v.nextId
  {
    if token in v.tokenToId then v.tokenToId[token] else -1
  }

  /** `get_token`: the id's text, or "" when the id is unknown. */
  function GetToken(v: VocabState, id: int): (token: Str)
    ensures Valid(v) ==> (token == [] <==> id !in v.idToToken)
  {
    if id in v.idToToken then v.idToToken[id] else []
  }

  predicate HasToken(v: VocabState, token: Str)
  {
    token in v.tokenToId
  }

  predicate HasId(v: VocabState, id: int)
  {
    id in v.idToToken
  }

  /** `size`: the number of distinct tokens. */
  function Size(v: VocabState): nat
  {
    |v.tokenToId|
  }

  /** `is_special_token`: the token is present and its id was registered as special. */
  predicate IsSpecialToken(v: VocabState, token: Str)
  {
    token in v.tokenToId && v.tokenToId[token] in v.specialIds
  }

  predicate IsSpecialTokenId(v: VocabState, id: int)
  {
    id in v.specialIds
  }

  /** `get_special_token_id`: the id registered for a type, or -1. */
  function GetSpecialTokenId(v: VocabState, ty: SpecialTokenType): (id: int)
    ensures Valid(v) ==> (id == -1 <==> ty !in v.specialTokenIds)
    ensures Valid(v) && id != -1 ==> IsSpecialTokenId(v, id) && HasId(v, id)
  {
    if ty in v.specialTokenIds then v.specialTokenIds[ty] else -1
  }

  /** `get_special_token_text`: the text of the id registered for a type, or "". */
  function GetSpecialTokenText(v: VocabState, ty: SpecialTokenType): (token: Str)
    ensures Valid(v) ==> (token == [] <==> ty !in v.specialTokenIds)
  {
    GetToken(v, GetSpecialTokenId(v, ty))
  }

  /**
   * `get_special_tokens`: the text of every registered type. The source walks an unordered
   * map, so the visiting order is a parameter listing each registered type once.
   */
  function GetSpecialTokens(v: VocabState, order: seq<SpecialTokenType>): (texts: seq<Str>)
    requires forall ty :: ty in v.specialTokenIds <==> ty in order
    requires forall i, j :: 0 <= i < j < |order| ==> order[i] != order[j]
    ensures |texts| == |order|
    ensures Valid(v) ==> forall k :: 0 <= k < |texts| ==> texts[k] != [] && IsSpecialToken(v, texts[k])
  {
    seq(|order|, k requires 0 <= k < |order| => GetToken(v, v.specialTokenIds[order[k]]))
  }

  /** `get_token(id)` for each id in order: the texts a decoder concatenates. */
  function TokenTexts(v: VocabState, ids: seq<int>): (ts: seq<Str>)
    ensures |ts| == |ids|
    ensures forall k :: 0 <= k < |ids| ==> ts[k] == GetToken(v, ids[k])
  {
    seq(|ids|, k requires 0 <= k < |ids| => GetToken(v, ids[k]))
  }

  /** `get_token_id(t)` for each text in order, -1 for the absent ones. */
  function TokenIds(v: VocabState, ts: seq<Str>): (ids: seq<int>)
    ensures |ids| == |ts|
    ensures forall k :: 0 <= k < |ts| ==> ids[k] == GetTokenId(v, ts[k])
  {
    seq(|ts|, k requires 0 <= k < |ts| => GetTokenId(v, ts[k]))
  }

  /** The decoders' common loop: `get_token(id)` of each id appended in turn ("" for unknown ids). */
  function Decoded(v: VocabState, ids: seq<int>): Str
  {
    Concat(TokenTexts(v, ids))
  }

  /** With a consistent table holding every text, looking their ids back up gives the texts. */
  lemma TokenIdsTexts(v: VocabState, ts: seq<Str>)
    requires Valid(v) && Consistent(v)
    requires forall k :: 0 <= k < |ts| ==> HasToken(v, ts[k])
    ensures TokenTexts(v, TokenIds(v, ts)) == ts
  {
  }

  /** Decoding one more id appends that id's text. */
  lemma DecodedSnoc(v: VocabState, ids: seq<int>, k: nat)
    requires k < |ids|
    ensures Decoded(v, ids[..k + 1]) == Decoded(v, ids[..k]) + GetToken(v, ids[k])
  {
    assert TokenTexts(v, ids[..k + 1])[..k] == TokenTexts(v, ids[..k]);
  }

  /** The `encode` loops: one token per string, with its id (-1 if absent) and whether it is special. */
  function TokensFor(v: VocabState, ss: seq<Str>): (ts: seq<Token>)
    ensures |ts| == |ss|
    ensures forall k :: 0 <= k < |ss| ==>
      ts[k].text == ss[k] && ts[k].id == GetTokenId(v, ss[k]) && ts[k].isSpecial == IsSpecialToken(v, ss[k])
  {
    seq(|ss|, k requires 0 <= k < |ss| => Token(GetTokenId(v, ss[k]), ss[k], IsSpecialToken(v, ss[k]), OffsetMapping(0, 0)))
  }

  /** The texts of a list of tokens. */
  function TextsOf(ts: seq<Token>): (ss: seq<Str>)
    ensures |ss| == |ts|
    ensures forall k :: 0 <= k < |ts| ==> ss[k] == ts[k].text
  {
    seq(|ts|, k requires 0 <= k < |ts| => ts[k].text)
  }

  /** The `decode(tokens)` loops: the texts of the tokens appended in turn. */
  function TokensText(ts: seq<Token>): Str
  {
    Concat(TextsOf(ts))
  }

  /** The tokens made for some strings carry exactly those strings, whatever the vocabulary. */
  lemma TextsOfTokensFor(v: VocabState, ss: seq<Str>)
    ensures TextsOf(TokensFor(v, ss)) == ss
  {
  }

  /** Decoding one more token appends its text. */
  lemma TokensTextSnoc(ts: seq<Token>, k: nat)
    requires k < |ts|
    ensures TokensText(ts[..k + 1]) == TokensText(ts[..k]) + ts[k].text
  {
    assert TextsOf(ts[..k + 1])[..k] == TextsOf(ts[..k]);
  }

  /** The id `add_token(token, id)` gives a new token: `next_id_` when `id < 0`, else `id`. */
  function AssignedId(v: VocabState, id: int): int
  {
    if id < 0 then v.nextId else id
  }

  /**
   * `add_token(token, id)`. An empty or already present token leaves the table unchanged;
   * otherwise the token gets `AssignedId(v, id)` in both maps and `next_id_` moves past it.
   */
  function WithToken(v: VocabState, token: Str, id: int): (r: VocabState)
    ensures Valid(v) ==> Valid(r)
    ensures token == [] || token in v.tokenToId ==> r == v
    ensures token != [] && token !in v.tokenToId ==>
      && GetTokenId(r, token) == AssignedId(v, id)
      && GetToken(r, AssignedId(v, id)) == token
      && Size(r) == Size(v) + 1
      && r.nextId > AssignedId(v, id) && r.nextId >= v.nextId
      && (forall t :: t != token ==> GetTokenId(r, t) == GetTokenId(v, t))
      && (forall i :: i != AssignedId(v, id) ==> GetToken(r, i) == GetToken(v, i))
      && r.specialTokenIds == v.specialTokenIds && r.specialIds == v.specialIds
  {
    if token == [] || token in v.tokenToId then v
    else
      var newId := AssignedId(v, id);
      var next := if id < 0 then v.nextId + 1 else v.nextId;
      VocabState(v.tokenToId[token := newId], v.idToToken[newId := token],
                 v.specialTokenIds, v.specialIds,
                 if newId >= next then newId + 1 else next)
  }

  /** `add_tokens`: `add_token(t)` for each string in order, each drawing a fresh id. */
  function WithTokens(v: VocabState, tokens: seq<Str>): (r: VocabState)
    decreases |tokens|
  {
    if tokens == [] then v else WithTokens(WithToken(v, tokens[0], -1), tokens[1..])
  }

  /**
   * `add_special_token(token, type)`. An empty or already present token is ignored, so a
   * present token is not marked special; otherwise it gets `next_id_` and is registered.
   */
  function WithSpecialToken(v: VocabState, token: Str, ty: SpecialTokenType): (r: VocabState)
    ensures Valid(v) ==> Valid(r)
    ensures token == [] || token in v.tokenToId ==> r == v
    ensures Valid(v) && token != [] && token !in v.tokenToId ==>
      && GetTokenId(r, token) == v.nextId
      && GetSpecialTokenId(r, ty) == v.nextId
      && IsSpecialToken(r, token)
      && Size(r) == Size(v) + 1
      && r.nextId == v.nextId + 1
      && (forall t :: t != token ==> GetTokenId(r, t) == GetTokenId(v, t))
      && (forall other :: other != ty ==> GetSpecialTokenId(r, other) == GetSpecialTokenId(v, other))
  {
    if token == [] || token in v.tokenToId then v
    else
      var id := v.nextId;
      VocabState(v.tokenToId[token := id], v.idToToken[id := token],
                 v.specialTokenIds[ty := id], v.specialIds + {id}, v.nextId + 1)
  }

  /** A fresh id (drawn from `next_id_`) is not in use, so consistency survives `add_token(t)`. */
  lemma WithTokenConsistent(v: VocabState, token: Str)
    requires Valid(v) && Consistent(v)
    ensures Consistent(WithToken(v, token, -1))
  {
  }

  lemma WithSpecialTokenConsistent(v: VocabState, token: Str, ty: SpecialTokenType)
    requires Valid(v) && Consistent(v)
    ensures Consistent(WithSpecialToken(v, token, ty))
  {
  }

  /**
   * An explicit id that is already in use is taken as given: the new token owns the id's text,
   * while the earlier token still maps to the same id.
   */
  lemma ExplicitIdOverwrites(v: VocabState, token: Str, id: int)
    requires Valid(v) && token != [] && token !in v.tokenToId
    requires id >= 0 && id in v.idToToken
    ensures var r := WithToken(v, token, id);
      && GetToken(r, id) == token
      && GetTokenId(r, v.idToToken[id]) == id
      && !Consistent(r)
  {
    var r := WithToken(v, token, id);
    var old_token := v.idToToken[id];
    assert old_token != token;
    assert old_token in r.tokenToId && r.tokenToId[old_token] == id && r.idToToken[id] != old_token;
  }

  /** `add_tokens` of one more string is one more `add_token`. */
  lemma {:induction false} WithTokensSnoc(v: VocabState, tokens: seq<Str>, t: Str)
    ensures WithTokens(v, tokens + [t]) == WithToken(WithTokens(v, tokens), t, -1)
    decreases |tokens|
  {
    if tokens == [] {
      assert (tokens + [t])[1..] == [];
    } else {
      assert (tokens + [t])[1..] == tokens[1..] + [t];
      WithTokensSnoc(WithToken(v, tokens[0], -1), tokens[1..], t);
    }
  }

  /**
   * After `add_tokens(ts)` every non-empty string of `ts` is present, the table is still valid
   * and consistent, and it grew by at most `|ts|` tokens.
   */
  lemma {:induction false} WithTokensEffect(v: VocabState, tokens: seq<Str>)
    requires Valid(v) && Consistent(v)
    ensures var r := WithTokens(v, tokens);
      && Valid(r) && Consistent(r)
      && Size(v) <= Size(r) <= Size(v) + |tokens|
      && (forall k :: 0 <= k < |tokens| && tokens[k] != [] ==> HasToken(r, tokens[k]))
      && (forall t :: HasToken(v, t) ==> GetTokenId(r, t) == GetTokenId(v, t))
    decreases |tokens|
  {
    if tokens != [] {
      var w := WithToken(v, tokens[0], -1);
      WithTokenConsistent(v, tokens[0]);
      WithTokensEffect(w, tokens[1..]);
      var r := WithTokens(w, tokens[1..]);
      forall k | 0 <= k < |tokens| && tokens[k] != [] ensures HasToken(r, tokens[k]) {
        if k > 0 {
          assert tokens[1..][k - 1] == tokens[k];
        } else {
          assert HasToken(w, tokens[0]);
          assert GetTokenId(r, tokens[0]) == GetTokenId(w, tokens[0]) != -1;
        }
      }
    }
  }

  /** `add_tokens(ts)` adds nothing but strings of `ts`. */
  lemma {:induction false} WithTokensOnly(v: VocabState, tokens: seq<Str>, t: Str)
    requires HasToken(WithTokens(v, tokens), t)
    ensures HasToken(v, t) || t in tokens
    decreases |tokens|
  {
    if tokens != [] {
      WithTokensOnly(WithToken(v, tokens[0], -1), tokens[1..], t);
      if t in tokens[1..] {
        var k :| 0 <= k < |tokens[1..]| && tokens[1..][k] == t;
        assert tokens[k + 1] == t;
      }
    }
  }

  /** The mutable vocabulary object that tokenizers share through a pointer. */
  class Vocab {
    var tokenToId: map<Str, int>
    var idToToken: map<int, Str>
    var specialTokenIds: map<SpecialTokenType, int>
    var specialIds: set<int>
    var nextId: int

    function State(): VocabState
      reads this
    {
      VocabState(tokenToId, idToToken, specialTokenIds, specialIds, nextId)
    }

    constructor ()
      ensures State() == EmptyVocab()
    {
      tokenToId, idToToken, specialTokenIds, specialIds, nextId := map[], map[], map[], {}, 0;
    }

    /** `clear`: empties the four maps and resets `next_id_`. */
    method Clear()
      modifies this
      ensures State() == EmptyVocab()
    {
      tokenToId, idToToken, specialTokenIds, specialIds, nextId := map[], map[], map[], {}, 0;
    }

    /** `add_token(token, id)`; pass a negative id for the default argument. */
    method AddToken(token: Str, id: int)
      modifies this
      ensures State() == WithToken(old(State()), token, id)
    {
      if token == [] || token in tokenToId {
        return;
      }
      var newId: int;
      if id < 0 {
        newId := nextId;
        nextId := nextId + 1;
      } else {
        newId := id;
      }
      tokenToId := tokenToId[token := newId];
      idToToken := idToToken[newId := token];
      if newId >= nextId {
        nextId := newId + 1;
      }
    }

    /** `add_token_with_score`: the score is dropped. */
    method AddTokenWithScore(token: Str, score: real, id: int)
      modifies this
      ensures State() == WithToken(old(State()), token, id)
    {
      AddToken(token, id);
    }

    /** `add_tokens`. */
    method AddTokens(tokens: seq<Str>)
      modifies this
      ensures State() == WithTokens(old(State()), tokens)
    {
      var k := 0;
      while k < |tokens|
        invariant 0 <= k <= |tokens|
        invariant WithTokens(old(State()), tokens) == WithTokens(State(), tokens[k..])
      {
        assert tokens[k..][1..] == tokens[k + 1..];
        AddToken(tokens[k], -1);
        k := k + 1;
      }
    }

    /** `add_special_token(token, type)`. */
    method AddSpecialToken(token: Str, ty: SpecialTokenType)
      modifies this
      ensures State() == WithSpecialToken(old(State()), token, ty)
    {
      if token == [] || token in tokenToId {
        return;
      }
      var id := nextId;
      nextId := nextId + 1;
      tokenToId := tokenToId[token := id];
      idToToken := idToToken[id := token];
      specialTokenIds := specialTokenIds[ty := id];
      specialIds := specialIds + {id};
    }
  }
}
