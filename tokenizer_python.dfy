/**
 * `PythonTokenizer` (tokenizer_python.cpp, tokenizer_python.h): a word-level tokenizer over a
 * shared vocabulary. Encoding splits the text at whitespace and keeps the id of every word the
 * vocabulary knows, dropping the others; decoding keeps the text of every id the vocabulary
 * knows and joins those texts with single spaces. Every operation refuses to run without a
 * vocabulary.
 */
module PythonBinding {
  import opened Wrappers
  import opened Bytes
  import opened TokenTypes
  import opened Vocabulary
  import Config
  import Encoding

  const NoVocab: string := "Vocabulary not set"

  /** The ids `encode` keeps: `get_token_id` of each word in turn, the -1s left out. */
  function KnownIds(v: VocabState, words: seq<Str>): (ids: seq<int>)
    ensures |ids| <= |words|
    ensures forall id :: id in ids ==> id != -1 && exists w :: w in words && GetTokenId(v, w) == id
    decreases |words|
  {
    if words == [] then []
    else
      var init := KnownIds(v, words[..|words| - 1]);
      var id := GetTokenId(v, words[|words| - 1]);
      if id != -1 then init + [id] else init
  }

  /** The texts `decode` keeps: `get_token` of each id in turn, the empty ones left out. */
  function KnownTexts(v: VocabState, ids: seq<int>): (ts: seq<Str>)
    ensures |ts| <= |ids|
    ensures forall t :: t in ts ==> t != [] && exists id :: id in ids && GetToken(v, id) == t
    decreases |ids|
  {
    if ids == [] then []
    else
      var init := KnownTexts(v, ids[..|ids| - 1]);
      var t := GetToken(v, ids[|ids| - 1]);
      if t != [] then init + [t] else init
  }

  /** What `encode` returns for `text`. */
  function EncodedIds(v: VocabState, text: Str): seq<int>
  {
    KnownIds(v, Words(text))
  }

  /** What `decode` returns for `ids`. */
  function DecodedText(v: VocabState, ids: seq<int>): Str
  {
    JoinWith(KnownTexts(v, ids), " ")
  }

  /** The string `decode`'s loop builds: each text followed by one space. */
  function Spaced(ts: seq<Str>): Str
    decreases |ts|
  {
    if ts == [] then [] else Spaced(ts[..|ts| - 1]) + ts[|ts| - 1] + " "
  }

  /** Texts each followed by a space are the texts joined by spaces, then one trailing space. */
  lemma {:induction false} SpacedJoin(ts: seq<Str>)
    ensures ts == [] ==> Spaced(ts) == []
    ensures ts != [] ==> Spaced(ts) == JoinWith(ts, " ") + " "
    decreases |ts|
  {
    if ts != [] {
      var n := |ts| - 1;
      SpacedJoin(ts[..n]);
      Encoding.JoinWithSnoc(ts[..n], ts[n], " ");
      assert ts[..n] + [ts[n]] == ts;
    }
  }

  /** When the vocabulary knows every word, `encode` keeps one id per word, in order. */
  lemma {:induction false} KnownIdsAllKnown(v: VocabState, words: seq<Str>)
    requires Valid(v)
    requires forall k :: 0 <= k < |words| ==> HasToken(v, words[k])
    ensures KnownIds(v, words) == TokenIds(v, words)
    decreases |words|
  {
    if words != [] {
      var n := |words| - 1;
      KnownIdsAllKnown(v, words[..n]);
      assert HasToken(v, words[n]);
      assert TokenIds(v, words) == TokenIds(v, words[..n]) + [GetTokenId(v, words[n])];
    }
  }

  /** When the vocabulary knows every id, `decode` keeps one text per id, in order. */
  lemma {:induction false} KnownTextsAllKnown(v: VocabState, ids: seq<int>)
    requires Valid(v)
    requires forall k :: 0 <= k < |ids| ==> HasId(v, ids[k])
    ensures KnownTexts(v, ids) == TokenTexts(v, ids)
    decreases |ids|
  {
    if ids != [] {
      var n := |ids| - 1;
      KnownTextsAllKnown(v, ids[..n]);
      assert TokenTexts(v, ids) == TokenTexts(v, ids[..n]) + [GetToken(v, ids[n])];
    }
  }

  /**
   * The round trip: with a consistent vocabulary that knows every word of `text`, decoding
   * what `encode` returns gives the words of `text` joined by single spaces.
   */
  lemma EncodeDecode(v: VocabState, text: Str)
    requires Valid(v) && Consistent(v)
    requires forall w :: w in Words(text) ==> HasToken(v, w)
    ensures DecodedText(v, EncodedIds(v, text)) == JoinWith(Words(text), " ")
  {
    var words := Words(text);
    KnownIdsAllKnown(v, words);
    var ids := TokenIds(v, words);
    assert forall k :: 0 <= k < |ids| ==> HasId(v, ids[k]) by {
      forall k | 0 <= k < |ids| ensures HasId(v, ids[k]) {
        assert HasToken(v, words[k]);
      }
    }
    KnownTextsAllKnown(v, ids);
    TokenIdsTexts(v, words);
  }

  /** Under the same conditions, encoding the decoded text again gives the same ids. */
  lemma EncodeDecodeEncode(v: VocabState, text: Str)
    requires Valid(v) && Consistent(v)
    requires forall w :: w in Words(text) ==> HasToken(v, w)
    ensures EncodedIds(v, DecodedText(v, EncodedIds(v, text))) == EncodedIds(v, text)
  {
    EncodeDecode(v, text);
    Encoding.WordsJoin(Words(text));
  }

  class PythonTokenizer {
    /** `vocab_`: a shared pointer that `set_vocab` may set to null. */
    var vocab: Vocab?
    var config: Config.TokenizerConfig

    /** The constructor: a fresh, empty vocabulary and the default configuration. */
    constructor ()
      ensures vocab != null && fresh(vocab) && vocab.State() == EmptyVocab()
      ensures config == Config.Default()
    {
      vocab := new Vocab();
      config := Config.Default();
    }

    /** `set_vocab`: shares `v`, which may be null. */
    method SetVocab(v: Vocab?)
      modifies this
      ensures vocab == v && config == old(config)
    {
      vocab := v;
    }

    /** `set_config`. */
    method SetConfig(c: Config.TokenizerConfig)
      modifies this
      ensures config == c && vocab == old(vocab)
    {
      config := c;
    }

    /** `encode`: the ids of the known words of `text`, in order; an error without a vocabulary. */
    method Encode(text: Str) returns (r: Result<seq<int>>)
      ensures vocab == null ==> r == Err(NoVocab)
      ensures vocab != null ==> r == Ok(EncodedIds(vocab.State(), text))
    {
      if vocab == null {
        return Err(NoVocab);
      }
      var words := Words(text);
      var ids: seq<int> := [];
      var k := 0;
      while k < |words|
        invariant k <= |words|
        invariant ids == KnownIds(vocab.State(), words[..k])
      {
        var id := GetTokenId(vocab.State(), words[k]);
        assert words[..k + 1][..k] == words[..k];
        if id != -1 {
          ids := ids + [id];
        }
        k := k + 1;
      }
      assert words[..k] == words;
      return Ok(ids);
    }

    /**
     * `decode`: the texts of the known ids, each followed by a space, then the trailing space
     * removed; an error without a vocabulary.
     */
    method Decode(ids: seq<int>) returns (r: Result<Str>)
      ensures vocab == null ==> r == Err(NoVocab)
      ensures vocab != null ==> r == Ok(DecodedText(vocab.State(), ids))
    {
      if vocab == null {
        return Err(NoVocab);
      }
      var result: Str := [];
      var k := 0;
      while k < |ids|
        invariant k <= |ids|
        invariant result == Spaced(KnownTexts(vocab.State(), ids[..k]))
      {
        var token := GetToken(vocab.State(), ids[k]);
        assert ids[..k + 1][..k] == ids[..k];
        if token != [] {
          assert KnownTexts(vocab.State(), ids[..k + 1]) == KnownTexts(vocab.State(), ids[..k]) + [token];
          result := result + token + " ";
        }
        k := k + 1;
      }
      assert ids[..k] == ids;
      var texts := KnownTexts(vocab.State(), ids);
      SpacedJoin(texts);
      if result != [] && result[|result| - 1] == ' ' {
        assert result[..|result| - 1] == JoinWith(texts, " ");
        result := result[..|result| - 1];
      }
      return Ok(result);
    }

    /** `encode_batch`: `encode` of each text, in order; an error without a vocabulary. */
    method EncodeBatch(texts: seq<Str>) returns (r: Result<seq<seq<int>>>)
      ensures vocab == null ==> r == Err(NoVocab)
      ensures vocab != null ==>
        r.Ok? && |r.value| == |texts| &&
        forall k :: 0 <= k < |texts| ==> r.value[k] == EncodedIds(vocab.State(), texts[k])
    {
      if vocab == null {
        return Err(NoVocab);
      }
      var results: seq<seq<int>> := [];
      for k := 0 to |texts|
        invariant |results| == k
        invariant forall j :: 0 <= j < k ==> results[j] == EncodedIds(vocab.State(), texts[j])
      {
        var ids := Encode(texts[k]);
        results := results + [ids.value];
      }
      return Ok(results);
    }

    /** `decode_batch`: `decode` of each id list, in order; an error without a vocabulary. */
    method DecodeBatch(batch: seq<seq<int>>) returns (r: Result<seq<Str>>)
      ensures vocab == null ==> r == Err(NoVocab)
      ensures vocab != null ==>
        r.Ok? && |r.value| == |batch| &&
        forall k :: 0 <= k < |batch| ==> r.value[k] == DecodedText(vocab.State(), batch[k])
    {
      if vocab == null {
        return Err(NoVocab);
      }
      var results: seq<Str> := [];
      for k := 0 to |batch|
        invariant |results| == k
        invariant forall j :: 0 <= j < k ==> results[j] == DecodedText(vocab.State(), batch[j])
      {
        var text := Decode(batch[k]);
        results := results + [text.value];
      }
      return Ok(results);
    }
  }
}
