/**
 * The post-processors (post_processor.h, post_processor.cpp): what wraps a tokenized sequence
 * once the model has produced it. Each kind works twice over, on tokens (`process`) and on bare
 * ids (`process_ids`):
 *  - BERT puts the `[CLS]` token in front and the `[SEP]` token behind, each only when the
 *    vocabulary knows it;
 *  - a fixed template puts the known ones of its prefix and suffix strings around the input;
 *  - a chat template walks the parsed template: literal text becomes one token per byte, the
 *    variable `message` is the input, a `[NAME]` placeholder is a special token looked up by
 *    name, and an unsupported variable or unknown special token is an error;
 *  - a composite runs its processors one after the other.
 * The leaf processors never change after construction, so they are values; the composite's
 * list grows by `add_processor`, so it is a class.
 */
module PostProcessing {
  import opened Wrappers
  import opened Bytes
  import opened TokenTypes
  import opened Vocabulary
  import opened Config
  import opened TemplateParsing

  /** `Token(id, text, is_special)`: a token a post-processor inserts, with the default offset. */
  function Inserted(id: int, text: Str, special: bool): Token
  {
    Token(id, text, special, OffsetMapping(0, 0))
  }

  /** The ids of a list of tokens. */
  function IdsOf(ts: seq<Token>): (ids: seq<int>)
    ensures |ids| == |ts|
    ensures forall k :: 0 <= k < |ts| ==> ids[k] == ts[k].id
  {
    seq(|ts|, k requires 0 <= k < |ts| => ts[k].id)
  }

  lemma IdsOfAppend(a: seq<Token>, b: seq<Token>)
    ensures IdsOf(a + b) == IdsOf(a) + IdsOf(b)
  {
  }

  lemma IdsOfWrap(a: seq<Token>, b: seq<Token>, c: seq<Token>)
    ensures IdsOf(a + b + c) == IdsOf(a) + IdsOf(b) + IdsOf(c)
  {
    IdsOfAppend(a + b, c);
    IdsOfAppend(a, b);
  }

  datatype PostProcessor =
    | Bert(clsId: int, clsText: Str, sepId: int, sepText: Str)
    | Templated(prefixTokens: seq<Token>, prefixIds: seq<int>, suffixTokens: seq<Token>, suffixIds: seq<int>)
    | ChatTemplate(parsed: seq<Segment>, vocab: VocabState, config: TokenizerConfig)

  // ---- BERT ----

  /** `BertPostProcessor(config, vocab)`: the ids of the configured `[CLS]` and `[SEP]` texts. */
  function NewBert(c: TokenizerConfig, v: VocabState): PostProcessor
  {
    Bert(GetTokenId(v, c.clsToken), c.clsToken, GetTokenId(v, c.sepToken), c.sepToken)
  }

  /** The one-element list holding `id`, or nothing when `id` is negative (the token is unknown). */
  function IfKnown<T>(id: int, x: T): seq<T>
  {
    if id >= 0 then [x] else []
  }

  // ---- fixed template ----

  /** The ids of the strings the vocabulary knows, in order; unknown strings are skipped. */
  function KnownIds(v: VocabState, strs: seq<Str>): seq<int>
    decreases |strs|
  {
    if strs == [] then []
    else
      var id := GetTokenId(v, strs[|strs| - 1]);
      KnownIds(v, strs[..|strs| - 1]) + IfKnown(id, id)
  }

  /** The tokens of the strings the vocabulary knows, in order, marked special as the vocabulary says. */
  function KnownTokens(v: VocabState, strs: seq<Str>): seq<Token>
    decreases |strs|
  {
    if strs == [] then []
    else
      var s := strs[|strs| - 1];
      var id := GetTokenId(v, s);
      KnownTokens(v, strs[..|strs| - 1]) + IfKnown(id, Inserted(id, s, IsSpecialToken(v, s)))
  }

  /** The template constructor's token list and id list agree. */
  lemma {:induction false} KnownAgree(v: VocabState, strs: seq<Str>)
    ensures IdsOf(KnownTokens(v, strs)) == KnownIds(v, strs)
    decreases |strs|
  {
    if strs != [] {
      var n := |strs| - 1;
      var id := GetTokenId(v, strs[n]);
      KnownAgree(v, strs[..n]);
      IdsOfAppend(KnownTokens(v, strs[..n]), IfKnown(id, Inserted(id, strs[n], IsSpecialToken(v, strs[n]))));
    }
  }

  /**
   * What the template constructor keeps: only ids the vocabulary has, the id of every string when
   * the vocabulary knows them all, and nothing when it knows none.
   */
  lemma {:induction false} KnownSpec(v: VocabState, strs: seq<Str>)
    requires Valid(v)
    ensures forall k :: 0 <= k < |KnownIds(v, strs)| ==> HasId(v, KnownIds(v, strs)[k])
    ensures (forall k :: 0 <= k < |strs| ==> HasToken(v, strs[k])) ==> KnownIds(v, strs) == TokenIds(v, strs)
    ensures (forall k :: 0 <= k < |strs| ==> !HasToken(v, strs[k])) ==> KnownIds(v, strs) == []
    decreases |strs|
  {
    if strs != [] {
      var n := |strs| - 1;
      KnownSpec(v, strs[..n]);
      if forall k :: 0 <= k < |strs| ==> HasToken(v, strs[k]) {
        assert TokenIds(v, strs) == TokenIds(v, strs[..n]) + [GetTokenId(v, strs[n])];
      }
    }
  }

  /** One loop of the template constructor: the known strings' ids and tokens. */
  method CollectKnown(v: VocabState, strs: seq<Str>) returns (ids: seq<int>, tokens: seq<Token>)
    ensures ids == KnownIds(v, strs) && tokens == KnownTokens(v, strs)
  {
    ids, tokens := [], [];
    var i := 0;
    while i < |strs|
      invariant 0 <= i <= |strs|
      invariant ids == KnownIds(v, strs[..i]) && tokens == KnownTokens(v, strs[..i])
    {
      var id := GetTokenId(v, strs[i]);
      if id >= 0 {
        ids := ids + [id];
        tokens := tokens + [Inserted(id, strs[i], IsSpecialToken(v, strs[i]))];
      }
      assert strs[..i + 1][..i] == strs[..i];
      i := i + 1;
    }
    assert strs[..i] == strs;
  }

  /** `TemplatePostProcessor(templ, vocab)`. */
  method NewTemplated(prefix: seq<Str>, suffix: seq<Str>, v: VocabState) returns (p: PostProcessor)
    ensures p == Templated(KnownTokens(v, prefix), KnownIds(v, prefix), KnownTokens(v, suffix), KnownIds(v, suffix))
  {
    var prefixIds, prefixTokens := CollectKnown(v, prefix);
    var suffixIds, suffixTokens := CollectKnown(v, suffix);
    p := Templated(prefixTokens, prefixIds, suffixTokens, suffixIds);
  }

  // ---- chat template ----

  /**
   * `resolve_special_token_id`: the seven names CLS, SEP, BOS, EOS, PAD, UNK and MASK stand for
   * the configured texts; any other name is looked up as itself when it is one of the configured
   * added tokens; otherwise -1.
   */
  function ResolveSpecial(v: VocabState, c: TokenizerConfig, name: Str): int
  {
    if name == "CLS" then GetTokenId(v, c.clsToken)
    else if name == "SEP" then GetTokenId(v, c.sepToken)
    else if name == "BOS" then GetTokenId(v, c.bosToken)
    else if name == "EOS" then GetTokenId(v, c.eosToken)
    else if name == "PAD" then GetTokenId(v, c.padToken)
    else if name == "UNK" then GetTokenId(v, c.unkToken)
    else if name == "MASK" then GetTokenId(v, c.maskToken)
    else if name in c.addedTokens then GetTokenId(v, name)
    else -1
  }

  predicate IsReservedName(name: Str)
  {
    name == "CLS" || name == "SEP" || name == "BOS" || name == "EOS" || name == "PAD" || name == "UNK" || name == "MASK"
  }

  /** The configured text a reserved name stands for. */
  function ReservedText(c: TokenizerConfig, name: Str): Str
    requires IsReservedName(name)
  {
    if name == "CLS" then c.clsToken
    else if name == "SEP" then c.sepToken
    else if name == "BOS" then c.bosToken
    else if name == "EOS" then c.eosToken
    else if name == "PAD" then c.padToken
    else if name == "UNK" then c.unkToken
    else c.maskToken
  }

  /**
   * A name resolves to an id exactly when the text it stands for (the configured text of a
   * reserved name, or the name itself when it is an added token) is in the vocabulary, and then
   * to that text's id.
   */
  lemma ResolveSpecialSpec(v: VocabState, c: TokenizerConfig, name: Str)
    requires Valid(v)
    ensures IsReservedName(name) ==>
      ResolveSpecial(v, c, name) == GetTokenId(v, ReservedText(c, name)) &&
      (ResolveSpecial(v, c, name) != -1 <==> HasToken(v, ReservedText(c, name)))
    ensures !IsReservedName(name) ==>
      (ResolveSpecial(v, c, name) != -1 <==> name in c.addedTokens && HasToken(v, name))
    ensures ResolveSpecial(v, c, name) != -1 ==> HasId(v, ResolveSpecial(v, c, name))
  {
  }

  function VariableError(name: Str): Str
  {
    "Unsupported template variable: " + name
  }

  function SpecialError(name: Str): Str
  {
    "Unknown special token in template: " + name
  }

  /** The ids of one segment: one id per byte of a literal, the input for `message`, one special id. */
  function SegmentIds(seg: Segment, v: VocabState, c: TokenizerConfig, ids: seq<int>): Result<seq<int>>
  {
    match seg.ty
    case LITERAL => Ok(TokenIds(v, ByteStrings(seg.value)))
    case VARIABLE => if seg.value == "message" then Ok(ids) else Err(VariableError(seg.value))
    case SPECIAL_TOKEN =>
      var id := ResolveSpecial(v, c, seg.value);
      if id != -1 then Ok([id]) else Err(SpecialError(seg.value))
  }

  /** One token per byte of a literal, with the byte's id (-1 when unknown), not special. */
  function LiteralTokens(v: VocabState, s: Str): (ts: seq<Token>)
    ensures |ts| == |s|
    ensures forall k :: 0 <= k < |s| ==> ts[k] == Inserted(GetTokenId(v, [s[k]]), [s[k]], false)
  {
    seq(|s|, k requires 0 <= k < |s| => Inserted(GetTokenId(v, [s[k]]), [s[k]], false))
  }

  /** The tokens of one segment; a special token carries the text the vocabulary has for its id. */
  function SegmentTokens(seg: Segment, v: VocabState, c: TokenizerConfig, ts: seq<Token>): Result<seq<Token>>
  {
    match seg.ty
    case LITERAL => Ok(LiteralTokens(v, seg.value))
    case VARIABLE => if seg.value == "message" then Ok(ts) else Err(VariableError(seg.value))
    case SPECIAL_TOKEN =>
      var id := ResolveSpecial(v, c, seg.value);
      if id != -1 then Ok([Inserted(id, GetToken(v, id), true)]) else Err(SpecialError(seg.value))
  }

  /** `process_ids` of the chat template: the segments' ids in order, or the first segment's error. */
  function ChatIds(segs: seq<Segment>, v: VocabState, c: TokenizerConfig, ids: seq<int>): Result<seq<int>>
    decreases |segs|
  {
    if segs == [] then Ok([])
    else
      match ChatIds(segs[..|segs| - 1], v, c, ids)
      case Err(m) => Err(m)
      case Ok(pre) =>
        match SegmentIds(segs[|segs| - 1], v, c, ids)
        case Err(m) => Err(m)
        case Ok(more) => Ok(pre + more)
  }

  /** `process` of the chat template. */
  function ChatTokens(segs: seq<Segment>, v: VocabState, c: TokenizerConfig, ts: seq<Token>): Result<seq<Token>>
    decreases |segs|
  {
    if segs == [] then Ok([])
    else
      match ChatTokens(segs[..|segs| - 1], v, c, ts)
      case Err(m) => Err(m)
      case Ok(pre) =>
        match SegmentTokens(segs[|segs| - 1], v, c, ts)
        case Err(m) => Err(m)
        case Ok(more) => Ok(pre + more)
  }

  /** The chat template fails exactly when one of its segments does. */
  lemma {:induction false} ChatIdsOk(segs: seq<Segment>, v: VocabState, c: TokenizerConfig, ids: seq<int>)
    ensures ChatIds(segs, v, c, ids).Ok? <==> forall k :: 0 <= k < |segs| ==> SegmentIds(segs[k], v, c, ids).Ok?
    decreases |segs|
  {
    if segs != [] {
      var n := |segs| - 1;
      ChatIdsOk(segs[..n], v, c, ids);
      assert forall k :: 0 <= k < n ==> segs[..n][k] == segs[k];
    }
  }

  /**
   * A parsed variable keeps the space after `{{`, so it is never `message`: a chat template
   * holding any variable fails on every input, and `{{ message }}` in particular is rejected.
   */
  lemma ChatVariableFails(s: Str, v: VocabState, c: TokenizerConfig, ids: seq<int>, k: nat)
    requires Parse(s).Ok? && k < |Parse(s).value| && Parse(s).value[k].ty == VARIABLE
    ensures ChatIds(Parse(s).value, v, c, ids).Err?
  {
    var segs := Parse(s).value;
    ParseShape(s);
    assert SegmentOk(segs[k]);
    assert segs[k].value[0] == ' ';
    assert SegmentIds(segs[k], v, c, ids).Err?;
    ChatIdsOk(segs, v, c, ids);
  }

  /** What the tokens and the ids of one segment have in common: the ids of the tokens are the ids. */
  lemma SegmentAgrees(seg: Segment, v: VocabState, c: TokenizerConfig, ts: seq<Token>)
    ensures SegmentTokens(seg, v, c, ts).Ok? == SegmentIds(seg, v, c, IdsOf(ts)).Ok?
    ensures SegmentTokens(seg, v, c, ts).Ok? ==>
      IdsOf(SegmentTokens(seg, v, c, ts).value) == SegmentIds(seg, v, c, IdsOf(ts)).value
  {
  }

  lemma {:induction false} ChatAgrees(segs: seq<Segment>, v: VocabState, c: TokenizerConfig, ts: seq<Token>)
    ensures ChatTokens(segs, v, c, ts).Ok? == ChatIds(segs, v, c, IdsOf(ts)).Ok?
    ensures ChatTokens(segs, v, c, ts).Ok? ==>
      IdsOf(ChatTokens(segs, v, c, ts).value) == ChatIds(segs, v, c, IdsOf(ts)).value
    decreases |segs|
  {
    if segs != [] {
      var n := |segs| - 1;
      ChatAgrees(segs[..n], v, c, ts);
      SegmentAgrees(segs[n], v, c, ts);
      if ChatTokens(segs, v, c, ts).Ok? {
        IdsOfAppend(ChatTokens(segs[..n], v, c, ts).value, SegmentTokens(segs[n], v, c, ts).value);
      }
    }
  }

  /** The inner loop over a literal: one `get_token_id` per byte. */
  method LiteralIds(v: VocabState, s: Str) returns (ids: seq<int>)
    ensures ids == TokenIds(v, ByteStrings(s))
  {
    ids := [];
    var i := 0;
    while i < |s|
      invariant 0 <= i <= |s|
      invariant ids == TokenIds(v, ByteStrings(s[..i]))
    {
      ids := ids + [GetTokenId(v, [s[i]])];
      i := i + 1;
    }
    assert s[..i] == s;
  }

  /** `ChatTemplatePostProcessor::process_ids`: the loop over the parsed segments. */
  method ChatProcessIds(segs: seq<Segment>, v: VocabState, c: TokenizerConfig, ids: seq<int>) returns (r: Result<seq<int>>)
    ensures r == ChatIds(segs, v, c, ids)
  {
    var result: seq<int> := [];
    var i := 0;
    while i < |segs|
      invariant 0 <= i <= |segs|
      invariant ChatIds(segs[..i], v, c, ids) == Ok(result)
    {
      var seg := segs[i];
      assert segs[..i + 1][..i] == segs[..i];
      if seg.ty == LITERAL {
        var more := LiteralIds(v, seg.value);
        result := result + more;
      } else if seg.ty == VARIABLE {
        if seg.value == "message" {
          result := result + ids;
        } else {
          ChatIdsStop(segs, v, c, ids, i);
          return Err(VariableError(seg.value));
        }
      } else {
        var id := ResolveSpecial(v, c, seg.value);
        if id != -1 {
          result := result + [id];
        } else {
          ChatIdsStop(segs, v, c, ids, i);
          return Err(SpecialError(seg.value));
        }
      }
      i := i + 1;
    }
    assert segs[..i] == segs;
    r := Ok(result);
  }

  /** A segment that fails ends the whole template with its error. */
  lemma {:induction false} ChatIdsStop(segs: seq<Segment>, v: VocabState, c: TokenizerConfig, ids: seq<int>, i: nat)
    requires i < |segs| && ChatIds(segs[..i], v, c, ids).Ok? && SegmentIds(segs[i], v, c, ids).Err?
    ensures ChatIds(segs, v, c, ids) == Err(SegmentIds(segs[i], v, c, ids).msg)
    decreases |segs|
  {
    var n := |segs| - 1;
    if i < n {
      assert segs[..n][..i] == segs[..i];
      ChatIdsStop(segs[..n], v, c, ids, i);
    } else {
      assert segs[..n] == segs[..i];
    }
  }

  /** The inner loop over a literal, on tokens. */
  method LiteralTokensOf(v: VocabState, s: Str) returns (ts: seq<Token>)
    ensures ts == LiteralTokens(v, s)
  {
    ts := [];
    var i := 0;
    while i < |s|
      invariant 0 <= i <= |s|
      invariant ts == LiteralTokens(v, s[..i])
    {
      ts := ts + [Inserted(GetTokenId(v, [s[i]]), [s[i]], false)];
      i := i + 1;
    }
    assert s[..i] == s;
  }

  /** `ChatTemplatePostProcessor::process`. */
  method ChatProcess(segs: seq<Segment>, v: VocabState, c: TokenizerConfig, tokens: seq<Token>) returns (r: Result<seq<Token>>)
    ensures r == ChatTokens(segs, v, c, tokens)
  {
    var result: seq<Token> := [];
    var i := 0;
    while i < |segs|
      invariant 0 <= i <= |segs|
      invariant ChatTokens(segs[..i], v, c, tokens) == Ok(result)
    {
      var seg := segs[i];
      assert segs[..i + 1][..i] == segs[..i];
      if seg.ty == LITERAL {
        var more := LiteralTokensOf(v, seg.value);
        result := result + more;
      } else if seg.ty == VARIABLE {
        if seg.value == "message" {
          result := result + tokens;
        } else {
          ChatTokensStop(segs, v, c, tokens, i);
          return Err(VariableError(seg.value));
        }
      } else {
        var id := ResolveSpecial(v, c, seg.value);
        if id != -1 {
          result := result + [Inserted(id, GetToken(v, id), true)];
        } else {
          ChatTokensStop(segs, v, c, tokens, i);
          return Err(SpecialError(seg.value));
        }
      }
      i := i + 1;
    }
    assert segs[..i] == segs;
    r := Ok(result);
  }

  lemma {:induction false} ChatTokensStop(segs: seq<Segment>, v: VocabState, c: TokenizerConfig, ts: seq<Token>, i: nat)
    requires i < |segs| && ChatTokens(segs[..i], v, c, ts).Ok? && SegmentTokens(segs[i], v, c, ts).Err?
    ensures ChatTokens(segs, v, c, ts) == Err(SegmentTokens(segs[i], v, c, ts).msg)
    decreases |segs|
  {
    var n := |segs| - 1;
    if i < n {
      assert segs[..n][..i] == segs[..i];
      ChatTokensStop(segs[..n], v, c, ts, i);
    } else {
      assert segs[..n] == segs[..i];
    }
  }

  // ---- any processor ----

  /** `process_ids` of one processor. */
  function ProcessedIds(p: PostProcessor, ids: seq<int>): Result<seq<int>>
  {
    match p
    case Bert(cls, _, sep, _) => Ok(IfKnown(cls, cls) + ids + IfKnown(sep, sep))
    case Templated(_, prefix, _, suffix) => Ok(prefix + ids + suffix)
    case ChatTemplate(segs, v, c) => ChatIds(segs, v, c, ids)
  }

  /** `process` of one processor. */
  function Processed(p: PostProcessor, ts: seq<Token>): Result<seq<Token>>
  {
    match p
    case Bert(cls, clsText, sep, sepText) =>
      Ok(IfKnown(cls, Inserted(cls, clsText, true)) + ts + IfKnown(sep, Inserted(sep, sepText, true)))
    case Templated(prefix, _, suffix, _) => Ok(prefix + ts + suffix)
    case ChatTemplate(segs, v, c) => ChatTokens(segs, v, c, ts)
  }

  /** A processor whose token lists and id lists say the same thing. */
  predicate Coherent(p: PostProcessor)
  {
    p.Templated? ==> IdsOf(p.prefixTokens) == p.prefixIds && IdsOf(p.suffixTokens) == p.suffixIds
  }

  /** The processors the constructors build are coherent. */
  lemma NewTemplatedCoherent(prefix: seq<Str>, suffix: seq<Str>, v: VocabState)
    ensures Coherent(Templated(KnownTokens(v, prefix), KnownIds(v, prefix), KnownTokens(v, suffix), KnownIds(v, suffix)))
  {
    KnownAgree(v, prefix);
    KnownAgree(v, suffix);
  }

  /**
   * `process` and `process_ids` agree: processing tokens fails exactly when processing their
   * ids does, and otherwise yields tokens whose ids are the processed ids.
   */
  lemma ProcessAgrees(p: PostProcessor, ts: seq<Token>)
    requires Coherent(p)
    ensures Processed(p, ts).Ok? == ProcessedIds(p, IdsOf(ts)).Ok?
    ensures Processed(p, ts).Ok? ==> IdsOf(Processed(p, ts).value) == ProcessedIds(p, IdsOf(ts)).value
  {
    match p
    case Bert(cls, clsText, sep, sepText) =>
      IdsOfWrap(IfKnown(cls, Inserted(cls, clsText, true)), ts, IfKnown(sep, Inserted(sep, sepText, true)));
    case Templated(prefix, _, suffix, _) =>
      IdsOfWrap(prefix, ts, suffix);
    case ChatTemplate(segs, v, c) =>
      ChatAgrees(segs, v, c, ts);
  }

  /**
   * BERT wrapping: when the vocabulary knows both configured texts, the ids come out between the
   * `[CLS]` id and the `[SEP]` id, and the tokens between two special tokens carrying those
   * texts; when it knows neither, the input passes unchanged.
   */
  lemma BertWraps(c: TokenizerConfig, v: VocabState, ids: seq<int>, ts: seq<Token>)
    requires Valid(v)
    ensures HasToken(v, c.clsToken) && HasToken(v, c.sepToken) ==>
      var out := ProcessedIds(NewBert(c, v), ids).value;
      ProcessedIds(NewBert(c, v), ids).Ok? && |out| == |ids| + 2 &&
      out[0] == GetTokenId(v, c.clsToken) && out[1..|out| - 1] == ids && out[|out| - 1] == GetTokenId(v, c.sepToken)
    ensures HasToken(v, c.clsToken) && HasToken(v, c.sepToken) ==>
      var out := Processed(NewBert(c, v), ts).value;
      |out| == |ts| + 2 && out[0].isSpecial && out[0].text == c.clsToken && out[1..|out| - 1] == ts &&
      out[|out| - 1].isSpecial && out[|out| - 1].text == c.sepToken
    ensures !HasToken(v, c.clsToken) && !HasToken(v, c.sepToken) ==>
      ProcessedIds(NewBert(c, v), ids) == Ok(ids) && Processed(NewBert(c, v), ts) == Ok(ts)
  {
    if HasToken(v, c.clsToken) && HasToken(v, c.sepToken) {
      var out := ProcessedIds(NewBert(c, v), ids).value;
      assert out == [GetTokenId(v, c.clsToken)] + ids + [GetTokenId(v, c.sepToken)];
      assert out[1..|out| - 1] == ids;
      var outT := Processed(NewBert(c, v), ts).value;
      assert outT[1..|outT| - 1] == ts;
    } else if !HasToken(v, c.clsToken) && !HasToken(v, c.sepToken) {
      assert [] + ids + [] == ids;
      assert [] + ts + [] == ts;
    }
  }

  /** `process_ids` through the processor's own code: the chat template runs its loop. */
  method RunIds(p: PostProcessor, ids: seq<int>) returns (r: Result<seq<int>>)
    ensures r == ProcessedIds(p, ids)
  {
    match p
    case Bert(cls, _, sep, _) =>
      r := Ok(IfKnown(cls, cls) + ids + IfKnown(sep, sep));
    case Templated(_, prefix, _, suffix) =>
      r := Ok(prefix + ids + suffix);
    case ChatTemplate(segs, v, c) =>
      r := ChatProcessIds(segs, v, c, ids);
  }

  method Run(p: PostProcessor, ts: seq<Token>) returns (r: Result<seq<Token>>)
    ensures r == Processed(p, ts)
  {
    match p
    case Bert(cls, clsText, sep, sepText) =>
      r := Ok(IfKnown(cls, Inserted(cls, clsText, true)) + ts + IfKnown(sep, Inserted(sep, sepText, true)));
    case Templated(prefix, _, suffix, _) =>
      r := Ok(prefix + ts + suffix);
    case ChatTemplate(segs, v, c) =>
      r := ChatProcess(segs, v, c, ts);
  }

  // ---- composite ----

  /** The processors applied one after the other, stopping at the first error. */
  function FoldIds(ps: seq<PostProcessor>, ids: seq<int>): Result<seq<int>>
    decreases |ps|
  {
    if ps == [] then Ok(ids)
    else
      match FoldIds(ps[..|ps| - 1], ids)
      case Err(m) => Err(m)
      case Ok(mid) => ProcessedIds(ps[|ps| - 1], mid)
  }

  function Fold(ps: seq<PostProcessor>, ts: seq<Token>): Result<seq<Token>>
    decreases |ps|
  {
    if ps == [] then Ok(ts)
    else
      match Fold(ps[..|ps| - 1], ts)
      case Err(m) => Err(m)
      case Ok(mid) => Processed(ps[|ps| - 1], mid)
  }

  /** One more processor run on the output of a fold, unless the fold failed. */
  function AfterFold(r: Result<seq<int>>, p: PostProcessor): Result<seq<int>>
  {
    match r
    case Err(m) => Err(m)
    case Ok(mid) => ProcessedIds(p, mid)
  }

  /** Running two lists of processors is running the first, then the second on its output. */
  lemma {:induction false} FoldIdsAppend(a: seq<PostProcessor>, b: seq<PostProcessor>, ids: seq<int>)
    ensures FoldIds(a + b, ids) == (match FoldIds(a, ids) case Err(m) => Err(m) case Ok(mid) => FoldIds(b, mid))
    decreases |b|
  {
    if b == [] {
      assert a + b == a;
    } else {
      var n := |b| - 1;
      assert (a + b)[..|a + b| - 1] == a + b[..n];
      FoldIdsAppend(a, b[..n], ids);
    }
  }

  /** The composite keeps `process` and `process_ids` in agreement, as each of its processors does. */
  lemma {:induction false} FoldAgrees(ps: seq<PostProcessor>, ts: seq<Token>)
    requires forall k :: 0 <= k < |ps| ==> Coherent(ps[k])
    ensures Fold(ps, ts).Ok? == FoldIds(ps, IdsOf(ts)).Ok?
    ensures Fold(ps, ts).Ok? ==> IdsOf(Fold(ps, ts).value) == FoldIds(ps, IdsOf(ts)).value
    decreases |ps|
  {
    if ps != [] {
      var n := |ps| - 1;
      FoldAgrees(ps[..n], ts);
      if Fold(ps[..n], ts).Ok? {
        ProcessAgrees(ps[n], Fold(ps[..n], ts).value);
      }
    }
  }

  /** `CompositePostProcessor`: the processors, in the order they were added. */
  class CompositePostProcessor {
    var processors: seq<PostProcessor>

    constructor()
      ensures processors == []
    {
      processors := [];
    }

    /** `add_processor`: a null processor is ignored, any other one goes to the end. */
    method AddProcessor(p: Option<PostProcessor>)
      modifies this
      ensures processors == old(processors) + (if p.Some? then [p.value] else [])
      ensures p.Some? ==> forall ids :: FoldIds(processors, ids) == AfterFold(FoldIds(old(processors), ids), p.value)
    {
      if p.Some? {
        processors := processors + [p.value];
        forall ids {
          FoldIdsAppend(old(processors), [p.value], ids);
        }
      }
    }

    /** `process_ids`: each processor in turn on the output of the previous one. */
    method ProcessIds(ids: seq<int>) returns (r: Result<seq<int>>)
      ensures r == FoldIds(processors, ids)
    {
      var output := ids;
      var i := 0;
      while i < |processors|
        invariant 0 <= i <= |processors|
        invariant FoldIds(processors[..i], ids) == Ok(output)
      {
        assert processors[..i + 1][..i] == processors[..i];
        var step := RunIds(processors[i], output);
        if step.Err? {
          FoldIdsStop(processors, ids, i);
          return step;
        }
        output := step.value;
        i := i + 1;
      }
      assert processors[..i] == processors;
      r := Ok(output);
    }

    /** `process`. */
    method Process(tokens: seq<Token>) returns (r: Result<seq<Token>>)
      ensures r == Fold(processors, tokens)
    {
      var output := tokens;
      var i := 0;
      while i < |processors|
        invariant 0 <= i <= |processors|
        invariant Fold(processors[..i], tokens) == Ok(output)
      {
        assert processors[..i + 1][..i] == processors[..i];
        var step := Run(processors[i], output);
        if step.Err? {
          FoldStop(processors, tokens, i);
          return step;
        }
        output := step.value;
        i := i + 1;
      }
      assert processors[..i] == processors;
      r := Ok(output);
    }
  }

  /** An error part-way through ends the composite with that error. */
  lemma {:induction false} FoldIdsStop(ps: seq<PostProcessor>, ids: seq<int>, i: nat)
    requires i < |ps| && FoldIds(ps[..i], ids).Ok? && ProcessedIds(ps[i], FoldIds(ps[..i], ids).value).Err?
    ensures FoldIds(ps, ids) == ProcessedIds(ps[i], FoldIds(ps[..i], ids).value)
    decreases |ps|
  {
    var n := |ps| - 1;
    if i < n {
      assert ps[..n][..i] == ps[..i];
      FoldIdsStop(ps[..n], ids, i);
    } else {
      assert ps[..n] == ps[..i];
    }
  }

  lemma {:induction false} FoldStop(ps: seq<PostProcessor>, ts: seq<Token>, i: nat)
    requires i < |ps| && Fold(ps[..i], ts).Ok? && Processed(ps[i], Fold(ps[..i], ts).value).Err?
    ensures Fold(ps, ts) == Processed(ps[i], Fold(ps[..i], ts).value)
    decreases |ps|
  {
    var n := |ps| - 1;
    if i < n {
      assert ps[..n][..i] == ps[..i];
      FoldStop(ps[..n], ts, i);
    } else {
      assert ps[..n] == ps[..i];
    }
  }

  // ---- create_post_processor ----

  /**
   * The processors `create_post_processor` installs: BERT for a BERT base model, then the chat
   * template when one is configured; a chat template that does not parse makes it fail.
   */
  function Pipeline(c: TokenizerConfig, v: VocabState): Result<seq<PostProcessor>>
  {
    var bert := if c.baseModel == BERT then [NewBert(c, v)] else [];
    if c.chatTemplate == [] then Ok(bert)
    else
      match Parse(c.chatTemplate)
      case Err(m) => Err(m)
      case Ok(segs) => Ok(bert + [ChatTemplate(segs, v, c)])
  }

  /**
   * The pipeline holds BERT first exactly for a BERT base model and a chat template last exactly
   * when one is configured; it fails only on a chat template that does not parse. For a BERT
   * model without a chat template, processing ids is one BERT wrap.
   */
  lemma PipelineShape(c: TokenizerConfig, v: VocabState, ids: seq<int>)
    ensures Pipeline(c, v).Err? <==> c.chatTemplate != [] && Parse(c.chatTemplate).Err?
    ensures Pipeline(c, v).Ok? ==>
      var ps := Pipeline(c, v).value;
      |ps| == (if c.baseModel == BERT then 1 else 0) + (if c.chatTemplate != [] then 1 else 0) &&
      (c.baseModel == BERT <==> |ps| > 0 && ps[0].Bert?) &&
      (c.chatTemplate != [] <==> |ps| > 0 && ps[|ps| - 1].ChatTemplate?)
    ensures c.baseModel == BERT && c.chatTemplate == [] ==>
      FoldIds(Pipeline(c, v).value, ids) == ProcessedIds(NewBert(c, v), ids)
    ensures c.baseModel != BERT && c.chatTemplate == [] ==> FoldIds(Pipeline(c, v).value, ids) == Ok(ids)
  {
    if c.baseModel == BERT && c.chatTemplate == [] {
      assert Pipeline(c, v).value[..0] == [];
    }
  }

  /** `create_post_processor`: a composite holding the pipeline, or the template parser's error. */
  method CreatePostProcessor(c: TokenizerConfig, v: VocabState) returns (r: Result<CompositePostProcessor>)
    ensures r.Ok? <==> Pipeline(c, v).Ok?
    ensures r.Ok? ==> fresh(r.value) && r.value.processors == Pipeline(c, v).value
    ensures r.Err? ==> r.msg == Pipeline(c, v).msg
  {
    var composite := new CompositePostProcessor();
    if c.baseModel == BERT {
      composite.AddProcessor(Some(NewBert(c, v)));
    }
    if c.chatTemplate != [] {
      var parsed := ParseTemplate(c.chatTemplate);
      if parsed.Err? {
        return Err(parsed.msg);
      }
      composite.AddProcessor(Some(ChatTemplate(parsed.value, v, c)));
    }
    r := Ok(composite);
  }
}
