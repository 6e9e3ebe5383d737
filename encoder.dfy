/**
 * The basic `Encoder` (tokenizer_encoder.cpp). Text is normalized (when a form is configured),
 * lower-cased (when configured) and split at whitespace; every byte of every word becomes one
 * id, with the UNK id for bytes the table lacks, optionally wrapped in the BOS and EOS ids.
 * Decoding maps ids back to texts with a few special-token rules and then cleans the text
 * up: control bytes go, whitespace collapses to single spaces and the ends are trimmed.
 */
module Encoding {
  import opened Wrappers
  import opened Bytes
  import opened TokenTypes
  import opened Vocabulary
  import opened Config
  import opened SpecialTokens
  import Utf8
  import opened Seqs

  const TrainError: string := "Training not implemented in basic Encoder"

  // ---- normalization and pre-tokenization ----

  /**
   * The text `normalize_and_pretokenize` splits: the Unicode normalizer's output when a form
   * is configured (`normalize` stands for that normalizer), then lower-cased when configured.
   */
  function Prepared(c: TokenizerConfig, normalize: Str -> Str, text: Str): Str
  {
    var n := if c.normalization != NONE then normalize(text) else text;
    if c.lowercase then Lower(n) else n
  }

  /** Joining with one separator more: the loop body of every "space between words" loop. */
  lemma {:induction false} JoinWithSnoc(ws: seq<Str>, w: Str, sep: Str)
    ensures JoinWith(ws + [w], sep) == if ws == [] then w else JoinWith(ws, sep) + sep + w
    decreases |ws|
  {
    if |ws| == 1 {
      assert ws + [w] == [ws[0], w];
      assert [ws[0], w][1..] == [w];
    } else if |ws| > 1 {
      assert (ws + [w])[1..] == ws[1..] + [w];
      JoinWithSnoc(ws[1..], w, sep);
      AppendAssoc4(ws[0], sep, JoinWith(ws[1..], sep), sep + w);
    }
  }

  lemma AppendAssoc4<T>(a: seq<T>, b: seq<T>, c: seq<T>, d: seq<T>)
    ensures a + b + (c + d) == (a + b + c) + d
  {
  }

  /** The run of a word that is followed by whitespace or by nothing is the word itself. */
  lemma {:induction false} RunLengthWord(w: Str, t: Str)
    requires NoSpace(w)
    requires t == [] || IsSpace(t[0])
    ensures RunLength(w + t) == |w|
    decreases |w|
  {
    if w == [] {
      assert w + t == t;
    } else {
      assert (w + t)[1..] == w[1..] + t;
      assert NoSpace(w[1..]) by {
        forall i | 0 <= i < |w[1..]| ensures !IsSpace(w[1..][i]) { assert w[1..][i] == w[i + 1]; }
      }
      RunLengthWord(w[1..], t);
    }
  }

  /** A non-empty string with no whitespace is one word. */
  lemma WordsOfWord(w: Str)
    requires w != [] && NoSpace(w)
    ensures Words(w) == [w]
  {
    RunLengthWord(w, []);
    assert w + [] == w;
  }

  /** Splitting words that were joined with single spaces gives the words back. */
  lemma {:induction false} WordsJoin(ws: seq<Str>)
    requires forall k :: 0 <= k < |ws| ==> ws[k] != [] && NoSpace(ws[k])
    ensures Words(JoinWith(ws, " ")) == ws
    decreases |ws|
  {
    if |ws| == 1 {
      WordsOfWord(ws[0]);
    } else if |ws| > 1 {
      var w := ws[0];
      var rest: Str := JoinWith(ws[1..], " ");
      WordsJoin(ws[1..]);
      var tail: Str := [' '] + rest;
      var s: Str := w + tail;
      assert JoinWith(ws, " ") == s;
      RunLengthWord(w, tail);
      assert s[..|w|] == w;
      assert s[|w|..] == tail;
      assert tail[1..] == rest;
      assert Words(tail) == Words(rest);
      assert ws == [w] + ws[1..];
    }
  }

  /** What `normalize_and_pretokenize` returns: the prepared text's words joined by single spaces. */
  function PretokenizedText(c: TokenizerConfig, normalize: Str -> Str, text: Str): Str
  {
    JoinWith(Words(Prepared(c, normalize, text)), " ")
  }

  /**
   * `pre_tokenize` splits the joined text again; that gives exactly the words of the
   * prepared text, so the join-and-split round does not change them.
   */
  lemma PreTokenizeWords(c: TokenizerConfig, normalize: Str -> Str, text: Str)
    ensures Words(PretokenizedText(c, normalize, text)) == Words(Prepared(c, normalize, text))
  {
    WordsJoin(Words(Prepared(c, normalize, text)));
  }

  // ---- encoding ----

  /** The id of one subword: its table id, or the id of `unk_token` (itself -1 when absent). */
  function UnkFallback(v: VocabState, c: TokenizerConfig, sub: Str): int
  {
    var id := GetTokenId(v, sub);
    if id == -1 then GetTokenId(v, c.unkToken) else id
  }

  /** In a valid table the fallback is taken exactly for the texts the table lacks. */
  lemma UnkFallbackHas(v: VocabState, c: TokenizerConfig, sub: Str)
    requires Valid(v)
    ensures UnkFallback(v, c, sub) == if HasToken(v, sub) then GetTokenId(v, sub) else GetTokenId(v, c.unkToken)
  {
  }

  /** The ids of the one-byte subwords of `s`, in order. */
  function ByteIds(v: VocabState, c: TokenizerConfig, s: Str): (ids: seq<int>)
    ensures |ids| == |s|
    ensures forall k :: 0 <= k < |s| ==> ids[k] == UnkFallback(v, c, [s[k]])
  {
    if s == [] then [] else ByteIds(v, c, s[..|s| - 1]) + [UnkFallback(v, c, [s[|s| - 1]])]
  }

  lemma ByteIdsAppend(v: VocabState, c: TokenizerConfig, a: Str, b: Str)
    ensures ByteIds(v, c, a + b) == ByteIds(v, c, a) + ByteIds(v, c, b)
  {
    var l := ByteIds(v, c, a + b);
    var r := ByteIds(v, c, a) + ByteIds(v, c, b);
    forall k | 0 <= k < |l| ensures l[k] == r[k] {
      if k < |a| { assert r[k] == ByteIds(v, c, a)[k]; } else { assert r[k] == ByteIds(v, c, b)[k - |a|]; }
      if k < |a| { assert (a + b)[k] == a[k]; } else { assert (a + b)[k] == b[k - |a|]; }
    }
  }

  /** Whether `encode_to_ids` writes a BOS id (1) or not (0). */
  function BosCount(c: TokenizerConfig): nat
  {
    if c.addSpecialTokens && c.bosToken != [] then 1 else 0
  }

  /** Whether `encode_to_ids` writes an EOS id (1) or not (0). */
  function EosCount(c: TokenizerConfig): nat
  {
    if c.addSpecialTokens && c.eosToken != [] then 1 else 0
  }

  /** The ids `encode_to_ids` returns for the prepared text `p`. */
  function EncodedIds(v: VocabState, c: TokenizerConfig, p: Str): seq<int>
  {
    (if BosCount(c) == 1 then [GetTokenId(v, c.bosToken)] else [])
    + ByteIds(v, c, Concat(Words(p)))
    + (if EosCount(c) == 1 then [GetTokenId(v, c.eosToken)] else [])
  }

  /** One more word of the loop in `encode_to_ids`: its byte ids follow those of the words before. */
  lemma ByteIdsStep(v: VocabState, c: TokenizerConfig, words: seq<Str>, i: nat)
    requires i < |words|
    ensures ByteIds(v, c, Concat(words[..i + 1])) == ByteIds(v, c, Concat(words[..i])) + ByteIds(v, c, words[i])
  {
    assert words[..i + 1][..i] == words[..i];
    ByteIdsAppend(v, c, Concat(words[..i]), words[i]);
  }

  /** The three parts `encode_to_ids` writes, in order, make up `EncodedIds`. */
  lemma EncodedIdsParts(v: VocabState, c: TokenizerConfig, p: Str, bos: seq<int>, mid: seq<int>, eos: seq<int>)
    requires bos == if BosCount(c) == 1 then [GetTokenId(v, c.bosToken)] else []
    requires mid == ByteIds(v, c, Concat(Words(p)))
    requires eos == if EosCount(c) == 1 then [GetTokenId(v, c.eosToken)] else []
    ensures bos + mid + eos == EncodedIds(v, c, p)
  {
  }

  /**
   * The BOS id comes first exactly when special tokens are added and a BOS text is
   * configured, the EOS id last under the same condition for EOS; in between is one id per
   * non-whitespace byte of the prepared text, in order: the byte's own id when the table
   * holds it, otherwise the UNK id.
   */
  lemma EncodedIdsSpec(v: VocabState, c: TokenizerConfig, p: Str)
    requires Valid(v)
    ensures |EncodedIds(v, c, p)| == BosCount(c) + |Squeeze(p)| + EosCount(c)
    ensures BosCount(c) == 1 ==> EncodedIds(v, c, p)[0] == GetTokenId(v, c.bosToken)
    ensures EosCount(c) == 1 ==> EncodedIds(v, c, p)[|EncodedIds(v, c, p)| - 1] == GetTokenId(v, c.eosToken)
    ensures forall k :: 0 <= k < |Squeeze(p)| ==>
      EncodedIds(v, c, p)[BosCount(c) + k] ==
        if HasToken(v, [Squeeze(p)[k]]) then GetTokenId(v, [Squeeze(p)[k]]) else GetTokenId(v, c.unkToken)
  {
    WordsConcat(p);
    var s := Squeeze(p);
    var bos: seq<int> := if BosCount(c) == 1 then [GetTokenId(v, c.bosToken)] else [];
    var eos: seq<int> := if EosCount(c) == 1 then [GetTokenId(v, c.eosToken)] else [];
    var mid := ByteIds(v, c, s);
    EncodedIdsParts(v, c, p, bos, mid, eos);
    PartsAt(bos, mid, eos);
    forall k | 0 <= k < |s|
      ensures mid[k] == if HasToken(v, [s[k]]) then GetTokenId(v, [s[k]]) else GetTokenId(v, c.unkToken)
    {
      UnkFallbackHas(v, c, [s[k]]);
    }
  }

  /** Indexing into three sequences placed one after the other. */
  lemma PartsAt<T>(a: seq<T>, b: seq<T>, c: seq<T>)
    ensures |a + b + c| == |a| + |b| + |c|
    ensures forall k :: 0 <= k < |b| ==> (a + b + c)[|a| + k] == b[k]
    ensures |a| == 1 ==> (a + b + c)[0] == a[0]
    ensures |c| == 1 ==> (a + b + c)[|a + b + c| - 1] == c[0]
  {
  }

  // ---- decoding ----

  /**
   * What one id adds to the text in `decode_from_ids`: nothing for a special id when
   * special tokens are not added; otherwise its text, or `unk_token` when it has none, with
   * the SEP text replaced by one space and the CLS, BOS and EOS texts dropped.
   */
  function DecodePiece(v: VocabState, c: TokenizerConfig, id: int): Str
  {
    if !c.addSpecialTokens && IsSpecialTokenId(v, id) then []
    else
      var t := if GetToken(v, id) == [] then c.unkToken else GetToken(v, id);
      if t == c.sepToken then " "
      else if t == c.clsToken || t == c.bosToken || t == c.eosToken then []
      else t
  }

  function Pieces(v: VocabState, c: TokenizerConfig, ids: seq<int>): (ps: seq<Str>)
    ensures |ps| == |ids|
  {
    seq(|ids|, k requires 0 <= k < |ids| => DecodePiece(v, c, ids[k]))
  }

  /** The text `decode_from_ids` builds before `post_process`. */
  function RawDecoded(v: VocabState, c: TokenizerConfig, ids: seq<int>): Str
  {
    Concat(Pieces(v, c, ids))
  }

  lemma RawDecodedSnoc(v: VocabState, c: TokenizerConfig, ids: seq<int>, k: nat)
    requires k < |ids|
    ensures RawDecoded(v, c, ids[..k + 1]) == RawDecoded(v, c, ids[..k]) + DecodePiece(v, c, ids[k])
  {
    assert Pieces(v, c, ids[..k + 1])[..k] == Pieces(v, c, ids[..k]);
  }

  lemma RawDecodedAppend(v: VocabState, c: TokenizerConfig, a: seq<int>, b: seq<int>)
    ensures RawDecoded(v, c, a + b) == RawDecoded(v, c, a) + RawDecoded(v, c, b)
  {
    assert Pieces(v, c, a + b) == Pieces(v, c, a) + Pieces(v, c, b);
    ConcatAppend(Pieces(v, c, a), Pieces(v, c, b));
  }

  /**
   * A byte that survives a round trip: the table holds it, it is none of the SEP, CLS, BOS
   * and EOS texts, and it is not special when special ids are skipped.
   */
  predicate PlainByte(v: VocabState, c: TokenizerConfig, b: byte)
  {
    && HasToken(v, [b])
    && (!c.addSpecialTokens ==> !IsSpecialToken(v, [b]))
    && [b] != c.sepToken && [b] != c.clsToken && [b] != c.bosToken && [b] != c.eosToken
  }

  /** A BOS or EOS text that `decode_from_ids` drops again: present in the table and not the SEP text. */
  predicate DroppedMarker(v: VocabState, c: TokenizerConfig, t: Str)
  {
    c.addSpecialTokens && t != [] ==> HasToken(v, t) && t != c.sepToken
  }

  /** The ids of plain bytes decode to the bytes themselves. */
  lemma ByteIdsDecode(v: VocabState, c: TokenizerConfig, s: Str)
    requires Valid(v) && Consistent(v)
    requires forall k :: 0 <= k < |s| ==> PlainByte(v, c, s[k])
    ensures RawDecoded(v, c, ByteIds(v, c, s)) == s
  {
    var ps := Pieces(v, c, ByteIds(v, c, s));
    forall k | 0 <= k < |s| ensures ps[k] == ByteStrings(s)[k] {
      var t: Str := [s[k]];
      assert GetToken(v, GetTokenId(v, t)) == t;
    }
    assert ps == ByteStrings(s);
    ByteStringsConcat(s);
  }

  /**
   * Before post-processing, decoding what `encode_to_ids` produced gives the prepared text
   * without its whitespace, when every byte of it is plain and the BOS and EOS texts are
   * dropped again.
   */
  lemma DecodeEncodeRaw(v: VocabState, c: TokenizerConfig, p: Str)
    requires Valid(v) && Consistent(v)
    requires forall k :: 0 <= k < |Squeeze(p)| ==> PlainByte(v, c, Squeeze(p)[k])
    requires DroppedMarker(v, c, c.bosToken) && DroppedMarker(v, c, c.eosToken)
    ensures RawDecoded(v, c, EncodedIds(v, c, p)) == Squeeze(p)
  {
    WordsConcat(p);
    var bos: seq<int> := if BosCount(c) == 1 then [GetTokenId(v, c.bosToken)] else [];
    var eos: seq<int> := if EosCount(c) == 1 then [GetTokenId(v, c.eosToken)] else [];
    var mid := ByteIds(v, c, Squeeze(p));
    assert EncodedIds(v, c, p) == bos + mid + eos;
    ByteIdsDecode(v, c, Squeeze(p));
    RawDecodedAppend(v, c, bos, mid);
    RawDecodedAppend(v, c, bos + mid, eos);
    if BosCount(c) == 1 {
      MarkerDropped(v, c, c.bosToken);
    }
    if EosCount(c) == 1 {
      MarkerDropped(v, c, c.eosToken);
    }
  }

  /** The id of a BOS or EOS text that the table holds decodes to nothing. */
  lemma MarkerDropped(v: VocabState, c: TokenizerConfig, t: Str)
    requires Valid(v) && Consistent(v)
    requires c.addSpecialTokens && t != [] && HasToken(v, t) && t != c.sepToken
    requires t == c.bosToken || t == c.eosToken
    ensures RawDecoded(v, c, [GetTokenId(v, t)]) == []
  {
    assert GetToken(v, GetTokenId(v, t)) == t;
    assert DecodePiece(v, c, GetTokenId(v, t)) == [];
    assert Pieces(v, c, [GetTokenId(v, t)]) == [[]];
    assert Concat([[]]) == Concat([]) + [];
  }

  // ---- post-processing ----

  /**
   * `std::unique` with "both are whitespace": a whitespace byte is dropped when the byte
   * kept last is whitespace too, so each whitespace run shrinks to its first byte.
   */
  function Collapse(s: Str): Str
    decreases |s|
  {
    if s == [] then []
    else
      var init := Collapse(s[..|s| - 1]);
      var b := s[|s| - 1];
      if init != [] && IsSpace(init[|init| - 1]) && IsSpace(b) then init else init + [b]
  }

  /** `std::remove_if` with `std::iscntrl`: the control bytes go, the rest keep their order. */
  function RemoveCntrl(s: Str): Str
    decreases |s|
  {
    if s == [] then [] else (if IsCntrl(s[0]) then [] else [s[0]]) + RemoveCntrl(s[1..])
  }

  /** Lower-cased when the configuration asks for it. */
  function Cased(c: TokenizerConfig, s: Str): Str
  {
    if c.lowercase then Lower(s) else s
  }

  /** What `post_process` returns. */
  function PostProcessed(c: TokenizerConfig, s: Str): Str
  {
    JoinWith(Words(Cased(c, RemoveCntrl(Collapse(s)))), " ")
  }

  /** Removing control bytes leaves no control byte and adds no byte that was not there. */
  lemma {:induction false} RemoveCntrlBytes(s: Str)
    ensures forall i :: 0 <= i < |RemoveCntrl(s)| ==> !IsCntrl(RemoveCntrl(s)[i]) && RemoveCntrl(s)[i] in s
    decreases |s|
  {
    if s != [] {
      RemoveCntrlBytes(s[1..]);
      var h: Str := if IsCntrl(s[0]) then [] else [s[0]];
      var r := RemoveCntrl(s);
      forall i | 0 <= i < |r| ensures !IsCntrl(r[i]) && r[i] in s {
        if i < |h| {
          assert r[i] == s[0];
        } else {
          assert r[i] == RemoveCntrl(s[1..])[i - |h|];
        }
      }
    }
  }

  /** The words of a string hold only bytes that were whitespace or had property `P`. */
  lemma {:induction false} WordsKeep(s: Str, c: TokenizerConfig)
    requires forall i :: 0 <= i < |s| ==> IsSpace(s[i]) || WordByte(c, s[i])
    ensures forall k, i :: 0 <= k < |Words(s)| && 0 <= i < |Words(s)[k]| ==> WordByte(c, Words(s)[k][i])
    decreases |s|
  {
    if s == [] {
    } else if IsSpace(s[0]) {
      assert forall i :: 0 <= i < |s[1..]| ==> IsSpace(s[1..][i]) || WordByte(c, s[1..][i]) by {
        forall i | 0 <= i < |s[1..]| ensures IsSpace(s[1..][i]) || WordByte(c, s[1..][i]) { assert s[1..][i] == s[i + 1]; }
      }
      WordsKeep(s[1..], c);
    } else {
      var n := RunLength(s);
      assert forall i :: 0 <= i < |s[n..]| ==> IsSpace(s[n..][i]) || WordByte(c, s[n..][i]) by {
        forall i | 0 <= i < |s[n..]| ensures IsSpace(s[n..][i]) || WordByte(c, s[n..][i]) { assert s[n..][i] == s[n + i]; }
      }
      WordsKeep(s[n..], c);
      var ws := Words(s);
      assert ws == [s[..n]] + Words(s[n..]);
      forall k, i | 0 <= k < |ws| && 0 <= i < |ws[k]| ensures WordByte(c, ws[k][i]) {
        if k == 0 {
          assert ws[0][i] == s[i];
        } else {
          assert ws[k] == Words(s[n..])[k - 1];
        }
      }
    }
  }

  /**
   * In words joined by single spaces, the byte at `i` is a byte of some word, or a space with
   * a word byte on each side.
   */
  lemma {:induction false} JoinShapeAt(ws: seq<Str>, c: TokenizerConfig, i: nat)
    requires forall k :: 0 <= k < |ws| ==> ws[k] != []
    requires forall k, j :: 0 <= k < |ws| && 0 <= j < |ws[k]| ==> WordByte(c, ws[k][j])
    requires i < |JoinWith(ws, " ")|
    ensures WordByte(c, JoinWith(ws, " ")[i]) ||
      (JoinWith(ws, " ")[i] == ' ' && 0 < i < |JoinWith(ws, " ")| - 1 &&
       WordByte(c, JoinWith(ws, " ")[i - 1]) && WordByte(c, JoinWith(ws, " ")[i + 1]))
    decreases |ws|
  {
    var j := JoinWith(ws, " ");
    if |ws| == 1 {
      assert j == ws[0];
      assert WordByte(c, ws[0][i]);
    } else {
      var w := ws[0];
      var rest := JoinWith(ws[1..], " ");
      assert j == w + [' '] + rest;
      if i < |w| {
        assert j[i] == w[i];
        assert WordByte(c, ws[0][i]);
      } else if i == |w| {
        JoinFirst(ws[1..]);
        assert j[i - 1] == w[|w| - 1] && j[i + 1] == rest[0];
        assert WordByte(c, ws[0][|w| - 1]) && WordByte(c, ws[1][0]);
      } else {
        assert forall k, q :: 0 <= k < |ws[1..]| && 0 <= q < |ws[1..][k]| ==> WordByte(c, ws[1..][k][q]) by {
          forall k, q | 0 <= k < |ws[1..]| && 0 <= q < |ws[1..][k]| ensures WordByte(c, ws[1..][k][q]) {
            assert ws[1..][k] == ws[k + 1];
          }
        }
        var q := i - |w| - 1;
        JoinShapeAt(ws[1..], c, q);
        assert j[i] == rest[q];
        if q > 0 { assert j[i - 1] == rest[q - 1]; }
        if q < |rest| - 1 { assert j[i + 1] == rest[q + 1]; }
      }
    }
  }

  lemma JoinNonEmpty(ws: seq<Str>)
    requires ws != [] && forall k :: 0 <= k < |ws| ==> ws[k] != []
    ensures JoinWith(ws, " ") != []
  {
    JoinFirst(ws);
  }

  /** A join of non-empty words starts with the first word. */
  lemma JoinFirst(ws: seq<Str>)
    requires ws != [] && ws[0] != []
    ensures JoinWith(ws, " ") != [] && JoinWith(ws, " ")[0] == ws[0][0]
  {
  }

  /** A byte that `post_process` may leave between two words' bytes. */
  predicate WordByte(c: TokenizerConfig, b: byte)
  {
    !IsSpace(b) && !IsCntrl(b) && (c.lowercase ==> !('A' <= b <= 'Z'))
  }

  /**
   * `post_process` leaves no control byte, and its only whitespace bytes are single spaces
   * with a word byte on each side: none at either end and no two in a row. When lower-casing
   * is configured no upper-case letter is left.
   */
  lemma PostProcessedShape(c: TokenizerConfig, s: Str)
    ensures forall i :: 0 <= i < |PostProcessed(c, s)| ==> !IsCntrl(PostProcessed(c, s)[i])
    ensures forall i :: 0 <= i < |PostProcessed(c, s)| && IsSpace(PostProcessed(c, s)[i]) ==>
      PostProcessed(c, s)[i] == ' ' && 0 < i < |PostProcessed(c, s)| - 1 &&
      !IsSpace(PostProcessed(c, s)[i - 1]) && !IsSpace(PostProcessed(c, s)[i + 1])
    ensures c.lowercase ==> forall i :: 0 <= i < |PostProcessed(c, s)| ==> !('A' <= PostProcessed(c, s)[i] <= 'Z')
  {
    var cleaned := RemoveCntrl(Collapse(s));
    RemoveCntrlBytes(Collapse(s));
    var cased := Cased(c, cleaned);
    assert forall i :: 0 <= i < |cased| ==> IsSpace(cased[i]) || WordByte(c, cased[i]) by {
      forall i | 0 <= i < |cased| ensures IsSpace(cased[i]) || WordByte(c, cased[i]) {
        assert !IsCntrl(cleaned[i]);
      }
    }
    WordsKeep(cased, c);
    var r := PostProcessed(c, s);
    assert r == JoinWith(Words(cased), " ");
    forall i | 0 <= i < |r|
      ensures !IsCntrl(r[i]) && (c.lowercase ==> !('A' <= r[i] <= 'Z'))
    {
      JoinShapeAt(Words(cased), c, i);
    }
    forall i | 0 <= i < |r| && IsSpace(r[i])
      ensures r[i] == ' ' && 0 < i < |r| - 1 && !IsSpace(r[i - 1]) && !IsSpace(r[i + 1])
    {
      JoinShapeAt(Words(cased), c, i);
    }
  }

  lemma {:induction false} SqueezeCollapse(s: Str)
    ensures Squeeze(Collapse(s)) == Squeeze(s)
    decreases |s|
  {
    if s != [] {
      var init := s[..|s| - 1];
      var b := s[|s| - 1];
      SqueezeCollapse(init);
      assert s == init + [b];
      SqueezeAppend(init, [b]);
      SqueezeAppend(Collapse(init), [b]);
    }
  }

  lemma {:induction false} SqueezeRemoveCntrl(s: Str)
    ensures Squeeze(RemoveCntrl(s)) == RemoveCntrl(Squeeze(s))
    decreases |s|
  {
    if s != [] {
      SqueezeRemoveCntrl(s[1..]);
      var h: Str := if IsCntrl(s[0]) then [] else [s[0]];
      SqueezeAppend(h, RemoveCntrl(s[1..]));
      var g: Str := if IsSpace(s[0]) then [] else [s[0]];
      RemoveCntrlAppend(g, Squeeze(s[1..]));
    }
  }

  lemma {:induction false} RemoveCntrlAppend(a: Str, b: Str)
    ensures RemoveCntrl(a + b) == RemoveCntrl(a) + RemoveCntrl(b)
    decreases |a|
  {
    if a == [] {
      assert a + b == b;
    } else {
      assert (a + b)[1..] == a[1..] + b;
      RemoveCntrlAppend(a[1..], b);
    }
  }

  lemma {:induction false} SqueezeLower(s: Str)
    ensures Squeeze(Lower(s)) == Lower(Squeeze(s))
    decreases |s|
  {
    if s != [] {
      SqueezeLower(s[1..]);
      assert Lower(s)[1..] == Lower(s[1..]);
      var g: Str := if IsSpace(s[0]) then [] else [s[0]];
      LowerAppend(g, Squeeze(s[1..]));
    }
  }

  lemma {:induction false} LowerAppend(a: Str, b: Str)
    ensures Lower(a + b) == Lower(a) + Lower(b)
    decreases |a|
  {
    if a == [] {
      assert a + b == b;
    } else {
      assert (a + b)[1..] == a[1..] + b;
      LowerAppend(a[1..], b);
    }
  }

  /** Removing the whitespace from words joined by spaces leaves the words written together. */
  lemma {:induction false} SqueezeJoin(ws: seq<Str>)
    requires forall k :: 0 <= k < |ws| ==> NoSpace(ws[k])
    ensures Squeeze(JoinWith(ws, " ")) == Concat(ws)
    decreases |ws|
  {
    if |ws| == 1 {
      SqueezeNoSpace(ws[0]);
      ConcatCons(ws[0], []);
      assert ws == [ws[0]] + [];
    } else if |ws| > 1 {
      var rest := JoinWith(ws[1..], " ");
      SqueezeJoin(ws[1..]);
      SqueezeAppend(ws[0], [' '] + rest);
      SqueezeAppend([' '], rest);
      SqueezeNoSpace(ws[0]);
      ConcatCons(ws[0], ws[1..]);
      assert ws == [ws[0]] + ws[1..];
      assert JoinWith(ws, " ") == ws[0] + ([' '] + rest);
    }
  }

  /**
   * What `post_process` keeps: its non-whitespace bytes are exactly the input's bytes that
   * are neither whitespace nor control bytes, in order, lower-cased when configured.
   */
  lemma PostProcessedContent(c: TokenizerConfig, s: Str)
    ensures Squeeze(PostProcessed(c, s)) == Cased(c, RemoveCntrl(Squeeze(s)))
  {
    var cased := Cased(c, RemoveCntrl(Collapse(s)));
    SqueezeJoin(Words(cased));
    WordsConcat(cased);
    if c.lowercase {
      SqueezeLower(RemoveCntrl(Collapse(s)));
    }
    SqueezeRemoveCntrl(Collapse(s));
    SqueezeCollapse(s);
  }

  lemma {:induction false} CollapseNoSpace(s: Str)
    requires NoSpace(s)
    ensures Collapse(s) == s
    decreases |s|
  {
    if s != [] {
      var init := s[..|s| - 1];
      assert NoSpace(init) by {
        forall i | 0 <= i < |init| ensures !IsSpace(init[i]) { assert init[i] == s[i]; }
      }
      CollapseNoSpace(init);
      assert s == init + [s[|s| - 1]];
    }
  }

  /** A string without whitespace comes out of `post_process` without its control bytes, cased. */
  lemma PostProcessedNoSpace(c: TokenizerConfig, s: Str)
    requires NoSpace(s)
    ensures PostProcessed(c, s) == Cased(c, RemoveCntrl(s))
  {
    CollapseNoSpace(s);
    RemoveCntrlBytes(s);
    var x := Cased(c, RemoveCntrl(s));
    assert NoSpace(x);
    if x != [] {
      WordsOfWord(x);
    }
  }

  /**
   * The round trip of the encoder: when every non-whitespace byte of the prepared text is
   * plain and the BOS and EOS texts are dropped again, decoding the encoded ids gives the
   * prepared text's bytes that are neither whitespace nor control bytes, in order (cased).
   */
  lemma DecodeEncode(v: VocabState, c: TokenizerConfig, p: Str)
    requires Valid(v) && Consistent(v)
    requires forall k :: 0 <= k < |Squeeze(p)| ==> PlainByte(v, c, Squeeze(p)[k])
    requires DroppedMarker(v, c, c.bosToken) && DroppedMarker(v, c, c.eosToken)
    ensures PostProcessed(c, RawDecoded(v, c, EncodedIds(v, c, p))) == Cased(c, RemoveCntrl(Squeeze(p)))
  {
    DecodeEncodeRaw(v, c, p);
    WordsConcat(p);
    assert NoSpace(Squeeze(p)) by {
      forall k | 0 <= k < |Words(p)| ensures NoSpace(Words(p)[k]) { }
      ConcatNoSpace(Words(p));
    }
    PostProcessedNoSpace(c, Squeeze(p));
  }

  lemma {:induction false} ConcatNoSpace(ws: seq<Str>)
    requires forall k :: 0 <= k < |ws| ==> NoSpace(ws[k])
    ensures NoSpace(Concat(ws))
    decreases |ws|
  {
    if ws != [] {
      var init := ws[..|ws| - 1];
      ConcatNoSpace(init);
      var a := Concat(init);
      var b := ws[|ws| - 1];
      forall i | 0 <= i < |a + b| ensures !IsSpace((a + b)[i]) {
        if i < |a| { assert (a + b)[i] == a[i]; } else { assert (a + b)[i] == b[i - |a|]; }
      }
    }
  }

  // ---- tokens with offsets ----

  /**
   * The tokens `encode` builds from ids, the running offset starting at `start`: each token's
   * text is the id's table text and its span runs from the offset over that text's length.
   */
  function OffsetTokens(v: VocabState, ids: seq<int>, start: int): seq<Token>
    decreases |ids|
  {
    if ids == [] then []
    else
      var t := GetToken(v, ids[0]);
      [Token(ids[0], t, IsSpecialTokenId(v, ids[0]), OffsetMapping(start, start + |t|))]
      + OffsetTokens(v, ids[1..], start + |t|)
  }

  /** Decoding a prefix of at least one id: the first id's text, then the rest of the prefix. */
  lemma DecodedCons(v: VocabState, ids: seq<int>, k: nat)
    requires 1 <= k <= |ids|
    ensures Decoded(v, ids[..k]) == GetToken(v, ids[0]) + Decoded(v, ids[1..][..k - 1])
  {
    assert TokenTexts(v, ids[..k]) == [GetToken(v, ids[0])] + TokenTexts(v, ids[1..][..k - 1]);
    ConcatCons(GetToken(v, ids[0]), TokenTexts(v, ids[1..][..k - 1]));
  }

  /**
   * Contiguous offsets: token k carries id k, its text and whether it is special, and spans
   * from the total length of the texts before it to that total plus its own length.
   */
  lemma {:induction false} OffsetTokensSpec(v: VocabState, ids: seq<int>, start: int)
    ensures |OffsetTokens(v, ids, start)| == |ids|
    ensures forall k :: 0 <= k < |ids| ==> (OffsetTokens(v, ids, start)[k] ==
      Token(ids[k], GetToken(v, ids[k]), IsSpecialTokenId(v, ids[k]),
            OffsetMapping(start + |Decoded(v, ids[..k])|, start + |Decoded(v, ids[..k + 1])|)))
  {
    OffsetTokensLength(v, ids, start);
    forall k | 0 <= k < |ids|
      ensures OffsetTokens(v, ids, start)[k] == Token(ids[k], GetToken(v, ids[k]), IsSpecialTokenId(v, ids[k]),
                OffsetMapping(start + |Decoded(v, ids[..k])|, start + |Decoded(v, ids[..k + 1])|))
    {
      OffsetTokenAt(v, ids, start, k);
    }
  }

  lemma {:induction false} OffsetTokensLength(v: VocabState, ids: seq<int>, start: int)
    ensures |OffsetTokens(v, ids, start)| == |ids|
    decreases |ids|
  {
    if ids != [] {
      OffsetTokensLength(v, ids[1..], start + |GetToken(v, ids[0])|);
    }
  }

  /** Token `k` of `OffsetTokens`, one index at a time. */
  lemma {:induction false} OffsetTokenAt(v: VocabState, ids: seq<int>, start: int, k: nat)
    requires k < |ids|
    ensures k < |OffsetTokens(v, ids, start)|
    ensures OffsetTokens(v, ids, start)[k] == Token(ids[k], GetToken(v, ids[k]), IsSpecialTokenId(v, ids[k]),
              OffsetMapping(start + |Decoded(v, ids[..k])|, start + |Decoded(v, ids[..k + 1])|))
    decreases k
  {
    var t := GetToken(v, ids[0]);
    var rest := OffsetTokens(v, ids[1..], start + |t|);
    OffsetTokensLength(v, ids[1..], start + |t|);
    assert OffsetTokens(v, ids, start) == [Token(ids[0], t, IsSpecialTokenId(v, ids[0]), OffsetMapping(start, start + |t|))] + rest;
    if k == 0 {
      DecodedFirst(v, ids);
    } else {
      OffsetTokenAt(v, ids[1..], start + |t|, k - 1);
      OffsetShift(v, ids, start, k);
      assert OffsetTokens(v, ids, start)[k] == rest[k - 1];
    }
  }

  /** The span of the first token: from nothing to its own text. */
  lemma DecodedFirst(v: VocabState, ids: seq<int>)
    requires 0 < |ids|
    ensures |Decoded(v, ids[..0])| == 0
    ensures |Decoded(v, ids[..1])| == |GetToken(v, ids[0])|
  {
    DecodedPrefixLength(v, ids, 0);
    DecodedPrefixLength(v, ids, 1);
    assert ids[1..][..0] == ids[..0];
  }

  /** The span of token `k > 0` seen from the second id on. */
  lemma OffsetShift(v: VocabState, ids: seq<int>, start: int, k: nat)
    requires 0 < k < |ids|
    ensures ids[1..][k - 1] == ids[k]
    ensures start + |Decoded(v, ids[..k])| == start + |GetToken(v, ids[0])| + |Decoded(v, ids[1..][..k - 1])|
    ensures start + |Decoded(v, ids[..k + 1])| == start + |GetToken(v, ids[0])| + |Decoded(v, ids[1..][..k])|
  {
    DecodedPrefixLength(v, ids, k);
    DecodedPrefixLength(v, ids, k + 1);
  }

  /** The length of the texts of the first `k` ids, split after the first id. */
  lemma DecodedPrefixLength(v: VocabState, ids: seq<int>, k: nat)
    requires 0 < |ids| && k <= |ids|
    ensures k == 0 ==> |Decoded(v, ids[..k])| == 0
    ensures k > 0 ==> |Decoded(v, ids[..k])| == |GetToken(v, ids[0])| + |Decoded(v, ids[1..][..k - 1])|
  {
    if k == 0 {
      assert TokenTexts(v, ids[..0]) == [];
    } else {
      DecodedCons(v, ids, k);
    }
  }

  /** The ids of a list of tokens. */
  function IdsOf(tokens: seq<Token>): (ids: seq<int>)
    ensures |ids| == |tokens|
  {
    seq(|tokens|, k requires 0 <= k < |tokens| => tokens[k].id)
  }

  /** `decode(encode(t))` and `decode_from_ids(encode_to_ids(t))` see the same ids. */
  lemma OffsetTokensIds(v: VocabState, ids: seq<int>)
    ensures IdsOf(OffsetTokens(v, ids, 0)) == ids
  {
    OffsetTokensSpec(v, ids, 0);
    var ts := OffsetTokens(v, ids, 0);
    forall k | 0 <= k < |ids| ensures IdsOf(ts)[k] == ids[k] {
      assert ts[k] == Token(ids[k], GetToken(v, ids[k]), IsSpecialTokenId(v, ids[k]),
                            OffsetMapping(0 + |Decoded(v, ids[..k])|, 0 + |Decoded(v, ids[..k + 1])|));
    }
  }

  // ---- code point helpers ----

  /** `is_chinese_char`: the CJK unified and compatibility ideograph blocks. */
  predicate IsChineseChar(cp: nat)
  {
    || 0x4E00 <= cp <= 0x9FFF
    || 0x3400 <= cp <= 0x4DBF
    || 0x20000 <= cp <= 0x2A6DF
    || 0x2A700 <= cp <= 0x2B73F
    || 0x2B740 <= cp <= 0x2B81F
    || 0x2B820 <= cp <= 0x2CEAF
    || 0xF900 <= cp <= 0xFAFF
    || 0x2F800 <= cp <= 0x2FA1F
  }

  /**
   * Every ideograph the predicate accepts is a valid code point whose UTF-8 form takes three
   * bytes (the ones below 0x10000) or four, never one or two, so the byte-wise encoder
   * always splits it into several byte tokens.
   */
  lemma ChineseCharWidth(cp: nat)
    requires IsChineseChar(cp)
    ensures Utf8.EncodeOne(cp).Ok?
    ensures |Utf8.EncodeOne(cp).value| == if cp < 0x10000 then 3 else 4
  {
  }

  class Encoder {
    var config: TokenizerConfig
    var vocab: Vocab

    /** The constructor: a fresh, empty table holding the configured specials. */
    constructor (c: TokenizerConfig)
      ensures config == c && fresh(vocab)
      ensures vocab.State() == SpecialVocab(c)
    {
      config := c;
      vocab := new Vocab();
      new;
      InitializeSpecialTokens();
    }

    /**
     * `initialize_special_tokens`: the non-empty configured specials in the order UNK, PAD,
     * BOS, EOS, MASK, SEP, CLS, added to the current table without clearing it.
     */
    method InitializeSpecialTokens()
      modifies vocab
      ensures vocab.State() == WithSpecials(old(vocab.State()), ConfiguredSpecials(config))
    {
      var _ := RegisterSpecials(vocab, ConfiguredSpecials(config));
    }

    /** The words joined with one space between neighbours: the output loops of this file. */
    static method JoinWords(words: seq<Str>) returns (out: Str)
      ensures out == JoinWith(words, " ")
    {
      out := [];
      for k := 0 to |words|
        invariant out == JoinWith(words[..k], " ")
      {
        JoinWithSnoc(words[..k], words[k], " ");
        assert words[..k + 1] == words[..k] + [words[k]];
        if k > 0 {
          out := out + " ";
        }
        out := out + words[k];
      }
      assert words[..|words|] == words;
    }

    /** `normalize_and_pretokenize`. */
    method NormalizeAndPretokenize(text: Str, normalize: Str -> Str) returns (r: Str)
      ensures r == PretokenizedText(config, normalize, text)
    {
      var normalized := text;
      if config.normalization != NONE {
        normalized := normalize(text);
      }
      if config.lowercase {
        normalized := Lower(normalized);
      }
      r := JoinWords(Words(normalized));
    }

    /** `pre_tokenize`: the words of the prepared text. */
    method PreTokenize(text: Str, normalize: Str -> Str) returns (words: seq<Str>)
      ensures words == Words(Prepared(config, normalize, text))
    {
      var normalized := NormalizeAndPretokenize(text, normalize);
      words := Words(normalized);
      PreTokenizeWords(config, normalize, text);
    }

    /** The inner loop of `encode_to_ids`: the id of each byte of the word, or the UNK id. */
    method AppendWordIds(v: VocabState, ids: seq<int>, word: Str) returns (r: seq<int>)
      ensures r == ids + ByteIds(v, config, word)
    {
      r := ids;
      var subwords := ByteStrings(word);
      for j := 0 to |subwords|
        invariant r == ids + ByteIds(v, config, word[..j])
      {
        var id := GetTokenId(v, subwords[j]);
        if id == -1 {
          id := GetTokenId(v, config.unkToken);
        }
        assert word[..j + 1][..j] == word[..j];
        assert ByteIds(v, config, word[..j + 1]) == ByteIds(v, config, word[..j]) + [id];
        r := r + [id];
      }
      assert word[..|word|] == word;
    }

    /** `encode_to_ids`. */
    method EncodeToIds(text: Str, normalize: Str -> Str) returns (ids: seq<int>)
      ensures ids == EncodedIds(vocab.State(), config, Prepared(config, normalize, text))
    {
      var v := vocab.State();
      var words := PreTokenize(text, normalize);
      ids := [];
      if config.addSpecialTokens && config.bosToken != [] {
        ids := ids + [GetTokenId(v, config.bosToken)];
      }
      ghost var bos := ids;
      for i := 0 to |words|
        invariant ids == bos + ByteIds(v, config, Concat(words[..i]))
      {
        ids := AppendWordIds(v, ids, words[i]);
        ByteIdsStep(v, config, words, i);
        assert ids == bos + ByteIds(v, config, Concat(words[..i + 1])) by {
          AppendAssoc(bos, ByteIds(v, config, Concat(words[..i])), ByteIds(v, config, words[i]));
        }
      }
      assert words[..|words|] == words;
      ghost var body := ids;
      var eos: seq<int> := [];
      if config.addSpecialTokens && config.eosToken != [] {
        eos := [GetTokenId(v, config.eosToken)];
        ids := ids + eos;
      }
      EncodedIdsParts(v, config, Prepared(config, normalize, text), bos, ByteIds(v, config, Concat(words)), eos);
    }

    /** `encode`: the ids of `encode_to_ids` as tokens with contiguous offsets from 0. */
    method Encode(text: Str, normalize: Str -> Str) returns (tokens: seq<Token>)
      ensures tokens == OffsetTokens(vocab.State(), EncodedIds(vocab.State(), config, Prepared(config, normalize, text)), 0)
    {
      var ids := EncodeToIds(text, normalize);
      tokens := TokensOf(vocab.State(), ids);
    }

    /** The token loop of `encode`: a running offset advanced by each token's text length. */
    static method TokensOf(v: VocabState, ids: seq<int>) returns (tokens: seq<Token>)
      ensures tokens == OffsetTokens(v, ids, 0)
    {
      tokens := [];
      var offset := 0;
      for k := 0 to |ids|
        invariant tokens + OffsetTokens(v, ids[k..], offset) == OffsetTokens(v, ids, 0)
      {
        var tok := GetToken(v, ids[k]);
        var t := Token(ids[k], tok, IsSpecialTokenId(v, ids[k]), OffsetMapping(offset, offset + |tok|));
        assert ids[k..][1..] == ids[k + 1..];
        assert OffsetTokens(v, ids[k..], offset) == [t] + OffsetTokens(v, ids[k + 1..], offset + |tok|);
        tokens := tokens + [t];
        offset := offset + |tok|;
      }
    }

    /** `decode_from_ids`: the pieces of the ids appended, then `post_process`. */
    method DecodeFromIds(ids: seq<int>) returns (text: Str)
      ensures text == PostProcessed(config, RawDecoded(vocab.State(), config, ids))
    {
      var v := vocab.State();
      var raw: Str := [];
      var skipSpecial := !config.addSpecialTokens;
      for i := 0 to |ids|
        invariant raw == RawDecoded(v, config, ids[..i])
      {
        RawDecodedSnoc(v, config, ids, i);
        var id := ids[i];
        if !(skipSpecial && IsSpecialTokenId(v, id)) {
          var token := GetToken(v, id);
          if token == [] {
            token := config.unkToken;
          }
          if token == config.sepToken {
            raw := raw + " ";
          } else if !(token == config.clsToken || token == config.bosToken || token == config.eosToken) {
            raw := raw + token;
          }
        }
      }
      assert ids[..|ids|] == ids;
      text := PostProcess(raw);
    }

    /**
     * `post_process`: whitespace runs collapsed, control bytes removed, lower-cased when
     * configured, then the words joined with single spaces.
     */
    method PostProcess(text: Str) returns (r: Str)
      ensures r == PostProcessed(config, text)
    {
      var result := Collapse(text);
      result := RemoveCntrl(result);
      if config.lowercase {
        result := Lower(result);
      }
      r := JoinWords(Words(result));
    }

    /** `decode`: the tokens' ids decoded. */
    method Decode(tokens: seq<Token>) returns (text: Str)
      ensures text == PostProcessed(config, RawDecoded(vocab.State(), config, IdsOf(tokens)))
    {
      var ids: seq<int> := [];
      for k := 0 to |tokens|
        invariant ids == IdsOf(tokens[..k])
      {
        ids := ids + [tokens[k].id];
      }
      assert tokens[..|tokens|] == tokens;
      text := DecodeFromIds(ids);
    }

    /** `batch_encode`: one id list per text, in order. */
    method BatchEncode(texts: seq<Str>, normalize: Str -> Str) returns (batch: seq<seq<int>>)
      ensures |batch| == |texts|
      ensures forall k :: 0 <= k < |texts| ==>
        batch[k] == EncodedIds(vocab.State(), config, Prepared(config, normalize, texts[k]))
    {
      batch := [];
      for k := 0 to |texts|
        invariant |batch| == k
        invariant forall j :: 0 <= j < k ==> batch[j] == EncodedIds(vocab.State(), config, Prepared(config, normalize, texts[j]))
      {
        var ids := EncodeToIds(texts[k], normalize);
        batch := batch + [ids];
      }
    }

    /** `batch_decode`: one text per id list, in order. */
    method BatchDecode(batch: seq<seq<int>>) returns (texts: seq<Str>)
      ensures |texts| == |batch|
      ensures forall k :: 0 <= k < |batch| ==> texts[k] == PostProcessed(config, RawDecoded(vocab.State(), config, batch[k]))
    {
      texts := [];
      for k := 0 to |batch|
        invariant |texts| == k
        invariant forall j :: 0 <= j < k ==> texts[j] == PostProcessed(config, RawDecoded(vocab.State(), config, batch[j]))
      {
        var t := DecodeFromIds(batch[k]);
        texts := texts + [t];
      }
    }

    /** `get_offset_mappings(tokens)`: each token's span, in order. */
    static method OffsetMappingsOf(tokens: seq<Token>) returns (mappings: seq<OffsetMapping>)
      ensures |mappings| == |tokens|
      ensures forall k :: 0 <= k < |tokens| ==> mappings[k] == tokens[k].offset
    {
      mappings := [];
      for k := 0 to |tokens|
        invariant |mappings| == k
        invariant forall j :: 0 <= j < k ==> mappings[j] == tokens[j].offset
      {
        mappings := mappings + [tokens[k].offset];
      }
    }

    /**
     * `get_offset_mappings(text)`: the spans of the encoded tokens, which tile the decoded
     * texts: span k runs from the length of the texts of the ids before k over the k-th text.
     */
    method GetOffsetMappings(text: Str, normalize: Str -> Str) returns (mappings: seq<OffsetMapping>)
      ensures |mappings| == |EncodedIds(vocab.State(), config, Prepared(config, normalize, text))|
      ensures forall k :: 0 <= k < |mappings| ==>
        mappings[k] == OffsetMapping(
          |Decoded(vocab.State(), EncodedIds(vocab.State(), config, Prepared(config, normalize, text))[..k])|,
          |Decoded(vocab.State(), EncodedIds(vocab.State(), config, Prepared(config, normalize, text))[..k + 1])|)
    {
      var tokens := Encode(text, normalize);
      OffsetTokensSpec(vocab.State(), EncodedIds(vocab.State(), config, Prepared(config, normalize, text)), 0);
      mappings := OffsetMappingsOf(tokens);
    }

    /** `train`, both forms: the basic encoder cannot be trained. */
    method Train(texts: seq<Str>, vocabSize: u64) returns (r: Result<()>)
      ensures r == Err(TrainError)
    {
      return Err(TrainError);
    }

    method TrainText(text: Str, vocabSize: u64) returns (r: Result<()>)
      ensures r == Err(TrainError)
    {
      return Err(TrainError);
    }

    /** `add_special_tokens`: every string registered as an UNK special. */
    method AddSpecialTokens(tokens: seq<Str>)
      modifies vocab
      ensures vocab.State() == WithSpecialsOfType(old(vocab.State()), tokens, UNK)
    {
      RegisterAll(vocab, tokens, UNK);
    }

    /** `set_config`: the configuration is replaced; the table is left as it is. */
    method SetConfig(c: TokenizerConfig)
      modifies this
      ensures config == c && vocab == old(vocab)
    {
      config := c;
    }

    /**
     * `set_vocab`: the encoder keeps its own copy of the given table, with the configured
     * specials added to the copy; the caller's table is not changed.
     */
    method SetVocab(v: Vocab)
      modifies this
      ensures config == old(config) && fresh(vocab)
      ensures vocab.State() == WithSpecials(v.State(), ConfiguredSpecials(config))
    {
      ghost var given := v.State();
      var copy := new Vocab();
      copy.tokenToId, copy.idToToken, copy.specialTokenIds, copy.specialIds, copy.nextId :=
        v.tokenToId, v.idToToken, v.specialTokenIds, v.specialIds, v.nextId;
      assert copy.State() == given;
      vocab := copy;
      InitializeSpecialTokens();
      assert v.State() == given;
    }
  }

  /**
   * Registering strings as specials of one type only grows the table: `next_id_` never goes
   * down, it stays put only when no string was new (and then nothing changed), and the ids
   * of the other types are kept.
   */
  lemma {:induction false} SpecialsOfTypeGrow(v: VocabState, tokens: seq<Str>, ty: SpecialTokenType)
    ensures WithSpecialsOfType(v, tokens, ty).nextId >= v.nextId
    ensures WithSpecialsOfType(v, tokens, ty).nextId == v.nextId ==> WithSpecialsOfType(v, tokens, ty) == v
    ensures forall other :: other != ty ==> GetSpecialTokenId(WithSpecialsOfType(v, tokens, ty), other) == GetSpecialTokenId(v, other)
    decreases |tokens|
  {
    if tokens != [] {
      var w := WithSpecialToken(v, tokens[0], ty);
      SpecialsOfTypeGrow(w, tokens[1..], ty);
    }
  }

  /**
   * After `add_special_tokens`, the UNK type names the newest id: when some string was new,
   * `get_special_token_id(UNK)` is the last id handed out and its text is one of the strings.
   */
  lemma {:induction false} AddedUnkIsNewest(v: VocabState, tokens: seq<Str>)
    ensures WithSpecialsOfType(v, tokens, UNK).nextId > v.nextId ==>
      && GetSpecialTokenId(WithSpecialsOfType(v, tokens, UNK), UNK) == WithSpecialsOfType(v, tokens, UNK).nextId - 1
      && GetToken(WithSpecialsOfType(v, tokens, UNK), WithSpecialsOfType(v, tokens, UNK).nextId - 1) in tokens
    decreases |tokens|
  {
    if tokens != [] {
      var w := WithSpecialToken(v, tokens[0], UNK);
      SpecialsOfTypeGrow(w, tokens[1..], UNK);
      var r := WithSpecialsOfType(w, tokens[1..], UNK);
      assert r == WithSpecialsOfType(v, tokens, UNK);
      assert tokens == [tokens[0]] + tokens[1..];
      if r.nextId > w.nextId {
        AddedUnkIsNewest(w, tokens[1..]);
      } else if w.nextId > v.nextId {
        NewSpecialIsNewest(v, tokens[0], UNK);
      }
    }
  }

  /** A special that was new takes the id `next_id_` had, and that id holds its text. */
  lemma NewSpecialIsNewest(v: VocabState, t: Str, ty: SpecialTokenType)
    requires WithSpecialToken(v, t, ty).nextId > v.nextId
    ensures GetSpecialTokenId(WithSpecialToken(v, t, ty), ty) == v.nextId == WithSpecialToken(v, t, ty).nextId - 1
    ensures GetToken(WithSpecialToken(v, t, ty), v.nextId) == t
  {
  }
}
