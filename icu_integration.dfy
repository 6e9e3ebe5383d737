/**
 * The ICU pre-tokenizer and normalizer (icu_integration.cpp). The ICU library itself is not
 * modelled: URL and e-mail recognition, word segmentation, Unicode normalization, accent
 * stripping and lower-casing are the functions of an `Icu` value. What is modelled is how the
 * two classes use them: the special-case dispatch of `preTokenize`, the cursor loop that maps
 * each pre-token back to a byte span of the text, and the order of the normalizing steps.
 */
module IcuIntegration {
  import opened Wrappers
  import opened Bytes
  import opened TokenTypes
  import opened Config
  import opened Seqs

  /** The `icu_utils::ICUUtils` functions the two classes call. */
  datatype Icu = Icu(
    isUrl: Str -> bool,
    isEmail: Str -> bool,
    segmentWords: Str -> seq<Str>,
    normalize: (Str, NormalizationForm) -> Str,
    stripAccents: Str -> Str,
    toLower: Str -> Str)

  /** `ICUPreTokenizer`: the configuration is stored but not read. */
  datatype IcuPreTokenizer = IcuPreTokenizer(config: TokenizerConfig, icu: Icu)

  /** `ICUNormalizer`. */
  datatype IcuNormalizer = IcuNormalizer(config: TokenizerConfig, icu: Icu)

  // ---- pre-tokenization ----

  /** `handleSpecialCases`: a text that is a URL or an e-mail address as a whole is one pre-token. */
  function HandleSpecialCases(p: IcuPreTokenizer, text: Str): (r: seq<Str>)
    ensures r != [] <==> p.icu.isUrl(text) || p.icu.isEmail(text)
    ensures r != [] ==> r == [text]
  {
    if p.icu.isUrl(text) || p.icu.isEmail(text) then [text] else []
  }

  /** `preTokenize`: the special case when there is one, otherwise ICU's word segmentation. */
  function PreTokenize(p: IcuPreTokenizer, text: Str): (r: seq<Str>)
    ensures p.icu.isUrl(text) || p.icu.isEmail(text) ==> r == [text]
    ensures !p.icu.isUrl(text) && !p.icu.isEmail(text) ==> r == p.icu.segmentWords(text)
  {
    var special := HandleSpecialCases(p, text);
    if special != [] then special else p.icu.segmentWords(text)
  }

  /** `tok` occurs in `text` at byte `q`. */
  predicate MatchAt(text: Str, tok: Str, q: nat)
  {
    q + |tok| <= |text| && text[q..q + |tok|] == tok
  }

  /** `text.find(tok, from)`: the first occurrence at or after `from`, `None` for `npos`. */
  function FindFrom(text: Str, tok: Str, from: nat): (r: Option<nat>)
    ensures r.Some? ==> from <= r.value && MatchAt(text, tok, r.value)
    ensures r.Some? ==> forall q :: from <= q < r.value ==> !MatchAt(text, tok, q)
    ensures r.None? ==> forall q :: from <= q ==> !MatchAt(text, tok, q)
    decreases |text| - from
  {
    if from + |tok| > |text| then None
    else if text[from..from + |tok|] == tok then Some(from)
    else FindFrom(text, tok, from + 1)
  }

  /**
   * One turn of `getOffsetMappings`' loop, from `cursor`: the span of the token's next
   * occurrence and the cursor moved past it, or the empty span at the cursor, which stays.
   */
  function Locate(text: Str, tok: Str, cursor: nat): (OffsetMapping, nat)
  {
    match FindFrom(text, tok, cursor)
    case None => (OffsetMapping(cursor, cursor), cursor)
    case Some(pos) => (OffsetMapping(pos, pos + |tok|), pos + |tok|)
  }

  /** The cursor after the loop has handled `toks`. */
  function Cursor(text: Str, toks: seq<Str>): (c: nat)
    ensures c <= |text|
    decreases |toks|
  {
    if toks == [] then 0
    else Locate(text, toks[|toks| - 1], Cursor(text, toks[..|toks| - 1])).1
  }

  /** The mappings the loop has pushed after handling `toks`. */
  function Mappings(text: Str, toks: seq<Str>): (ms: seq<OffsetMapping>)
    ensures |ms| == |toks|
    decreases |toks|
  {
    if toks == [] then []
    else
      var init := toks[..|toks| - 1];
      Mappings(text, init) + [Locate(text, toks[|toks| - 1], Cursor(text, init)).0]
  }

  /** The `k`-th mapping is the turn for the `k`-th token from the cursor the earlier ones left. */
  lemma {:induction false} MappingsAt(text: Str, toks: seq<Str>, k: nat)
    requires k < |toks|
    ensures Mappings(text, toks)[k] == Locate(text, toks[k], Cursor(text, toks[..k])).0
    decreases |toks|
  {
    var n := |toks| - 1;
    if k < n {
      MappingsAt(text, toks[..n], k);
      assert toks[..n][..k] == toks[..k];
    } else {
      assert toks[..n] == toks[..k];
    }
  }

  /** The cursor after `k + 1` tokens is the one the `k`-th turn leaves. */
  lemma CursorStep(text: Str, toks: seq<Str>, k: nat)
    requires k < |toks|
    ensures Cursor(text, toks[..k + 1]) == Locate(text, toks[k], Cursor(text, toks[..k])).1
  {
    TakeTake(toks, k, k + 1);
  }

  /**
   * What each mapping says: a token found at or after the cursor maps to its span, which holds
   * exactly the token, and the cursor moves to the span's end; a token not found maps to the
   * empty span at the cursor, which stays put.
   */
  lemma MappingShape(text: Str, toks: seq<Str>, k: nat)
    requires k < |toks|
    ensures var c := Cursor(text, toks[..k]);
      var m := Mappings(text, toks)[k];
      && (FindFrom(text, toks[k], c).Some? ==>
            && c <= m.start && m.end == m.start + |toks[k]| <= |text|
            && text[m.start..m.end] == toks[k]
            && Cursor(text, toks[..k + 1]) == m.end)
      && (FindFrom(text, toks[k], c).None? ==>
            m == OffsetMapping(c, c) && Cursor(text, toks[..k + 1]) == c)
  {
    MappingsAt(text, toks, k);
    CursorStep(text, toks, k);
  }

  /** The cursor never moves back. */
  lemma {:induction false} CursorGrows(text: Str, toks: seq<Str>, j: nat, k: nat)
    requires j <= k <= |toks|
    ensures Cursor(text, toks[..j]) <= Cursor(text, toks[..k])
    decreases k - j
  {
    if j < k {
      CursorGrows(text, toks, j, k - 1);
      CursorStep(text, toks, k - 1);
    }
  }

  /**
   * The spans lie inside the text, in order and without overlap: each starts at or before it
   * ends, and each ends at or before the next one starts.
   */
  lemma MappingsOrdered(text: Str, toks: seq<Str>, j: nat, k: nat)
    requires j < k < |toks|
    ensures var ms := Mappings(text, toks);
      && 0 <= ms[j].start <= ms[j].end <= |text|
      && ms[j].end <= ms[k].start
  {
    MappingShape(text, toks, j);
    MappingShape(text, toks, k);
    CursorGrows(text, toks, j + 1, k);
  }

  /**
   * `getOffsetMappings`: one mapping per pre-token, in order, found by searching the text from
   * a cursor that moves past every token found. The positions stay unbounded integers here;
   * the source's cast to `int` would wrap past `INT_MAX`.
   */
  method GetOffsetMappings(p: IcuPreTokenizer, text: Str) returns (out: seq<OffsetMapping>)
    ensures out == Mappings(text, PreTokenize(p, text))
  {
    var toks := PreTokenize(p, text);
    out := [];
    var cursor := 0;
    for k := 0 to |toks|
      invariant out == Mappings(text, toks[..k])
      invariant cursor == Cursor(text, toks[..k])
    {
      CursorStep(text, toks, k);
      TakeTake(toks, k, k + 1);
      var pos := FindFrom(text, toks[k], cursor);
      if pos.None? {
        out := out + [OffsetMapping(cursor, cursor)];
      } else {
        out := out + [OffsetMapping(pos.value, pos.value + |toks[k]|)];
        cursor := pos.value + |toks[k]|;
      }
    }
    assert toks[..|toks|] == toks;
  }

  // ---- normalization ----

  /**
   * `normalize`: ICU normalization to the configured form, then accent stripping when
   * configured, then lower-casing when configured.
   */
  method Normalize(n: IcuNormalizer, text: Str) returns (normed: Str)
    ensures normed == Normalized(n, text)
  {
    normed := n.icu.normalize(text, n.config.normalization);
    if n.config.stripAccents {
      normed := n.icu.stripAccents(normed);
    }
    if n.config.lowercase {
      normed := n.icu.toLower(normed);
    }
  }

  /** The result of `normalize`, as a value. */
  function Normalized(n: IcuNormalizer, text: Str): Str
  {
    var formed := n.icu.normalize(text, n.config.normalization);
    var stripped := if n.config.stripAccents then n.icu.stripAccents(formed) else formed;
    if n.config.lowercase then n.icu.toLower(stripped) else stripped
  }

  /**
   * The order of the steps: the form always comes first; stripping, when configured, acts on
   * the normalized text; lower-casing, when configured, comes last.
   */
  lemma NormalizedSteps(n: IcuNormalizer, text: Str)
    ensures !n.config.stripAccents && !n.config.lowercase ==>
      Normalized(n, text) == n.icu.normalize(text, n.config.normalization)
    ensures n.config.stripAccents && !n.config.lowercase ==>
      Normalized(n, text) == n.icu.stripAccents(n.icu.normalize(text, n.config.normalization))
    ensures !n.config.stripAccents && n.config.lowercase ==>
      Normalized(n, text) == n.icu.toLower(n.icu.normalize(text, n.config.normalization))
    ensures n.config.stripAccents && n.config.lowercase ==>
      Normalized(n, text) == n.icu.toLower(n.icu.stripAccents(n.icu.normalize(text, n.config.normalization)))
  {
  }

  /** `batchNormalize`: `normalize` of each text, in order. */
  method BatchNormalize(n: IcuNormalizer, texts: seq<Str>) returns (out: seq<Str>)
    ensures |out| == |texts| && forall k :: 0 <= k < |texts| ==> out[k] == Normalized(n, texts[k])
  {
    out := [];
    for k := 0 to |texts|
      invariant |out| == k && forall j :: 0 <= j < k ==> out[j] == Normalized(n, texts[j])
    {
      var s := Normalize(n, texts[k]);
      out := out + [s];
    }
  }
}
