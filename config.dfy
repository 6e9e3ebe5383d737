/**
 * The tokenizer configuration (tokenizer_config.h, tokenizer_config.cpp): a record of settings
 * with defaults, its `key=value` printer `to_string`, the cursor-loop parser `from_string`, and
 * `add_special_token`. The configuration is copied by value everywhere it is held, so it is a
 * datatype. `std::stoul` and `std::stoi` are written out, with their exceptions as `Err`.
 */
module Config {
  import opened Wrappers
  import opened Bytes
  import opened TokenTypes

  datatype TokenizerConfig = TokenizerConfig(
    vocabSize: u64,
    modelType: Str,
    baseModel: ModelType,
    addSpecialTokens: bool,
    addByteFallback: bool,
    unkToken: Str,
    padToken: Str,
    bosToken: Str,
    eosToken: Str,
    maskToken: Str,
    sepToken: Str,
    clsToken: Str,
    addedTokens: map<Str, Str>,
    chatTemplate: Str,
    preTokenizerPatterns: seq<Str>,
    lowercase: bool,
    stripAccents: bool,
    normalization: NormalizationForm,
    normalizeWhitespace: bool,
    removeControlChars: bool,
    removeDiacritics: bool,
    minFrequency: u64,
    maxTokens: u64,
    useRegex: bool,
    regexPattern: Str,
    maxLength: i32,
    padToMaxLength: bool,
    truncationStrategy: TruncationStrategy)

  /** `TokenizerConfig()`: the member initialisers. */
  function Default(): TokenizerConfig
  {
    TokenizerConfig(
      30000, "bpe", CUSTOM_MODEL, true, true,
      "[UNK]", "[PAD]", "[BOS]", "[EOS]", "[MASK]", "[SEP]", "[CLS]",
      map[], [], [],
      false, false, NFC, true, true, false,
      2, 1000000, false, [],
      512, false, LONGEST_FIRST)
  }

  /** `add_special_token(token, id)`: records the id's decimal text, replacing any earlier one. */
  function WithAddedToken(c: TokenizerConfig, token: Str, id: i32): (r: TokenizerConfig)
    ensures r.addedTokens == c.addedTokens[token := IntText(id)]
    ensures r == c.(addedTokens := r.addedTokens)
  {
    c.(addedTokens := c.addedTokens[token := IntText(id)])
  }

  lemma AddedTokenReadsBack(c: TokenizerConfig, token: Str, id: i32)
    ensures var r := WithAddedToken(c, token, id);
      token in r.addedTokens && StoI(r.addedTokens[token]) == Ok(id)
      && forall t :: t in c.addedTokens && t != token ==> t in r.addedTokens && r.addedTokens[t] == c.addedTokens[t]
  {
    StoIRoundTrip(id);
  }

  // ---- decimal text ----

  predicate IsDigit(b: byte)
  {
    '0' <= b <= '9'
  }

  /** The value of a decimal digit. */
  function DigitValue(b: byte): (d: nat)
    requires IsDigit(b)
    ensures d < 10
  {
    b as int - '0' as int
  }

  function DigitOf(d: nat): (b: byte)
    requires d < 10
    ensures IsDigit(b) && DigitValue(b) == d
  {
    ('0' as int + d) as char
  }

  /** `operator<<` on an unsigned value: its decimal digits, most significant first. */
  function NatText(n: nat): (s: Str)
    ensures s != [] && forall k :: 0 <= k < |s| ==> IsDigit(s[k])
  {
    if n < 10 then [DigitOf(n)] else NatText(n / 10) + [DigitOf(n % 10)]
  }

  /** `operator<<` and `std::to_string` on an `int`: a '-' before the magnitude when negative. */
  function IntText(i: int): Str
  {
    if i < 0 then "-" + NatText(-i) else NatText(i)
  }

  /** The value of a run of decimal digits. */
  function DigitsValue(ds: Str): nat
    requires forall k :: 0 <= k < |ds| ==> IsDigit(ds[k])
  {
    if ds == [] then 0
    else DigitsValue(ds[..|ds| - 1]) * 10 + DigitValue(ds[|ds| - 1])
  }

  lemma {:induction false} NatTextValue(n: nat)
    ensures DigitsValue(NatText(n)) == n
  {
    if n >= 10 {
      NatTextValue(n / 10);
      var s := NatText(n);
      assert s[..|s| - 1] == NatText(n / 10);
    }
  }

  /** Length of the run of digits starting at `i`. */
  function DigitRun(s: Str, i: nat): (n: nat)
    requires i <= |s|
    ensures i + n <= |s|
    ensures forall k :: i <= k < i + n ==> IsDigit(s[k])
    ensures i + n < |s| ==> !IsDigit(s[i + n])
    decreases |s| - i
  {
    if i == |s| || !IsDigit(s[i]) then 0 else 1 + DigitRun(s, i + 1)
  }

  /** Position of the first byte at or after `i` that is not whitespace. */
  function SkipSpace(s: Str, i: nat): (j: nat)
    requires i <= |s|
    ensures i <= j <= |s|
    ensures forall k :: i <= k < j ==> IsSpace(s[k])
    ensures j < |s| ==> !IsSpace(s[j])
    decreases |s| - i
  {
    if i == |s| || !IsSpace(s[i]) then i else SkipSpace(s, i + 1)
  }

  /** The sign and magnitude `strtoul`/`strtol` read in base 10, if any digit follows the sign. */
  function ReadSigned(v: Str): Option<(bool, nat)>
  {
    var i := SkipSpace(v, 0);
    var signed := i < |v| && (v[i] == '+' || v[i] == '-');
    var j := if signed then i + 1 else i;
    var n := DigitRun(v, j);
    if n == 0 then None else Some((signed && v[i] == '-', DigitsValue(v[j..j + n])))
  }

  /**
   * `std::stoul`: leading whitespace, an optional sign, then at least one digit; trailing text is
   * ignored. No digit or a magnitude past `ULONG_MAX` throws; a '-' negates modulo 2^64.
   */
  function StoUL(v: Str): (r: Result<u64>)
    ensures r.Err? ==> r.msg == "stoul"
    ensures ReadSigned(v).None? ==> r.Err?
    ensures ReadSigned(v).Some? && !ReadSigned(v).value.0 ==>
      (r.Ok? <==> ReadSigned(v).value.1 < TwoTo64) && (r.Ok? ==> r.value == ReadSigned(v).value.1)
  {
    match ReadSigned(v)
    case None => Err("stoul")
    case Some((negative, m)) =>
      if m >= TwoTo64 then Err("stoul")
      else if negative && m != 0 then Ok(TwoTo64 - m)
      else Ok(m)
  }

  /** `std::stoi`: as `stoul`, but the signed value must fit an `int`. */
  function StoI(v: Str): (r: Result<i32>)
    ensures r.Err? ==> r.msg == "stoi"
    ensures ReadSigned(v).None? ==> r.Err?
    ensures ReadSigned(v).Some? ==>
      var (negative, m) := ReadSigned(v).value;
      var x: int := if negative then -(m as int) else m;
      (r.Ok? <==> -0x8000_0000 <= x < 0x8000_0000) && (r.Ok? ==> r.value == x)
  {
    match ReadSigned(v)
    case None => Err("stoi")
    case Some((negative, m)) =>
      var x: int := if negative then -(m as int) else m;
      if -0x8000_0000 <= x < 0x8000_0000 then Ok(x) else Err("stoi")
  }

  lemma ReadNatText(n: nat, rest: Str)
    requires rest == [] || !IsDigit(rest[0])
    ensures ReadSigned(NatText(n) + rest) == Some((false, n))
  {
    var s := NatText(n);
    var v := s + rest;
    assert !IsSpace(v[0]) && v[0] != '+' && v[0] != '-' by { assert IsDigit(s[0]); }
    assert SkipSpace(v, 0) == 0;
    DigitRunOver(v, 0, |s|);
    assert v[0..|s|] == s;
    NatTextValue(n);
  }

  lemma ReadIntText(i: int)
    ensures ReadSigned(IntText(i)) == Some((i < 0, if i < 0 then -i else i))
  {
    if i < 0 {
      var s := NatText(-i);
      var v := IntText(i);
      assert v == "-" + s;
      assert SkipSpace(v, 0) == 0;
      assert IsDigit(s[0]);
      DigitRunOver(v, 1, |s|);
      assert v[1..1 + |s|] == s;
      NatTextValue(-i);
    } else {
      ReadNatText(i, []);
      assert NatText(i) + [] == NatText(i);
    }
  }

  lemma {:induction false} DigitRunOver(v: Str, i: nat, n: nat)
    requires i + n <= |v|
    requires forall k :: i <= k < i + n ==> IsDigit(v[k])
    requires i + n == |v| || !IsDigit(v[i + n])
    ensures DigitRun(v, i) == n
    decreases n
  {
    if n > 0 {
      DigitRunOver(v, i + 1, n - 1);
    }
  }

  /** `stoul` reads back what `operator<<` prints for a `size_t`. */
  lemma StoULRoundTrip(n: u64)
    ensures StoUL(NatText(n)) == Ok(n)
  {
    ReadNatText(n, []);
    assert NatText(n) + [] == NatText(n);
  }

  /** `stoi` reads back what `operator<<` prints for an `int`. */
  lemma StoIRoundTrip(i: i32)
    ensures StoI(IntText(i)) == Ok(i)
  {
    ReadIntText(i);
  }

  // ---- to_string ----

  /** The keys `to_string` prints and `from_string` recognises. */
  datatype Key =
    | VocabSize | ModelType | AddSpecialTokens | AddByteFallback
    | UnkToken | PadToken | BosToken | EosToken | MaskToken | SepToken | ClsToken
    | Lowercase | StripAccents | NormalizeWhitespace | RemoveControlChars | RemoveDiacritics
    | MinFrequency | MaxTokens | UseRegex | RegexPattern | MaxLength | PadToMaxLength

  function KeyName(k: Key): Str
  {
    match k
    case VocabSize => "vocab_size"
    case ModelType => "model_type"
    case AddSpecialTokens => "add_special_tokens"
    case AddByteFallback => "add_byte_fallback"
    case UnkToken => "unk_token"
    case PadToken => "pad_token"
    case BosToken => "bos_token"
    case EosToken => "eos_token"
    case MaskToken => "mask_token"
    case SepToken => "sep_token"
    case ClsToken => "cls_token"
    case Lowercase => "lowercase"
    case StripAccents => "strip_accents"
    case NormalizeWhitespace => "normalize_whitespace"
    case RemoveControlChars => "remove_control_chars"
    case RemoveDiacritics => "remove_diacritics"
    case MinFrequency => "min_frequency"
    case MaxTokens => "max_tokens"
    case UseRegex => "use_regex"
    case RegexPattern => "regex_pattern"
    case MaxLength => "max_length"
    case PadToMaxLength => "pad_to_max_length"
  }

  /** The order in which `to_string` prints the keys. */
  const Order: seq<Key> := [
    VocabSize, ModelType, AddSpecialTokens, AddByteFallback,
    UnkToken, PadToken, BosToken, EosToken, MaskToken, SepToken, ClsToken,
    Lowercase, StripAccents, NormalizeWhitespace, RemoveControlChars, RemoveDiacritics,
    MinFrequency, MaxTokens, UseRegex, RegexPattern, MaxLength, PadToMaxLength]

  function BoolText(b: bool): Str
  {
    if b then "true" else "false"
  }

  function Quoted(s: Str): Str
  {
    "\"" + s + "\""
  }

  /** How `to_string` prints the value under `k`: strings quoted, flags as words, numbers in decimal. */
  function Value(c: TokenizerConfig, k: Key): Str
  {
    match k
    case VocabSize => NatText(c.vocabSize)
    case ModelType => Quoted(c.modelType)
    case AddSpecialTokens => BoolText(c.addSpecialTokens)
    case AddByteFallback => BoolText(c.addByteFallback)
    case UnkToken => Quoted(c.unkToken)
    case PadToken => Quoted(c.padToken)
    case BosToken => Quoted(c.bosToken)
    case EosToken => Quoted(c.eosToken)
    case MaskToken => Quoted(c.maskToken)
    case SepToken => Quoted(c.sepToken)
    case ClsToken => Quoted(c.clsToken)
    case Lowercase => BoolText(c.lowercase)
    case StripAccents => BoolText(c.stripAccents)
    case NormalizeWhitespace => BoolText(c.normalizeWhitespace)
    case RemoveControlChars => BoolText(c.removeControlChars)
    case RemoveDiacritics => BoolText(c.removeDiacritics)
    case MinFrequency => NatText(c.minFrequency)
    case MaxTokens => NatText(c.maxTokens)
    case UseRegex => BoolText(c.useRegex)
    case RegexPattern => Quoted(c.regexPattern)
    case MaxLength => IntText(c.maxLength)
    case PadToMaxLength => BoolText(c.padToMaxLength)
  }

  /** The `(key, value)` pairs `to_string` prints for `c`, in the order `ks`. */
  function Printed(c: TokenizerConfig, ks: seq<Key>): seq<(Str, Str)>
  {
    seq(|ks|, j requires 0 <= j < |ks| => (KeyName(ks[j]), Value(c, ks[j])))
  }

  /** `key=value` for the pairs `ps[i..]`, separated by ", ". */
  function Render(ps: seq<(Str, Str)>, i: nat): Str
    requires i < |ps|
    decreases |ps| - i
  {
    ps[i].0 + "=" + ps[i].1 + (if i + 1 == |ps| then [] else ", " + Render(ps, i + 1))
  }

  const Prefix: Str := "TokenizerConfig{"

  /** The pairs in braces, after the class name. */
  function Braced(ps: seq<(Str, Str)>): Str
    requires ps != []
  {
    Prefix + Render(ps, 0) + "}"
  }

  /** `to_string`. */
  function ToString(c: TokenizerConfig): Str
  {
    Braced(Printed(c, Order))
  }

  // ---- from_string ----

  /** `find(ch, from)`: the first position at or after `from` holding `ch`. */
  function Find(s: Str, ch: byte, from: nat): Option<nat>
    decreases |s| - from
  {
    if from >= |s| then None else if s[from] == ch then Some(from) else Find(s, ch, from + 1)
  }

  lemma {:induction false} FindSpec(s: Str, ch: byte, from: nat)
    ensures var r := Find(s, ch, from);
      && (r.None? ==> forall k :: from <= k < |s| ==> s[k] != ch)
      && (r.Some? ==> from <= r.value < |s| && s[r.value] == ch && forall k :: from <= k < r.value ==> s[k] != ch)
    decreases |s| - from
  {
    if from < |s| && s[from] != ch {
      FindSpec(s, ch, from + 1);
    }
  }

  /** `rfind(ch, at)`: the last position at or before `at` holding `ch`. */
  function RFind(s: Str, ch: byte, at: nat): Option<nat>
    requires at < |s|
  {
    if s[at] == ch then Some(at) else if at == 0 then None else RFind(s, ch, at - 1)
  }

  lemma {:induction false} RFindSpec(s: Str, ch: byte, at: nat)
    requires at < |s|
    ensures var r := RFind(s, ch, at);
      && (r.None? ==> forall k :: 0 <= k <= at ==> s[k] != ch)
      && (r.Some? ==> r.value <= at && s[r.value] == ch && forall k :: r.value < k <= at ==> s[k] != ch)
  {
    if s[at] != ch && at > 0 {
      RFindSpec(s, ch, at - 1);
    }
  }

  /** One pair of surrounding double quotes is removed when present. */
  function Unquote(v: Str): Str
  {
    if |v| >= 2 && v[0] == '"' && v[|v| - 1] == '"' then v[1..|v| - 1] else v
  }

  /** The `if`/`else if` chain of `from_string` on the key text; any other text matches nothing. */
  function ParseKey(s: Str): (r: Option<Key>)
    ensures r.Some? ==> KeyName(r.value) == s
  {
    if s == "vocab_size" then Some(VocabSize)
    else if s == "model_type" then Some(ModelType)
    else if s == "add_special_tokens" then Some(AddSpecialTokens)
    else if s == "add_byte_fallback" then Some(AddByteFallback)
    else if s == "unk_token" then Some(UnkToken)
    else if s == "pad_token" then Some(PadToken)
    else if s == "bos_token" then Some(BosToken)
    else if s == "eos_token" then Some(EosToken)
    else if s == "mask_token" then Some(MaskToken)
    else if s == "sep_token" then Some(SepToken)
    else if s == "cls_token" then Some(ClsToken)
    else if s == "lowercase" then Some(Lowercase)
    else if s == "strip_accents" then Some(StripAccents)
    else if s == "normalize_whitespace" then Some(NormalizeWhitespace)
    else if s == "remove_control_chars" then Some(RemoveControlChars)
    else if s == "remove_diacritics" then Some(RemoveDiacritics)
    else if s == "min_frequency" then Some(MinFrequency)
    else if s == "max_tokens" then Some(MaxTokens)
    else if s == "use_regex" then Some(UseRegex)
    else if s == "regex_pattern" then Some(RegexPattern)
    else if s == "max_length" then Some(MaxLength)
    else if s == "pad_to_max_length" then Some(PadToMaxLength)
    else None
  }

  /**
   * Every printed key is recognised as itself. The keys are taken a few at a time because each
   * one is compared with every name before it in the chain.
   */
  lemma ParseKeyName(k: Key)
    ensures ParseKey(KeyName(k)) == Some(k)
  {
    if k.VocabSize? || k.ModelType? || k.AddSpecialTokens? || k.AddByteFallback? {
      ParseKeyNames0(k);
    } else if k.UnkToken? || k.PadToken? || k.BosToken? {
      ParseKeyNames1(k);
    } else if k.EosToken? || k.MaskToken? {
      ParseKeyNames2(k);
    } else if k.SepToken? || k.ClsToken? {
      ParseKeyNames3(k);
    } else if k.Lowercase? || k.StripAccents? {
      ParseKeyNames4(k);
    } else if k.NormalizeWhitespace? || k.RemoveControlChars? {
      ParseKeyNames5(k);
    } else if k.RemoveDiacritics? {
      ParseKeyNames6(k);
    } else if k.MinFrequency? {
      ParseKeyNames7(k);
    } else if k.MaxTokens? {
      ParseKeyNames8(k);
    } else if k.UseRegex? {
      ParseKeyNames9(k);
    } else if k.RegexPattern? {
      ParseKeyNames10(k);
    } else if k.MaxLength? {
      ParseKeyNames11(k);
    } else {
      ParseKeyNames12(k);
    }
  }

  /*
   * `ParseKeyNames0` to `ParseKeyNames12` are the cases of `ParseKeyName`, a few keys each.
   * A single lemma over all 22 keys makes the solver compare every key name with every name
   * `ParseKey` tests at once, which goes beyond the solver's resource bound; each case only
   * unfolds `ParseKey` for the names it needs.
   */
  lemma ParseKeyNames0(k: Key)
    requires k.VocabSize? || k.ModelType? || k.AddSpecialTokens? || k.AddByteFallback?
    ensures ParseKey(KeyName(k)) == Some(k)
  {
  }

  lemma ParseKeyNames1(k: Key)
    requires k.UnkToken? || k.PadToken? || k.BosToken?
    ensures ParseKey(KeyName(k)) == Some(k)
  {
  }

  lemma ParseKeyNames2(k: Key)
    requires k.EosToken? || k.MaskToken?
    ensures ParseKey(KeyName(k)) == Some(k)
  {
  }

  lemma ParseKeyNames3(k: Key)
    requires k.SepToken? || k.ClsToken?
    ensures ParseKey(KeyName(k)) == Some(k)
  {
  }

  lemma ParseKeyNames4(k: Key)
    requires k.Lowercase? || k.StripAccents?
    ensures ParseKey(KeyName(k)) == Some(k)
  {
  }

  lemma ParseKeyNames5(k: Key)
    requires k.NormalizeWhitespace? || k.RemoveControlChars?
    ensures ParseKey(KeyName(k)) == Some(k)
  {
  }

  lemma ParseKeyNames6(k: Key)
    requires k.RemoveDiacritics?
    ensures ParseKey(KeyName(k)) == Some(k)
  {
  }

  lemma ParseKeyNames7(k: Key)
    requires k.MinFrequency?
    ensures ParseKey(KeyName(k)) == Some(k)
  {
  }

  lemma ParseKeyNames8(k: Key)
    requires k.MaxTokens?
    ensures ParseKey(KeyName(k)) == Some(k)
  {
  }

  lemma ParseKeyNames9(k: Key)
    requires k.UseRegex?
    ensures ParseKey(KeyName(k)) == Some(k)
  {
  }

  lemma ParseKeyNames10(k: Key)
    requires k.RegexPattern?
    ensures ParseKey(KeyName(k)) == Some(k)
  {
  }

  lemma ParseKeyNames11(k: Key)
    requires k.MaxLength?
    ensures ParseKey(KeyName(k)) == Some(k)
  {
  }

  lemma ParseKeyNames12(k: Key)
    requires k.PadToMaxLength?
    ensures ParseKey(KeyName(k)) == Some(k)
  {
  }

  /** The branch of `from_string` that stores `value` under `k`. */
  function Assign(c: TokenizerConfig, k: Key, value: Str): Result<TokenizerConfig>
  {
    match k
    case VocabSize => (match StoUL(value) case Err(e) => Err(e) case Ok(n) => Ok(c.(vocabSize := n)))
    case ModelType => Ok(c.(modelType := value))
    case AddSpecialTokens => Ok(c.(addSpecialTokens := value == "true"))
    case AddByteFallback => Ok(c.(addByteFallback := value == "true"))
    case UnkToken => Ok(c.(unkToken := value))
    case PadToken => Ok(c.(padToken := value))
    case BosToken => Ok(c.(bosToken := value))
    case EosToken => Ok(c.(eosToken := value))
    case MaskToken => Ok(c.(maskToken := value))
    case SepToken => Ok(c.(sepToken := value))
    case ClsToken => Ok(c.(clsToken := value))
    case Lowercase => Ok(c.(lowercase := value == "true"))
    case StripAccents => Ok(c.(stripAccents := value == "true"))
    case NormalizeWhitespace => Ok(c.(normalizeWhitespace := value == "true"))
    case RemoveControlChars => Ok(c.(removeControlChars := value == "true"))
    case RemoveDiacritics => Ok(c.(removeDiacritics := value == "true"))
    case MinFrequency => (match StoUL(value) case Err(e) => Err(e) case Ok(n) => Ok(c.(minFrequency := n)))
    case MaxTokens => (match StoUL(value) case Err(e) => Err(e) case Ok(n) => Ok(c.(maxTokens := n)))
    case UseRegex => Ok(c.(useRegex := value == "true"))
    case RegexPattern => Ok(c.(regexPattern := value))
    case MaxLength => (match StoI(value) case Err(e) => Err(e) case Ok(n) => Ok(c.(maxLength := n)))
    case PadToMaxLength => Ok(c.(padToMaxLength := value == "true"))
  }

  /** One pair: an unknown key leaves the configuration as it is. */
  function Apply(c: TokenizerConfig, key: Str, value: Str): Result<TokenizerConfig>
  {
    match ParseKey(key)
    case None => Ok(c)
    case Some(k) => Assign(c, k, value)
  }

  /** Where the value that starts after the '=' at `eq` ends: the next ',', else the next '}'. */
  function ValueEnd(s: Str, eq: nat): (r: Option<nat>)
    requires eq < |s| && s[eq] == '='
    ensures r.Some? ==> eq < r.value < |s|
  {
    FindSpec(s, ',', eq);
    FindSpec(s, '}', eq);
    match Find(s, ',', eq)
    case Some(e) => Some(e)
    case None => Find(s, '}', eq)
  }

  /** How one `key=value` pair is stored: `from_string` stores it with `Apply`. */
  type Setter = (TokenizerConfig, Str, Str) -> Result<TokenizerConfig>

  /**
   * The parse loop of `from_string` from cursor `pos`: find the next '=' and go on from there; the
   * loop ends when there is none.
   */
  function ParseFrom(s: Str, pos: nat, c: TokenizerConfig, store: Setter): Result<TokenizerConfig>
    decreases |s| - pos, 1
  {
    if pos >= |s| then Ok(c)
    else
      FindSpec(s, '=', pos);
      match Find(s, '=', pos)
      case None => Ok(c)
      case Some(eq) => ParseAt(s, eq, c, store)
  }

  /** What one turn of the loop does: stop with a result, or go on at `next` with `c'`. */
  datatype Turn = Stop(result: Result<TokenizerConfig>) | Go(next: nat, c': TokenizerConfig)

  /**
   * One turn of the loop at the '=' at `eq`: its key is the text after the last space before it
   * (an '=' with no space before it is skipped); the value runs to `ValueEnd` and loses one pair
   * of quotes. A conversion that throws ends the parse; a value with no end ends the loop.
   */
  function Step(s: Str, eq: nat, c: TokenizerConfig, store: Setter): (r: Turn)
    requires eq < |s| && s[eq] == '='
    ensures r.Go? ==> eq < r.next <= |s|
  {
    match RFind(s, ' ', eq)
    case None => Go(eq + 1, c)
    case Some(ks) =>
      if ks >= eq then Go(eq + 1, c)
      else
        match ValueEnd(s, eq)
        case None => Stop(Ok(c))
        case Some(e) =>
          match store(c, s[ks + 1..eq], Unquote(s[eq + 1..e]))
          case Err(m) => Stop(Err(m))
          case Ok(c') => Go(e + 1, c')
  }

  function ParseAt(s: Str, eq: nat, c: TokenizerConfig, store: Setter): Result<TokenizerConfig>
    requires eq < |s| && s[eq] == '='
    decreases |s| - eq, 0
  {
    match Step(s, eq, c, store)
    case Stop(r) => r
    case Go(next, c') => ParseFrom(s, next, c', store)
  }

  /** The loop of `from_string`, storing each pair with `store`. */
  method ParseLoop(s: Str, store: Setter) returns (r: Result<TokenizerConfig>)
    ensures r == ParseFrom(s, 0, Default(), store)
  {
    var c := Default();
    var pos := 0;
    while pos < |s|
      invariant ParseFrom(s, 0, Default(), store) == ParseFrom(s, pos, c, store)
      decreases |s| - pos
    {
      var start := Find(s, '=', pos);
      if start.None? {
        break;
      }
      FindSpec(s, '=', pos);
      var turn := TakeTurn(s, start.value, c, store);
      match turn {
        case Stop(result) =>
          return result;
        case Go(next, c') =>
          pos, c := next, c';
      }
    }
    return Ok(c);
  }

  /** The body of the loop once an '=' is found at `eq`. */
  method TakeTurn(s: Str, eq: nat, c: TokenizerConfig, store: Setter) returns (turn: Turn)
    requires eq < |s| && s[eq] == '='
    ensures turn == Step(s, eq, c, store)
  {
    var keyStart := RFind(s, ' ', eq);
    if keyStart.None? || keyStart.value >= eq {
      return Go(eq + 1, c);
    }
    var key := s[keyStart.value + 1..eq];
    var valueEnd := Find(s, ',', eq);
    if valueEnd.None? {
      valueEnd := Find(s, '}', eq);
    }
    assert valueEnd == ValueEnd(s, eq);
    if valueEnd.None? {
      return Stop(Ok(c));
    }
    var value := Unquote(s[eq + 1..valueEnd.value]);
    var stored := store(c, key, value);
    if stored.Err? {
      return Stop(Err(stored.msg));
    }
    return Go(valueEnd.value + 1, stored.value);
  }

  /** `from_string`: a default configuration updated by every pair the loop finds. */
  method FromString(s: Str) returns (r: Result<TokenizerConfig>)
    ensures r == ParseFrom(s, 0, Default(), Apply)
  {
    r := ParseLoop(s, Apply);
  }

  // ---- the round trip ----

  predicate NoByte(s: Str, b: byte)
  {
    forall k :: 0 <= k < |s| ==> s[k] != b
  }

  /** The string fields hold no ',', which would end a value early. */
  predicate NoComma(c: TokenizerConfig)
  {
    && NoByte(c.modelType, ',') && NoByte(c.unkToken, ',') && NoByte(c.padToken, ',')
    && NoByte(c.bosToken, ',') && NoByte(c.eosToken, ',') && NoByte(c.maskToken, ',')
    && NoByte(c.sepToken, ',') && NoByte(c.clsToken, ',') && NoByte(c.regexPattern, ',')
  }

  /** `d` with the field under `k` taken from `c`. */
  function CopyField(d: TokenizerConfig, c: TokenizerConfig, k: Key): TokenizerConfig
  {
    match k
    case VocabSize => d.(vocabSize := c.vocabSize)
    case ModelType => d.(modelType := c.modelType)
    case AddSpecialTokens => d.(addSpecialTokens := c.addSpecialTokens)
    case AddByteFallback => d.(addByteFallback := c.addByteFallback)
    case UnkToken => d.(unkToken := c.unkToken)
    case PadToken => d.(padToken := c.padToken)
    case BosToken => d.(bosToken := c.bosToken)
    case EosToken => d.(eosToken := c.eosToken)
    case MaskToken => d.(maskToken := c.maskToken)
    case SepToken => d.(sepToken := c.sepToken)
    case ClsToken => d.(clsToken := c.clsToken)
    case Lowercase => d.(lowercase := c.lowercase)
    case StripAccents => d.(stripAccents := c.stripAccents)
    case NormalizeWhitespace => d.(normalizeWhitespace := c.normalizeWhitespace)
    case RemoveControlChars => d.(removeControlChars := c.removeControlChars)
    case RemoveDiacritics => d.(removeDiacritics := c.removeDiacritics)
    case MinFrequency => d.(minFrequency := c.minFrequency)
    case MaxTokens => d.(maxTokens := c.maxTokens)
    case UseRegex => d.(useRegex := c.useRegex)
    case RegexPattern => d.(regexPattern := c.regexPattern)
    case MaxLength => d.(maxLength := c.maxLength)
    case PadToMaxLength => d.(padToMaxLength := c.padToMaxLength)
  }

  /** `d` with the fields under `ks[i..]` taken from `c`, in order. */
  function CopyFrom(d: TokenizerConfig, c: TokenizerConfig, ks: seq<Key>, i: nat): TokenizerConfig
    requires i <= |ks|
    decreases |ks| - i
  {
    if i == |ks| then d else CopyFrom(CopyField(d, c, ks[i]), c, ks, i + 1)
  }

  /** Reading a printed value back stores exactly the field it was printed from. */
  lemma AssignValue(d: TokenizerConfig, c: TokenizerConfig, k: Key)
    ensures Assign(d, k, Unquote(Value(c, k))) == Ok(CopyField(d, c, k))
  {
    match k {
      case VocabSize => StoULRoundTrip(c.vocabSize);
      case MinFrequency => StoULRoundTrip(c.minFrequency);
      case MaxTokens => StoULRoundTrip(c.maxTokens);
      case MaxLength => StoIRoundTrip(c.maxLength);
      case _ =>
    }
  }

  lemma ValueNoComma(c: TokenizerConfig, k: Key)
    requires NoComma(c)
    ensures NoByte(Value(c, k), ',')
  {
    match k {
      case MaxLength =>
        if c.maxLength < 0 {
          assert IntText(c.maxLength) == "-" + NatText(-(c.maxLength as int));
        }
      case _ =>
    }
  }

  /** Where the pieces of one printed pair sit in `s`. */
  lemma PairLayout(s: Str, pos: nat, g: Str, k: Str, v: Str, rest: Str)
    requires pos <= |s| && s[pos..] == g + " " + k + "=" + v + rest
    ensures pos + |g| + |k| + |v| + 2 + |rest| == |s|
    ensures s[pos..pos + |g|] == g
    ensures s[pos + |g|] == ' '
    ensures s[pos + |g| + 1..pos + |g| + 1 + |k|] == k
    ensures s[pos + |g| + 1 + |k|] == '='
    ensures s[pos + |g| + |k| + 2..pos + |g| + |k| + 2 + |v|] == v
    ensures s[pos + |g| + |k| + 2 + |v|..] == rest
  {
    var t := s[pos..];
    var a := |g|;
    var b := a + 1 + |k|;
    var e := b + 1 + |v|;
    assert t[..a] == g;
    assert t[a + 1..b] == k;
    assert t[b + 1..e] == v;
    assert t[e..] == rest;
    assert s[pos..pos + a] == t[..a];
    assert s[pos + a + 1..pos + b] == t[a + 1..b];
    assert s[pos + b + 1..pos + e] == t[b + 1..e];
    assert s[pos + e..] == t[e..];
  }

  lemma NoByteIn(s: Str, lo: nat, hi: nat, b: byte)
    requires lo <= hi <= |s| && NoByte(s[lo..hi], b)
    ensures forall i :: lo <= i < hi ==> s[i] != b
  {
    forall i | lo <= i < hi
      ensures s[i] != b
    {
      assert s[i] == s[lo..hi][i - lo];
    }
  }

  lemma FindAt(s: Str, ch: byte, from: nat, at: nat)
    requires from <= at < |s| && s[at] == ch
    requires forall k :: from <= k < at ==> s[k] != ch
    ensures Find(s, ch, from) == Some(at)
    decreases at - from
  {
    if from < at {
      FindAt(s, ch, from + 1, at);
    }
  }

  lemma RFindAt(s: Str, ch: byte, at: nat, upTo: nat)
    requires at <= upTo < |s| && s[at] == ch
    requires forall k :: at < k <= upTo ==> s[k] != ch
    ensures RFind(s, ch, upTo) == Some(at)
    decreases upTo - at
  {
    if at < upTo {
      RFindAt(s, ch, at, upTo - 1);
    }
  }

  lemma RFindNone(s: Str, ch: byte, upTo: nat)
    requires upTo < |s| && forall k :: 0 <= k <= upTo ==> s[k] != ch
    ensures RFind(s, ch, upTo).None?
  {
    if upTo > 0 {
      RFindNone(s, ch, upTo - 1);
    }
  }

  /**
   * Where the loop finds the parts of one printed pair: a stretch from `pos` without '=', a space
   * at `sp`, a key without ' ' or '=', the '=' at `eq`, and a value without ',' that ends at the
   * ',' at `e` (or at the closing '}' that ends the text).
   */
  predicate PairAt(s: Str, pos: nat, sp: nat, eq: nat, e: nat)
  {
    && pos <= sp < eq < e < |s|
    && NoByte(s[pos..sp], '=') && s[sp] == ' '
    && NoByte(s[sp + 1..eq], ' ') && NoByte(s[sp + 1..eq], '=') && s[eq] == '='
    && NoByte(s[eq + 1..e], ',')
    && (s[e] == ',' || (s[e] == '}' && e + 1 == |s| && NoByte(s[eq + 1..e], '}')))
  }

  lemma PairFound(s: Str, pos: nat, sp: nat, eq: nat, e: nat)
    requires PairAt(s, pos, sp, eq, e)
    ensures Find(s, '=', pos) == Some(eq)
    ensures RFind(s, ' ', eq) == Some(sp)
    ensures ValueEnd(s, eq) == Some(e)
  {
    NoByteIn(s, pos, sp, '=');
    NoByteIn(s, sp + 1, eq, '=');
    NoByteIn(s, sp + 1, eq, ' ');
    FindAt(s, '=', pos, eq);
    RFindAt(s, ' ', sp, eq);
    NoByteIn(s, eq + 1, e, ',');
    if s[e] == ',' {
      FindAt(s, ',', eq, e);
    } else {
      FindSpec(s, ',', eq);
      NoByteIn(s, eq + 1, e, '}');
      FindAt(s, '}', eq, e);
    }
  }

  /** One turn of the loop over a printed pair: it stores the pair and goes on after the ','. */
  lemma OnePair(s: Str, pos: nat, sp: nat, eq: nat, e: nat, k: Str, v: Str, c: TokenizerConfig, store: Setter)
    requires PairAt(s, pos, sp, eq, e) && s[sp + 1..eq] == k && s[eq + 1..e] == v
    ensures store(c, k, Unquote(v)).Err? ==> ParseFrom(s, pos, c, store) == store(c, k, Unquote(v))
    ensures store(c, k, Unquote(v)).Ok? ==> ParseFrom(s, pos, c, store) == ParseFrom(s, e + 1, store(c, k, Unquote(v)).value, store)
  {
    PairFound(s, pos, sp, eq, e);
  }

  /** The key names are single words. */
  lemma KeyNamePlain(k: Key)
    ensures NoByte(KeyName(k), ' ') && NoByte(KeyName(k), '=')
  {
    if k.VocabSize? || k.ModelType? {
      KeyNamesPlain0(k);
    } else if k.AddSpecialTokens? || k.AddByteFallback? {
      KeyNamesPlain1(k);
    } else if k.UnkToken? || k.PadToken? {
      KeyNamesPlain2(k);
    } else if k.BosToken? || k.EosToken? {
      KeyNamesPlain3(k);
    } else if k.MaskToken? || k.SepToken? {
      KeyNamesPlain4(k);
    } else if k.ClsToken? || k.Lowercase? {
      KeyNamesPlain5(k);
    } else if k.StripAccents? || k.NormalizeWhitespace? {
      KeyNamesPlain6(k);
    } else if k.RemoveControlChars? || k.RemoveDiacritics? {
      KeyNamesPlain7(k);
    } else if k.MinFrequency? || k.MaxTokens? {
      KeyNamesPlain8(k);
    } else if k.UseRegex? || k.RegexPattern? {
      KeyNamesPlain9(k);
    } else {
      KeyNamesPlain10(k);
    }
  }

  /*
   * `KeyNamesPlain0` to `KeyNamesPlain10` are the cases of `KeyNamePlain`, two keys each, split
   * for the same reason: checking every byte of all 22 names in one proof is over the resource
   * bound.
   */
  lemma KeyNamesPlain0(k: Key)
    requires k.VocabSize? || k.ModelType?
    ensures NoByte(KeyName(k), ' ') && NoByte(KeyName(k), '=')
  {
  }

  lemma KeyNamesPlain1(k: Key)
    requires k.AddSpecialTokens? || k.AddByteFallback?
    ensures NoByte(KeyName(k), ' ') && NoByte(KeyName(k), '=')
  {
  }

  lemma KeyNamesPlain2(k: Key)
    requires k.UnkToken? || k.PadToken?
    ensures NoByte(KeyName(k), ' ') && NoByte(KeyName(k), '=')
  {
  }

  lemma KeyNamesPlain3(k: Key)
    requires k.BosToken? || k.EosToken?
    ensures NoByte(KeyName(k), ' ') && NoByte(KeyName(k), '=')
  {
  }

  lemma KeyNamesPlain4(k: Key)
    requires k.MaskToken? || k.SepToken?
    ensures NoByte(KeyName(k), ' ') && NoByte(KeyName(k), '=')
  {
  }

  lemma KeyNamesPlain5(k: Key)
    requires k.ClsToken? || k.Lowercase?
    ensures NoByte(KeyName(k), ' ') && NoByte(KeyName(k), '=')
  {
  }

  lemma KeyNamesPlain6(k: Key)
    requires k.StripAccents? || k.NormalizeWhitespace?
    ensures NoByte(KeyName(k), ' ') && NoByte(KeyName(k), '=')
  {
  }

  lemma KeyNamesPlain7(k: Key)
    requires k.RemoveControlChars? || k.RemoveDiacritics?
    ensures NoByte(KeyName(k), ' ') && NoByte(KeyName(k), '=')
  {
  }

  lemma KeyNamesPlain8(k: Key)
    requires k.MinFrequency? || k.MaxTokens?
    ensures NoByte(KeyName(k), ' ') && NoByte(KeyName(k), '=')
  {
  }

  lemma KeyNamesPlain9(k: Key)
    requires k.UseRegex? || k.RegexPattern?
    ensures NoByte(KeyName(k), ' ') && NoByte(KeyName(k), '=')
  {
  }

  lemma KeyNamesPlain10(k: Key)
    requires k.MaxLength? || k.PadToMaxLength?
    ensures NoByte(KeyName(k), ' ') && NoByte(KeyName(k), '=')
  {
  }

  lemma PairShape(g: Str, k: Str, v: Str, tail: Str)
    ensures g + " " + (k + "=" + v + tail) + "}" == g + " " + k + "=" + v + (tail + "}")
  {
  }

  /** The positions of one printed pair, as `PairAt` states them. */
  lemma PairLaidOut(s: Str, pos: nat, g: Str, k: Str, v: Str, rest: Str)
    requires pos <= |s| && s[pos..] == g + " " + k + "=" + v + rest
    requires NoByte(g, '=') && NoByte(k, ' ') && NoByte(k, '=') && NoByte(v, ',')
    requires rest != [] && (rest[0] == ',' || (rest == "}" && NoByte(v, '}')))
    ensures var sp := pos + |g|; var eq := sp + 1 + |k|; var e := eq + 1 + |v|;
      && PairAt(s, pos, sp, eq, e) && s[sp + 1..eq] == k && s[eq + 1..e] == v && s[e..] == rest
  {
    PairLayout(s, pos, g, k, v, rest);
    assert s[pos + |g| + |k| + 2 + |v|] == rest[0];
  }

  lemma NextPair(s: Str, e: nat, r: Str)
    requires e <= |s| && s[e..] == ", " + r + "}"
    ensures e + 1 <= |s| && s[e + 1..] == [] + " " + r + "}"
  {
    assert s[e + 1..] == s[e..][1..];
  }

  /** Applies `store` to the pairs `ps[i..]` in order, stopping at the first error. */
  function StoreAll(d: TokenizerConfig, ps: seq<(Str, Str)>, i: nat, store: Setter): Result<TokenizerConfig>
    requires i <= |ps|
    decreases |ps| - i
  {
    if i == |ps| then Ok(d)
    else
      match store(d, ps[i].0, Unquote(ps[i].1))
      case Err(m) => Err(m)
      case Ok(d') => StoreAll(d', ps, i + 1, store)
  }

  /** Keys are single words and values hold no ','; the last value holds no '}' either. */
  predicate Printable(ps: seq<(Str, Str)>)
  {
    && (forall j :: 0 <= j < |ps| ==> NoByte(ps[j].0, ' ') && NoByte(ps[j].0, '=') && NoByte(ps[j].1, ','))
    && (ps != [] ==> NoByte(ps[|ps| - 1].1, '}'))
  }

  /** Where the next rendered pair lies, and where the text after it starts. */
  lemma PairsHead(s: Str, pos: nat, g: Str, ps: seq<(Str, Str)>, i: nat)
    requires Printable(ps) && i < |ps| && NoByte(g, '=')
    requires pos <= |s| && s[pos..] == g + " " + Render(ps, i) + "}"
    ensures var sp := pos + |g|; var eq := sp + 1 + |ps[i].0|; var e := eq + 1 + |ps[i].1|;
      && PairAt(s, pos, sp, eq, e) && s[sp + 1..eq] == ps[i].0 && s[eq + 1..e] == ps[i].1
      && (i + 1 == |ps| ==> e + 1 == |s|)
      && (i + 1 < |ps| ==> e + 1 <= |s| && s[e + 1..] == [] + " " + Render(ps, i + 1) + "}")
  {
    if i + 1 == |ps| {
      LastPair(s, pos, g, ps[i].0, ps[i].1);
    } else {
      InnerPair(s, pos, g, ps[i].0, ps[i].1, Render(ps, i + 1));
    }
  }

  lemma LastPair(s: Str, pos: nat, g: Str, k: Str, v: Str)
    requires NoByte(g, '=') && NoByte(k, ' ') && NoByte(k, '=') && NoByte(v, ',') && NoByte(v, '}')
    requires pos <= |s| && s[pos..] == g + " " + (k + "=" + v) + "}"
    ensures var sp := pos + |g|; var eq := sp + 1 + |k|; var e := eq + 1 + |v|;
      && PairAt(s, pos, sp, eq, e) && s[sp + 1..eq] == k && s[eq + 1..e] == v && e + 1 == |s|
  {
    PairShape(g, k, v, []);
    PairLaidOut(s, pos, g, k, v, [] + "}");
  }

  lemma InnerPair(s: Str, pos: nat, g: Str, k: Str, v: Str, r: Str)
    requires NoByte(g, '=') && NoByte(k, ' ') && NoByte(k, '=') && NoByte(v, ',')
    requires pos <= |s| && s[pos..] == g + " " + (k + "=" + v + ", " + r) + "}"
    ensures var sp := pos + |g|; var eq := sp + 1 + |k|; var e := eq + 1 + |v|;
      && PairAt(s, pos, sp, eq, e) && s[sp + 1..eq] == k && s[eq + 1..e] == v
      && e + 1 <= |s| && s[e + 1..] == [] + " " + r + "}"
  {
    PairShape(g, k, v, ", " + r);
    PairLaidOut(s, pos, g, k, v, ", " + r + "}");
    NextPair(s, pos + |g| + |k| + |v| + 2, r);
  }

  /**
   * From a cursor followed by a stretch `g` without '=', a space, the rendered pairs `ps[i..]`
   * and the closing '}', the loop stores exactly those pairs, in order.
   */
  lemma {:induction false} ParsePairs(s: Str, pos: nat, g: Str, ps: seq<(Str, Str)>, i: nat, d: TokenizerConfig, store: Setter)
    requires Printable(ps) && i < |ps| && NoByte(g, '=')
    requires pos <= |s| && s[pos..] == g + " " + Render(ps, i) + "}"
    ensures ParseFrom(s, pos, d, store) == StoreAll(d, ps, i, store)
    decreases |ps| - i
  {
    PairsHead(s, pos, g, ps, i);
    var sp := pos + |g|;
    var eq := sp + 1 + |ps[i].0|;
    var e := eq + 1 + |ps[i].1|;
    var r := store(d, ps[i].0, Unquote(ps[i].1));
    OnePair(s, pos, sp, eq, e, ps[i].0, ps[i].1, d, store);
    if r.Ok? {
      if i + 1 < |ps| {
        ParsePairs(s, e + 1, [], ps, i + 1, r.value, store);
      } else {
        assert ParseFrom(s, e + 1, r.value, store) == Ok(r.value);
      }
    }
  }

  /** Storing the printed pairs with the `from_string` chain copies their fields. */
  lemma {:induction false} StoreCopies(d: TokenizerConfig, c: TokenizerConfig, ks: seq<Key>, i: nat)
    requires i <= |ks|
    ensures StoreAll(d, Printed(c, ks), i, Apply) == Ok(CopyFrom(d, c, ks, i))
    decreases |ks| - i
  {
    if i < |ks| {
      ParseKeyName(ks[i]);
      AssignValue(d, c, ks[i]);
      StoreCopies(CopyField(d, c, ks[i]), c, ks, i + 1);
    }
  }

  lemma PrintedPrintable(c: TokenizerConfig, ks: seq<Key>)
    requires NoComma(c) && ks != [] && ks[|ks| - 1] == PadToMaxLength
    ensures Printable(Printed(c, ks))
  {
    var ps := Printed(c, ks);
    forall j | 0 <= j < |ps|
      ensures NoByte(ps[j].0, ' ') && NoByte(ps[j].0, '=') && NoByte(ps[j].1, ',')
    {
      EntryPlain(c, ks, j);
    }
    LastNoBrace(c, ks);
  }

  lemma EntryPlain(c: TokenizerConfig, ks: seq<Key>, j: nat)
    requires NoComma(c) && j < |ks|
    ensures NoByte(Printed(c, ks)[j].0, ' ') && NoByte(Printed(c, ks)[j].0, '=') && NoByte(Printed(c, ks)[j].1, ',')
  {
    KeyNamePlain(ks[j]);
    ValueNoComma(c, ks[j]);
  }

  lemma LastNoBrace(c: TokenizerConfig, ks: seq<Key>)
    requires ks != [] && ks[|ks| - 1] == PadToMaxLength
    ensures NoByte(Printed(c, ks)[|ks| - 1].1, '}')
  {
    assert Printed(c, ks)[|ks| - 1].1 == BoolText(c.padToMaxLength);
  }

  /**
   * What `from_string(to_string(c))` gives back: every printed field but `vocab_size` comes from
   * `c`; `vocab_size` and the fields `to_string` does not print keep their defaults.
   */
  function ReadBack(c: TokenizerConfig): TokenizerConfig
  {
    c.(vocabSize := 30000, baseModel := CUSTOM_MODEL, addedTokens := map[], chatTemplate := [],
       preTokenizerPatterns := [], normalization := NFC, truncationStrategy := LONGEST_FIRST)
  }

  /** `Order` key by key. */
  predicate InOrder(ks: seq<Key>)
  {
    |ks| == 22 && ks[0] == VocabSize && ks[1] == ModelType && ks[2] == AddSpecialTokens && ks[3] == AddByteFallback && ks[4] == UnkToken && ks[5] == PadToken && ks[6] == BosToken && ks[7] == EosToken && ks[8] == MaskToken && ks[9] == SepToken && ks[10] == ClsToken && ks[11] == Lowercase && ks[12] == StripAccents && ks[13] == NormalizeWhitespace && ks[14] == RemoveControlChars && ks[15] == RemoveDiacritics && ks[16] == MinFrequency && ks[17] == MaxTokens && ks[18] == UseRegex && ks[19] == RegexPattern && ks[20] == MaxLength && ks[21] == PadToMaxLength
  }

  lemma OrderInOrder()
    ensures InOrder(Order)
  {
    OrderPart0();
    OrderPart1();
    OrderPart2();
    OrderPart3();
  }

  /*
   * `OrderPart0` to `OrderPart3` check `Order` a few positions at a time: indexing all 22
   * positions of the literal in one proof is over the resource bound.
   */
  lemma OrderPart0()
    ensures |Order| == 22 && Order[0] == VocabSize && Order[1] == ModelType && Order[2] == AddSpecialTokens && Order[3] == AddByteFallback && Order[4] == UnkToken && Order[5] == PadToken
  {
  }

  lemma OrderPart1()
    ensures |Order| == 22 && Order[6] == BosToken && Order[7] == EosToken && Order[8] == MaskToken && Order[9] == SepToken && Order[10] == ClsToken
  {
  }

  lemma OrderPart2()
    ensures |Order| == 22 && Order[11] == Lowercase && Order[12] == StripAccents && Order[13] == NormalizeWhitespace && Order[14] == RemoveControlChars && Order[15] == RemoveDiacritics && Order[16] == MinFrequency
  {
  }

  lemma OrderPart3()
    ensures |Order| == 22 && Order[17] == MaxTokens && Order[18] == UseRegex && Order[19] == RegexPattern && Order[20] == MaxLength && Order[21] == PadToMaxLength
  {
  }

  /** Copying the printed fields after `vocab_size` into the defaults gives `ReadBack(c)`. */
  lemma CopyOrder(c: TokenizerConfig)
    ensures CopyFrom(Default(), c, Order, 1) == ReadBack(c)
  {
    OrderInOrder();
    CopyInOrder(c, Order);
  }

  lemma CopyInOrder(c: TokenizerConfig, ks: seq<Key>)
    requires InOrder(ks)
    ensures CopyFrom(Default(), c, ks, 1) == ReadBack(c)
  {
    var d := Default();
    CopyChunk0(d, c, ks);
    d := d.(modelType := c.modelType, addSpecialTokens := c.addSpecialTokens, addByteFallback := c.addByteFallback, unkToken := c.unkToken);
    CopyChunk1(d, c, ks);
    d := d.(padToken := c.padToken, bosToken := c.bosToken, eosToken := c.eosToken, maskToken := c.maskToken);
    CopyChunk2(d, c, ks);
    d := d.(sepToken := c.sepToken, clsToken := c.clsToken, lowercase := c.lowercase, stripAccents := c.stripAccents);
    CopyChunk3(d, c, ks);
    d := d.(normalizeWhitespace := c.normalizeWhitespace, removeControlChars := c.removeControlChars, removeDiacritics := c.removeDiacritics, minFrequency := c.minFrequency);
    CopyChunk4(d, c, ks);
    d := d.(maxTokens := c.maxTokens, useRegex := c.useRegex, regexPattern := c.regexPattern);
    CopyChunk5(d, c, ks);
    d := d.(maxLength := c.maxLength, padToMaxLength := c.padToMaxLength);
  }

  /*
   * `CopyChunk0` to `CopyChunk5` each unfold `CopyFrom` over four consecutive keys at most, and
   * `CopyKey1` to `CopyKey21` over one key each. Unfolding all 22 steps of `CopyFrom` in one
   * proof, or a single step lemma generic in the key, goes beyond the resource bound, because
   * every step rebuilds a record of 22 fields.
   */
  lemma CopyChunk0(d: TokenizerConfig, c: TokenizerConfig, ks: seq<Key>)
    requires |ks| == 22 && ks[1] == ModelType && ks[2] == AddSpecialTokens && ks[3] == AddByteFallback && ks[4] == UnkToken
    ensures CopyFrom(d, c, ks, 1) == CopyFrom(d.(modelType := c.modelType, addSpecialTokens := c.addSpecialTokens, addByteFallback := c.addByteFallback, unkToken := c.unkToken), c, ks, 5)
  {
    var e := d;
    CopyKey1(e, c, ks);
    e := e.(modelType := c.modelType);
    CopyKey2(e, c, ks);
    e := e.(addSpecialTokens := c.addSpecialTokens);
    CopyKey3(e, c, ks);
    e := e.(addByteFallback := c.addByteFallback);
    CopyKey4(e, c, ks);
    e := e.(unkToken := c.unkToken);
  }

  lemma CopyChunk1(d: TokenizerConfig, c: TokenizerConfig, ks: seq<Key>)
    requires |ks| == 22 && ks[5] == PadToken && ks[6] == BosToken && ks[7] == EosToken && ks[8] == MaskToken
    ensures CopyFrom(d, c, ks, 5) == CopyFrom(d.(padToken := c.padToken, bosToken := c.bosToken, eosToken := c.eosToken, maskToken := c.maskToken), c, ks, 9)
  {
    var e := d;
    CopyKey5(e, c, ks);
    e := e.(padToken := c.padToken);
    CopyKey6(e, c, ks);
    e := e.(bosToken := c.bosToken);
    CopyKey7(e, c, ks);
    e := e.(eosToken := c.eosToken);
    CopyKey8(e, c, ks);
    e := e.(maskToken := c.maskToken);
  }

  lemma CopyChunk2(d: TokenizerConfig, c: TokenizerConfig, ks: seq<Key>)
    requires |ks| == 22 && ks[9] == SepToken && ks[10] == ClsToken && ks[11] == Lowercase && ks[12] == StripAccents
    ensures CopyFrom(d, c, ks, 9) == CopyFrom(d.(sepToken := c.sepToken, clsToken := c.clsToken, lowercase := c.lowercase, stripAccents := c.stripAccents), c, ks, 13)
  {
    var e := d;
    CopyKey9(e, c, ks);
    e := e.(sepToken := c.sepToken);
    CopyKey10(e, c, ks);
    e := e.(clsToken := c.clsToken);
    CopyKey11(e, c, ks);
    e := e.(lowercase := c.lowercase);
    CopyKey12(e, c, ks);
    e := e.(stripAccents := c.stripAccents);
  }

  lemma CopyChunk3(d: TokenizerConfig, c: TokenizerConfig, ks: seq<Key>)
    requires |ks| == 22 && ks[13] == NormalizeWhitespace && ks[14] == RemoveControlChars && ks[15] == RemoveDiacritics && ks[16] == MinFrequency
    ensures CopyFrom(d, c, ks, 13) == CopyFrom(d.(normalizeWhitespace := c.normalizeWhitespace, removeControlChars := c.removeControlChars, removeDiacritics := c.removeDiacritics, minFrequency := c.minFrequency), c, ks, 17)
  {
    var e := d;
    CopyKey13(e, c, ks);
    e := e.(normalizeWhitespace := c.normalizeWhitespace);
    CopyKey14(e, c, ks);
    e := e.(removeControlChars := c.removeControlChars);
    CopyKey15(e, c, ks);
    e := e.(removeDiacritics := c.removeDiacritics);
    CopyKey16(e, c, ks);
    e := e.(minFrequency := c.minFrequency);
  }

  lemma CopyChunk4(d: TokenizerConfig, c: TokenizerConfig, ks: seq<Key>)
    requires |ks| == 22 && ks[17] == MaxTokens && ks[18] == UseRegex && ks[19] == RegexPattern
    ensures CopyFrom(d, c, ks, 17) == CopyFrom(d.(maxTokens := c.maxTokens, useRegex := c.useRegex, regexPattern := c.regexPattern), c, ks, 20)
  {
    var e := d;
    CopyKey17(e, c, ks);
    e := e.(maxTokens := c.maxTokens);
    CopyKey18(e, c, ks);
    e := e.(useRegex := c.useRegex);
    CopyKey19(e, c, ks);
    e := e.(regexPattern := c.regexPattern);
  }

  lemma CopyChunk5(d: TokenizerConfig, c: TokenizerConfig, ks: seq<Key>)
    requires |ks| == 22 && ks[20] == MaxLength && ks[21] == PadToMaxLength
    ensures CopyFrom(d, c, ks, 20) == CopyFrom(d.(maxLength := c.maxLength, padToMaxLength := c.padToMaxLength), c, ks, 22)
  {
    var e := d;
    CopyKey20(e, c, ks);
    e := e.(maxLength := c.maxLength);
    CopyKey21(e, c, ks);
    e := e.(padToMaxLength := c.padToMaxLength);
  }

  lemma CopyKey1(d: TokenizerConfig, c: TokenizerConfig, ks: seq<Key>)
    requires |ks| == 22 && ks[1] == ModelType
    ensures CopyFrom(d, c, ks, 1) == CopyFrom(d.(modelType := c.modelType), c, ks, 2)
  {
  }

  lemma CopyKey2(d: TokenizerConfig, c: TokenizerConfig, ks: seq<Key>)
    requires |ks| == 22 && ks[2] == AddSpecialTokens
    ensures CopyFrom(d, c, ks, 2) == CopyFrom(d.(addSpecialTokens := c.addSpecialTokens), c, ks, 3)
  {
  }

  lemma CopyKey3(d: TokenizerConfig, c: TokenizerConfig, ks: seq<Key>)
    requires |ks| == 22 && ks[3] == AddByteFallback
    ensures CopyFrom(d, c, ks, 3) == CopyFrom(d.(addByteFallback := c.addByteFallback), c, ks, 4)
  {
  }

  lemma CopyKey4(d: TokenizerConfig, c: TokenizerConfig, ks: seq<Key>)
    requires |ks| == 22 && ks[4] == UnkToken
    ensures CopyFrom(d, c, ks, 4) == CopyFrom(d.(unkToken := c.unkToken), c, ks, 5)
  {
  }

  lemma CopyKey5(d: TokenizerConfig, c: TokenizerConfig, ks: seq<Key>)
    requires |ks| == 22 && ks[5] == PadToken
    ensures CopyFrom(d, c, ks, 5) == CopyFrom(d.(padToken := c.padToken), c, ks, 6)
  {
  }

  lemma CopyKey6(d: TokenizerConfig, c: TokenizerConfig, ks: seq<Key>)
    requires |ks| == 22 && ks[6] == BosToken
    ensures CopyFrom(d, c, ks, 6) == CopyFrom(d.(bosToken := c.bosToken), c, ks, 7)
  {
  }

  lemma CopyKey7(d: TokenizerConfig, c: TokenizerConfig, ks: seq<Key>)
    requires |ks| == 22 && ks[7] == EosToken
    ensures CopyFrom(d, c, ks, 7) == CopyFrom(d.(eosToken := c.eosToken), c, ks, 8)
  {
  }

  lemma CopyKey8(d: TokenizerConfig, c: TokenizerConfig, ks: seq<Key>)
    requires |ks| == 22 && ks[8] == MaskToken
    ensures CopyFrom(d, c, ks, 8) == CopyFrom(d.(maskToken := c.maskToken), c, ks, 9)
  {
  }

  lemma CopyKey9(d: TokenizerConfig, c: TokenizerConfig, ks: seq<Key>)
    requires |ks| == 22 && ks[9] == SepToken
    ensures CopyFrom(d, c, ks, 9) == CopyFrom(d.(sepToken := c.sepToken), c, ks, 10)
  {
  }

  lemma CopyKey10(d: TokenizerConfig, c: TokenizerConfig, ks: seq<Key>)
    requires |ks| == 22 && ks[10] == ClsToken
    ensures CopyFrom(d, c, ks, 10) == CopyFrom(d.(clsToken := c.clsToken), c, ks, 11)
  {
  }

  lemma CopyKey11(d: TokenizerConfig, c: TokenizerConfig, ks: seq<Key>)
    requires |ks| == 22 && ks[11] == Lowercase
    ensures CopyFrom(d, c, ks, 11) == CopyFrom(d.(lowercase := c.lowercase), c, ks, 12)
  {
  }

  lemma CopyKey12(d: TokenizerConfig, c: TokenizerConfig, ks: seq<Key>)
    requires |ks| == 22 && ks[12] == StripAccents
    ensures CopyFrom(d, c, ks, 12) == CopyFrom(d.(stripAccents := c.stripAccents), c, ks, 13)
  {
  }

  lemma CopyKey13(d: TokenizerConfig, c: TokenizerConfig, ks: seq<Key>)
    requires |ks| == 22 && ks[13] == NormalizeWhitespace
    ensures CopyFrom(d, c, ks, 13) == CopyFrom(d.(normalizeWhitespace := c.normalizeWhitespace), c, ks, 14)
  {
  }

  lemma CopyKey14(d: TokenizerConfig, c: TokenizerConfig, ks: seq<Key>)
    requires |ks| == 22 && ks[14] == RemoveControlChars
    ensures CopyFrom(d, c, ks, 14) == CopyFrom(d.(removeControlChars := c.removeControlChars), c, ks, 15)
  {
  }

  lemma CopyKey15(d: TokenizerConfig, c: TokenizerConfig, ks: seq<Key>)
    requires |ks| == 22 && ks[15] == RemoveDiacritics
    ensures CopyFrom(d, c, ks, 15) == CopyFrom(d.(removeDiacritics := c.removeDiacritics), c, ks, 16)
  {
  }

  lemma CopyKey16(d: TokenizerConfig, c: TokenizerConfig, ks: seq<Key>)
    requires |ks| == 22 && ks[16] == MinFrequency
    ensures CopyFrom(d, c, ks, 16) == CopyFrom(d.(minFrequency := c.minFrequency), c, ks, 17)
  {
  }

  lemma CopyKey17(d: TokenizerConfig, c: TokenizerConfig, ks: seq<Key>)
    requires |ks| == 22 && ks[17] == MaxTokens
    ensures CopyFrom(d, c, ks, 17) == CopyFrom(d.(maxTokens := c.maxTokens), c, ks, 18)
  {
  }

  lemma CopyKey18(d: TokenizerConfig, c: TokenizerConfig, ks: seq<Key>)
    requires |ks| == 22 && ks[18] == UseRegex
    ensures CopyFrom(d, c, ks, 18) == CopyFrom(d.(useRegex := c.useRegex), c, ks, 19)
  {
  }

  lemma CopyKey19(d: TokenizerConfig, c: TokenizerConfig, ks: seq<Key>)
    requires |ks| == 22 && ks[19] == RegexPattern
    ensures CopyFrom(d, c, ks, 19) == CopyFrom(d.(regexPattern := c.regexPattern), c, ks, 20)
  {
  }

  lemma CopyKey20(d: TokenizerConfig, c: TokenizerConfig, ks: seq<Key>)
    requires |ks| == 22 && ks[20] == MaxLength
    ensures CopyFrom(d, c, ks, 20) == CopyFrom(d.(maxLength := c.maxLength), c, ks, 21)
  {
  }

  lemma CopyKey21(d: TokenizerConfig, c: TokenizerConfig, ks: seq<Key>)
    requires |ks| == 22 && ks[21] == PadToMaxLength
    ensures CopyFrom(d, c, ks, 21) == CopyFrom(d.(padToMaxLength := c.padToMaxLength), c, ks, 22)
  {
  }

  /** The first '=' has no space before it, so the loop skips it. */
  lemma SkipBare(s: Str, g: Str, rest: Str, c: TokenizerConfig, store: Setter)
    requires s == g + "=" + rest && NoByte(g, '=') && NoByte(g, ' ')
    ensures ParseFrom(s, 0, c, store) == ParseFrom(s, |g| + 1, c, store)
  {
    assert s[..|g|] == g;
    NoByteIn(s, 0, |g|, '=');
    NoByteIn(s, 0, |g|, ' ');
    assert s[|g|] == '=';
    FindAt(s, '=', 0, |g|);
    RFindNone(s, ' ', |g|);
  }

  /**
   * The round trip: when no string field holds a ',', parsing the printed text gives back `c`,
   * except that `vocab_size` (whose '=' follows '{', not a space) and the fields `to_string` does
   * not print keep their defaults.
   */
  lemma RoundTrip(c: TokenizerConfig)
    requires NoComma(c)
    ensures ParseFrom(ToString(c), 0, Default(), Apply) == Ok(ReadBack(c))
  {
    OrderInOrder();
    RoundTripIn(c, Order);
  }

  /** The printed `vocab_size` pair, whose '=' follows '{', is passed over. */
  lemma HeadSkipped(c: TokenizerConfig, ks: seq<Key>)
    requires InOrder(ks)
    ensures |HeadKey()| + 1 == |Prefix| + 11 <= |Braced(Printed(c, ks))|
    ensures Braced(Printed(c, ks))[|Prefix| + 11..] == AfterHead(c, ks)
    ensures ParseFrom(Braced(Printed(c, ks)), 0, Default(), Apply) == ParseFrom(Braced(Printed(c, ks)), |Prefix| + 11, Default(), Apply)
  {
    var s := Braced(Printed(c, ks));
    HeadLayout(c, ks);
    HeadKeyPlain();
    SkipBare(s, HeadKey(), AfterHead(c, ks), Default(), Apply);
    assert s[|HeadKey()| + 1..] == AfterHead(c, ks);
  }

  /** The class name, the '{' and the first key. */
  function HeadKey(): Str
  {
    Prefix + KeyName(VocabSize)
  }

  /** What follows the '=' of the printed `vocab_size` pair. */
  function AfterHead(c: TokenizerConfig, ks: seq<Key>): Str
    requires |ks| > 1
  {
    Gap(c) + " " + Render(Printed(c, ks), 1) + "}"
  }

  /** The printed `vocab_size` value and the ',' after it. */
  function Gap(c: TokenizerConfig): Str
  {
    NatText(c.vocabSize) + ","
  }

  lemma HeadLayout(c: TokenizerConfig, ks: seq<Key>)
    requires InOrder(ks)
    ensures Braced(Printed(c, ks)) == HeadKey() + "=" + AfterHead(c, ks)
  {
    var ps := Printed(c, ks);
    assert ps[0] == (KeyName(VocabSize), NatText(c.vocabSize));
    RenderFirst(ps);
    Regroup(Prefix, ps[0].0, ps[0].1, Render(ps, 1));
  }

  lemma RenderFirst(ps: seq<(Str, Str)>)
    requires |ps| > 1
    ensures Render(ps, 0) == ps[0].0 + "=" + ps[0].1 + ", " + Render(ps, 1)
  {
  }

  lemma Regroup(p: Str, k: Str, n: Str, rest: Str)
    ensures p + (k + "=" + n + ", " + rest) + "}" == (p + k) + "=" + ((n + ",") + " " + rest + "}")
  {
  }

  lemma HeadKeyPlain()
    ensures |HeadKey()| == |Prefix| + 10
    ensures NoByte(HeadKey(), '=') && NoByte(HeadKey(), ' ')
  {
  }

  lemma NatTextNoEq(c: TokenizerConfig)
    ensures NoByte(Gap(c), '=')
  {
    var n := NatText(c.vocabSize);
    forall i | 0 <= i < |Gap(c)|
      ensures Gap(c)[i] != '='
    {
      if i < |n| {
        assert IsDigit(n[i]);
      }
    }
  }

  lemma RoundTripIn(c: TokenizerConfig, ks: seq<Key>)
    requires NoComma(c) && InOrder(ks)
    ensures ParseFrom(Braced(Printed(c, ks)), 0, Default(), Apply) == Ok(ReadBack(c))
  {
    var ps := Printed(c, ks);
    HeadSkipped(c, ks);
    NatTextNoEq(c);
    PrintedPrintable(c, ks);
    ParsePairs(Braced(ps), |Prefix| + 11, Gap(c), ps, 1, Default(), Apply);
    StoreCopies(Default(), c, ks, 1);
    CopyInOrder(c, ks);
  }
}
