/**
 * The chat-template parser (template_parser.cpp): a template string is cut into literal text,
 * `{{ name }}` variables and `[NAME]` special-token placeholders. The placeholder regex
 * `(\{\{[^\}]+\}\}|\[[^\]]+\])` is written out as a scanner: `MatchAt` is what the regex
 * matches at one position, `NextMatch` the leftmost match from a position on, as the
 * regex iterator finds them.
 */
module TemplateParsing {
  import opened Wrappers
  import opened Bytes
  import Seqs

  datatype SegmentType = LITERAL | VARIABLE | SPECIAL_TOKEN

  /** A template segment; the parser never resolves `id`, which keeps its default -1. */
  datatype Segment = Segment(ty: SegmentType, value: Str, id: int)

  function Literal(value: Str): Segment
  {
    Segment(LITERAL, value, -1)
  }

  // ---- the placeholder regex ----

  /** The first index at or after `i` holding `ch`, or `|s|` when there is none. */
  function FirstFrom(s: Str, i: nat, ch: byte): (k: nat)
    requires i <= |s|
    ensures i <= k <= |s|
    ensures k < |s| ==> s[k] == ch
    ensures forall j :: i <= j < k ==> s[j] != ch
    decreases |s| - i
  {
    if i == |s| || s[i] == ch then i else FirstFrom(s, i + 1, ch)
  }

  /**
   * The end of a match of the first alternative `\{\{[^\}]+\}\}` at `i`. The greedy run of
   * non-`}` bytes can only end at the first `}`, so that `}` and the next byte close it.
   */
  function VariableEnd(s: Str, i: nat): Option<nat>
    requires i <= |s|
  {
    if i + 2 <= |s| && s[i] == '{' && s[i + 1] == '{' then
      var p := FirstFrom(s, i + 2, '}');
      if p > i + 2 && p + 1 < |s| && s[p + 1] == '}' then Some(p + 2) else None
    else None
  }

  /** The end of a match of the second alternative `\[[^\]]+\]` at `i`. */
  function SpecialEnd(s: Str, i: nat): Option<nat>
    requires i <= |s|
  {
    if i < |s| && s[i] == '[' then
      var q := FirstFrom(s, i + 1, ']');
      if q > i + 1 && q < |s| then Some(q + 1) else None
    else None
  }

  /** The end of the regex match starting at `i`, trying the alternatives in order. */
  function MatchAt(s: Str, i: nat): Option<nat>
    requires i <= |s|
  {
    if VariableEnd(s, i).Some? then VariableEnd(s, i) else SpecialEnd(s, i)
  }

  /** `{{X}}` with `X` non-empty and free of `}`. */
  predicate IsVariableText(t: Str)
  {
    |t| >= 5 && t[0] == '{' && t[1] == '{' && t[|t| - 2] == '}' && t[|t| - 1] == '}' &&
    forall j :: 2 <= j < |t| - 2 ==> t[j] != '}'
  }

  /** `[X]` with `X` non-empty and free of `]`. */
  predicate IsSpecialText(t: Str)
  {
    |t| >= 3 && t[0] == '[' && t[|t| - 1] == ']' && forall j :: 1 <= j < |t| - 1 ==> t[j] != ']'
  }

  /**
   * The scanner is the regex: it matches at `i` up to `e` exactly when `s[i..e]` has one of
   * the two placeholder shapes.
   */
  lemma MatchAtShape(s: Str, i: nat, e: nat)
    requires i <= e <= |s|
    ensures MatchAt(s, i) == Some(e) <==> IsVariableText(s[i..e]) || IsSpecialText(s[i..e])
  {
    if MatchAt(s, i) == Some(e) {
      MatchHasShape(s, i, e);
    }
    if IsVariableText(s[i..e]) || IsSpecialText(s[i..e]) {
      ShapeIsMatch(s, i, e);
    }
  }

  lemma MatchHasShape(s: Str, i: nat, e: nat)
    requires i <= e <= |s| && MatchAt(s, i) == Some(e)
    ensures IsVariableText(s[i..e]) || IsSpecialText(s[i..e])
  {
    var t := s[i..e];
    if VariableEnd(s, i).Some? {
      var p := FirstFrom(s, i + 2, '}');
      assert forall j :: 2 <= j < |t| - 2 ==> t[j] != '}' by {
        forall j | 2 <= j < |t| - 2 ensures t[j] != '}' { assert t[j] == s[i + j]; }
      }
      assert IsVariableText(t);
    } else {
      var q := FirstFrom(s, i + 1, ']');
      assert forall j :: 1 <= j < |t| - 1 ==> t[j] != ']' by {
        forall j | 1 <= j < |t| - 1 ensures t[j] != ']' { assert t[j] == s[i + j]; }
      }
      assert IsSpecialText(t);
    }
  }

  lemma ShapeIsMatch(s: Str, i: nat, e: nat)
    requires i <= e <= |s| && (IsVariableText(s[i..e]) || IsSpecialText(s[i..e]))
    ensures MatchAt(s, i) == Some(e)
  {
    var t := s[i..e];
    if IsVariableText(t) {
      assert forall j :: i + 2 <= j < e - 2 ==> s[j] != '}' by {
        forall j | i + 2 <= j < e - 2 ensures s[j] != '}' { assert s[j] == t[j - i]; }
      }
      assert s[e - 2] == t[|t| - 2];
      var p := FirstFrom(s, i + 2, '}');
      assert p == e - 2;
    } else {
      assert forall j :: i + 1 <= j < e - 1 ==> s[j] != ']' by {
        forall j | i + 1 <= j < e - 1 ensures s[j] != ']' { assert s[j] == t[j - i]; }
      }
      assert s[e - 1] == t[|t| - 1];
      assert s[i] == t[0] && s[i + 1] == t[1];
      assert VariableEnd(s, i).None?;
      var q := FirstFrom(s, i + 1, ']');
      assert q == e - 1;
    }
  }

  /** The leftmost match starting at or after `i`: its start and end. */
  function NextMatch(s: Str, i: nat): (m: Option<(nat, nat)>)
    requires i <= |s|
    ensures m.Some? ==> i <= m.value.0 < |s| && MatchAt(s, m.value.0) == Some(m.value.1)
    ensures m.Some? ==> forall j :: i <= j < m.value.0 ==> MatchAt(s, j).None?
    ensures m.None? ==> forall j :: i <= j <= |s| ==> MatchAt(s, j).None?
    decreases |s| - i
  {
    if i == |s| then None
    else if MatchAt(s, i).Some? then Some((i, MatchAt(s, i).value))
    else NextMatch(s, i + 1)
  }

  /** A match always ends after it starts and within the text. */
  lemma MatchBounds(s: Str, i: nat)
    requires i <= |s| && MatchAt(s, i).Some?
    ensures i + 3 <= MatchAt(s, i).value <= |s|
  {
  }

  // ---- parsing ----

  /**
   * The segment for the matched text: `{{ ...}}` (the content starting with a space) is a
   * variable without the braces, `[...]` a special token without the brackets, and any other
   * match is malformed.
   */
  function Classify(content: Str): Result<Segment>
  {
    if |content| >= 4 && content[..3] == "{{ " && content[|content| - 1] == '}' then
      Ok(Segment(VARIABLE, content[2..|content| - 2], -1))
    else if |content| >= 2 && content[0] == '[' && content[|content| - 1] == ']' then
      Ok(Segment(SPECIAL_TOKEN, content[1..|content| - 1], -1))
    else
      Err("Malformed template placeholder: " + content)
  }

  /** The literal pushed for the text between `last_pos` and a match, when there is any. */
  function Gap(s: Str, last: nat, start: nat): seq<Segment>
    requires last <= start <= |s|
  {
    if start > last then [Literal(s[last..start])] else []
  }

  /** `parse` from `last_pos` on. */
  function ParseFrom(s: Str, last: nat): Result<seq<Segment>>
    requires last <= |s|
    decreases |s| - last
  {
    match NextMatch(s, last)
    case None => Ok(if last < |s| then [Literal(s[last..])] else [])
    case Some((start, end)) =>
      MatchBounds(s, start);
      match Classify(s[start..end])
      case Err(m) => Err(m)
      case Ok(seg) =>
        match ParseFrom(s, end)
        case Err(m) => Err(m)
        case Ok(rest) => Ok(Gap(s, last, start) + [seg] + rest)
  }

  /** `TemplateParser::parse`. */
  function Parse(s: Str): Result<seq<Segment>>
  {
    ParseFrom(s, 0)
  }

  /** The segments already pushed, in front of the parse of the rest. */
  function Prefixed(segs: seq<Segment>, r: Result<seq<Segment>>): Result<seq<Segment>>
  {
    match r
    case Ok(rest) => Ok(segs + rest)
    case Err(m) => Err(m)
  }

  /** The loop of `parse` over the regex matches, with its `last_pos` accumulator. */
  method ParseTemplate(s: Str) returns (r: Result<seq<Segment>>)
    ensures r == Parse(s)
  {
    var segs: seq<Segment> := [];
    var lastPos: nat := 0;
    var m := NextMatch(s, 0);
    PrefixedNil(Parse(s));
    while m.Some?
      invariant lastPos <= |s| && m == NextMatch(s, lastPos)
      invariant Parse(s) == Prefixed(segs, ParseFrom(s, lastPos))
      decreases |s| - lastPos
    {
      var (start, end) := m.value;
      MatchBounds(s, start);
      ghost var before := segs;
      if start > lastPos {
        segs := segs + [Literal(s[lastPos..start])];
      }
      var placeholder := Classify(s[start..end]);
      if placeholder.Err? {
        return Err(placeholder.msg);
      }
      segs := segs + [placeholder.value];
      PrefixedStep(s, lastPos, before, segs);
      lastPos := end;
      m := NextMatch(s, lastPos);
    }
    if lastPos < |s| {
      segs := segs + [Literal(s[lastPos..])];
    }
    Seqs.AppendNil(segs);
    return Ok(segs);
  }

  lemma PrefixedNil(r: Result<seq<Segment>>)
    ensures Prefixed([], r) == r
  {
    if r.Ok? {
      Seqs.NilAppend(r.value);
    }
  }

  /** One turn of the loop: the segments of one match move from the parse into the prefix. */
  lemma PrefixedStep(s: Str, last: nat, before: seq<Segment>, after: seq<Segment>)
    requires last <= |s| && NextMatch(s, last).Some?
    requires Classify(s[NextMatch(s, last).value.0..NextMatch(s, last).value.1]).Ok?
    requires after == before + Gap(s, last, NextMatch(s, last).value.0) +
      [Classify(s[NextMatch(s, last).value.0..NextMatch(s, last).value.1]).value]
    ensures NextMatch(s, last).value.1 <= |s|
    ensures Prefixed(before, ParseFrom(s, last)) == Prefixed(after, ParseFrom(s, NextMatch(s, last).value.1))
  {
    var (start, end) := NextMatch(s, last).value;
    MatchBounds(s, start);
    var lit := Gap(s, last, start);
    var seg := Classify(s[start..end]).value;
    match ParseFrom(s, end)
    case Err(_) =>
    case Ok(rest) =>
      assert ParseFrom(s, last) == Ok(lit + [seg] + rest);
      Seqs.Regroup(before, lit, [seg], rest);
  }

  // ---- properties ----

  /** How a segment is written in a template. */
  function RenderSegment(seg: Segment): Str
  {
    match seg.ty
    case LITERAL => seg.value
    case VARIABLE => "{{" + seg.value + "}}"
    case SPECIAL_TOKEN => "[" + seg.value + "]"
  }

  function Render(segs: seq<Segment>): Str
  {
    if segs == [] then [] else RenderSegment(segs[0]) + Render(segs[1..])
  }

  lemma {:induction false} RenderAppend(a: seq<Segment>, b: seq<Segment>)
    ensures Render(a + b) == Render(a) + Render(b)
    decreases |a|
  {
    if a != [] {
      assert (a + b)[1..] == a[1..] + b;
      RenderAppend(a[1..], b);
    } else {
      Seqs.NilAppend(b);
    }
  }

  /** A classified match is written back as the text it was cut from. */
  lemma ClassifyRender(t: Str)
    requires IsVariableText(t) || IsSpecialText(t)
    requires Classify(t).Ok?
    ensures RenderSegment(Classify(t).value) == t
  {
    if IsVariableText(t) {
      assert t[..3] == "{{ ";
      VariableRender(t);
    } else {
      SpecialRender(t);
    }
  }

  lemma VariableRender(t: Str)
    requires IsVariableText(t)
    ensures "{{" + t[2..|t| - 2] + "}}" == t
  {
    Seqs.SliceSplit(t, 0, 2, |t| - 2);
    assert t[..2] == "{{";
    assert t[|t| - 2..] == "}}";
  }

  lemma SpecialRender(t: Str)
    requires IsSpecialText(t)
    ensures "[" + t[1..|t| - 1] + "]" == t
  {
    Seqs.SliceSplit(t, 0, 1, |t| - 1);
    assert t[..1] == "[";
    assert t[|t| - 1..] == "]";
  }

  /** Writing the parsed segments back, from `last` on, gives the rest of the text. */
  lemma {:induction false} ParseFromRender(s: Str, last: nat)
    requires last <= |s|
    ensures ParseFrom(s, last).Ok? ==> Render(ParseFrom(s, last).value) == s[last..]
    decreases |s| - last
  {
    match NextMatch(s, last)
    case None =>
      if last < |s| {
        assert Render([Literal(s[last..])]) == s[last..] + Render([]);
      }
    case Some((start, end)) =>
      MatchBounds(s, start);
      MatchAtShape(s, start, end);
      if Classify(s[start..end]).Ok? && ParseFrom(s, end).Ok? {
        ParseFromRender(s, end);
        ClassifyRender(s[start..end]);
        var seg := Classify(s[start..end]).value;
        var rest := ParseFrom(s, end).value;
        RenderParts(Gap(s, last, start), seg, rest);
        RenderGap(s, last, start);
        Seqs.SliceSplit(s, last, start, end);
      }
  }

  /** Segments around one placeholder are written back piece by piece. */
  lemma RenderParts(a: seq<Segment>, seg: Segment, rest: seq<Segment>)
    ensures Render(a + [seg] + rest) == Render(a) + RenderSegment(seg) + Render(rest)
  {
    RenderAppend(a + [seg], rest);
    RenderAppend(a, [seg]);
    assert Render([seg]) == RenderSegment(seg) + Render([]);
    Seqs.AppendNil(RenderSegment(seg));
  }

  /** The gap literal is written back as the text it was cut from. */
  lemma RenderGap(s: Str, last: nat, start: nat)
    requires last <= start <= |s|
    ensures Render(Gap(s, last, start)) == s[last..start]
  {
    if start > last {
      assert Render([Literal(s[last..start])]) == s[last..start] + Render([]);
      Seqs.AppendNil(s[last..start]);
    }
  }

  /**
   * Round trip: putting `[ ]` back around special-token names and `{{ }}` around variables,
   * the segments of a successful parse spell the template.
   */
  lemma ParseRender(s: Str)
    ensures Parse(s).Ok? ==> Render(Parse(s).value) == s
  {
    ParseFromRender(s, 0);
    assert s[0..] == s;
  }

  /**
   * What each segment of a successful parse holds: a literal is non-empty text; a special
   * token a non-empty name free of `]`; a variable everything between the braces, which
   * starts with a space and has no `}`. The id is never resolved.
   */
  predicate SegmentOk(seg: Segment)
  {
    && seg.id == -1
    && seg.value != []
    && (seg.ty == SPECIAL_TOKEN ==> forall j :: 0 <= j < |seg.value| ==> seg.value[j] != ']')
    && (seg.ty == VARIABLE ==> seg.value[0] == ' ' && forall j :: 0 <= j < |seg.value| ==> seg.value[j] != '}')
  }

  /** No two literals in a row: the gap before a match is a single literal. */
  predicate LiteralsSeparated(segs: seq<Segment>)
    decreases |segs|
  {
    |segs| < 2 || (!(segs[0].ty == LITERAL && segs[1].ty == LITERAL) && LiteralsSeparated(segs[1..]))
  }

  predicate AllOk(segs: seq<Segment>)
  {
    forall k :: 0 <= k < |segs| ==> SegmentOk(segs[k])
  }

  lemma AllOkConcat(a: seq<Segment>, b: seq<Segment>)
    ensures AllOk(a + b) <==> AllOk(a) && AllOk(b)
  {
    if AllOk(a) && AllOk(b) {
      forall k | 0 <= k < |a + b| ensures SegmentOk((a + b)[k]) {
        if k >= |a| { assert (a + b)[k] == b[k - |a|]; }
      }
    }
    if AllOk(a + b) {
      forall k | 0 <= k < |a| ensures SegmentOk(a[k]) {
        assert (a + b)[k] == a[k];
      }
      forall k | 0 <= k < |b| ensures SegmentOk(b[k]) {
        assert (a + b)[k + |a|] == b[k];
      }
    }
  }

  /** A segment put in front keeps literals apart unless it and the next one are literals. */
  lemma SeparatedCons(x: Segment, rest: seq<Segment>)
    requires LiteralsSeparated(rest)
    requires rest != [] ==> x.ty != LITERAL || rest[0].ty != LITERAL
    ensures LiteralsSeparated([x] + rest)
  {
    assert ([x] + rest)[1..] == rest;
  }

  /** A classified match is a well-formed variable or special token. */
  lemma ClassifyOk(t: Str)
    requires IsVariableText(t) || IsSpecialText(t)
    requires Classify(t).Ok?
    ensures SegmentOk(Classify(t).value) && Classify(t).value.ty != LITERAL
  {
    var seg := Classify(t).value;
    if seg.ty == VARIABLE {
      assert t[..3] == "{{ ";
      assert IsVariableText(t);
      forall j | 0 <= j < |seg.value| ensures seg.value[j] != '}' {
        assert seg.value[j] == t[j + 2];
      }
    } else {
      assert IsSpecialText(t);
      forall j | 0 <= j < |seg.value| ensures seg.value[j] != ']' {
        assert seg.value[j] == t[j + 1];
      }
    }
  }

  lemma {:induction false} ParseFromShape(s: Str, last: nat)
    requires last <= |s|
    ensures ParseFrom(s, last).Ok? ==> AllOk(ParseFrom(s, last).value) && LiteralsSeparated(ParseFrom(s, last).value)
    decreases |s| - last
  {
    match NextMatch(s, last)
    case None =>
    case Some((start, end)) =>
      MatchBounds(s, start);
      MatchAtShape(s, start, end);
      if Classify(s[start..end]).Ok? && ParseFrom(s, end).Ok? {
        ParseFromShape(s, end);
        ClassifyOk(s[start..end]);
        var seg := Classify(s[start..end]).value;
        var rest := ParseFrom(s, end).value;
        SeparatedCons(seg, rest);
        AllOkConcat([seg], rest);
        if start > last {
          SeparatedCons(Literal(s[last..start]), [seg] + rest);
        }
        AllOkConcat(Gap(s, last, start), [seg] + rest);
        Seqs.AppendAssoc(Gap(s, last, start), [seg], rest);
      }
  }

  /**
   * Every segment of a successful parse is well formed and no two literals are adjacent.
   * In particular every variable name starts with a space.
   */
  lemma ParseShape(s: Str)
    ensures Parse(s).Ok? ==> AllOk(Parse(s).value) && LiteralsSeparated(Parse(s).value)
  {
    ParseFromShape(s, 0);
  }

  /** Parsing fails only on a `{{X}}` placeholder whose content does not start with a space. */
  lemma {:induction false} ParseFromErr(s: Str, last: nat)
    requires last <= |s|
    ensures ParseFrom(s, last).Err? ==>
      exists i, e :: last <= i < e <= |s| && MatchAt(s, i) == Some(e) && IsVariableText(s[i..e]) && s[i + 2] != ' '
    ensures ParseFrom(s, last).Err? ==>
      |ParseFrom(s, last).msg| > 32 && ParseFrom(s, last).msg[..32] == "Malformed template placeholder: "
    decreases |s| - last
  {
    match NextMatch(s, last)
    case None =>
    case Some((start, end)) =>
      MatchBounds(s, start);
      MatchAtShape(s, start, end);
      var t := s[start..end];
      if Classify(t).Err? {
        ClassifyErrShape(t);
        assert t[2] == s[start + 2];
        var msg := Classify(t).msg;
        assert msg == "Malformed template placeholder: " + t;
        assert msg[..32] == "Malformed template placeholder: ";
      } else {
        ParseFromErr(s, end);
      }
  }

  /** Of the two placeholder shapes, only a variable without the leading space is malformed. */
  lemma ClassifyErrShape(t: Str)
    requires IsVariableText(t) || IsSpecialText(t)
    ensures Classify(t).Err? ==> IsVariableText(t) && t[2] != ' '
  {
    if IsVariableText(t) && t[2] == ' ' {
      assert t[..3] == "{{ ";
    }
  }

  /**
   * `parse` throws only at a `{{X}}` whose content lacks the leading space, with the
   * message "Malformed template placeholder: " and the placeholder; a template with no `{`
   * always parses.
   */
  lemma ParseErr(s: Str)
    ensures Parse(s).Err? ==>
      exists i, e :: 0 <= i < e <= |s| && MatchAt(s, i) == Some(e) && IsVariableText(s[i..e]) && s[i + 2] != ' '
    ensures Parse(s).Err? ==> |Parse(s).msg| > 32 && Parse(s).msg[..32] == "Malformed template placeholder: "
    ensures (forall j :: 0 <= j < |s| ==> s[j] != '{') ==> Parse(s).Ok?
  {
    ParseFromErr(s, 0);
  }

  /** The empty template parses to nothing; a template without `[` or `{` is one literal. */
  lemma ParseNoPlaceholder(s: Str)
    requires forall j :: 0 <= j < |s| ==> s[j] != '[' && s[j] != '{'
    ensures Parse(s) == Ok(if s == [] then [] else [Literal(s)])
  {
    assert NextMatch(s, 0).None?;
    assert s[0..] == s;
  }

  /** `is_special_token_placeholder`: at least two bytes, opened by `[` and closed by `]`. */
  predicate IsSpecialTokenPlaceholder(s: Str)
  {
    |s| >= 2 && s[0] == '[' && s[|s| - 1] == ']'
  }

  /**
   * Every special-token match passes the check, but the check is wider than the regex:
   * `[]` passes it and is not a match.
   */
  lemma SpecialPlaceholderWider(s: Str, i: nat, e: nat)
    requires i <= e <= |s| && MatchAt(s, i) == Some(e) && s[i] == '['
    ensures IsSpecialTokenPlaceholder(s[i..e])
    ensures IsSpecialTokenPlaceholder("[]") && MatchAt("[]", 0).None?
  {
    MatchAtShape(s, i, e);
    assert s[i..e][0] == '[';
  }
}
