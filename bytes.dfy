/**
 * Byte strings. A `std::string` is a sequence of bytes; here a byte is a `char` restricted to
 * 0..255 so that string literals can be written directly. Whitespace, control characters and
 * case mapping follow the C locale, which is what `std::isspace`, `std::iscntrl`, `std::tolower`
 * and `operator>>` on a `std::istringstream` use.
 */
module Bytes {
  type byte = c: char | c <= '\U{FF}'
  type Str = seq<byte>

  const TwoTo32: int := 0x1_0000_0000
  const TwoTo64: int := 0x1_0000_0000_0000_0000
  /** `int32_t` / `int`. */
  type i32 = x: int | -0x8000_0000 <= x < 0x8000_0000
  /** `size_t` / `uint64_t`. */
  type u64 = n: nat | n < 0x1_0000_0000_0000_0000

  /** The unsigned value of a byte. */
  function Code(b: byte): (n: nat)
    ensures n < 256
  {
    b as int
  }

  function ByteOf(n: nat): (b: byte)
    requires n < 256
    ensures Code(b) == n
  {
    n as char
  }

  /** `std::isspace` in the C locale: space, tab, newline, vertical tab, form feed, carriage return. */
  predicate IsSpace(b: byte)
  {
    b == ' ' || '\t' <= b <= '\r'
  }

  /** `std::iscntrl` in the C locale: bytes 0..31 and 127. */
  predicate IsCntrl(b: byte)
  {
    b < ' ' || b == '\U{7F}'
  }

  /** `std::tolower` in the C locale: only 'A'..'Z' change. */
  function ToLower(b: byte): (r: byte)
    ensures 'A' <= b <= 'Z' ==> Code(r) == Code(b) + 32
    ensures !('A' <= b <= 'Z') ==> r == b
  {
    if 'A' <= b <= 'Z' then ByteOf(Code(b) + 32) else b
  }

  /** Byte-wise ASCII lower-casing of a whole string. */
  function Lower(s: Str): (r: Str)
    ensures |r| == |s|
    ensures forall i :: 0 <= i < |s| ==> r[i] == ToLower(s[i])
  {
    if s == [] then [] else [ToLower(s[0])] + Lower(s[1..])
  }

  predicate NoSpace(s: Str)
  {
    forall i :: 0 <= i < |s| ==> !IsSpace(s[i])
  }

  /** The strings of `ss` written one after the other. */
  function Concat(ss: seq<Str>): Str
  {
    if ss == [] then [] else Concat(ss[..|ss| - 1]) + ss[|ss| - 1]
  }

  lemma {:induction false} ConcatAppend(a: seq<Str>, b: seq<Str>)
    ensures Concat(a + b) == Concat(a) + Concat(b)
    decreases |b|
  {
    if b == [] {
      assert a + b == a;
    } else {
      assert (a + b)[..|a + b| - 1] == a + b[..|b| - 1];
      ConcatAppend(a, b[..|b| - 1]);
    }
  }

  lemma ConcatCons(s: Str, ss: seq<Str>)
    ensures Concat([s] + ss) == s + Concat(ss)
  {
    ConcatAppend([s], ss);
    assert Concat([s]) == Concat([]) + s;
  }

  /** One single-byte string per byte of `s`, in order. */
  function ByteStrings(s: Str): (bs: seq<Str>)
    ensures |bs| == |s| && forall k :: 0 <= k < |s| ==> bs[k] == [s[k]]
  {
    seq(|s|, k requires 0 <= k < |s| => [s[k]])
  }

  /** The single-byte strings spell the string again. */
  lemma {:induction false} ByteStringsConcat(s: Str)
    ensures Concat(ByteStrings(s)) == s
    decreases |s|
  {
    if s != [] {
      var n := |s| - 1;
      ByteStringsConcat(s[..n]);
      assert ByteStrings(s)[..n] == ByteStrings(s[..n]);
      assert s == s[..n] + [s[n]];
    }
  }

  /** The strings of `ss` separated by `sep` (no leading or trailing separator). */
  function JoinWith(ss: seq<Str>, sep: Str): Str
  {
    if ss == [] then []
    else if |ss| == 1 then ss[0]
    else ss[0] + sep + JoinWith(ss[1..], sep)
  }

  /** Length of the longest prefix of `s` that holds no whitespace byte. */
  function RunLength(s: Str): (n: nat)
    ensures n <= |s|
    ensures NoSpace(s[..n])
    ensures n < |s| ==> IsSpace(s[n])
  {
    if s == [] || IsSpace(s[0]) then 0 else 1 + RunLength(s[1..])
  }

  /**
   * The words `operator>>` reads from a `std::istringstream` over `s`: the maximal runs of
   * non-whitespace bytes, in order.
   */
  function Words(s: Str): (ws: seq<Str>)
    ensures forall k :: 0 <= k < |ws| ==> ws[k] != [] && NoSpace(ws[k])
    ensures |ws| <= |s|
    decreases |s|
  {
    if s == [] then []
    else if IsSpace(s[0]) then Words(s[1..])
    else
      var n := RunLength(s);
      [s[..n]] + Words(s[n..])
  }

  /**
   * `w` stands at position `i` of `s` as a whole word: non-empty and whitespace-free, preceded
   * by whitespace or the start of `s`, and followed by whitespace or the end of `s`.
   */
  predicate WordAt(s: Str, w: Str, i: nat)
  {
    && w != [] && NoSpace(w) && i + |w| <= |s| && s[i..i + |w|] == w
    && (i == 0 || IsSpace(s[i - 1]))
    && (i + |w| == |s| || IsSpace(s[i + |w|]))
  }

  /** A whole word of `s[d..]` is a whole word of `s` when `s[d..]` starts after whitespace. */
  lemma WordAtShift(s: Str, d: nat, w: Str, i: nat)
    requires d <= |s| && WordAt(s[d..], w, i)
    requires d == 0 || IsSpace(s[d - 1]) || i > 0
    ensures WordAt(s, w, d + i)
  {
    assert s[d..][i..i + |w|] == s[d + i..d + i + |w|];
    if i > 0 {
      assert s[d..][i - 1] == s[d + i - 1];
    }
    if i + |w| < |s[d..]| {
      assert s[d..][i + |w|] == s[d + i + |w|];
    }
  }

  /** `w` stands somewhere in `s` as a whole word. */
  predicate IsWordOf(s: Str, w: Str)
  {
    exists i :: 0 <= i <= |s| && WordAt(s, w, i)
  }

  /** Each word of `Words(s)` is a maximal run of non-whitespace bytes of `s`. */
  lemma {:induction false} WordsMaximal(s: Str)
    ensures forall k :: 0 <= k < |Words(s)| ==> IsWordOf(s, Words(s)[k])
    decreases |s|
  {
    if s == [] {
    } else if IsSpace(s[0]) {
      var ws := Words(s[1..]);
      assert Words(s) == ws;
      WordsMaximal(s[1..]);
      forall k | 0 <= k < |ws| ensures IsWordOf(s, ws[k]) {
        var i: nat :| WordAt(s[1..], ws[k], i);
        WordAtShift(s, 1, ws[k], i);
      }
    } else {
      var n := RunLength(s);
      var rest := Words(s[n..]);
      assert Words(s) == [s[..n]] + rest;
      WordsMaximal(s[n..]);
      forall k | 0 <= k < |Words(s)| ensures IsWordOf(s, Words(s)[k]) {
        if k == 0 {
          assert WordAt(s, s[..n], 0);
        } else {
          var w := rest[k - 1];
          var j: nat :| WordAt(s[n..], w, j);
          WordAtShift(s, n, w, j);
        }
      }
    }
  }

  /** Removing the whitespace from `s` leaves exactly its words, written one after the other. */
  function Squeeze(s: Str): Str
  {
    if s == [] then [] else (if IsSpace(s[0]) then [] else [s[0]]) + Squeeze(s[1..])
  }

  lemma {:induction false} SqueezeAppend(a: Str, b: Str)
    ensures Squeeze(a + b) == Squeeze(a) + Squeeze(b)
    decreases |a|
  {
    if a == [] {
      assert a + b == b;
    } else {
      assert (a + b)[1..] == a[1..] + b;
      SqueezeAppend(a[1..], b);
    }
  }

  lemma {:induction false} SqueezeNoSpace(s: Str)
    requires NoSpace(s)
    ensures Squeeze(s) == s
    decreases |s|
  {
    if s != [] {
      assert NoSpace(s[1..]) by {
        forall i | 0 <= i < |s[1..]| ensures !IsSpace(s[1..][i]) { assert s[1..][i] == s[i + 1]; }
      }
      SqueezeNoSpace(s[1..]);
    }
  }

  lemma {:induction false} WordsConcat(s: Str)
    ensures Concat(Words(s)) == Squeeze(s)
    decreases |s|
  {
    if s == [] {
    } else if IsSpace(s[0]) {
      WordsConcat(s[1..]);
    } else {
      var n := RunLength(s);
      WordsConcat(s[n..]);
      ConcatCons(s[..n], Words(s[n..]));
      assert s == s[..n] + s[n..];
      SqueezeAppend(s[..n], s[n..]);
      SqueezeNoSpace(s[..n]);
    }
  }
}
