/**
 * The conversions between the library's vectors and the flat records handed across the Rust
 * bridge (vector_conversions.cpp). Flat lists are copied element for element; a list of lists
 * travels as one flat `data` list plus the `lengths` of its rows, and is cut back into rows of
 * those lengths, in order.
 */
module VectorConversions {
  import opened Bytes
  import opened TokenTypes

  datatype TokenVec = TokenVec(tokens: seq<Token>)
  datatype IdVec = IdVec(ids: seq<i32>)
  datatype StringVec = StringVec(strings: seq<Str>)
  datatype MergeRuleVec = MergeRuleVec(rules: seq<MergeRule>)

  /** `IdVecVec` and `StringVecVec`: the rows written one after the other, and each row's length. */
  datatype Nested<T> = Nested(data: seq<T>, lengths: seq<nat>)

  type IdVecVec = Nested<i32>
  type StringVecVec = Nested<Str>

  /** The copying loops: `push_back` of each element in turn. */
  function Copied<T>(s: seq<T>): (r: seq<T>)
    ensures r == s
    decreases |s|
  {
    if s == [] then [] else Copied(s[..|s| - 1]) + [s[|s| - 1]]
  }

  /** `to_token_vec`. */
  function ToTokenVec(tokens: seq<Token>): (r: TokenVec)
    ensures |r.tokens| == |tokens| && forall k :: 0 <= k < |tokens| ==> r.tokens[k] == tokens[k]
  {
    TokenVec(Copied(tokens))
  }

  /** `to_id_vec`: the ids are assigned as a whole. */
  function ToIdVec(ids: seq<i32>): (r: IdVec)
    ensures |r.ids| == |ids| && forall k :: 0 <= k < |ids| ==> r.ids[k] == ids[k]
  {
    IdVec(ids)
  }

  /** `to_string_vec`. */
  function ToStringVec(strings: seq<Str>): (r: StringVec)
    ensures |r.strings| == |strings| && forall k :: 0 <= k < |strings| ==> r.strings[k] == strings[k]
  {
    StringVec(Copied(strings))
  }

  /** `to_merge_rule_vec`. */
  function ToMergeRuleVec(rules: seq<MergeRule>): (r: MergeRuleVec)
    ensures |r.rules| == |rules| && forall k :: 0 <= k < |rules| ==> r.rules[k] == rules[k]
  {
    MergeRuleVec(Copied(rules))
  }

  /** `from_token_vec`. */
  function FromTokenVec(vec: TokenVec): (r: seq<Token>)
    ensures |r| == |vec.tokens| && forall k :: 0 <= k < |r| ==> r[k] == vec.tokens[k]
  {
    Copied(vec.tokens)
  }

  /** `from_id_vec`. */
  function FromIdVec(vec: IdVec): (r: seq<i32>)
    ensures |r| == |vec.ids| && forall k :: 0 <= k < |r| ==> r[k] == vec.ids[k]
  {
    Copied(vec.ids)
  }

  /** `from_string_vec`. */
  function FromStringVec(vec: StringVec): (r: seq<Str>)
    ensures |r| == |vec.strings| && forall k :: 0 <= k < |r| ==> r[k] == vec.strings[k]
  {
    Copied(vec.strings)
  }

  /** `from_merge_rule_vec`. */
  function FromMergeRuleVec(vec: MergeRuleVec): (r: seq<MergeRule>)
    ensures |r| == |vec.rules| && forall k :: 0 <= k < |r| ==> r[k] == vec.rules[k]
  {
    Copied(vec.rules)
  }

  /** Each flat list comes back unchanged from a conversion there and back. */
  lemma FlatRoundTrips(tokens: seq<Token>, ids: seq<i32>, strings: seq<Str>, rules: seq<MergeRule>)
    ensures FromTokenVec(ToTokenVec(tokens)) == tokens
    ensures FromIdVec(ToIdVec(ids)) == ids
    ensures FromStringVec(ToStringVec(strings)) == strings
    ensures FromMergeRuleVec(ToMergeRuleVec(rules)) == rules
  {
  }

  /** The sum of a list of lengths. */
  function Sum(ns: seq<nat>): nat
  {
    if ns == [] then 0 else ns[0] + Sum(ns[1..])
  }

  /** The rows written one after the other. */
  function Flat<T>(rows: seq<seq<T>>): seq<T>
  {
    if rows == [] then [] else rows[0] + Flat(rows[1..])
  }

  /** The first loop of `to_*_vec_vec`: each row's length, in order. */
  function Lengths<T>(rows: seq<seq<T>>): (ls: seq<nat>)
    ensures |ls| == |rows| && forall k :: 0 <= k < |rows| ==> ls[k] == |rows[k]|
  {
    seq(|rows|, k requires 0 <= k < |rows| => |rows[k]|)
  }

  /** The flat data is as long as the recorded lengths add up to. */
  lemma {:induction false} FlatLength<T>(rows: seq<seq<T>>)
    ensures |Flat(rows)| == Sum(Lengths(rows))
    decreases |rows|
  {
    if rows != [] {
      FlatLength(rows[1..]);
      assert Lengths(rows)[1..] == Lengths(rows[1..]);
    }
  }

  /**
   * `to_id_vec_vec` and `to_string_vec_vec`: the lengths of the rows, in order, and the rows
   * appended to `data` one after the other.
   */
  function Flatten<T>(rows: seq<seq<T>>): (r: Nested<T>)
    ensures |r.lengths| == |rows| && forall k :: 0 <= k < |rows| ==> r.lengths[k] == |rows[k]|
    ensures |r.data| == Sum(r.lengths)
  {
    FlatLength(rows);
    Nested(Flat(rows), Lengths(rows))
  }

  /**
   * The loop of `from_*_vec_vec` from offset `start` on: for each length in turn, the next
   * slice of that length, the offset then moving past it.
   */
  function Cut<T>(data: seq<T>, lengths: seq<nat>, start: nat): (rows: seq<seq<T>>)
    requires start + Sum(lengths) <= |data|
    ensures |rows| == |lengths| && forall k :: 0 <= k < |rows| ==> |rows[k]| == lengths[k]
    ensures Flat(rows) == data[start..start + Sum(lengths)]
    decreases |lengths|
  {
    if lengths == [] then []
    else
      var rest := Cut(data, lengths[1..], start + lengths[0]);
      assert data[start..start + Sum(lengths)] == data[start..start + lengths[0]] + data[start + lengths[0]..start + Sum(lengths)];
      [data[start..start + lengths[0]]] + rest
  }

  /**
   * `from_id_vec_vec` and `from_string_vec_vec`: the data cut into consecutive rows of the
   * recorded lengths. The source does not check that the lengths fit the data; cutting past
   * its end is undefined behaviour, so it is excluded here.
   */
  function Unflatten<T>(vec: Nested<T>): (rows: seq<seq<T>>)
    requires Sum(vec.lengths) <= |vec.data|
    ensures |rows| == |vec.lengths| && forall k :: 0 <= k < |rows| ==> |rows[k]| == vec.lengths[k]
    ensures Flat(rows) == vec.data[..Sum(vec.lengths)]
  {
    Cut(vec.data, vec.lengths, 0)
  }

  /** Cutting data that starts with some rows written one after the other gives those rows back. */
  lemma {:induction false} CutFlat<T>(before: seq<T>, rows: seq<seq<T>>, after: seq<T>)
    ensures |before| + Sum(Lengths(rows)) <= |before + Flat(rows) + after|
    ensures Cut(before + Flat(rows) + after, Lengths(rows), |before|) == rows
    decreases |rows|
  {
    FlatLength(rows);
    if rows != [] {
      var data := before + Flat(rows) + after;
      assert Lengths(rows)[1..] == Lengths(rows[1..]);
      assert data == (before + rows[0]) + Flat(rows[1..]) + after;
      CutFlat(before + rows[0], rows[1..], after);
      assert data[|before|..|before| + |rows[0]|] == rows[0];
    }
  }

  /** The round trip of the bridge: flattening a list of rows and cutting it again gives the rows back. */
  lemma NestedRoundTrip<T>(rows: seq<seq<T>>)
    ensures Sum(Flatten(rows).lengths) <= |Flatten(rows).data|
    ensures Unflatten(Flatten(rows)) == rows
  {
    CutFlat([], rows, []);
    assert [] + Flat(rows) + [] == Flat(rows);
  }

  /**
   * The other way round: cutting a record whose lengths add up to its data and flattening the
   * rows again gives the record back.
   */
  lemma NestedRoundTripBack<T>(vec: Nested<T>)
    requires Sum(vec.lengths) == |vec.data|
    ensures Flatten(Unflatten(vec)) == vec
  {
    var rows := Unflatten(vec);
    assert Lengths(rows) == vec.lengths;
    assert vec.data[..Sum(vec.lengths)] == vec.data;
  }
}
