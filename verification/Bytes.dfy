/** Bytes, byte strings and the flattening of a list of byte strings. */
module Bytes {

  datatype Option<+T> = None | Some(value: T)

  type byte = b: int | 0 <= b < 256

  const NEWLINE: byte := 10
  const COMMA: byte := 44
  const ZERO: byte := 48
  const NINE: byte := 57

  predicate HasNewline(s: seq<byte>) {
    NEWLINE in s
  }

  function Min(a: int, b: int): int {
    if a < b then a else b
  }

  /** The pieces of `ss` end to end. */
  function Flatten<T>(ss: seq<seq<T>>): seq<T> {
    if ss == [] then [] else ss[0] + Flatten(ss[1..])
  }

  function Sum(ns: seq<nat>): nat {
    if ns == [] then 0 else ns[0] + Sum(ns[1..])
  }

  function Lengths<T>(ss: seq<seq<T>>): (ns: seq<nat>)
    ensures |ns| == |ss|
  {
    seq(|ss|, i requires 0 <= i < |ss| => |ss[i]|)
  }

  lemma Assoc<T>(a: seq<T>, b: seq<T>, c: seq<T>)
    ensures (a + b) + c == a + (b + c)
  {
  }

  lemma {:induction false} FlattenConcat<T>(a: seq<seq<T>>, b: seq<seq<T>>)
    ensures Flatten(a + b) == Flatten(a) + Flatten(b)
  {
    if a == [] {
      assert a + b == b;
    } else {
      FlattenConcat(a[1..], b);
      assert (a + b)[1..] == a[1..] + b;
      Assoc(a[0], Flatten(a[1..]), Flatten(b));
    }
  }

  lemma FlattenSingle<T>(x: seq<T>)
    ensures Flatten([x]) == x
  {
    assert [x][1..] == [];
  }

  lemma {:induction false} SumConcat(a: seq<nat>, b: seq<nat>)
    ensures Sum(a + b) == Sum(a) + Sum(b)
  {
    if a == [] {
      assert a + b == b;
    } else {
      SumConcat(a[1..], b);
      assert (a + b)[1..] == a[1..] + b;
    }
  }

  lemma SumPrefixStep(ns: seq<nat>, k: nat)
    requires k < |ns|
    ensures Sum(ns[..k + 1]) == Sum(ns[..k]) + ns[k]
  {
    assert ns[..k + 1] == ns[..k] + [ns[k]];
    SumConcat(ns[..k], [ns[k]]);
    assert [ns[k]][1..] == [];
  }

  lemma SumPrefixMonotone(ns: seq<nat>, a: nat, b: nat)
    requires a <= b <= |ns|
    ensures Sum(ns[..a]) <= Sum(ns[..b])
  {
    assert ns[..b] == ns[..a] + ns[a..b];
    SumConcat(ns[..a], ns[a..b]);
  }

  lemma {:induction false} FlattenLength<T>(ss: seq<seq<T>>)
    ensures |Flatten(ss)| == Sum(Lengths(ss))
  {
    if ss == [] {
    } else {
      FlattenLength(ss[1..]);
      assert Lengths(ss)[1..] == Lengths(ss[1..]);
    }
  }

  /** The bytes of piece `k` sit in the flattened string right after those of the pieces before it. */
  lemma FlattenSplitAt<T>(ss: seq<seq<T>>, k: nat)
    requires k < |ss|
    ensures Flatten(ss) == Flatten(ss[..k]) + ss[k] + Flatten(ss[k + 1..])
    ensures |Flatten(ss[..k])| == Sum(Lengths(ss)[..k])
  {
    assert ss == ss[..k] + ([ss[k]] + ss[k + 1..]);
    FlattenConcat(ss[..k], [ss[k]] + ss[k + 1..]);
    FlattenConcat([ss[k]], ss[k + 1..]);
    FlattenSingle(ss[k]);
    FlattenLength(ss[..k]);
    assert Lengths(ss[..k]) == Lengths(ss)[..k];
  }

  /** `data` is what `s` holds from index `at` on. */
  predicate IsSliceAt<T(==)>(data: seq<T>, s: seq<T>, at: nat) {
    at + |data| <= |s| && data == s[at..at + |data|]
  }

  ghost predicate IsWithin<T>(data: seq<T>, s: seq<T>) {
    exists at :: IsSliceAt(data, s, at)
  }

  /** A slice of `c` is a slice of any string that has `c` behind `e`. */
  lemma SliceShift<T>(data: seq<T>, e: seq<T>, c: seq<T>, s: seq<T>, at: nat)
    requires IsSliceAt(data, c, at) && e + c <= s
    ensures IsSliceAt(data, s, |e| + at)
  {
    assert s[..|e + c|] == e + c;
  }

  /** Two slices, one behind the other; either may be empty. */
  lemma SliceJoin<T>(first: seq<T>, rest: seq<T>, c: seq<T>, s: seq<T>, at: nat)
    requires c <= s
    requires first == [] || IsSliceAt(first, c, at)
    requires rest == [] || IsSliceAt(rest, s, at + |first|)
    ensures first + rest == [] || IsSliceAt(first + rest, s, at)
  {
    if first == [] {
      assert first + rest == rest;
    }
  }

  /** What comes behind the first `at` elements. */
  function From<T>(s: seq<T>, at: nat): seq<T> {
    if at <= |s| then s[at..] else []
  }

  lemma SliceToEnd<T>(data: seq<T>, s: seq<T>, at: nat)
    requires data == [] || IsSliceAt(data, s, at)
    ensures data <= From(s, at) && (data == From(s, at) <==> at + |data| >= |s|)
  {
  }
}
