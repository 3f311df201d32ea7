/** Results, options and the machine integers the engine stores in its columns. */
module Basics {

  datatype Option<+T> = None | Some(value: T)

  /** The errors of `gtv_core::GtvError` that the modelled code can return. */
  datatype Error =
    | InvalidArgument
    | NodeOutOfRange(node: U64)

  datatype Result<+T> = Ok(value: T) | Err(error: Error)

  type U16 = x: int | 0 <= x < 0x1_0000
  type U32 = x: int | 0 <= x < 0x1_0000_0000
  type U64 = x: int | 0 <= x < 0x1_0000_0000_0000_0000
  type I64 = x: int | -0x8000_0000_0000_0000 <= x < 0x8000_0000_0000_0000

  const U64_MAX: U64 := 0xFFFF_FFFF_FFFF_FFFF

  function Min(a: int, b: int): (m: int)
  {
    if a <= b then a else b
  }

  function Max(a: int, b: int): (m: int)
  {
    if a <= b then b else a
  }

  ghost predicate NoDup<T>(s: seq<T>) {
    forall i, j :: 0 <= i < j < |s| ==> s[i] != s[j]
  }

  ghost function SetOf<T>(s: seq<T>): set<T> {
    set x | x in s
  }

  lemma SetOfConcat<T>(s: seq<T>, t: seq<T>)
    ensures SetOf(s + t) == SetOf(s) + SetOf(t)
  {
    forall x ensures x in SetOf(s + t) <==> x in SetOf(s) + SetOf(t) {
      assert x in s + t <==> x in s || x in t;
    }
  }

  /** A duplicate-free list has as many elements as its set. */
  lemma {:induction false} CardOfNoDup<T>(s: seq<T>)
    requires NoDup(s)
    ensures |SetOf(s)| == |s|
  {
    if s == [] {
    } else {
      var init := s[..|s| - 1];
      var last := s[|s| - 1];
      assert forall i :: 0 <= i < |init| ==> init[i] == s[i];
      CardOfNoDup(init);
      assert last !in SetOf(init);
      assert s == init + [last];
      assert SetOf(s) == SetOf(init) + {last};
    }
  }

  lemma CardOfSubset<T>(a: set<T>, b: set<T>)
    requires a <= b
    ensures |a| <= |b|
    ensures |a| == |b| ==> a == b
  {
    assert b == a + (b - a);
    assert |b| == |a| + |b - a|;
  }

  /** The positions `0..n`. */
  function Below(n: nat): (s: set<nat>)
    ensures forall i :: i in s <==> 0 <= i < n
    ensures |s| == n
  {
    if n == 0 then {} else Below(n - 1) + {n - 1}
  }
}
