/** The handful of JavaScript array primitives the posts router relies on
    (`filter`, `map`, `indexOf`, `splice(i, 1)`), modelled on immutable
    sequences, together with an independent recursive definition of
    "remove the first element whose key is x" that the router's
    index-then-splice idiom is proved to implement. */
module JsArrays {

  /** `s.filter(keep)`: the elements of `s` that satisfy `keep`, in order. */
  function Filter<T>(s: seq<T>, keep: T -> bool): (r: seq<T>)
    ensures |r| <= |s|
    ensures forall k :: 0 <= k < |r| ==> keep(r[k])
    ensures |r| > 0 <==> exists i :: 0 <= i < |s| && keep(s[i])
  {
    if |s| == 0 then []
    else
      var rest := Filter(s[1..], keep);
      assert forall i :: 1 <= i < |s| ==> s[i] == s[1..][i - 1];
      if keep(s[0]) then [s[0]] + rest else rest
  }

  /** `s.map(f)`: `f` applied to every element, positions kept. */
  function MapSeq<A, B>(s: seq<A>, f: A -> B): (r: seq<B>)
    ensures |r| == |s|
    ensures forall i :: 0 <= i < |s| ==> r[i] == f(s[i])
  {
    seq(|s|, i requires 0 <= i < |s| => f(s[i]))
  }

  /** `s.indexOf(x)` with strict equality: the first position holding `x`,
      or -1 when there is none. */
  function IndexOf<T(==)>(s: seq<T>, x: T): (r: int)
    ensures -1 <= r < |s|
    ensures r == -1 <==> x !in s
    ensures 0 <= r ==> s[r] == x
    ensures forall j :: 0 <= j < r ==> s[j] != x
  {
    if |s| == 0 then -1
    else if s[0] == x then 0
    else
      var k := IndexOf(s[1..], x);
      if k == -1 then -1
      else k + 1
  }

  /** The index `splice` actually starts at: a negative start counts back
      from the end and the result is clamped to `[0, len]`. */
  function SpliceStart(len: nat, start: int): (k: nat)
    ensures k <= len
    ensures 0 <= start <= len ==> k == start
    ensures start < 0 && len + start >= 0 ==> k == len + start
  {
    if start < 0 then (if len + start < 0 then 0 else len + start)
    else if start > len then len
    else start
  }

  /** `s.splice(start, 1)`, seen through the array it leaves behind: the one
      element at the effective start is dropped, the rest keep their order.
      A start of -1 drops the LAST element, which is why callers must rule
      out a failed `indexOf` before splicing. */
  function Splice1<T>(s: seq<T>, start: int): (r: seq<T>)
    ensures 0 <= start < |s| ==> |r| == |s| - 1 && r == s[..start] + s[start + 1..]
    ensures start == -1 && |s| > 0 ==> r == s[..|s| - 1]
    ensures start >= |s| ==> r == s
  {
    var k := SpliceStart(|s|, start);
    if k < |s| then s[..k] + s[k + 1..] else s
  }

  /** Reference definition: drop the first element whose key is `x`. */
  function RemoveFirstBy<T, K(==)>(s: seq<T>, key: T -> K, x: K): seq<T>
  {
    if |s| == 0 then []
    else if key(s[0]) == x then s[1..]
    else [s[0]] + RemoveFirstBy(s[1..], key, x)
  }

  /** Mapping commutes with dropping the head. */
  lemma MapSeqTail<A, B>(s: seq<A>, f: A -> B)
    requires |s| > 0
    ensures MapSeq(s, f)[1..] == MapSeq(s[1..], f)
  {
  }

  /** Splicing one past the head is splicing the tail and keeping the head. */
  lemma Splice1Cons<T>(s: seq<T>, k: nat)
    requires k + 1 < |s|
    ensures Splice1(s, k + 1) == [s[0]] + Splice1(s[1..], k)
  {
    var t := s[1..];
    assert Splice1(t, k) == t[..k] + t[k + 1..];
    assert s[..k + 1] == [s[0]] + t[..k];
    assert s[k + 2..] == t[k + 1..];
  }

  /** The router's removal idiom, `s.splice(s.map(key).indexOf(x), 1)`, is
      exactly "remove the first element keyed `x`" whenever such an element
      exists. */
  lemma {:induction false} SpliceAtIndexOfIsRemoveFirst<T, K>(s: seq<T>, key: T -> K, x: K)
    requires x in MapSeq(s, key)
    ensures Splice1(s, IndexOf(MapSeq(s, key), x)) == RemoveFirstBy(s, key, x)
  {
    if key(s[0]) != x {
      MapSeqTail(s, key);
      SpliceAtIndexOfIsRemoveFirst(s[1..], key, x);
      Splice1Cons(s, IndexOf(MapSeq(s[1..], key), x));
    }
  }
}
