/** Python's one-sided slices. */
module PythonSlices {
  /** The position a slice bound stands for in a list of `len` items: a negative bound counts from the
      end, and both ends clip. */
  function Bound(len: nat, i: int): (at: nat)
    ensures at <= len
  {
    if i < 0 then (if len + i < 0 then 0 else len + i) else if i > len then len else i
  }

  /** `s[:n]` */
  function Upto<T>(s: seq<T>, n: int): seq<T> {
    s[..Bound(|s|, n)]
  }

  /** `s[i:]` */
  function From<T>(s: seq<T>, i: int): seq<T> {
    s[Bound(|s|, i)..]
  }

  /** The two slices at one bound share the list between them; a bound counted from either end leaves
      that many items on its side, all of them if there are fewer. */
  lemma SlicesSplit<T>(s: seq<T>, i: int)
    ensures Upto(s, i) + From(s, i) == s
    ensures i >= 0 ==> |Upto(s, i)| == if i < |s| then i else |s|
    ensures i < 0 ==> |From(s, i)| == if -i < |s| then -i else |s|
  {
  }
}
