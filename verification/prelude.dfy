/**
  Small building blocks shared by the admin debug model: an optional value in
  place of Python's `None`, and Python's prefix slice `s[:n]`.
 */
module Prelude {

  /** A value that may be absent; `None` plays the part of Python's `None`. */
  datatype Option<+T> = None | Some(value: T) {

    /** The carried value, or `default` when there is none. */
    function GetOr(default: T): T {
      match this
      case Some(v) => v
      case None => default
    }
  }

  function Min(a: int, b: int): int {
    if a <= b then a else b
  }

  /**
    Python's slice `s[:n]` for a non-negative bound `n`: the longest prefix
    of `s` with at most `n` elements. Slicing never fails: a bound beyond the
    end simply yields the whole sequence.
   */
  function Take<T>(s: seq<T>, n: nat): (r: seq<T>)
    ensures r <= s
    ensures |r| == Min(|s|, n)
    ensures r == s <==> |s| <= n
  {
    if |s| <= n then s else s[..n]
  }

  /**
    An independent, element-by-element reading of the same slice: copy the
    head while the bound and the input both last.
   */
  function TakeStepwise<T>(s: seq<T>, n: nat): seq<T>
    decreases n
  {
    if n == 0 || |s| == 0 then [] else [s[0]] + TakeStepwise(s[1..], n - 1)
  }

  /** The slice and its element-by-element reading agree on every input. */
  lemma {:induction false} TakeIsStepwise<T>(s: seq<T>, n: nat)
    ensures Take(s, n) == TakeStepwise(s, n)
    decreases n
  {
    if n == 0 || |s| == 0 {
    } else {
      var tail := s[1..];
      TakeIsStepwise(tail, n - 1);
      if |s| <= n {
        assert Take(tail, n - 1) == tail;
        assert s == [s[0]] + tail;
      } else {
        assert Take(tail, n - 1) == tail[..n - 1];
        assert s[..n] == [s[0]] + tail[..n - 1];
      }
    }
  }

  /** Slicing twice to the same bound is the same as slicing once. */
  lemma TakeIdempotent<T>(s: seq<T>, n: nat)
    ensures Take(Take(s, n), n) == Take(s, n)
  {
  }
}
