/** Bytes and the byte-range copy (memcpy) that the driver builds everything on. */
module Bytes {

  /** A C `char` / `u8` as stored in the device and the key. */
  newtype Byte = b: int | 0 <= b < 256

  function Min(a: int, b: int): (m: int)
    ensures m <= a && m <= b && (m == a || m == b)
  {
    if a < b then a else b
  }

  /** `s` with the bytes at `[at, at + |t|)` replaced by `t`. */
  function Splice(s: seq<Byte>, at: nat, t: seq<Byte>): (r: seq<Byte>)
    requires at + |t| <= |s|
    ensures |r| == |s|
  {
    s[..at] + t + s[at + |t|..]
  }

  /** Inside the spliced range are the bytes of `t`; outside it, those of `s`. */
  lemma SpliceAt(s: seq<Byte>, at: nat, t: seq<Byte>)
    requires at + |t| <= |s|
    ensures forall i :: 0 <= i < |s| && !(at <= i < at + |t|) ==> Splice(s, at, t)[i] == s[i]
    ensures forall i :: 0 <= i < |t| ==> Splice(s, at, t)[at + i] == t[i]
    ensures Splice(s, at, t)[at..at + |t|] == t
  {
  }

  /** Two adjacent splices are one splice of the concatenation. */
  lemma SpliceExtend(s: seq<Byte>, at: nat, t: seq<Byte>, u: seq<Byte>)
    requires at + |t| + |u| <= |s|
    ensures Splice(Splice(s, at, t), at + |t|, u) == Splice(s, at, t + u)
  {
    var l, r := Splice(Splice(s, at, t), at + |t|, u), Splice(s, at, t + u);
    assert forall i :: 0 <= i < |s| ==> l[i] == r[i] by {
      forall i | 0 <= i < |s|
        ensures l[i] == r[i]
      {
        if at + |t| <= i < at + |t| + |u| {
          assert l[i] == u[i - at - |t|] == (t + u)[i - at];
        } else if at <= i < at + |t| {
          assert l[i] == t[i - at] == (t + u)[i - at];
        }
      }
    }
  }

  /** A slice of a slice is a slice of the original. */
  lemma SliceOfSlice(s: seq<Byte>, from: nat, to: nat, lo: nat, hi: nat)
    requires from <= to <= |s| && lo <= hi <= to - from
    ensures s[from..to][lo..hi] == s[from + lo..from + hi]
  {
    assert forall i :: 0 <= i < hi - lo ==> s[from..to][lo..hi][i] == s[from + lo + i];
  }

  /** memcpy(dst + at, src, |src|). */
  method MemCpy(dst: array<Byte>, at: nat, src: seq<Byte>)
    requires at + |src| <= dst.Length
    modifies dst
    ensures dst[..] == Splice(old(dst[..]), at, src)
  {
    forall i | 0 <= i < |src| {
      dst[at + i] := src[i];
    }
    assert forall i :: 0 <= i < dst.Length ==> dst[..][i] == Splice(old(dst[..]), at, src)[i] by {
      forall i | 0 <= i < dst.Length
        ensures dst[..][i] == Splice(old(dst[..]), at, src)[i]
      {
        if at <= i < at + |src| {
          assert dst[i] == src[i - at];
        }
      }
    }
  }
}
