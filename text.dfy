/**
 * The few `String` operations the rewrite relies on, on byte sequences:
 * names are UTF-8 and their conversion to and from Java strings is taken as
 * the identity.
 */
module Text {
  import opened Base

  /** The namespace separator '.'. */
  const DOT: byte := 0x2E

  /** What Java's string concatenation makes of a null String: "null". */
  const NULL_TEXT: bytes := [0x6E, 0x75, 0x6C, 0x6C]

  /** Namespace components joined with '.'. */
  function Join(parts: seq<bytes>): bytes
    requires |parts| > 0
  {
    if |parts| == 1 then parts[0] else Join(Init(parts)) + [DOT] + Last(parts)
  }

  /** `String.startsWith`. */
  predicate StartsWith(s: bytes, prefix: bytes)
  {
    |prefix| <= |s| && s[..|prefix|] == prefix
  }

  /** `target` occurs somewhere in `s`. */
  predicate Occurs(target: bytes, s: bytes)
  {
    exists i :: 0 <= i <= |s| - |target| && StartsWith(s[i..], target)
  }

  /**
   * `String.replace(target, replacement)`: every occurrence of a non-empty
   * target, scanning left to right without overlap, becomes the replacement.
   * An empty target matches before every character and at the end.
   */
  function ReplaceAll(s: bytes, target: bytes, replacement: bytes): (r: bytes)
    ensures |target| == 0 ==> |r| == |s| + (|s| + 1) * |replacement|
    ensures |target| == 0 ==> Interleaved(r, s, replacement)
    ensures |target| > 0 && |replacement| == |target| ==> |r| == |s|
  {
    if |target| == 0 then
      InterleaveCopies(s, replacement);
      Interleave(s, replacement)
    else ReplaceScan(s, target, replacement)
  }

  function ReplaceScan(s: bytes, target: bytes, replacement: bytes): (r: bytes)
    requires |target| > 0
    ensures |replacement| == |target| ==> |r| == |s|
    decreases |s|
  {
    if |s| < |target| then s
    else if StartsWith(s, target) then replacement + ReplaceScan(s[|target|..], target, replacement)
    else [s[0]] + ReplaceScan(s[1..], target, replacement)
  }

  function Interleave(s: bytes, w: bytes): (r: bytes)
    ensures |r| == |s| + (|s| + 1) * |w|
  {
    if |s| == 0 then w else w + [s[0]] + Interleave(s[1..], w)
  }

  /**
   * `r` is `s` with `w` before each character and once more at the end:
   * character k sits right after the k-th copy of `w`.
   */
  predicate Interleaved(r: bytes, s: bytes, w: bytes)
  {
    && |r| == |s| * (|w| + 1) + |w|
    && r[|s| * (|w| + 1)..] == w
    && forall k :: 0 <= k < |s| ==>
      && k * (|w| + 1) + |w| < |r|
      && r[k * (|w| + 1) .. k * (|w| + 1) + |w|] == w
      && r[k * (|w| + 1) + |w|] == s[k]
  }

  /** Where `Interleave` puts the copies. */
  lemma {:induction false} InterleaveCopies(s: bytes, w: bytes)
    ensures Interleaved(Interleave(s, w), s, w)
    decreases |s|
  {
    if |s| > 0 {
      InterleaveCopies(s[1..], w);
      InterleavedCons(Interleave(s[1..], w), s, w);
    }
  }

  /** A copy of `w` and the first character in front of the interleaving of the rest. */
  lemma InterleavedCons(t: bytes, s: bytes, w: bytes)
    requires |s| > 0 && Interleaved(t, s[1..], w)
    ensures Interleaved(w + [s[0]] + t, s, w)
  {
    var r, n := w + [s[0]] + t, |w| + 1;
    InterleavedConsEnd(t, s, w);
    forall k | 0 <= k < |s|
      ensures k * n + |w| < |r|
      ensures r[k * n .. k * n + |w|] == w && r[k * n + |w|] == s[k]
    {
      InterleavedConsAt(t, s, w, k);
    }
  }

  /** The length and the closing copy of the longer interleaving. */
  lemma InterleavedConsEnd(t: bytes, s: bytes, w: bytes)
    requires |s| > 0 && Interleaved(t, s[1..], w)
    ensures |w + [s[0]] + t| == |s| * (|w| + 1) + |w|
    ensures (w + [s[0]] + t)[|s| * (|w| + 1)..] == w
  {
    var r, n := w + [s[0]] + t, |w| + 1;
    var last := (|s| - 1) * n;
    assert |s| * n == last + n by { MulNext(|s|, n); }
    assert |t| == last + |w|;
    Shifted(r, t, w, s[0], last, |s| * n, |w|);
    assert r[|s| * n..] == r[|s| * n .. |s| * n + |w|];
  }

  /** Copy k and character k of the longer interleaving. */
  lemma InterleavedConsAt(t: bytes, s: bytes, w: bytes, k: nat)
    requires k < |s| && Interleaved(t, s[1..], w)
    ensures k * (|w| + 1) + |w| < |w + [s[0]] + t|
    ensures (w + [s[0]] + t)[k * (|w| + 1) .. k * (|w| + 1) + |w|] == w
    ensures (w + [s[0]] + t)[k * (|w| + 1) + |w|] == s[k]
  {
    var r, n := w + [s[0]] + t, |w| + 1;
    if k > 0 {
      var p := (k - 1) * n;
      assert k * n == p + n by { MulNext(k, n); }
      InterleavedAt(t, s[1..], w, k - 1);
      Shifted(r, t, w, s[0], p, k * n, |w| + 1);
    }
  }

  /** One position of an interleaving. */
  lemma InterleavedAt(r: bytes, s: bytes, w: bytes, k: nat)
    requires k < |s| && Interleaved(r, s, w)
    ensures k * (|w| + 1) + |w| < |r|
    ensures r[k * (|w| + 1) .. k * (|w| + 1) + |w|] == w && r[k * (|w| + 1) + |w|] == s[k]
  {
    var x := s[k];
    assert k * (|w| + 1) + |w| < |r|;
    assert r[k * (|w| + 1) + |w|] == x;
    assert r[k * (|w| + 1) .. k * (|w| + 1) + |w|] == w;
  }

  lemma MulNext(k: int, n: int)
    ensures k * n == (k - 1) * n + n
  {
  }

  /** Bytes of `t` from `p` reappear in `w + [c] + t` one copy and one byte later. */
  lemma Shifted(r: bytes, t: bytes, w: bytes, c: byte, p: nat, q: nat, len: nat)
    requires r == w + [c] + t && q == p + |w| + 1 && p + len <= |t|
    ensures q + len <= |r| && r[q .. q + len] == t[p .. p + len]
    ensures len > |w| ==> r[q + |w|] == t[p + |w|]
  {
  }

  /** Replacing a text by itself changes nothing. */
  lemma {:induction false} ReplaceAllSelf(s: bytes, target: bytes)
    ensures ReplaceAll(s, target, target) == s
  {
    if |target| == 0 {
      InterleaveEmpty(s);
    } else {
      ReplaceScanSelf(s, target);
    }
  }

  lemma {:induction false} InterleaveEmpty(s: bytes)
    ensures Interleave(s, []) == s
    decreases |s|
  {
    if |s| > 0 {
      InterleaveEmpty(s[1..]);
    }
  }

  lemma {:induction false} ReplaceScanSelf(s: bytes, target: bytes)
    requires |target| > 0
    ensures ReplaceScan(s, target, target) == s
    decreases |s|
  {
    if |s| >= |target| {
      if StartsWith(s, target) {
        ReplaceScanSelf(s[|target|..], target);
        assert s == s[..|target|] + s[|target|..];
      } else {
        ReplaceScanSelf(s[1..], target);
        assert s == [s[0]] + s[1..];
      }
    }
  }

  /** A text in which a non-empty target does not occur is left as it is. */
  lemma {:induction false} ReplaceAllAbsent(s: bytes, target: bytes, replacement: bytes)
    requires |target| > 0 && !Occurs(target, s)
    ensures ReplaceAll(s, target, replacement) == s
    decreases |s|
  {
    if |s| >= |target| {
      assert !StartsWith(s[0..], target) by { assert s[0..] == s; }
      assert !Occurs(target, s[1..]) by {
        forall i | 0 <= i <= |s[1..]| - |target|
          ensures !StartsWith(s[1..][i..], target)
        {
          assert s[1..][i..] == s[i + 1..];
        }
      }
      ReplaceAllAbsent(s[1..], target, replacement);
      assert s == [s[0]] + s[1..];
    }
  }

  /**
   * A text selected because it starts with a non-empty target starts with
   * the replacement afterwards.
   */
  lemma ReplaceAllLeading(s: bytes, target: bytes, replacement: bytes)
    requires |target| > 0 && StartsWith(s, target)
    ensures StartsWith(ReplaceAll(s, target, replacement), replacement)
  {
    var r := ReplaceScan(s[|target|..], target, replacement);
    assert ReplaceAll(s, target, replacement) == replacement + r;
    assert (replacement + r)[..|replacement|] == replacement;
  }
}
