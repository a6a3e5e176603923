/** The byte-stream-split encoding: byte b of every value, for each b in turn. */
module ByteStreamSplit {
  import opened Arithmetic

  /** All first bytes of the n values, then all second bytes, and so on. */
  function Split(src: seq<bv8>, n: nat, w: nat): (out: seq<bv8>)
    requires |src| == n * w
    ensures |out| == n * w
  {
    seq(n * w, k requires 0 <= k < n * w => (SplitIndex(k, n, w); src[k % n * w + k / n]))
  }

  lemma SplitIndex(k: nat, n: nat, w: nat)
    requires k < n * w
    ensures n > 0 && 0 <= k % n * w + k / n < n * w
  {
    Positive(k, n, w);
    Commute(n, w);
    Parts(k, w, n);
    Inside(k % n, n, k / n, w);
  }

  /** The values put back together: byte k % w of value k / w. */
  function Unsplit(data: seq<bv8>, n: nat, w: nat): (out: seq<bv8>)
    requires n * w <= |data|
    ensures |out| == n * w
  {
    seq(n * w, k requires 0 <= k < n * w => (UnsplitIndex(k, n, w); data[k % w * n + k / w]))
  }

  lemma UnsplitIndex(k: nat, n: nat, w: nat)
    requires k < n * w
    ensures w > 0 && 0 <= k % w * n + k / w < n * w
  {
    Positive(k, n, w);
    Parts(k, n, w);
    Inside(k % w, w, k / w, n);
    Commute(n, w);
  }

  /** Splitting loses nothing, whatever follows the streams. */
  lemma UnsplitSplit(src: seq<bv8>, n: nat, w: nat, rest: seq<bv8>)
    requires |src| == n * w
    ensures Unsplit(Split(src, n, w) + rest, n, w) == src
  {
    var data := Split(src, n, w) + rest;
    forall k | 0 <= k < n * w ensures Unsplit(data, n, w)[k] == src[k] {
      UnsplitAt(src, n, w, rest, k);
    }
  }

  lemma UnsplitAt(src: seq<bv8>, n: nat, w: nat, rest: seq<bv8>, k: nat)
    requires |src| == n * w && k < n * w
    ensures Unsplit(Split(src, n, w) + rest, n, w)[k] == src[k]
  {
    UnsplitIndex(k, n, w);
    Parts(k, n, w);
    var at := k % w * n + k / w;
    Coordinates(k % w, k / w, n);
    assert (Split(src, n, w) + rest)[at] == Split(src, n, w)[at];
  }

  lemma SplitStep(src: seq<bv8>, n: nat, w: nat, b: nat, i: nat)
    requires |src| == n * w && b < w && i < n
    ensures b * n + i < n * w && i * w + b < n * w
    ensures Split(src, n, w)[b * n + i] == src[i * w + b]
  {
    Inside(i, n, b, w);
    Inside(b, w, i, n);
    Commute(n, w);
    Coordinates(b, i, n);
  }

  /** The encoder's two loops. */
  method Encode(src: seq<bv8>, n: nat, w: nat) returns (out: seq<bv8>)
    requires |src| == n * w
    ensures out == Split(src, n, w)
  {
    hide Split;
    var dst := new bv8[n * w];
    for b := 0 to w
      invariant b * n <= n * w
      invariant forall k :: 0 <= k < b * n ==> k < n * w && dst[k] == Split(src, n, w)[k]
    {
      for i := 0 to n
        invariant b * n + i <= n * w && i <= n
        invariant forall k :: 0 <= k < b * n + i ==> dst[k] == Split(src, n, w)[k]
      {
        SplitStep(src, n, w, b, i);
        dst[b * n + i] := src[i * w + b];
      }
      Successor(b, n);
    }
    Commute(n, w);
    return dst[..];
  }

  /** The decoder's two loops; too little data gives nothing. */
  method Decode(data: seq<bv8>, n: nat, w: nat) returns (out: seq<bv8>)
    ensures out == if n * w > |data| then [] else Unsplit(data, n, w)
  {
    if n * w > |data| {
      return [];
    }
    var dst := new bv8[n * w];
    for b := 0 to w
      invariant forall k :: 0 <= k < n * w && k % w < b ==> dst[k] == Unsplit(data, n, w)[k]
    {
      for i := 0 to n
        invariant forall k :: 0 <= k < n * w && (k % w < b || (k % w == b && k / w < i)) ==>
                    dst[k] == Unsplit(data, n, w)[k]
      {
        Inside(i, n, b, w);
        Inside(b, w, i, n);
        Commute(n, w);
        Coordinates(i, b, w);
        dst[i * w + b] := data[b * n + i];
        forall k | 0 <= k < n * w && (k % w < b || (k % w == b && k / w < i + 1))
          ensures dst[k] == Unsplit(data, n, w)[k]
        {
          Parts(k, n, w);
        }
      }
      forall k | 0 <= k < n * w && k % w < b + 1 ensures dst[k] == Unsplit(data, n, w)[k] {
        Parts(k, n, w);
      }
    }
    return dst[..];
  }
}
