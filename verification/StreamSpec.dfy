/** What writing to a stream means, on plain byte sequences. */
module StreamSpec {
  import opened Bytes

  /** `c` padded with zeros to at least `n` bytes. */
  function ZeroExtend(c: seq<u8>, n: nat): (r: seq<u8>)
    ensures |r| == if |c| < n then n else |c|
  {
    if |c| < n then c + Zeros(n - |c|) else c
  }

  /** `c` with the bytes at `at` replaced by `data`, growing if `data` reaches past the end. */
  function Splice(c: seq<u8>, at: nat, data: seq<u8>): seq<u8>
    requires at <= |c|
  {
    c[..at] + data + (if at + |data| <= |c| then c[at + |data|..] else [])
  }

  /** The meaning of a stream write: zero-extend to the write position, then splice. */
  function WriteSpec(c: seq<u8>, buf: seq<u8>, pos: nat): seq<u8> {
    Splice(ZeroExtend(c, pos), pos, buf)
  }

  /** The contents after a write, byte by byte: the new data, the old bytes around it, and zeros in a gap. */
  lemma WriteSpecAt(c: seq<u8>, buf: seq<u8>, pos: nat)
    ensures var r := WriteSpec(c, buf, pos);
            && (|c| <= pos + |buf| ==> |r| == pos + |buf|) && (pos + |buf| < |c| ==> |r| == |c|)
            && (forall i :: 0 <= i < |buf| ==> r[pos + i] == buf[i])
            && forall i :: 0 <= i < |r| && !(pos <= i < pos + |buf|) ==> r[i] == if i < |c| then c[i] else 0
  {
  }

  lemma ZerosAdd(c: seq<u8>, m: nat, n: nat)
    ensures ZeroExtend(c, |c| + m) + Zeros(n) == ZeroExtend(c, |c| + m + n)
  {
  }

  lemma WriteNothing(c: seq<u8>, pos: nat)
    ensures WriteSpec(c, [], pos) == ZeroExtend(c, pos)
  {
    var z := ZeroExtend(c, pos);
    assert z[..pos] + [] + z[pos..] == z;
  }

  lemma WriteAtEnd(c: seq<u8>, buf: seq<u8>)
    ensures WriteSpec(c, buf, |c|) == c + buf
  {
    if buf == [] {
      WriteNothing(c, |c|);
    } else {
      assert c[..|c|] == c;
    }
  }

  /** A zero extension that stops short of the write position makes no difference to the write. */
  lemma WriteAfterPartialZeros(c: seq<u8>, n: nat, buf: seq<u8>, pos: nat)
    requires n <= pos
    ensures WriteSpec(ZeroExtend(c, n), buf, pos) == WriteSpec(c, buf, pos)
  {
    if |c| < n {
      assert c + Zeros(n - |c|) + Zeros(pos - n) == c + Zeros(pos - |c|);
    }
  }

  lemma SpliceTwice(c: seq<u8>, at: nat, a: seq<u8>, b: seq<u8>)
    requires at <= |c|
    ensures at + |a| <= |Splice(c, at, a)|
    ensures Splice(Splice(c, at, a), at + |a|, b) == Splice(c, at, a + b)
  {
    var s := Splice(c, at, a);
    assert s[..at + |a|] == c[..at] + a;
    if at + |a + b| <= |c| {
      assert s[at + |a| + |b|..] == c[at + |a + b|..];
    }
  }

  /** Writing a buffer in two pieces is writing it in one. */
  lemma WriteInPieces(c: seq<u8>, a: seq<u8>, b: seq<u8>, pos: nat)
    ensures WriteSpec(WriteSpec(c, a, pos), b, pos + |a|) == WriteSpec(c, a + b, pos)
    ensures pos + |a| <= |WriteSpec(c, a, pos)|
  {
    SpliceTwice(ZeroExtend(c, pos), pos, a, b);
  }

  // ---------------------------------------------------------------- one page of a page list

  /** Rewriting a page with `head` laid over its old bytes is splicing `head` in. */
  lemma OverlayPage(flat: seq<u8>, at: nat, page: seq<u8>, phase: nat, head: seq<u8>)
    requires at + |page| <= |flat| && page == flat[at..at + |page|]
    requires phase + |head| <= |page|
    ensures Splice(flat, at, page[..phase] + head + page[phase + |head|..]) == Splice(flat, at + phase, head)
  {
    var data := page[..phase] + head + page[phase + |head|..];
    assert |data| == |page|;
    assert flat[..at] + page[..phase] == flat[..at + phase];
    assert page[phase + |head|..] + flat[at + |page|..] == flat[at + phase + |head|..];
    assert Splice(flat, at, data) == flat[..at] + page[..phase] + head + (page[phase + |head|..] + flat[at + |page|..]);
  }

  /** Splicing into the pages of a stream is writing to the stream; its size may grow within its pages. */
  lemma SpliceIsWrite(flat: seq<u8>, size: nat, pos: nat, head: seq<u8>)
    requires pos <= size <= |flat| && pos + |head| <= |flat|
    ensures var size' := if size < pos + |head| then pos + |head| else size;
            |Splice(flat, pos, head)| == |flat|
            && Splice(flat, pos, head)[..size'] == WriteSpec(flat[..size], head, pos)
  {
    var c := flat[..size];
    assert c[..pos] == flat[..pos];
    if pos + |head| <= size {
      assert c[pos + |head|..] == flat[pos + |head|..size];
    }
  }

  /** The last page of a stream, rebuilt from its old bytes, zeros and new bytes. Stale bytes do not survive. */
  lemma ZeroExtendLastPage(flat: seq<u8>, at: nat, oldData: seq<u8>, zeros: nat, head: seq<u8>, pad: seq<u8>)
    requires at + |oldData| + zeros + |head| + |pad| == |flat|
    requires oldData == flat[at..at + |oldData|]
    ensures var data, size := oldData + Zeros(zeros) + head + pad, at + |oldData|;
            && |Splice(flat, at, data)| == |flat|
            && Splice(flat, at, data)[..size + zeros + |head|] == WriteSpec(flat[..size], head, size + zeros)
  {
    var size := at + |oldData|;
    var data := oldData + Zeros(zeros) + head + pad;
    var c := flat[..size];
    assert Splice(flat, at, data) == flat[..at] + data;
    assert flat[..at] + oldData == c;
    assert flat[..at] + data == c + Zeros(zeros) + head + pad;
    WriteAfterZeros(c, zeros, head);
  }

  lemma WriteAfterZeros(c: seq<u8>, zeros: nat, head: seq<u8>)
    ensures WriteSpec(c, head, |c| + zeros) == c + Zeros(zeros) + head
  {
    var z := ZeroExtend(c, |c| + zeros);
    assert z == c + Zeros(zeros);
    WriteAtEnd(z, head);
    WriteAfterPartialZeros(c, |z|, head, |z|);
  }

  /** A partial page at the end of the stream that is overwritten completely. */
  lemma OverwriteTail(flat: seq<u8>, size: nat, at: nat, head: seq<u8>, pad: seq<u8>)
    requires at <= size <= at + |head| && at + |head| + |pad| <= |flat|
    ensures |Splice(flat, at, head + pad)| == |flat|
    ensures Splice(flat, at, head + pad)[..at + |head|] == WriteSpec(flat[..size], head, at)
  {
    var c := flat[..size];
    assert c[..at] == flat[..at];
  }

  lemma SpliceMiddle(a: seq<u8>, b: seq<u8>, c: seq<u8>, data: seq<u8>)
    requires |data| == |b|
    ensures Splice(a + (b + c), |a|, data) == a + (data + c)
  {
    var all := a + (b + c);
    assert all[..|a|] == a && all[|a| + |b|..] == c;
  }
}
