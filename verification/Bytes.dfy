/** Bytes, little-endian integers and LSB-first bit vectors, as the on-disk formats use them. */
module Bytes {

  newtype u8 = x: int | 0 <= x < 0x100

  const U32_LIMIT: nat := 0x1_0000_0000

  /** The size that stands for a nil stream, in both containers. */
  const NIL_STREAM_SIZE: nat := 0xffff_ffff

  datatype Option<+T> = None | Some(value: T) {
    predicate IsFailure() {
      None?
    }

    function PropagateFailure<U>(): Option<U>
      requires None?
    {
      None
    }

    function Extract(): T
      requires Some?
    {
      value
    }
  }

  function Zeros(n: nat): (r: seq<u8>)
    ensures |r| == n
    ensures forall i :: 0 <= i < n ==> r[i] == 0
  {
    seq(n, _ => 0)
  }

  function Min(a: nat, b: nat): (r: nat)
    ensures r <= a && r <= b && (r == a || r == b)
  {
    if a < b then a else b
  }

  /** What a cast to 32 bits leaves of a number. */
  function Low32(n: nat): (r: nat)
    ensures r <= n && r < U32_LIMIT && (n < U32_LIMIT ==> r == n)
  {
    n % U32_LIMIT
  }

  // ---------------------------------------------------------------- sequences

  /** The bytes from `at` on, at most `len` of them. */
  function Window(all: seq<u8>, at: nat, len: nat): seq<u8> {
    all[Min(at, |all|)..Min(at + len, |all|)]
  }

  lemma ConcatAssoc<T>(a: seq<T>, b: seq<T>, c: seq<T>)
    ensures a + b + c == a + (b + c)
  {
  }

  lemma SliceOfConcat<T>(a: seq<T>, b: seq<T>, i: nat, j: nat)
    requires i <= j <= |a|
    ensures (a + b)[i..j] == a[i..j]
    ensures (a + b)[|a|..] == b
  {
  }

  lemma SliceOfSlice<T>(s: seq<T>, k: nat, n: nat)
    requires k + n <= |s|
    ensures s[k..][..n] == s[k..k + n]
  {
  }

  lemma StartOfSlice<T>(s: seq<T>, k: nat, n: nat, m: nat)
    requires n <= m && k + m <= |s|
    ensures s[k..k + m][..n] == s[k..k + n]
  {
  }

  lemma SliceInside<T>(all: seq<T>, p: nat, size: nat, at: nat, n: nat)
    requires p + size <= |all| && at + n <= size
    ensures all[p..p + size][at..at + n] == all[p + at..p + at + n]
  {
    var x, y := all[p..p + size][at..at + n], all[p + at..p + at + n];
    forall i | 0 <= i < n ensures x[i] == y[i] {
      assert x[i] == all[p..p + size][at + i];
    }
  }

  lemma SplitInThree<T>(s: seq<T>, lo: nat, n: nat)
    requires lo + n <= |s|
    ensures s == s[..lo] + (s[lo..lo + n] + s[lo + n..])
  {
  }

  // ---------------------------------------------------------------- 32-bit words

  /** The little-endian 32-bit word stored at byte offset `at`. */
  function U32At(b: seq<u8>, at: nat): (w: nat)
    requires at + 4 <= |b|
    ensures w < U32_LIMIT
  {
    b[at] as nat + 0x100 * (b[at + 1] as nat) + 0x1_0000 * (b[at + 2] as nat) + 0x100_0000 * (b[at + 3] as nat)
  }

  /** Storing a value keeps its low 32 bits only. */
  function EncodeU32(w: nat): (r: seq<u8>)
    ensures |r| == 4
  {
    [(w % 0x100) as u8, (w / 0x100 % 0x100) as u8, (w / 0x1_0000 % 0x100) as u8, (w / 0x100_0000 % 0x100) as u8]
  }

  lemma SplitWord(w: nat)
    ensures w % U32_LIMIT
         == w % 0x100 + 0x100 * (w / 0x100 % 0x100) + 0x1_0000 * (w / 0x1_0000 % 0x100) + 0x100_0000 * (w / 0x100_0000 % 0x100)
  {
    var q1 := w / 0x100;
    var q2 := q1 / 0x100;
    var q3 := q2 / 0x100;
    assert w / 0x1_0000 == q2;
    assert w / 0x100_0000 == q3;
    assert w / U32_LIMIT == q3 / 0x100;
  }

  lemma U32RoundTrip(pre: seq<u8>, w: nat, post: seq<u8>)
    ensures U32At(pre + EncodeU32(w) + post, |pre|) == w % U32_LIMIT
  {
    var b, e := pre + EncodeU32(w) + post, EncodeU32(w);
    assert b[|pre|] == e[0] && b[|pre| + 1] == e[1] && b[|pre| + 2] == e[2] && b[|pre| + 3] == e[3];
    SplitWord(w);
  }

  function EncodeWords(ws: seq<nat>): (r: seq<u8>)
    ensures |r| == 4 * |ws|
  {
    if ws == [] then [] else EncodeU32(ws[0]) + EncodeWords(ws[1..])
  }

  function DecodeWords(b: seq<u8>): (ws: seq<nat>)
    ensures |ws| == |b| / 4
    ensures forall i :: 0 <= i < |ws| ==> ws[i] == U32At(b, 4 * i)
  {
    seq(|b| / 4, i requires 0 <= i < |b| / 4 => U32At(b, 4 * i))
  }

  /** The low 32 bits of `w` are stored at `at`, least significant byte first. */
  predicate StoredAt(b: seq<u8>, at: nat, w: nat) {
    && at + 4 <= |b|
    && b[at] as nat == w % 0x100 && b[at + 1] as nat == w / 0x100 % 0x100
    && b[at + 2] as nat == w / 0x1_0000 % 0x100 && b[at + 3] as nat == w / 0x100_0000 % 0x100
  }

  /** What is read from four bytes is the number that they store. */
  lemma WordOfBytes(b: seq<u8>, at: nat)
    requires at + 4 <= |b|
    ensures StoredAt(b, at, U32At(b, at))
  {
    var w := U32At(b, at);
    var q1 := b[at + 1] as nat + 0x100 * (b[at + 2] as nat) + 0x1_0000 * (b[at + 3] as nat);
    var q2 := b[at + 2] as nat + 0x100 * (b[at + 3] as nat);
    assert w == b[at] as nat + 0x100 * q1 && q1 == b[at + 1] as nat + 0x100 * q2;
    assert w / 0x100 == q1 && q1 / 0x100 == q2 && q2 / 0x100 == b[at + 3] as nat;
    assert w / 0x1_0000 == q2 && w / 0x100_0000 == b[at + 3] as nat;
  }

  lemma BytesOfWord(b: seq<u8>, at: nat, w: nat)
    requires StoredAt(b, at, w) && w < U32_LIMIT
    ensures U32At(b, at) == w
  {
    SplitWord(w);
  }

  /** Every word of a list is stored, least significant byte first. */
  lemma {:induction false} WordsStored(ws: seq<nat>, pre: seq<u8>, post: seq<u8>, i: nat)
    requires i < |ws|
    ensures StoredAt(pre + EncodeWords(ws) + post, |pre| + 4 * i, ws[i])
  {
    if i == 0 {
      var b, e := pre + EncodeWords(ws) + post, EncodeU32(ws[0]);
      assert b == pre + e + (EncodeWords(ws[1..]) + post);
      assert b[|pre|] == e[0] && b[|pre| + 1] == e[1] && b[|pre| + 2] == e[2] && b[|pre| + 3] == e[3];
    } else {
      var pre' := pre + EncodeU32(ws[0]);
      assert pre + EncodeWords(ws) + post == pre' + EncodeWords(ws[1..]) + post;
      WordsStored(ws[1..], pre', post, i - 1);
    }
  }

  /** Only the low 32 bits are stored. */
  lemma LowWord(b: seq<u8>, at: nat, w: nat)
    requires StoredAt(b, at, w % U32_LIMIT)
    ensures StoredAt(b, at, w)
  {
    LowBytes(w, w % U32_LIMIT);
  }

  lemma LowBytes(w: nat, r: nat)
    requires r == w % U32_LIMIT
    ensures r % 0x100 == w % 0x100 && r / 0x100 % 0x100 == w / 0x100 % 0x100
    ensures r / 0x1_0000 % 0x100 == w / 0x1_0000 % 0x100 && r / 0x100_0000 % 0x100 == w / 0x100_0000 % 0x100
  {
    SplitWord(w);
    FromBytes(r, w % 0x100, w / 0x100 % 0x100, w / 0x1_0000 % 0x100, w / 0x100_0000 % 0x100);
  }

  lemma FromBytes(r: nat, b0: nat, b1: nat, b2: nat, b3: nat)
    requires b0 < 0x100 && b1 < 0x100 && b2 < 0x100 && b3 < 0x100
    requires r == b0 + 0x100 * b1 + 0x1_0000 * b2 + 0x100_0000 * b3
    ensures r % 0x100 == b0 && r / 0x100 % 0x100 == b1 && r / 0x1_0000 % 0x100 == b2 && r / 0x100_0000 % 0x100 == b3
  {
    assert r / 0x100 == b1 + 0x100 * b2 + 0x1_0000 * b3;
    assert r / 0x1_0000 == b2 + 0x100 * b3;
    assert r / 0x100_0000 == b3;
  }

  lemma WordHere(b: seq<u8>, at: nat, w: nat)
    requires at + 4 <= |b| && b[at..at + 4] == EncodeU32(w)
    ensures StoredAt(b, at, w)
  {
    var e := b[at..at + 4];
    assert e[0] == b[at] && e[1] == b[at + 1] && e[2] == b[at + 2] && e[3] == b[at + 3];
  }

  lemma WordsHere(b: seq<u8>, at: nat, ws: seq<nat>, i: nat)
    requires at + 4 * |ws| <= |b| && b[at..at + 4 * |ws|] == EncodeWords(ws) && i < |ws|
    ensures StoredAt(b, at + 4 * i, ws[i])
  {
    hide EncodeWords;
    hide StoredAt;
    var pre, post := b[..at], b[at + 4 * |ws|..];
    assert b == pre + b[at..at + 4 * |ws|] + post;
    WordsStored(ws, pre, post, i);
  }

  /** One field of a record that is laid out field by field, and what follows it. */
  lemma NextField(b: seq<u8>, at: nat, field: seq<u8>, rest: seq<u8>)
    requires at <= |b| && b[at..] == field + rest
    ensures at + |field| + |rest| == |b| && b[at..at + |field|] == field && b[at + |field|..] == rest
  {
    assert b[at..at + |field|] == b[at..][..|field|];
    assert b[at + |field|..] == b[at..][|field|..];
  }

  predicate AllU32(ws: seq<nat>) {
    forall i :: 0 <= i < |ws| ==> ws[i] < U32_LIMIT
  }

  lemma {:induction false} WordAt(ws: seq<nat>, pre: seq<u8>, post: seq<u8>, i: nat)
    requires i < |ws|
    ensures U32At(pre + EncodeWords(ws) + post, |pre| + 4 * i) == ws[i] % U32_LIMIT
  {
    if i == 0 {
      assert pre + EncodeWords(ws) + post == pre + EncodeU32(ws[0]) + (EncodeWords(ws[1..]) + post);
      U32RoundTrip(pre, ws[0], EncodeWords(ws[1..]) + post);
    } else {
      var pre' := pre + EncodeU32(ws[0]);
      assert pre + EncodeWords(ws) + post == pre' + EncodeWords(ws[1..]) + post;
      WordAt(ws[1..], pre', post, i - 1);
    }
  }

  /** Words survive the trip through bytes, whatever padding follows them. */
  lemma WordsRoundTrip(ws: seq<nat>, pad: seq<u8>)
    requires AllU32(ws)
    ensures |DecodeWords(EncodeWords(ws) + pad)| >= |ws|
    ensures DecodeWords(EncodeWords(ws) + pad)[..|ws|] == ws
  {
    hide EncodeWords;
    hide DecodeWords;
    hide U32At;
    var d := DecodeWords(EncodeWords(ws) + pad);
    forall i | 0 <= i < |ws| ensures d[i] == ws[i] {
      FirstWords(ws, pad, i);
    }
  }

  lemma FirstWords(ws: seq<nat>, pad: seq<u8>, i: nat)
    requires i < |ws| && ws[i] < U32_LIMIT
    ensures U32At(EncodeWords(ws) + pad, 4 * i) == ws[i]
  {
    hide *;
    WordAt(ws, [], pad, i);
    NothingBefore(EncodeWords(ws), pad);
    SmallRemainder(ws[i]);
  }

  lemma SmallRemainder(w: nat)
    requires w < U32_LIMIT
    ensures w % U32_LIMIT == w
  {
  }

  lemma NothingBefore(a: seq<u8>, b: seq<u8>)
    ensures [] + a + b == a + b && |[] + a + b| == |a| + |b|
  {
  }

  lemma WordsRoundTripExact(ws: seq<nat>)
    requires AllU32(ws)
    ensures DecodeWords(EncodeWords(ws)) == ws
  {
    WordsRoundTrip(ws, []);
    assert EncodeWords(ws) + [] == EncodeWords(ws);
    var d := DecodeWords(EncodeWords(ws));
    assert |d| == |ws|;
    assert d[..|ws|] == d;
  }

  // ---------------------------------------------------------------- bit vectors

  /** All whole words of some bytes; the bytes of a last part of a word do not matter. */
  ghost predicate WordsOf(b: seq<u8>, ws: seq<nat>) {
    |ws| == |b| / 4 && AllU32(ws) && forall k :: 0 <= k < |ws| ==> StoredAt(b, 4 * k, ws[k])
  }

  lemma WordsIff(b: seq<u8>, ws: seq<nat>)
    ensures WordsOf(b, ws) <==> ws == DecodeWords(b)
  {
    hide StoredAt;
    hide U32At;
    if WordsOf(b, ws) {
      forall k | 0 <= k < |ws| ensures ws[k] == DecodeWords(b)[k] {
        BytesOfWord(b, 4 * k, ws[k]);
      }
    }
    if ws == DecodeWords(b) {
      forall k | 0 <= k < |ws| ensures StoredAt(b, 4 * k, ws[k]) {
        WordOfBytes(b, 4 * k);
      }
    }
  }

  /** Bit `i` of a number, least significant bit first. */
  predicate Bit(n: nat, i: nat) {
    if i == 0 then n % 2 == 1 else Bit(n / 2, i - 1)
  }

  function Pack(bits: seq<bool>): nat {
    if bits == [] then 0 else (if bits[0] then 1 else 0) + 2 * Pack(bits[1..])
  }

  function Pow2(n: nat): (r: nat)
    ensures r > 0
  {
    if n == 0 then 1 else 2 * Pow2(n - 1)
  }

  lemma {:induction false} PackBound(bits: seq<bool>)
    ensures Pack(bits) < Pow2(|bits|)
  {
    if bits != [] {
      PackBound(bits[1..]);
    }
  }

  lemma {:induction false} PackBit(bits: seq<bool>, i: nat)
    requires i < |bits|
    ensures Bit(Pack(bits), i) == bits[i]
  {
    if i > 0 {
      PackBit(bits[1..], i - 1);
      assert Pack(bits) / 2 == Pack(bits[1..]);
    }
  }

  function Digit(n: nat, i: nat): nat {
    if Bit(n, i) then 1 else 0
  }

  /** A byte is the sum of its bits: bit `i` counts 2 to the power of `i`. */
  lemma BitsOfByte(b: u8)
    ensures var n := b as nat;
            n == Digit(n, 0) + 2 * Digit(n, 1) + 4 * Digit(n, 2) + 8 * Digit(n, 3)
                 + 16 * Digit(n, 4) + 32 * Digit(n, 5) + 64 * Digit(n, 6) + 128 * Digit(n, 7)
  {
    var n := b as nat;
    var h := n / 16;
    assert h / 16 == 0;
    hide *;
    FourBits(n);
    FourBits(h);
    FourShifted(n, 0);
    FourShifted(n, 1);
    FourShifted(n, 2);
    FourShifted(n, 3);
  }

  lemma BitStep(n: nat, i: nat)
    ensures n == Digit(n, 0) + 2 * (n / 2)
    ensures 0 < i ==> Digit(n, i) == Digit(n / 2, i - 1)
  {
  }

  lemma FourBits(n: nat)
    ensures n == Digit(n, 0) + 2 * Digit(n, 1) + 4 * Digit(n, 2) + 8 * Digit(n, 3) + 16 * (n / 16)
  {
    FourHalves(n);
    hide *;
    var n1 := n / 2;
    var n2 := n1 / 2;
    BitStep(n, 1);
    BitStep(n, 2);
    BitStep(n, 3);
    BitStep(n1, 1);
    BitStep(n1, 2);
    BitStep(n2, 1);
    BitStep(n2 / 2, 0);
  }

  lemma FourHalves(n: nat)
    ensures n / 16 == n / 2 / 2 / 2 / 2
  {
  }

  lemma FourShifted(n: nat, i: nat)
    ensures Digit(n, i + 4) == Digit(n / 16, i)
  {
    FourHalves(n);
    hide *;
    BitStep(n, i + 4);
    BitStep(n / 2, i + 3);
    BitStep(n / 2 / 2, i + 2);
    BitStep(n / 2 / 2 / 2, i + 1);
  }

  /** Packs eight bits into a byte. */
  function PackByte(bits: seq<bool>): (b: u8)
    requires |bits| == 8
    ensures forall i :: 0 <= i < 8 ==> Bit(b as nat, i) == bits[i]
  {
    PackBound(bits);
    assert Pow2(8) == 2 * 2 * 2 * 2 * Pow2(4) == 0x100;
    forall i | 0 <= i < 8 ensures Bit(Pack(bits), i) == bits[i] { PackBit(bits, i); }
    Pack(bits) as u8
  }
}
