/** Bytes, 16-bit little- and big-endian fields, and the slicing of byte strings
    into fixed-size pieces that both halves of the update protocol rely on. */
module Bytes {

  type byte = x: int | 0 <= x < 256
  type uint16 = x: int | 0 <= x < 0x1_0000
  type uint32 = x: int | 0 <= x < 0x1_0000_0000

  datatype Option<+T> = None | Some(value: T)

  datatype Result<+T, +E> = Ok(value: T) | Err(error: E)

  /** The value of an erased flash cell, also used to pad partial pages. */
  const ERASED: byte := 0xFF

  /** `n` erased bytes. */
  function Erased(n: nat): (r: seq<byte>)
    ensures |r| == n
    ensures forall i :: 0 <= i < n ==> r[i] == ERASED
  {
    seq(n, _ => ERASED)
  }

  function Min(a: int, b: int): int
  {
    if a <= b then a else b
  }

  /** Two bytes, least significant first (`struct.pack('<H', x)`, and the byte
      order of a `uint16_t` on the AVR). */
  function LE16(x: uint16): (r: seq<byte>)
    ensures |r| == 2 && FromLE16(r[0], r[1]) == x
  {
    [x % 256, x / 256]
  }

  function FromLE16(lo: byte, hi: byte): uint16
  {
    lo + 256 * hi
  }

  /** Two bytes, most significant first (`struct.pack('!H', x)`). */
  function BE16(x: uint16): (r: seq<byte>)
    ensures |r| == 2 && FromBE16(r[0], r[1]) == x
  {
    [x / 256, x % 256]
  }

  function FromBE16(hi: byte, lo: byte): uint16
  {
    256 * hi + lo
  }

  /** The pieces are concatenated in order. */
  function Flatten<T>(ss: seq<seq<T>>): seq<T>
  {
    if ss == [] then [] else Flatten(ss[..|ss| - 1]) + ss[|ss| - 1]
  }

  lemma FlattenSnoc<T>(ss: seq<seq<T>>, s: seq<T>)
    ensures Flatten(ss + [s]) == Flatten(ss) + s
  {
    assert (ss + [s])[..|ss|] == ss;
  }

  /** Concatenation is associative; stated once for any item type, so that a
      caller does not compare items of large sequences. */
  lemma AppendAssoc<T>(a: seq<T>, b: seq<T>, c: seq<T>)
    ensures (a + b) + c == a + (b + c)
  {
  }

  /** The first `k` items are the first `k - 1` and then item `k - 1`. */
  lemma TakeSnoc<T>(s: seq<T>, k: nat)
    requires 0 < k <= |s|
    ensures s[..k] == s[..k - 1] + [s[k - 1]]
  {
  }

  /** The concatenation of the first `j` pieces extends that of the first `j - 1`. */
  lemma FlattenPrefixSnoc<T>(ss: seq<seq<T>>, j: nat)
    requires 0 < j <= |ss|
    ensures Flatten(ss[..j]) == Flatten(ss[..j - 1]) + ss[j - 1]
  {
    TakeSnoc(ss, j);
    FlattenSnoc(ss[..j - 1], ss[j - 1]);
  }

  /** A property of every item of every piece holds of every item of the
      concatenation. */
  lemma {:induction false} FlattenForall<T>(ss: seq<seq<T>>, P: T -> bool)
    requires forall j, i :: 0 <= j < |ss| && 0 <= i < |ss[j]| ==> P(ss[j][i])
    ensures forall i :: 0 <= i < |Flatten(ss)| ==> P(Flatten(ss)[i])
    decreases |ss|
  {
    if ss != [] {
      var init := ss[..|ss| - 1];
      FlattenForall(init, P);
      forall i | 0 <= i < |Flatten(ss)|
        ensures P(Flatten(ss)[i])
      {
        if i >= |Flatten(init)| {
          assert Flatten(ss)[i] == ss[|ss| - 1][i - |Flatten(init)|];
        }
      }
    }
  }

  /** Number of `n`-sized pieces needed to cover `len` items: `ceil(len / n)`. */
  function CeilDiv(len: nat, n: nat): (r: nat)
    requires n > 0
    ensures r * n >= len
    ensures len > 0 ==> (r - 1) * n < len
    ensures len == 0 ==> r == 0
  {
    (len + n - 1) / n
  }

  /** Start of the `k`-th piece lies inside the sequence. */
  lemma SliceStart(len: nat, n: nat, k: nat)
    requires n > 0 && k < CeilDiv(len, n)
    ensures k * n < len
  {
    var c := CeilDiv(len, n);
    assert k <= c - 1;
    assert k * n <= (c - 1) * n by {
      MulMono(k, c - 1, n);
    }
  }

  lemma MulMono(a: nat, b: nat, n: nat)
    requires a <= b
    ensures a * n <= b * n
  {
  }

  /** The `k`-th piece of `s` cut every `n` items: `s[k*n : k*n+n]` in Python's
      slicing, which stops at the end of `s`. */
  function Slice<T>(s: seq<T>, n: nat, k: nat): (r: seq<T>)
    requires n > 0 && k < CeilDiv(|s|, n)
    ensures 0 < |r| <= n
    ensures k * n + |r| <= |s|
    ensures k * n + |r| == Min(k * n + n, |s|)
    ensures r == s[k * n .. k * n + |r|]
    ensures k < CeilDiv(|s|, n) - 1 ==> |r| == n
  {
    SliceBounds(|s|, n, k);
    s[k * n .. Min(k * n + n, |s|)]
  }

  /** Every piece but the last is full. */
  lemma SliceBounds(len: nat, n: nat, k: nat)
    requires n > 0 && k < CeilDiv(len, n)
    ensures k * n < len
    ensures k < CeilDiv(len, n) - 1 ==> k * n + n < len
  {
    SliceStart(len, n, k);
    if k < CeilDiv(len, n) - 1 {
      SliceStart(len, n, k + 1);
      assert (k + 1) * n == k * n + n;
    }
  }

  /** `[s[i:i + n] for i in range(0, len(s), n)]`. */
  function Slices<T>(s: seq<T>, n: nat): (r: seq<seq<T>>)
    requires n > 0
    ensures |r| == CeilDiv(|s|, n)
  {
    seq(CeilDiv(|s|, n), k requires 0 <= k < CeilDiv(|s|, n) => Slice(s, n, k))
  }

  /** The slices of `s` taken in order put `s` back together. */
  lemma {:induction false} FlattenSlicesPrefix<T>(s: seq<T>, n: nat, k: nat)
    requires n > 0 && k <= CeilDiv(|s|, n)
    ensures Flatten(Slices(s, n)[..k]) == s[..Min(k * n, |s|)]
  {
    var ss := Slices(s, n);
    if k == 0 {
      assert ss[..0] == [];
    } else {
      FlattenSlicesPrefix(s, n, k - 1);
      FlattenPrefixSnoc(ss, k);
      var start := (k - 1) * n;
      var piece := ss[k - 1];
      assert piece == s[start .. start + |piece|] && start + |piece| == Min(k * n, |s|) by {
        assert start + n == k * n;
      }
      assert Min(start, |s|) == start by {
        SliceStart(|s|, n, k - 1);
      }
      assert s[..start] + s[start .. start + |piece|] == s[..start + |piece|];
    }
  }


  lemma FlattenSlices<T>(s: seq<T>, n: nat)
    requires n > 0
    ensures Flatten(Slices(s, n)) == s
  {
    var ss := Slices(s, n);
    FlattenSlicesPrefix(s, n, |ss|);
    assert ss[..|ss|] == ss;
  }

  /** Every slice but the last is full, so the `k`-th starts at `k * n`. */
  lemma SlicesPrefixLength<T>(s: seq<T>, n: nat, k: nat)
    requires n > 0 && k < CeilDiv(|s|, n)
    ensures |Flatten(Slices(s, n)[..k])| == k * n
  {
    FlattenSlicesPrefix(s, n, k);
    SliceStart(|s|, n, k);
  }
}
