/** Byte strings and the sequence operations that file contents are specified with. */
module ByteStrings {
  newtype byte = b: int | 0 <= b < 256

  type Bytes = seq<byte>

  function Min(a: int, b: int): int { if a <= b then a else b }

  function Max(a: int, b: int): int { if a <= b then b else a }

  /** Subtraction that stops at zero. */
  function SatSub(a: nat, b: nat): nat { if a <= b then 0 else a - b }

  function Zeros(n: nat): Bytes { seq(n, _ => 0) }

  /** Cut or extend with zero bytes to exactly `n` bytes. */
  function Resize(s: Bytes, n: nat): Bytes {
    if n <= |s| then s[..n] else s + Zeros(n - |s|)
  }

  /** Replace the bytes from `offset` on by `data`, growing `s` with zeros when it is too short. */
  function Splice(s: Bytes, offset: nat, data: Bytes): Bytes {
    var grown := Resize(s, Max(|s|, offset + |data|));
    grown[..offset] + data + grown[offset + |data|..]
  }

  /** The bytes of `s` from `offset` on, at most `length` of them. */
  function Slice(s: Bytes, offset: nat, length: nat): Bytes {
    var start := Min(offset, |s|);
    s[start..Min(start + length, |s|)]
  }

  lemma SliceIs(s: Bytes, offset: nat, length: nat)
    ensures var end := Min(offset + length, |s|);
            Slice(s, offset, length) == if offset < end then s[offset..end] else []
  {
  }

  /** What a byte-range write means, position by position: the written bytes, the old
      bytes outside of them, and zeros in a hole past the old end. */
  lemma SpliceAt(s: Bytes, offset: nat, data: Bytes)
    ensures |Splice(s, offset, data)| == Max(|s|, offset + |data|)
    ensures forall i :: 0 <= i < Max(|s|, offset + |data|) ==>
              Splice(s, offset, data)[i] ==
              if offset <= i < offset + |data| then data[i - offset]
              else if i < |s| then s[i] else 0
  {
  }

  /** A write of no bytes changes the content exactly when it lies past the end. */
  lemma SpliceNothing(s: Bytes, offset: nat)
    ensures Splice(s, offset, []) == Resize(s, Max(|s|, offset))
    ensures Splice(s, offset, []) == s <==> offset <= |s|
  {
    SpliceAt(s, offset, []);
  }

  /** A write at or behind the end of a prefix is a write into what follows the prefix. */
  lemma SpliceBehindPrefix(prefix: Bytes, tail: Bytes, offset: nat, data: Bytes)
    requires |prefix| <= offset
    ensures Splice(prefix + tail, offset, data) == prefix + Splice(tail, offset - |prefix|, data)
  {
    var whole, part := Splice(prefix + tail, offset, data), Splice(tail, offset - |prefix|, data);
    SpliceAt(prefix + tail, offset, data);
    SpliceAt(tail, offset - |prefix|, data);
    hide Splice;
    assert |whole| == |prefix + part|;
    forall i | 0 <= i < |whole| ensures whole[i] == (prefix + part)[i] {}
  }

  lemma SpliceAtEnd(s: Bytes, data: Bytes)
    ensures Splice(s, |s|, data) == s + data
  {
    SpliceAt(s, |s|, data);
  }

  lemma SliceOfJoined(a: Bytes, b: Bytes, i: nat, j: nat)
    requires i <= j <= |a| + |b|
    ensures j <= |a| ==> (a + b)[i..j] == a[i..j]
    ensures |a| <= i ==> (a + b)[i..j] == b[i - |a|..j - |a|]
    ensures i <= |a| <= j ==> (a + b)[i..j] == a[i..] + b[..j - |a|]
  {
    if i <= |a| <= j {
      var r := a[i..] + b[..j - |a|];
      assert |r| == j - i;
      forall k | 0 <= k < j - i ensures (a + b)[i..j][k] == r[k] {
        assert (a + b)[i..j][k] == (a + b)[i + k];
        if k < |a| - i { assert r[k] == a[i + k]; } else { assert r[k] == b[i + k - |a|]; }
      }
      assert (a + b)[i..j] == r;
    }
  }
}
