/**
  Octets, machine words and the growable buffer `BytesMut` that the codecs read from and append to.
 */
module Bytes {
  type byte = bv8

  const TWO_TO_THE_16: int := 0x1_0000
  const TWO_TO_THE_63: int := 0x8000_0000_0000_0000
  const TWO_TO_THE_64: int := 0x1_0000_0000_0000_0000

  type u16 = n: int | 0 <= n < TWO_TO_THE_16
  type u64 = n: int | 0 <= n < TWO_TO_THE_64

  lemma SliceOfSlice<T>(s: seq<T>, lo: nat, hi: nat, p: nat, q: nat)
    requires p <= q && lo + q <= hi <= |s|
    ensures s[lo..hi][p..q] == s[lo + p..lo + q]
  {
    var whole, part := s[lo..hi], s[lo + p..lo + q];
    assert forall i :: 0 <= i < q - p ==> whole[p..q][i] == whole[p + i] == s[lo + p + i] == part[i];
  }

  // ---------- bytes as numbers ----------

  function ToInt(b: byte): (n: nat)
    ensures n < 256
  {
    b as int
  }

  lemma ToIntSuccessor(b: byte)
    requires b != 255
    ensures ToInt(b + 1) == ToInt(b) + 1
  {
  }

  lemma ToIntInjective(a: byte, b: byte)
    requires ToInt(a) == ToInt(b)
    ensures a == b
  {
  }

  lemma ToIntOrder(a: byte, b: byte)
    ensures a <= b <==> ToInt(a) <= ToInt(b)
  {
  }

  lemma {:induction false} ToIntSum(a: byte, b: byte)
    requires ToInt(a) + ToInt(b) < 256
    ensures ToInt(a + b) == ToInt(a) + ToInt(b)
    decreases ToInt(b)
  {
    hide ToInt;
    ToIntEnds();
    if b == 0 {
      PlusZero(a);
    } else {
      var c, d := StepDown(a, b);
      ToIntSuccessor(c);
      ToIntSum(a, c);
      ToIntSuccessor(d);
    }
  }

  lemma ToIntEnds()
    ensures ToInt(0) == 0 && ToInt(255) == 255
  {
  }

  lemma PlusZero(a: byte)
    ensures a + 0 == a
  {
  }

  lemma StepDown(a: byte, b: byte) returns (c: byte, d: byte)
    requires b != 0
    ensures c != 255 && c + 1 == b && d == a + c && a + b == d + 1
  {
    c := b - 1;
    d := a + c;
  }

  /** The byte whose value is `n`, found by counting. */
  function ToByte(n: nat): (b: byte)
    requires n < 256
    ensures ToInt(b) == n
  {
    if n == 0 then 0 else
      ToIntSuccessor(ToByte(n - 1));
      ToByte(n - 1) + 1
  }

  // ---------- network byte order ----------

  function Pow256(k: nat): (p: nat)
    ensures p > 0
  {
    if k == 0 then 1 else 256 * Pow256(k - 1)
  }

  /** The number whose base-256 digits, most significant first, are the bytes of `s`. */
  function ReadBigEndian(s: seq<byte>): (n: nat)
    ensures n < Pow256(|s|)
  {
    if s == [] then 0 else 256 * ReadBigEndian(s[..|s| - 1]) + ToInt(s[|s| - 1])
  }

  /** The `k` low-order base-256 digits of `n`, most significant first. */
  function WriteBigEndian(n: nat, k: nat): (s: seq<byte>)
    ensures |s| == k
  {
    if k == 0 then [] else WriteBigEndian(n / 256, k - 1) + [ToByte(n % 256)]
  }

  lemma ReadBigEndianSnoc(s: seq<byte>, b: byte)
    ensures ReadBigEndian(s + [b]) == 256 * ReadBigEndian(s) + ToInt(b)
  {
    assert (s + [b])[..|s|] == s;
  }

  lemma {:induction false} ReadOfWriteBigEndian(n: nat, k: nat)
    requires n < Pow256(k)
    ensures ReadBigEndian(WriteBigEndian(n, k)) == n
  {
    if k > 0 {
      hide ReadBigEndian;
      ReadOfWriteBigEndian(n / 256, k - 1);
      ReadBigEndianSnoc(WriteBigEndian(n / 256, k - 1), ToByte(n % 256));
    } else {
      assert WriteBigEndian(n, k) == [];
    }
  }

  lemma {:induction false} WriteOfReadBigEndian(s: seq<byte>)
    ensures WriteBigEndian(ReadBigEndian(s), |s|) == s
  {
    if s != [] {
      var k := |s| - 1;
      WriteOfReadBigEndian(s[..k]);
      assert ReadBigEndian(s) / 256 == ReadBigEndian(s[..k]);
      ToIntInjective(ToByte(ReadBigEndian(s) % 256), s[k]);
      assert s == s[..k] + [s[k]];
    }
  }

  lemma BoundsStep(r: nat, p: nat, m: nat, b: nat)
    requires b < 256
    ensures r * p <= m < (r + 1) * p <==> r * (256 * p) <= 256 * m + b < (r + 1) * (256 * p)
  {
    var x, y := r * p, (r + 1) * p;
    assert r * (256 * p) == 256 * x && (r + 1) * (256 * p) == 256 * y;
  }

  /** What the first digits of a number leave open. */
  lemma {:induction false} PrefixBounds(s: seq<byte>, j: nat)
    requires j <= |s|
    ensures ReadBigEndian(s[..j]) * Pow256(|s| - j) <= ReadBigEndian(s) < (ReadBigEndian(s[..j]) + 1) * Pow256(|s| - j)
    decreases |s|
  {
    if j == |s| {
      assert s[..j] == s && Pow256(0) == 1;
    } else {
      var t, b := s[..|s| - 1], s[|s| - 1];
      assert t[..j] == s[..j] && s == t + [b];
      hide ToInt, ReadBigEndian, Pow256;
      PrefixBounds(t, j);
      ReadBigEndianSnoc(t, b);
      Pow256Step(|t| - j);
      BoundsStep(ReadBigEndian(s[..j]), Pow256(|t| - j), ReadBigEndian(t), ToInt(b));
    }
  }

  lemma Pow256Step(k: nat)
    ensures Pow256(k + 1) == 256 * Pow256(k)
  {
  }

  /** A number within those bounds starts with those digits. */
  lemma {:induction false} PrefixDigits(n: nat, k: nat, d: seq<byte>)
    requires |d| <= k
    requires ReadBigEndian(d) * Pow256(k - |d|) <= n < (ReadBigEndian(d) + 1) * Pow256(k - |d|)
    ensures WriteBigEndian(n, k)[..|d|] == d
    decreases k
  {
    hide ToInt, ReadBigEndian;
    if k == |d| {
      WriteOfReadBigEndian(d);
      assert WriteBigEndian(n, k)[..k] == WriteBigEndian(n, k);
    } else {
      var r, p := ReadBigEndian(d), Pow256(k - 1 - |d|);
      Pow256Step(k - 1 - |d|);
      BoundsStep(r, p, n / 256, n % 256);
      PrefixDigits(n / 256, k - 1, d);
      assert WriteBigEndian(n, k)[..k - 1] == WriteBigEndian(n / 256, k - 1);
      assert WriteBigEndian(n, k)[..|d|] == WriteBigEndian(n / 256, k - 1)[..|d|];
    }
  }

  // ---------- little-endian words ----------

  function Xor(a: byte, b: byte): byte {
    a ^ b
  }

  function LowByte(w: bv32): byte {
    (w & 0xff) as byte
  }

  /** The four bytes of `w` in memory order on a little-endian machine. */
  function WordBytes(w: bv32): (s: seq<byte>)
    ensures |s| == 4
  {
    [LowByte(w), LowByte(w >> 8), LowByte(w >> 16), LowByte(w >> 24)]
  }

  /** The word a little-endian machine reads from the four bytes `s`. */
  function WordOf(s: seq<byte>): (w: bv32)
    requires |s| == 4
  {
    (s[0] as bv32) | ((s[1] as bv32) << 8) | ((s[2] as bv32) << 16) | ((s[3] as bv32) << 24)
  }

  lemma XorTwice(a: byte, b: byte)
    ensures Xor(Xor(a, b), b) == a
  {
  }

  /** The bytes of a word are its base-256 digits, least significant first. */
  lemma WordBytesAreDigits(w: bv32)
    ensures
      var s := WordBytes(w);
      w == (s[0] as bv32) + (s[1] as bv32) * 0x100 + (s[2] as bv32) * 0x1_0000 + (s[3] as bv32) * 0x100_0000
  {
  }

  lemma WordOfWordBytes(w: bv32)
    ensures WordOf(WordBytes(w)) == w
  {
  }

  lemma WordBytesOfWordOf(s: seq<byte>)
    requires |s| == 4
    ensures WordBytes(WordOf(s)) == s
  {
  }

  // One lemma a byte: four of these bit-vector equations in one query are far dearer than four queries.
  lemma WordByte0OfXor(a: bv32, b: bv32)
    ensures WordBytes(a ^ b)[0] == Xor(WordBytes(a)[0], WordBytes(b)[0])
  {
  }

  lemma WordByte1OfXor(a: bv32, b: bv32)
    ensures WordBytes(a ^ b)[1] == Xor(WordBytes(a)[1], WordBytes(b)[1])
  {
  }

  lemma WordByte2OfXor(a: bv32, b: bv32)
    ensures WordBytes(a ^ b)[2] == Xor(WordBytes(a)[2], WordBytes(b)[2])
  {
  }

  lemma WordByte3OfXor(a: bv32, b: bv32)
    ensures WordBytes(a ^ b)[3] == Xor(WordBytes(a)[3], WordBytes(b)[3])
  {
  }

  /** One exclusive-or of two words is four exclusive-ors of their bytes. */
  lemma WordBytesOfXor(a: bv32, b: bv32)
    ensures forall j :: 0 <= j < 4 ==> WordBytes(a ^ b)[j] == Xor(WordBytes(a)[j], WordBytes(b)[j])
  {
    hide *;
    WordByte0OfXor(a, b);
    WordByte1OfXor(a, b);
    WordByte2OfXor(a, b);
    WordByte3OfXor(a, b);
  }

  function RotateByte(w: bv32): bv32 {
    w.RotateRight(8)
  }

  /** Rotating a word right by eight bits rotates its bytes left by one place. */
  lemma WordBytesOfRotation(w: bv32)
    ensures WordBytes(RotateByte(w)) == WordBytes(w)[1..] + [WordBytes(w)[0]]
  {
  }

  // ---------- overwriting part of a buffer ----------

  /** `s` with the bytes `lo..lo + |t|` overwritten by `t`. */
  function Splice(s: seq<byte>, lo: nat, t: seq<byte>): (r: seq<byte>)
    requires lo + |t| <= |s|
    ensures |r| == |s|
  {
    s[..lo] + t + s[lo + |t|..]
  }

  /** Overwriting a range and then the range next to it overwrites both; the second range was as before. */
  lemma AdjacentSplices(s: seq<byte>, lo: nat, t1: seq<byte>, t2: seq<byte>)
    requires lo + |t1| + |t2| <= |s|
    ensures Splice(Splice(s, lo, t1), lo + |t1|, t2) == Splice(s, lo, t1 + t2)
    ensures Splice(s, lo, t1)[lo + |t1|..] == s[lo + |t1|..]
  {
    var s1 := Splice(s, lo, t1);
    assert s1[..lo + |t1|] == s[..lo] + t1;
    assert s1[lo + |t1| + |t2|..] == s[lo + |t1| + |t2|..];
  }

  /** Overwriting the bytes just after a range extends the range. */
  lemma SpliceAfter(s: seq<byte>, start: nat, end: nat, t: seq<byte>)
    requires start <= end && end + |t| <= |s|
    ensures Splice(s, end, t)[start..end + |t|] == s[start..end] + t
  {
  }

  method CopyFromSlice(mem: array<byte>, lo: nat, t: seq<byte>)
    requires lo + |t| <= mem.Length
    modifies mem
    ensures mem[..] == Splice(old(mem[..]), lo, t)
  {
    forall i | 0 <= i < |t| {
      mem[lo + i] := t[i];
    }
  }

  // ---------- growable buffers ----------

  /**
    A growable byte buffer. It owns the bytes `start..start + cap` of the allocation `mem`, of which
    the first `len` are its contents and the rest are spare, holding whatever was left there.
    Buffers split from one another share an allocation and own disjoint parts of it.
   */
  class BytesMut {
    var mem: array<byte>
    var base: nat  // the address of mem[0]
    var start: nat
    var len: nat
    var cap: nat

    ghost predicate Valid()
      reads this
    {
      len <= cap && start + cap <= mem.Length
    }

    function Contents(): (s: seq<byte>)
      requires Valid()
      reads this, mem
      ensures |s| == len
    {
      mem[start..start + len]
    }

    constructor ()
      ensures Valid() && fresh(mem) && Contents() == [] && cap == 0
    {
      mem := new byte[0];
      base, start, len, cap := 0, 0, 0, 0;
    }

    /** Takes over part of an allocation that another buffer has given up. */
    constructor Part(mem: array<byte>, base: nat, start: nat, len: nat)
      requires start + len <= mem.Length
      ensures Valid() && this.mem == mem && this.base == base
      ensures this.start == start && this.len == len && cap == len
    {
      this.mem, this.base, this.start, this.len, this.cap := mem, base, start, len, len;
    }

    /** Makes room for `additional` more bytes, moving to a new allocation at an arbitrary address if it must. */
    method Reserve(additional: nat)
      requires Valid()
      modifies this
      ensures Valid() && Contents() == old(Contents()) && cap >= len + additional
      ensures cap >= old(cap)
      ensures mem == old(mem) || fresh(mem)
      ensures mem == old(mem) ==> start == old(start) && cap == old(cap)
    {
      if cap < len + additional {
        var slack: nat, address: nat :| true;
        var grown := new byte[len + additional + slack];
        for i := 0 to len
          invariant unchanged(this) && Valid()
          invariant grown[..i] == Contents()[..i]
        {
          grown[i] := mem[start + i];
        }
        mem, base, start, cap := grown, address, 0, grown.Length;
      }
    }

    /** Declares the first `newLen` bytes of the buffer to be its contents, whatever they hold. */
    method SetLen(newLen: nat)
      requires Valid() && newLen <= cap
      modifies this
      ensures Valid() && len == newLen && Contents() == mem[start..start + newLen]
      ensures mem == old(mem) && base == old(base) && start == old(start) && cap == old(cap)
    {
      len := newLen;
    }

    method Truncate(newLen: nat)
      requires Valid()
      modifies this
      ensures Valid() && Contents() == if newLen < old(len) then old(Contents())[..newLen] else old(Contents())
      ensures mem == old(mem) && start == old(start) && cap == old(cap)
    {
      if newLen < len {
        SetLen(newLen);
      }
    }

    method PutSlice(s: seq<byte>)
      requires Valid()
      modifies this, mem
      ensures Valid() && Contents() == old(Contents()) + s
      ensures mem == old(mem) || fresh(mem)
    {
      Reserve(|s|);
      hide Splice;
      SpliceAfter(mem[..], start, start + len, s);
      CopyFromSlice(mem, start + len, s);
      SetLen(len + |s|);
    }

    /** Splits off the first `n` bytes, which stay where they are in the shared allocation. */
    method SplitTo(n: nat) returns (head: BytesMut)
      requires Valid() && n <= len
      modifies this
      ensures Valid() && mem == old(mem) && start == old(start) + n && Contents() == old(Contents())[n..]
      ensures fresh(head) && head.Valid() && head.mem == mem && head.start + head.cap == start
      ensures head.start == old(start) && head.Contents() == old(Contents())[..n]
    {
      head := new BytesMut.Part(mem, base, start, n);
      start, len, cap := start + n, len - n, cap - n;
    }

    method Advance(n: nat)
      requires Valid() && n <= len
      modifies this
      ensures Valid() && mem == old(mem) && base == old(base) && Contents() == old(Contents())[n..]
      ensures start == old(start) + n && cap == old(cap) - n
    {
      start, len, cap := start + n, len - n, cap - n;
    }

    /** Overwrites all the spare bytes with zeros. */
    method ZeroSpare()
      requires Valid()
      modifies mem
      ensures Contents() == old(Contents())
      ensures forall i :: start + len <= i < start + cap ==> mem[i] == 0
    {
      for i := start + len to start + cap
        invariant forall k :: start + len <= k < i ==> mem[k] == 0
        invariant forall k :: 0 <= k < start + len ==> mem[k] == old(mem[k])
      {
        mem[i] := 0;
      }
    }
  }
}
