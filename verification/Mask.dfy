/**
  Payload masking: the word-at-a-time kernels, and the definition in section 5.3 of RFC 6455 that they compute.
 */
module Mask {
  import opened Bytes

  type Key = k: seq<byte> | |k| == 4 witness [0, 0, 0, 0]

  /** The octet of the key that masks octet `i` of the payload. */
  function KeyOctet(key: Key, i: nat): byte {
    key[i % 4]
  }

  /** Section 5.3 of RFC 6455: octet `i` of the result is octet `i` of `data` xor octet `i mod 4` of the key. */
  function Masked(data: seq<byte>, key: Key): (r: seq<byte>)
    ensures |r| == |data|
  {
    seq(|data|, i requires 0 <= i < |data| => Xor(data[i], KeyOctet(key, i)))
  }

  /** The key as seen from `n` octets further into the payload. */
  function Rotated(key: Key, n: nat): Key {
    [KeyOctet(key, n), KeyOctet(key, n + 1), KeyOctet(key, n + 2), KeyOctet(key, n + 3)]
  }

  lemma WordBytesFirst(w: bv32)
    ensures WordBytes(w)[0] == LowByte(w)
  {
  }

  lemma RotatedStep(w: bv32, key: Key, n: nat)
    requires WordBytes(w) == Rotated(key, n)
    ensures WordBytes(RotateByte(w)) == Rotated(key, n + 1)
  {
    WordBytesOfRotation(w);
    hide WordBytes;
    assert (n + 4) % 4 == n % 4;
  }

  lemma RotatedNone(key: Key)
    ensures Rotated(key, 0) == key
  {
  }

  lemma KeyOctetSmall(key: Key, j: nat)
    requires j < 4
    ensures KeyOctet(key, j) == key[j]
  {
  }

  lemma KeyOctetOfRotated(key: Key, n: nat, i: nat)
    ensures KeyOctet(Rotated(key, n), i) == KeyOctet(key, n + i)
  {
    var j, k := i % 4, i / 4;
    KeyOctetPeriodic(key, n + j, k);
    assert n + j + 4 * k == n + i;
    hide KeyOctet;
    KeyOctetSmall(Rotated(key, n), j);
    KeyOctetPeriodic(Rotated(key, n), j, k);
  }

  lemma ModPeriodic(n: nat, k: nat)
    ensures (n + 4 * k) % 4 == n % 4
  {
  }

  lemma KeyOctetPeriodic(key: Key, n: nat, k: nat)
    ensures KeyOctet(key, n + 4 * k) == KeyOctet(key, n)
  {
    ModPeriodic(n, k);
  }

  lemma MaskedConcat(a: seq<byte>, b: seq<byte>, key: Key)
    ensures Masked(a + b, key) == Masked(a, key) + Masked(b, Rotated(key, |a|))
  {
    hide Xor, KeyOctet, Rotated;
    forall i | 0 <= i < |b|
      ensures KeyOctet(Rotated(key, |a|), i) == KeyOctet(key, |a| + i)
    {
      KeyOctetOfRotated(key, |a|, i);
    }
  }

  lemma RotatedWhole(key: Key, n: nat, k: nat)
    ensures Rotated(key, n + 4 * k) == Rotated(key, n)
  {
    hide KeyOctet;
    KeyOctetPeriodic(key, n, k);
    KeyOctetPeriodic(key, n + 1, k);
    KeyOctetPeriodic(key, n + 2, k);
    KeyOctetPeriodic(key, n + 3, k);
    assert n + 4 * k + 1 == n + 1 + 4 * k && n + 4 * k + 2 == n + 2 + 4 * k && n + 4 * k + 3 == n + 3 + 4 * k;
  }

  /** Masking with the same key a second time restores the data. */
  lemma MaskedTwice(data: seq<byte>, key: Key)
    ensures Masked(Masked(data, key), key) == data
  {
    hide Xor;
    forall i | 0 <= i < |data|
      ensures Masked(Masked(data, key), key)[i] == data[i]
    {
      XorTwice(data[i], KeyOctet(key, i));
    }
  }

  // ---------- viewing bytes as words ----------

  datatype Alignment = Alignment(prefix: nat, words: nat, suffix: nat)

  /**
    How a slice of `n` bytes at address `address` divides into leading bytes, aligned four-byte words and
    trailing bytes. The leading bytes run to the next multiple of four, or to the end of a slice too short
    to reach it.
   */
  function AlignTo(address: nat, n: nat): (a: Alignment)
    ensures a.prefix + 4 * a.words + a.suffix == n
    ensures a.prefix < 4 && a.suffix < 4
    ensures a.words > 0 ==> (address + a.prefix) % 4 == 0
    ensures a.prefix > 0 && a.prefix < n ==> (address + a.prefix) % 4 == 0
    ensures a.prefix == 0 ==> address % 4 == 0 || n == 0
  {
    var gap := (4 - address % 4) % 4;
    var prefix := if gap <= n then gap else n;
    Alignment(prefix, (n - prefix) / 4, (n - prefix) % 4)
  }

  /** The aligned words of a slice, as a little-endian machine sees them. */
  function Words(s: seq<byte>): (ws: seq<bv32>)
    ensures |ws| == |s| / 4
  {
    seq(|s| / 4, i requires 0 <= i < |s| / 4 => WordOf(s[4 * i..4 * i + 4]))
  }

  /** Word `k` of the payload, masked as a word, is its four octets masked as octets. */
  lemma MaskedWord(data: seq<byte>, k: nat, w: bv32, mask: bv32)
    requires 4 * k + 4 <= |data|
    requires w == WordOf(data[4 * k..4 * k + 4])
    ensures forall i :: 4 * k <= i < 4 * k + 4 ==>
      WordBytes(w ^ mask)[i - 4 * k] == Xor(data[i], KeyOctet(WordBytes(mask), i))
  {
    hide Xor, LowByte, WordBytes, WordOf, KeyOctet;
    var s := data[4 * k..4 * k + 4];
    WordBytesOfWordOf(s);
    WordBytesOfXor(w, mask);
    forall i | 4 * k <= i < 4 * k + 4
      ensures WordBytes(w ^ mask)[i - 4 * k] == Xor(data[i], KeyOctet(WordBytes(mask), i))
    {
      var j := i - 4 * k;
      KeyOctetPeriodic(WordBytes(mask), j, k);
      KeyOctetSmall(WordBytes(mask), j);
      assert s[j] == data[i];
    }
  }

  method StoreWord(mem: array<byte>, at: nat, w: bv32)
    requires at + 4 <= mem.Length
    modifies mem
    ensures forall i :: at <= i < at + 4 ==> mem[i] == WordBytes(w)[i - at]
    ensures forall i :: 0 <= i < mem.Length && !(at <= i < at + 4) ==> mem[i] == old(mem[i])
  {
    hide LowByte;
    var s := WordBytes(w);
    mem[at], mem[at + 1], mem[at + 2], mem[at + 3] := s[0], s[1], s[2], s[3];
  }

  /** `after` holds the first `n` octets of `data`, masked with `key`, from `at` on, and otherwise equals `before`. */
  ghost predicate MaskedInto(before: seq<byte>, after: seq<byte>, at: nat, data: seq<byte>, n: nat, key: Key)
    requires n <= |data|
  {
    && |before| == |after| && at + n <= |after|
    && (forall i :: at <= i < at + n ==> after[i] == Xor(data[i - at], KeyOctet(key, i - at)))
    && (forall i :: 0 <= i < |after| && !(at <= i < at + n) ==> after[i] == before[i])
  }

  lemma MaskedIntoSlices(before: seq<byte>, after: seq<byte>, at: nat, data: seq<byte>, key: Key)
    requires MaskedInto(before, after, at, data, |data|, key)
    ensures after == Splice(before, at, Masked(data, key))
  {
    hide Xor, KeyOctet;
  }

  // ---------- masking while copying ----------

  method MaskU8Copy(buf: array<byte>, lo: nat, hi: nat, data: seq<byte>, mask: bv32) returns (rotated: bv32)
    requires lo <= hi <= buf.Length
    requires |data| < 4
    requires hi - lo == |data|
    modifies buf
    ensures buf[..] == Splice(old(buf[..]), lo, Masked(data, WordBytes(mask)))
    ensures WordBytes(rotated) == Rotated(WordBytes(mask), |data|)
  {
    hide Xor, LowByte, WordBytes, KeyOctet;
    RotatedNone(WordBytes(mask));
    rotated := mask;
    for i := 0 to |data|
      invariant MaskedInto(old(buf[..]), buf[..], lo, data, i, WordBytes(mask))
      invariant WordBytes(rotated) == Rotated(WordBytes(mask), i)
    {
      WordBytesFirst(rotated);
      RotatedStep(rotated, WordBytes(mask), i);
      buf[lo + i] := Xor(data[i], LowByte(rotated));
      rotated := RotateByte(rotated);
    }
    MaskedIntoSlices(old(buf[..]), buf[..], lo, data, WordBytes(mask));
  }

  method MaskAlignedCopy(buf: array<byte>, lo: nat, hi: nat, data: seq<byte>, mask: bv32)
    requires lo <= hi <= buf.Length && (hi - lo) % 4 == 0 && |data| % 4 == 0
    requires (hi - lo) / 4 == |data| / 4
    modifies buf
    ensures buf[..] == Splice(old(buf[..]), lo, Masked(data, WordBytes(mask)))
  {
    hide Xor, LowByte, WordBytes, WordOf, KeyOctet;
    var words := Words(data);
    for k := 0 to |words|
      invariant MaskedInto(old(buf[..]), buf[..], lo, data, 4 * k, WordBytes(mask))
    {
      MaskedWord(data, k, words[k], mask);
      StoreWord(buf, lo + 4 * k, words[k] ^ mask);
    }
    MaskedIntoSlices(old(buf[..]), buf[..], lo, data, WordBytes(mask));
  }

  method MaskUnalignedCopy(buf: array<byte>, lo: nat, hi: nat, data: seq<byte>, mask: bv32)
    requires lo <= hi <= buf.Length && (hi - lo) % 4 == 0
    requires |data| / 4 == (hi - lo) / 4
    requires |data| % 4 == 0
    modifies buf
    ensures buf[..] == Splice(old(buf[..]), lo, Masked(data, WordBytes(mask)))
  {
    hide Xor, LowByte, WordBytes, WordOf, KeyOctet;
    for k := 0 to (hi - lo) / 4
      invariant MaskedInto(old(buf[..]), buf[..], lo, data, 4 * k, WordBytes(mask))
    {
      var src := WordOf(data[4 * k..4 * k + 4]);
      MaskedWord(data, k, src, mask);
      StoreWord(buf, lo + 4 * k, src ^ mask);
    }
    MaskedIntoSlices(old(buf[..]), buf[..], lo, data, WordBytes(mask));
  }

  /** Masking in three parts, the middle one of whole words, each part with the key rotated by the first. */
  lemma MaskedParts(data: seq<byte>, p: nat, q: nat, key: Key)
    requires p <= q <= |data| && (q - p) % 4 == 0
    ensures Masked(data, key) ==
            Masked(data[..p], key) + Masked(data[p..q], Rotated(key, p)) + Masked(data[q..], Rotated(key, p))
  {
    hide Masked, Rotated;
    MaskedConcat(data[..q], data[q..], key);
    MaskedConcat(data[..p], data[p..q], key);
    RotatedWhole(key, p, (q - p) / 4);
    assert data == data[..q] + data[q..] && data[..q] == data[..p] + data[p..q];
  }

  /** Writing the three masked parts one after the other writes the masked payload. */
  lemma MaskedPartsSpliced(s: seq<byte>, lo: nat, data: seq<byte>, p: nat, q: nat, key: Key)
    requires lo + |data| <= |s| && p <= q <= |data| && (q - p) % 4 == 0
    ensures
      var s1 := Splice(s, lo, Masked(data[..p], key));
      var s2 := Splice(s1, lo + p, Masked(data[p..q], Rotated(key, p)));
      Splice(s2, lo + q, Masked(data[q..], Rotated(key, p))) == Splice(s, lo, Masked(data, key))
  {
    hide Masked, Rotated, Splice;
    var t1, t2, t3 := Masked(data[..p], key), Masked(data[p..q], Rotated(key, p)), Masked(data[q..], Rotated(key, p));
    MaskedParts(data, p, q, key);
    AdjacentSplices(s, lo, t1, t2);
    AdjacentSplices(s, lo, t1 + t2, t3);
  }

  /**
    Masks `data`, which lies at address `dataAddress`, into the slice `lo..hi` of the allocation `buf`,
    whose first byte lies at address `bufBase`.
   */
  method MaskSliceCopy(buf: array<byte>, bufBase: nat, lo: nat, hi: nat, data: seq<byte>, dataAddress: nat, mask: bv32)
    requires lo <= hi <= buf.Length
    requires hi - lo == |data|
    modifies buf
    ensures buf[..] == Splice(old(buf[..]), lo, Masked(data, WordBytes(mask)))
  {
    hide WordBytes, Masked, Rotated, Splice;
    var bufParts := AlignTo(bufBase + lo, hi - lo);
    var p, q := bufParts.prefix, bufParts.prefix + 4 * bufParts.words;
    MaskedPartsSpliced(buf[..], lo, data, p, q, WordBytes(mask));
    var data1, rest := data[..p], data[p..];
    var dataParts := AlignTo(dataAddress + p, |rest|);
    var middle := if dataParts.prefix == 0 then 4 * dataParts.words else 4 * bufParts.words;
    var data2, data3 := rest[..middle], rest[middle..];
    assert data2 == data[p..q] && data3 == data[q..];
    var rotated := MaskU8Copy(buf, lo, lo + p, data1, mask);
    if dataParts.prefix == 0 {
      MaskAlignedCopy(buf, lo + p, lo + q, data2, rotated);
    } else {
      MaskUnalignedCopy(buf, lo + p, lo + q, data2, rotated);
    }
    var _ := MaskU8Copy(buf, lo + q, hi, data3, rotated);
  }

  // ---------- masking in place ----------

  method MaskU8InPlace(mem: array<byte>, lo: nat, hi: nat, mask: bv32) returns (rotated: bv32)
    requires lo <= hi <= mem.Length
    requires hi - lo < 4
    modifies mem
    ensures mem[..] == Splice(old(mem[..]), lo, Masked(old(mem[..])[lo..hi], WordBytes(mask)))
    ensures WordBytes(rotated) == Rotated(WordBytes(mask), hi - lo)
  {
    hide Xor, LowByte, WordBytes, KeyOctet;
    ghost var data := mem[..][lo..hi];
    RotatedNone(WordBytes(mask));
    rotated := mask;
    for i := lo to hi
      invariant MaskedInto(old(mem[..]), mem[..], lo, data, i - lo, WordBytes(mask))
      invariant WordBytes(rotated) == Rotated(WordBytes(mask), i - lo)
    {
      WordBytesFirst(rotated);
      RotatedStep(rotated, WordBytes(mask), i - lo);
      mem[i] := Xor(mem[i], LowByte(rotated));
      rotated := RotateByte(rotated);
    }
    MaskedIntoSlices(old(mem[..]), mem[..], lo, data, WordBytes(mask));
  }

  method MaskAlignedInPlace(mem: array<byte>, lo: nat, words: nat, mask: bv32)
    requires lo + 4 * words <= mem.Length
    modifies mem
    ensures mem[..] == Splice(old(mem[..]), lo, Masked(old(mem[..])[lo..lo + 4 * words], WordBytes(mask)))
  {
    hide Xor, LowByte, WordBytes, WordOf, KeyOctet;
    ghost var data := mem[..][lo..lo + 4 * words];
    for k := 0 to words
      invariant MaskedInto(old(mem[..]), mem[..], lo, data, 4 * k, WordBytes(mask))
    {
      var at := lo + 4 * k;
      assert forall i :: at <= i < at + 4 ==> mem[i] == data[i - lo];
      assert mem[at..at + 4] == data[4 * k..4 * k + 4];
      var n := WordOf(mem[at..at + 4]);
      MaskedWord(data, k, n, mask);
      StoreWord(mem, at, n ^ mask);
    }
    MaskedIntoSlices(old(mem[..]), mem[..], lo, data, WordBytes(mask));
  }

  /** Masking three adjacent ranges in turn, the last two with the rotated key, masks their union. */
  lemma MaskedInThreeSteps(s: seq<byte>, lo: nat, hi: nat, p: nat, q: nat, key: Key)
    requires lo + p <= lo + q <= hi <= |s| && (q - p) % 4 == 0
    ensures
      var s1 := Splice(s, lo, Masked(s[lo..lo + p], key));
      var s2 := Splice(s1, lo + p, Masked(s1[lo + p..lo + q], Rotated(key, p)));
      var s3 := Splice(s2, lo + q, Masked(s2[lo + q..hi], Rotated(key, p)));
      s3 == Splice(s, lo, Masked(s[lo..hi], key))
  {
    hide Masked, Rotated, Splice;
    var data := s[lo..hi];
    var t1, t2, t3 := Masked(data[..p], key), Masked(data[p..q], Rotated(key, p)), Masked(data[q..], Rotated(key, p));
    MaskedPartsSpliced(s, lo, data, p, q, key);
    SliceOfSlice(s, lo, hi, 0, p);
    SliceOfSlice(s, lo, hi, p, q);
    SliceOfSlice(s, lo, hi, q, hi - lo);
    AdjacentSplices(s, lo, t1, t2);
    var s1 := Splice(s, lo, t1);
    assert s1[lo + p..lo + q] == s1[lo + p..][..q - p];
    assert s[lo + p..][..q - p] == s[lo + p..lo + q];
    AdjacentSplices(s, lo, t1 + t2, t3);
    var s2 := Splice(s1, lo + p, t2);
    assert s2[lo + q..hi] == s2[lo + q..][..hi - lo - q];
    assert s[lo + q..][..hi - lo - q] == s[lo + q..hi];
  }

  /** Masks the slice `lo..hi` of the allocation `mem`, whose first byte lies at address `base`. */
  method MaskSlice(mem: array<byte>, base: nat, lo: nat, hi: nat, mask: bv32)
    requires lo <= hi <= mem.Length
    modifies mem
    ensures mem[..] == Splice(old(mem[..]), lo, Masked(old(mem[..])[lo..hi], WordBytes(mask)))
  {
    hide WordBytes, Masked, Rotated, Splice;
    var parts := AlignTo(base + lo, hi - lo);
    ghost var p, q := parts.prefix, parts.prefix + 4 * parts.words;
    MaskedInThreeSteps(mem[..], lo, hi, p, q, WordBytes(mask));
    var rotated := MaskU8InPlace(mem, lo, lo + parts.prefix, mask);
    MaskAlignedInPlace(mem, lo + parts.prefix, parts.words, rotated);
    var _ := MaskU8InPlace(mem, hi - parts.suffix, hi, rotated);
  }

  /** Masking a copy and then masking it where it lies, with allocations at any addresses, gives back the data. */
  method CopyThenUnmask(
    buf: array<byte>, copyBase: nat, unmaskBase: nat, lo: nat, hi: nat, data: seq<byte>, dataAddress: nat, mask: bv32)
    requires lo <= hi <= buf.Length
    requires hi - lo == |data|
    modifies buf
    ensures buf[..] == Splice(old(buf[..]), lo, data)
  {
    hide WordBytes, Masked;
    ghost var key := WordBytes(mask);
    MaskSliceCopy(buf, copyBase, lo, hi, data, dataAddress, mask);
    assert buf[..][lo..hi] == Masked(data, key);
    MaskSlice(buf, unmaskBase, lo, hi, mask);
    MaskedTwice(data, key);
  }
}
