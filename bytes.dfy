/** Bytes, the XOR parity that checksums frames and payloads, and 16-bit little-endian fields. */
module Bytes {

  type byte = bv8

  /** XOR-reduces `s` from left to right, starting from the accumulator `acc`. */
  function XorFrom(acc: byte, s: seq<byte>): byte
    decreases s
  {
    if |s| == 0 then acc else XorFrom(acc ^ s[0], s[1..])
  }

  /** `calc_parity`: the XOR of all bytes, reduced from left to right. For no bytes this
      is 0, the identity of XOR. */
  function Parity(s: seq<byte>): byte
  {
    XorFrom(0, s)
  }

  /** Reference definition of the same XOR, folded from the right. */
  function XorAll(s: seq<byte>): byte
  {
    if |s| == 0 then 0 else s[0] ^ XorAll(s[1..])
  }

  lemma {:induction false} XorAllAppend(a: seq<byte>, b: seq<byte>)
    ensures XorAll(a + b) == XorAll(a) ^ XorAll(b)
  {
    if |a| == 0 {
      assert a + b == b;
    } else {
      assert (a + b)[1..] == a[1..] + b;
      XorAllAppend(a[1..], b);
    }
  }

  /** Reducing from the left with any starting accumulator is that accumulator XOR the
      right fold; in particular the left-to-right `Parity` equals `XorAll`. */
  lemma {:induction false} XorFromIsXorAll(acc: byte, s: seq<byte>)
    ensures XorFrom(acc, s) == acc ^ XorAll(s)
    decreases s
  {
    if |s| > 0 {
      XorFromIsXorAll(acc ^ s[0], s[1..]);
    }
  }

  /** Reducing from the left and from the right give the same parity. */
  lemma ParityIsXorAll(s: seq<byte>)
    ensures Parity(s) == XorAll(s)
  {
    XorFromIsXorAll(0, s);
  }

  /** The parity of a concatenation is the XOR of the parities of its parts. */
  lemma ParityAppend(a: seq<byte>, b: seq<byte>)
    ensures Parity(a + b) == Parity(a) ^ Parity(b)
  {
    ParityIsXorAll(a);
    ParityIsXorAll(b);
    ParityIsXorAll(a + b);
    XorAllAppend(a, b);
  }

  lemma ParitySingle(x: byte)
    ensures Parity([x]) == x
  {
    assert [x][1..] == [];
    assert XorFrom(0, [x]) == XorFrom(0 ^ x, []) == x;
  }

  /** Appending a sequence's own parity makes the parity of the whole zero. */
  lemma ParitySealed(s: seq<byte>)
    ensures Parity(s + [Parity(s)]) == 0
  {
    ParityAppend(s, [Parity(s)]);
    ParitySingle(Parity(s));
  }

  /** Taking the byte at `i` out of `b` removes one copy of it from the multiset... */
  lemma MultisetRemove(b: seq<byte>, i: nat)
    requires i < |b|
    ensures multiset(b[..i] + b[i + 1..]) == multiset(b) - multiset{b[i]}
  {
    assert b == b[..i] + [b[i]] + b[i + 1..];
  }

  lemma XorAllCons(x: byte, s: seq<byte>)
    ensures XorAll([x] + s) == x ^ XorAll(s)
  {
    assert ([x] + s)[1..] == s;
  }

  /** ... and its contribution from the XOR. */
  lemma XorAllSplice(pre: seq<byte>, x: byte, post: seq<byte>)
    ensures XorAll(pre + [x] + post) == x ^ XorAll(pre + post)
  {
    assert pre + [x] + post == pre + ([x] + post);
    XorAllAppend(pre, [x] + post);
    XorAllCons(x, post);
    XorAllAppend(pre, post);
  }

  lemma {:induction false} XorAllPermutation(a: seq<byte>, b: seq<byte>)
    requires multiset(a) == multiset(b)
    ensures XorAll(a) == XorAll(b)
    decreases |a|
  {
    if |a| == 0 {
      assert |b| == |multiset(b)| == 0;
    } else {
      assert a[0] in multiset(b);
      var i :| 0 <= i < |b| && b[i] == a[0];
      MultisetRemove(b, i);
      assert b == b[..i] + [b[i]] + b[i + 1..];
      XorAllSplice(b[..i], b[i], b[i + 1..]);
      assert a == [a[0]] + a[1..];
      XorAllPermutation(a[1..], b[..i] + b[i + 1..]);
    }
  }

  /** The order of the bytes does not affect the parity: any rearrangement gives the same value. */
  lemma ParityPermutation(a: seq<byte>, b: seq<byte>)
    requires multiset(a) == multiset(b)
    ensures Parity(a) == Parity(b)
  {
    ParityIsXorAll(a);
    ParityIsXorAll(b);
    XorAllPermutation(a, b);
  }

  /** Changing one byte by XOR with `d` changes the parity by exactly `d`,
      so a single corrupted byte is always detected. */
  lemma ParityDetectsOneByte(s: seq<byte>, k: nat, d: byte)
    requires k < |s|
    ensures Parity(s[k := s[k] ^ d]) == Parity(s) ^ d
  {
    var t := s[k := s[k] ^ d];
    assert s == s[..k] + [s[k]] + s[k + 1..];
    assert t == s[..k] + [s[k] ^ d] + s[k + 1..];
    ParityAppend(s[..k] + [s[k]], s[k + 1..]);
    ParityAppend(s[..k], [s[k]]);
    ParityAppend(s[..k] + [s[k] ^ d], s[k + 1..]);
    ParityAppend(s[..k], [s[k] ^ d]);
    ParitySingle(s[k]);
    ParitySingle(s[k] ^ d);
  }

  /** The unsigned value of a little-endian 16-bit field. */
  function Uint16(lo: byte, hi: byte): (n: int)
    ensures 0 <= n < 0x1_0000
  {
    lo as int + 256 * hi as int
  }

  lemma ByteOfInt(x: int)
    requires 0 <= x < 0x100
    ensures (x as byte) as int == x
  {
    if x < 0x80 {
      if x < 0x40 { } else { }
    } else {
      if x < 0xC0 { } else { }
    }
  }

  lemma DivMod256(l: int, h: int)
    requires 0 <= l < 256 && 0 <= h
    ensures (l + 256 * h) % 256 == l && (l + 256 * h) / 256 == h
  {
  }

  /** Two bytes with the same unsigned value are the same byte. */
  lemma ByteInjective(a: byte, b: byte)
    requires a as int == b as int
    ensures a == b
  {
  }

  /** The low and high bytes of a 16-bit word, as unsigned values. */
  lemma WordBytes(w: bv16)
    ensures ((w & 0xFF) as byte) as int == (w as int) % 256
    ensures ((w >> 8) as byte) as int == (w as int) / 256
  {
  }

  /** A 16-bit value determines its low and high bytes. */
  lemma Uint16Split(lo: byte, hi: byte, n: int)
    requires Uint16(lo, hi) == n
    ensures lo as int == n % 256 && hi as int == n / 256
  {
    var l, h := lo as int, hi as int;
    assert 0 <= l < 256 && 0 <= h;
    assert l + 256 * h == n;
    DivMod256(l, h);
  }

  /** Two byte pairs with the same 16-bit value are the same pair. */
  lemma Uint16OfSame(lo: byte, hi: byte, lo': byte, hi': byte)
    requires Uint16(lo, hi) == Uint16(lo', hi')
    ensures lo == lo' && hi == hi'
  {
    Uint16Split(lo, hi, Uint16(lo, hi));
    Uint16Split(lo', hi', Uint16(lo, hi));
    ByteInjective(lo, lo');
    ByteInjective(hi, hi');
  }

  /** The only bytes whose 16-bit value is that of `w` are its low and high bytes. */
  lemma Uint16OfWord(lo: byte, hi: byte, w: bv16)
    requires Uint16(lo, hi) == w as int
    ensures lo == (w & 0xFF) as byte && hi == (w >> 8) as byte
  {
    WordBytes(w);
    Uint16Split(lo, hi, w as int);
    ByteInjective(lo, (w & 0xFF) as byte);
    ByteInjective(hi, (w >> 8) as byte);
  }

  /** `n.to_bytes(2, 'little')` for a value that fits in 16 bits: low byte first. */
  function LittleEndian16(n: int): (r: seq<byte>)
    requires 0 <= n < 0x1_0000
    ensures |r| == 2 && r[0] as int == n % 256 && r[1] as int == n / 256
    ensures Uint16(r[0], r[1]) == n
  {
    var lo, hi := n % 256, n / 256;
    assert n == lo + 256 * hi && hi < 256;
    ByteOfInt(lo);
    ByteOfInt(hi);
    [lo as byte, hi as byte]
  }
}
