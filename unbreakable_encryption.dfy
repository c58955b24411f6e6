/**
 * The one-time pad of chapter 1: the message bytes are read as one big-endian
 * integer, XOR-ed with a random key of the same byte length, and recovered by
 * XOR-ing again and writing the integer back out in the fewest big-endian bytes.
 * The random bytes are a parameter; UTF-8 encoding and decoding stay outside.
 */
module UnbreakableEncryption {
  import opened BitMath

  type byte = b: int | 0 <= b < 256

  /** `int.from_bytes(bs, "big")`: n bytes hold a number below 256^n. */
  function FromBytes(bs: seq<byte>): (x: nat)
    ensures x < Pow2(8 * |bs|)
  {
    if bs == [] then 0
    else
      Pow2Byte(8 * (|bs| - 1));
      256 * FromBytes(bs[..|bs| - 1]) + bs[|bs| - 1]
  }

  /** `x.to_bytes(n, "big")` for an x that fits in n bytes. */
  function ToBytes(x: nat, n: nat): (bs: seq<byte>)
    ensures |bs| == n
  {
    if n == 0 then [] else ToBytes(x / 256, n - 1) + [x % 256]
  }

  /** Bitwise XOR of two non-negative Python integers: 0 is its unit, and a number cancels itself. */
  function Xor(a: nat, b: nat): (r: nat)
    ensures b == 0 ==> r == a
    ensures a == b ==> r == 0
    decreases a + b
  {
    if a == 0 && b == 0 then 0
    else 2 * Xor(a / 2, b / 2) + (if a % 2 == b % 2 then 0 else 1)
  }

  lemma Pow2Byte(k: nat)
    ensures Pow2(k + 8) == 256 * Pow2(k)
  {
    Pow2Add(k, 8);
    assert Pow2(8) == 256;
  }

  /** With a non-zero leading byte the number needs all n bytes. */
  lemma {:induction false} FromBytesLeadingNonZero(bs: seq<byte>)
    requires bs != [] && bs[0] != 0
    ensures FromBytes(bs) >= Pow2(8 * (|bs| - 1))
  {
    if |bs| > 1 {
      var init := bs[..|bs| - 1];
      FromBytesLeadingNonZero(init);
      Pow2Byte(8 * (|init| - 1));
    }
  }

  /** With a zero leading byte the number fits in one byte less. */
  lemma {:induction false} FromBytesLeadingZero(bs: seq<byte>)
    requires bs != [] && bs[0] == 0
    ensures FromBytes(bs) < Pow2(8 * (|bs| - 1))
  {
    if |bs| > 1 {
      var init := bs[..|bs| - 1];
      FromBytesLeadingZero(init);
      Pow2Byte(8 * (|init| - 1));
    }
  }

  lemma {:induction false} ToBytesFromBytes(bs: seq<byte>)
    ensures ToBytes(FromBytes(bs), |bs|) == bs
  {
    if bs != [] {
      var init := bs[..|bs| - 1];
      ToBytesFromBytes(init);
      assert bs == init + [bs[|bs| - 1]];
    }
  }

  lemma {:induction false} FromBytesToBytes(x: nat, n: nat)
    requires x < Pow2(8 * n)
    ensures FromBytes(ToBytes(x, n)) == x
  {
    if n > 0 {
      Pow2Byte(8 * (n - 1));
      FromBytesToBytes(x / 256, n - 1);
      var bs := ToBytes(x, n);
      assert bs[..n - 1] == ToBytes(x / 256, n - 1);
    }
  }

  lemma {:induction false} XorBound(a: nat, b: nat, k: nat)
    requires a < Pow2(k) && b < Pow2(k)
    ensures Xor(a, b) < Pow2(k)
    decreases a + b
  {
    if a != 0 || b != 0 {
      assert k > 0;
      XorBound(a / 2, b / 2, k - 1);
    }
  }

  /** XOR-ing with the same key twice gives the original number back. */
  lemma {:induction false} XorCancel(key: nat, x: nat)
    ensures Xor(key, Xor(x, key)) == x
    decreases key + x
  {
    var c := Xor(x, key);
    if key != 0 || x != 0 {
      XorCancel(key / 2, x / 2);
      assert c / 2 == Xor(x / 2, key / 2);
      assert c % 2 == (if x % 2 == key % 2 then 0 else 1);
    }
  }

  /** A positive number lies between 2^(bit_length-1) and 2^bit_length. */
  lemma {:induction false} BitLengthBounds(x: nat)
    requires x > 0
    ensures BitLength(x) >= 1
    ensures Pow2(BitLength(x) - 1) <= x < Pow2(BitLength(x))
  {
    if x > 1 {
      BitLengthBounds(x / 2);
    }
  }

  /** `random_key(length)`: the key built from `length` random bytes, below 256^length. */
  function RandomKey(tokenBytes: seq<byte>): (key: nat)
    ensures key < Pow2(8 * |tokenBytes|)
  {
    FromBytes(tokenBytes)
  }

  /**
   * `encrypt(original)`: with `tokenBytes` the random bytes drawn for a key as
   * long as the message, returns the key and the message XOR the key.
   */
  function Encrypt(original: seq<byte>, tokenBytes: seq<byte>): (pair: (nat, nat))
    requires |tokenBytes| == |original|
    ensures pair.0 < Pow2(8 * |original|) && pair.1 < Pow2(8 * |original|)
    ensures Xor(pair.0, pair.1) == FromBytes(original)
    ensures pair.0 == RandomKey(tokenBytes) && pair.1 == Xor(FromBytes(original), pair.0)
  {
    var dummy := RandomKey(tokenBytes);
    var originalKey := FromBytes(original);
    XorBound(originalKey, dummy, 8 * |original|);
    XorCancel(dummy, originalKey);
    (dummy, Xor(originalKey, dummy))
  }

  /**
   * `decrypt(key1, key2)`: the bytes of key1 XOR key2, in (bit_length + 7) // 8
   * big-endian bytes. They encode that number exactly and never start with a
   * zero byte; 0 becomes no bytes at all.
   */
  function Decrypt(key1: nat, key2: nat): (bs: seq<byte>)
    ensures FromBytes(bs) == Xor(key1, key2)
    ensures bs == [] || bs[0] != 0
    ensures |bs| == (BitLength(Xor(key1, key2)) + 7) / 8
  {
    var decrypted := Xor(key1, key2);
    var n := (BitLength(decrypted) + 7) / 8;
    var bs := ToBytes(decrypted, n);
    DecryptFacts(decrypted, n);
    bs
  }

  lemma DecryptFacts(x: nat, n: nat)
    requires n == (BitLength(x) + 7) / 8
    ensures FromBytes(ToBytes(x, n)) == x
    ensures ToBytes(x, n) == [] || ToBytes(x, n)[0] != 0
  {
    if x == 0 {
      assert n == 0;
    } else {
      BitLengthBounds(x);
      var bl := BitLength(x);
      Pow2Monotone(bl, 8 * n);
      FromBytesToBytes(x, n);
      var bs := ToBytes(x, n);
      if bs[0] == 0 {
        FromBytesLeadingZero(bs);
        Pow2Monotone(8 * (n - 1), bl - 1);
      }
    }
  }

  /** For bytes without a leading zero, decrypt(*encrypt(m)) == m. */
  lemma RoundTrip(original: seq<byte>, tokenBytes: seq<byte>)
    requires |tokenBytes| == |original|
    requires original == [] || original[0] != 0
    ensures Decrypt(Encrypt(original, tokenBytes).0, Encrypt(original, tokenBytes).1) == original
  {
    var pair := Encrypt(original, tokenBytes);
    var bs := Decrypt(pair.0, pair.1);
    var x := FromBytes(original);
    assert FromBytes(bs) == x;
    if original == [] {
      assert x == 0;
      BitLengthZero();
    } else {
      FromBytesLeadingNonZero(original);
      BitLengthLower(x, 8 * (|original| - 1));
      BitLengthUpper(x, 8 * |original|);
      assert |bs| == |original|;
      ToBytesFromBytes(original);
      ToBytesFromBytes(bs);
    }
  }

  lemma BitLengthZero()
    ensures BitLength(0) == 0
  {
  }

  /** Leading zero bytes do not survive: the message [0, 65] decrypts to [65]. */
  lemma LeadingZeroLost(tokenBytes: seq<byte>)
    requires |tokenBytes| == 2
    ensures Decrypt(Encrypt([0, 65], tokenBytes).0, Encrypt([0, 65], tokenBytes).1) == [65]
  {
    var pair := Encrypt([0, 65], tokenBytes);
    var bs := Decrypt(pair.0, pair.1);
    assert FromBytes([0, 65]) == 65 by {
      assert [0, 65][..1] == [0];
      assert [0 as byte][..0] == [];
    }
    assert FromBytes(bs) == 65;
    assert Pow2(6) <= 65 < Pow2(7);
    BitLengthLower(65, 6);
    BitLengthUpper(65, 7);
    assert |bs| == 1;
    assert bs == [bs[0]];
    assert bs[..0] == [];
  }
}
