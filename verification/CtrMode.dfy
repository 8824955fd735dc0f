/** The counter mode that AES::CryptCTR asks OpenSSL for (section 6.5 of NIST SP 800-38A).  The
    block cipher itself is not part of the model: it is any function of a key and a counter block. */
module CtrMode {
  import opened Bytes

  const COUNTERS := 0x1_0000_0000_0000_0000_0000_0000_0000_0000

  /** Byte `j` of what the cipher makes of a counter block. */
  type BlockCipher = (seq<byte>, nat, nat) -> byte

  /** The first counter block as a big-endian number. */
  function Counter(iv: seq<byte>): nat
  {
    if iv == [] then 0 else 256 * Counter(iv[..|iv| - 1]) + iv[|iv| - 1]
  }

  /** Byte `i` of the key stream: the counter goes up by 1 for every 16 bytes. */
  function KeyStream(aes: BlockCipher, key: seq<byte>, iv: seq<byte>, i: nat): byte
  {
    aes(key, (Counter(iv) + i / 16) % COUNTERS, i % 16)
  }

  /** AES::CryptCTR, when OpenSSL reports no error. */
  function CryptCTR(aes: BlockCipher, data: seq<byte>, key: seq<byte>, iv: seq<byte>): (output: seq<byte>)
    ensures |output| == |data|
  {
    seq(|data|, i requires 0 <= i < |data| => Xor(data[i], KeyStream(aes, key, iv, i)))
  }

  // ---------- The key stream ----------

  function Power256(n: nat): (p: nat)
    ensures p >= 1
  {
    if n == 0 then 1 else 256 * Power256(n - 1)
  }

  lemma {:induction false} CounterBelow(iv: seq<byte>)
    ensures Counter(iv) < Power256(|iv|)
  {
    if iv != [] { CounterBelow(iv[..|iv| - 1]); }
  }

  lemma AllCounters()
    ensures Power256(16) == COUNTERS
  {
    assert Power256(4) == 256 * Power256(3) && Power256(3) == 256 * Power256(2) && Power256(2) == 256 * Power256(1);
    assert Power256(8) == 256 * Power256(7) && Power256(7) == 256 * Power256(6) && Power256(6) == 256 * Power256(5)
        && Power256(5) == 256 * Power256(4);
    assert Power256(12) == 256 * Power256(11) && Power256(11) == 256 * Power256(10)
        && Power256(10) == 256 * Power256(9) && Power256(9) == 256 * Power256(8);
    assert Power256(16) == 256 * Power256(15) && Power256(15) == 256 * Power256(14)
        && Power256(14) == 256 * Power256(13) && Power256(13) == 256 * Power256(12);
  }

  /** Different counter blocks are different numbers; the last byte counts least. */
  lemma {:induction false} CounterTells(a: seq<byte>, b: seq<byte>)
    requires |a| == |b|
    ensures Counter(a) == Counter(b) <==> a == b
  {
    if a != [] {
      var n := |a| - 1;
      CounterTells(a[..n], b[..n]);
      assert a == a[..n] + [a[n]] && b == b[..n] + [b[n]];
    }
  }

  /** The first 16 bytes are the cipher of the counter block. */
  lemma KeyStreamStarts(aes: BlockCipher, key: seq<byte>, iv: seq<byte>, j: nat)
    requires |iv| == 16 && j < 16
    ensures KeyStream(aes, key, iv, j) == aes(key, Counter(iv), j)
  {
    hide Counter, Power256;
    CounterBelow(iv);
    AllCounters();
  }

  /** 16 bytes further it goes on with the next counter block; the last one is followed by zero. */
  lemma KeyStreamSteps(aes: BlockCipher, key: seq<byte>, iv: seq<byte>, iv': seq<byte>, i: nat)
    requires Counter(iv') == (Counter(iv) + 1) % 0x1_0000_0000_0000_0000_0000_0000_0000_0000
    ensures KeyStream(aes, key, iv, i + 16) == KeyStream(aes, key, iv', i)
  {
    hide Counter;
    assert (i + 16) / 16 == i / 16 + 1 && (i + 16) % 16 == i % 16;
    CounterWraps(Counter(iv) + 1, i / 16);
  }

  lemma CounterWraps(c: nat, q: nat)
    ensures (c % COUNTERS + q) % COUNTERS == (c + q) % COUNTERS
  {
    SameCounter(c % COUNTERS + q, c / COUNTERS);
  }

  lemma {:induction false} SameCounter(c: nat, times: nat)
    ensures (c + COUNTERS * times) % COUNTERS == c % COUNTERS
  {
    if times > 0 { SameCounter(c, times - 1); }
  }

  /** What is encrypted piece by piece, at 16-byte borders, is what is encrypted at once. */
  lemma CryptInPieces(aes: BlockCipher, a: seq<byte>, b: seq<byte>, key: seq<byte>, iv: seq<byte>, iv': seq<byte>)
    requires |a| == 16 && Counter(iv') == (Counter(iv) + 1) % 0x1_0000_0000_0000_0000_0000_0000_0000_0000
    ensures CryptCTR(aes, a + b, key, iv) == CryptCTR(aes, a, key, iv) + CryptCTR(aes, b, key, iv')
  {
    hide Xor, KeyStream, Counter;
    forall i | 0 <= i < |b| ensures KeyStream(aes, key, iv, i + 16) == KeyStream(aes, key, iv', i) {
      KeyStreamSteps(aes, key, iv, iv', i);
    }
    var whole, first, rest := CryptCTR(aes, a + b, key, iv), CryptCTR(aes, a, key, iv), CryptCTR(aes, b, key, iv');
    assert forall i :: 0 <= i < |rest| ==> whole[16 + i] == rest[i];
  }

  /** With the same key and counter block, encrypting again decrypts. */
  lemma CryptTwice(aes: BlockCipher, data: seq<byte>, key: seq<byte>, iv: seq<byte>)
    ensures CryptCTR(aes, CryptCTR(aes, data, key, iv), key, iv) == data
  {
    hide Xor, KeyStream;
    forall i | 0 <= i < |data| ensures CryptCTR(aes, CryptCTR(aes, data, key, iv), key, iv)[i] == data[i] {
      XorTwice(data[i], KeyStream(aes, key, iv, i));
    }
  }
}
