/** Bytes, and numbers written as bytes with the most significant first. */
module ByteSeqs {

  type Byte = b: nat | b < 256

  function Power256(k: nat): (p: nat)
    ensures p > 0
  {
    if k == 0 then 1 else 256 * Power256(k - 1)
  }

  /** The last `k` bytes of a number. */
  function Write(n: nat, k: nat): (bytes: seq<Byte>)
    ensures |bytes| == k
  {
    if k == 0 then [] else Write(n / 256, k - 1) + [n % 256]
  }

  function Read(bytes: seq<Byte>): nat {
    if bytes == [] then 0 else 256 * Read(bytes[..|bytes| - 1]) + bytes[|bytes| - 1]
  }

  /** A number that fits is read back as it was written. */
  lemma {:induction false} ReadWrite(n: nat, k: nat)
    requires n < Power256(k)
    ensures Read(Write(n, k)) == n
  {
    if k > 0 {
      assert n / 256 < Power256(k - 1);
      ReadWrite(n / 256, k - 1);
      assert Write(n, k)[..k - 1] == Write(n / 256, k - 1);
    }
  }

  lemma DivDiv(n: nat, p: nat)
    requires p > 0
    ensures n / 256 / p == n / (256 * p)
  {
    var m := n / 256;
    var q, r := m / p, m % p;
    assert n == 256 * (q * p + r) + n % 256 && r <= p - 1;
    Quotient(n, 256 * p, q, 256 * r + n % 256);
  }

  lemma Quotient(n: nat, d: nat, q: nat, r: nat)
    requires d > 0 && n == q * d + r && r < d
    ensures n / d == q
  {
    var m := n / d;
    assert n == m * d + n % d;
    if m < q {
      Product(m + 1, q, d);
      Product(m, q, d);
    } else if q < m {
      Product(q + 1, m, d);
      Product(q, m, d);
    }
  }

  lemma Product(a: nat, b: nat, d: nat)
    requires a <= b
    ensures a * d <= b * d && (a + 1) * d == a * d + d
  {
  }

  /** The most significant byte comes first: byte `i` of `k` counts for 256 to the power of `k - 1 - i`. */
  lemma {:induction false} WriteByte(n: nat, k: nat, i: nat)
    requires i < k
    ensures Write(n, k)[i] == n / Power256(k - 1 - i) % 256
  {
    if i < k - 1 {
      WriteByte(n / 256, k - 1, i);
      DivDiv(n, Power256(k - 2 - i));
    }
  }

  /** Each byte read counts for as much. */
  lemma {:induction false} ReadFirst(b: Byte, rest: seq<Byte>)
    ensures Read([b] + rest) == b * Power256(|rest|) + Read(rest)
  {
    var all := [b] + rest;
    if rest != [] {
      var init := rest[..|rest| - 1];
      assert all[..|all| - 1] == [b] + init;
      ReadFirst(b, init);
      assert 256 * (b * Power256(|init|)) == b * (256 * Power256(|init|));
    } else {
      assert all[..0] == [];
    }
  }

  function Bytes4(n: nat): seq<Byte> {
    [n / 16777216 % 256, n / 65536 % 256, n / 256 % 256, n % 256]
  }

  function Bytes8(n: nat): seq<Byte> {
    [n / 72057594037927936 % 256, n / 281474976710656 % 256, n / 1099511627776 % 256, n / 4294967296 % 256,
     n / 16777216 % 256, n / 65536 % 256, n / 256 % 256, n % 256]
  }

  lemma Powers()
    ensures Power256(0) == 1 && Power256(1) == 256 && Power256(2) == 65536 && Power256(3) == 16777216
    ensures Power256(4) == 4294967296 && Power256(5) == 1099511627776 && Power256(6) == 281474976710656
    ensures Power256(7) == 72057594037927936 && Power256(8) == 18446744073709551616
  {
    assert Power256(1) == 256 * Power256(0);
    assert Power256(2) == 256 * Power256(1);
    assert Power256(3) == 256 * Power256(2);
    assert Power256(4) == 256 * Power256(3);
    assert Power256(5) == 256 * Power256(4);
    assert Power256(6) == 256 * Power256(5);
    assert Power256(7) == 256 * Power256(6);
    assert Power256(8) == 256 * Power256(7);
  }

  /** Numbers of 32 and 64 bits, byte by byte. */
  lemma FourBytes(n: nat)
    ensures Write(n, 4) == Bytes4(n)
  {
    Powers();
    hide Power256, Write;
    forall i: nat | i < 4 ensures Write(n, 4)[i] == Bytes4(n)[i] {
      WriteByte(n, 4, i);
    }
  }

  lemma EightBytes(n: nat)
    ensures Write(n, 8) == Bytes8(n)
  {
    Powers();
    hide Power256, Write;
    forall i: nat | i < 8 ensures Write(n, 8)[i] == Bytes8(n)[i] {
      WriteByte(n, 8, i);
    }
  }

  // ---------- a buffer ----------

  /** The buffer with `bytes` written at `at`. */
  function Put(buff: seq<Byte>, at: nat, bytes: seq<Byte>): (r: seq<Byte>)
    requires at + |bytes| <= |buff|
    ensures |r| == |buff|
  {
    buff[..at] + bytes + buff[at + |bytes|..]
  }

  /** `bytes` are what the buffer holds at `at`. */
  ghost predicate HeldAt(buff: seq<Byte>, at: nat, bytes: seq<Byte>) {
    at + |bytes| <= |buff| && buff[at..at + |bytes|] == bytes
  }

  lemma PutHere(buff: seq<Byte>, at: nat, bytes: seq<Byte>)
    requires at + |bytes| <= |buff|
    ensures HeldAt(Put(buff, at, bytes), at, bytes)
  {
  }

  /** What does not overlap stays. */
  lemma PutElsewhere(buff: seq<Byte>, at: nat, bytes: seq<Byte>, there: nat, held: seq<Byte>)
    requires at + |bytes| <= |buff| && HeldAt(buff, there, held) && (there + |held| <= at || at + |bytes| <= there)
    ensures HeldAt(Put(buff, at, bytes), there, held)
  {
    var r := Put(buff, at, bytes);
    forall i | there <= i < there + |held| ensures r[i] == buff[i] {
    }
    assert r[there..there + |held|] == buff[there..there + |held|];
  }

  lemma PutBoth(buff: seq<Byte>, at: nat, x: seq<Byte>, y: seq<Byte>)
    requires at + |x| + |y| <= |buff|
    ensures Put(Put(buff, at, x), at + |x|, y) == Put(buff, at, x + y)
  {
  }

  /** What is held in two parts. */
  lemma HeldBoth(buff: seq<Byte>, at: nat, x: seq<Byte>, y: seq<Byte>)
    requires HeldAt(buff, at, x + y)
    ensures HeldAt(buff, at, x) && HeldAt(buff, at + |x|, y)
  {
    var b := buff[at..at + |x + y|];
    assert buff[at..at + |x|] == b[..|x|] && buff[at + |x|..at + |x| + |y|] == b[|x|..];
  }
}
