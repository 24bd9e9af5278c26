/**
 The rolling hash behind chunk boundaries.

 A 32-bit word is the sequence of its bits, least significant first, so that shifts,
 rotations and exclusive-or are plain index arithmetic.
 */
module BuzHash {
  import opened ByteSeqs

  const WORD_BITS := 32

  type Word = w: seq<bool> | |w| == WORD_BITS witness seq(WORD_BITS, _ => false)

  const ZERO: Word := seq(WORD_BITS, _ => false)

  function Shl(x: Word, k: nat): Word {
    seq(WORD_BITS, i requires 0 <= i < WORD_BITS => if i < k % WORD_BITS then false else x[i - k % WORD_BITS])
  }

  function Shr(x: Word, k: nat): Word {
    seq(WORD_BITS, i requires 0 <= i < WORD_BITS => if i + k % WORD_BITS < WORD_BITS then x[i + k % WORD_BITS]
        else false)
  }

  function Or(x: Word, y: Word): Word {
    seq(WORD_BITS, i requires 0 <= i < WORD_BITS => x[i] || y[i])
  }

  function And(x: Word, y: Word): Word {
    seq(WORD_BITS, i requires 0 <= i < WORD_BITS => x[i] && y[i])
  }

  function Xor(x: Word, y: Word): Word {
    seq(WORD_BITS, i requires 0 <= i < WORD_BITS => x[i] != y[i])
  }

  /** One-bit left rotation. */
  function Rotate1(x: Word): Word {
    Or(Shl(x, 1), Shr(x, 31))
  }

  /** Left rotation by any number of bits, one bit at a time. */
  function Rotate(x: Word, k: nat): Word {
    if k == 0 then x else Rotate1(Rotate(x, k - 1))
  }

  /** The bit that a rotation by `r` places moves to position `i`. */
  function From(i: nat, r: nat): (j: nat)
    requires i < WORD_BITS && r < WORD_BITS
    ensures j < WORD_BITS
  {
    if r <= i then i - r else i + WORD_BITS - r
  }

  lemma Rotate1Bit(x: Word, i: nat)
    requires i < WORD_BITS
    ensures Rotate1(x)[i] == x[From(i, 1)]
  {
  }

  lemma {:induction false} RotateBit(x: Word, k: nat, i: nat)
    requires i < WORD_BITS
    ensures Rotate(x, k)[i] == x[From(i, k % WORD_BITS)]
  {
    if k > 0 {
      var j, r := From(i, 1), (k - 1) % WORD_BITS;
      calc {
        Rotate(x, k)[i];
        { Rotate1Bit(Rotate(x, k - 1), i); }
        Rotate(x, k - 1)[j];
        { RotateBit(x, k - 1, j); }
        x[From(j, r)];
        { FromStep(i, k - 1); }
        x[From(i, k % WORD_BITS)];
      }
    }
  }

  /** Rotating by one bit and then by `j` more is rotating by `j + 1`. */
  lemma FromStep(i: nat, j: nat)
    requires i < WORD_BITS
    ensures From(From(i, 1), j % WORD_BITS) == From(i, (j + 1) % WORD_BITS)
  {
    assert (j + 1) % WORD_BITS == if j % WORD_BITS == WORD_BITS - 1 then 0 else j % WORD_BITS + 1;
  }

  /** The shift pair that `hashByte` applies to the departing byte is the rotation by the window length. */
  lemma ShiftPairIsRotation(x: Word, n: nat)
    ensures Or(Shl(x, n % 32), Shr(x, 32 - n % 32)) == Rotate(x, n)
  {
    var y := Or(Shl(x, n % 32), Shr(x, 32 - n % 32));
    forall i | 0 <= i < WORD_BITS
      ensures y[i] == Rotate(x, n)[i]
    {
      RotateBit(x, n, i);
      ShiftPairBit(x, n % 32, i);
    }
  }

  lemma ShiftPairBit(x: Word, r: nat, i: nat)
    requires r < WORD_BITS && i < WORD_BITS
    ensures Or(Shl(x, r), Shr(x, 32 - r))[i] == x[From(i, r)]
  {
  }

  /** The hash of a window from scratch: each byte's table word, rotated by its distance from the newest byte. */
  function Direct(table: Byte -> Word, window: seq<Byte>): Word {
    if window == [] then ZERO
    else Xor(Rotate(table(window[0]), |window| - 1), Direct(table, window[1..]))
  }

  /**
   How many bytes of a window bring a set bit to position `i`: the one at distance `d` from its end, its bit `i - d`.
   */
  function Ones(table: Byte -> Word, window: seq<Byte>, i: nat): nat {
    if window == [] then 0
    else Ones(table, window[1..], i) + if table(window[0])[(i - (|window| - 1)) % WORD_BITS] then 1 else 0
  }

  /** Bit by bit, the hash of a window is the parity of the bits that its bytes bring to that place. */
  lemma {:induction false} DirectBit(table: Byte -> Word, window: seq<Byte>, i: nat)
    requires i < WORD_BITS
    ensures Direct(table, window)[i] <==> Ones(table, window, i) % 2 == 1
  {
    hide *;
    if window == [] {
      NoBits(table, i);
    } else {
      DirectBit(table, window[1..], i);
      FirstHashed(table, window, i);
      FirstCounted(table, window, i);
    }
  }

  lemma NoBits(table: Byte -> Word, i: nat)
    requires i < WORD_BITS
    ensures !Direct(table, [])[i] && Ones(table, [], i) == 0
  {
  }

  lemma FirstHashed(table: Byte -> Word, window: seq<Byte>, i: nat)
    requires i < WORD_BITS && window != []
    ensures Direct(table, window)[i] ==
            (table(window[0])[From(i, (|window| - 1) % WORD_BITS)] != Direct(table, window[1..])[i])
  {
    hide Rotate, From;
    RotateBit(table(window[0]), |window| - 1, i);
    XorBit(Rotate(table(window[0]), |window| - 1), Direct(table, window[1..]), i);
    hide Xor;
  }

  lemma XorBit(x: Word, y: Word, i: nat)
    requires i < WORD_BITS
    ensures Xor(x, y)[i] == (x[i] != y[i])
  {
  }

  lemma FirstCounted(table: Byte -> Word, window: seq<Byte>, i: nat)
    requires i < WORD_BITS && window != []
    ensures Ones(table, window, i) ==
            Ones(table, window[1..], i) + if table(window[0])[From(i, (|window| - 1) % WORD_BITS)] then 1 else 0
  {
    hide From;
    FromIsDifference(i, |window| - 1);
  }

  lemma FromIsDifference(i: nat, k: nat)
    requires i < WORD_BITS
    ensures From(i, k % WORD_BITS) == (i - k) % WORD_BITS
  {
  }

  lemma Rotate1Xor(x: Word, y: Word)
    ensures Rotate1(Xor(x, y)) == Xor(Rotate1(x), Rotate1(y))
  {
  }

  lemma {:induction false} DirectSnoc(table: Byte -> Word, window: seq<Byte>, b: Byte)
    ensures Direct(table, window + [b]) == Xor(Rotate1(Direct(table, window)), table(b))
  {
    var all := window + [b];
    if window == [] {
      assert Direct(table, all[1..]) == ZERO;
    } else {
      assert all[1..] == window[1..] + [b];
      DirectSnoc(table, window[1..], b);
      Rotate1Xor(Rotate(table(window[0]), |window| - 1), Direct(table, window[1..]));
    }
  }

  /** The last `n` bytes of a stream, or all of it. */
  function Last(s: seq<Byte>, n: nat): (r: seq<Byte>)
    ensures |r| <= n && |r| <= |s|
  {
    if |s| <= n then s else s[|s| - n..]
  }

  /** The circular buffer holds the window: in order while filling, rotated at `pos` once it has wrapped. */
  ghost predicate Ring(buf: seq<Byte>, pos: nat, wrapped: bool, stream: seq<Byte>) {
    && pos <= |buf|
    && wrapped == (|stream| > |buf|)
    && (!wrapped ==> pos == |stream| && buf[..pos] == stream)
    && (wrapped ==> 0 < pos && Last(stream, |buf|) == buf[pos..] + buf[..pos])
  }

  lemma RingStep(buf: seq<Byte>, pos: nat, wrapped: bool, stream: seq<Byte>, b: Byte)
    requires buf != [] && Ring(buf, pos, wrapped, stream)
    ensures var full := wrapped || pos == |buf|;
            var at := if pos == |buf| then 0 else pos;
            && full == (|stream| >= |buf|)
            && (full ==> Last(stream, |buf|) != [] && Last(stream, |buf|)[0] == buf[at])
            && Ring(buf[at := b], at + 1, full, stream + [b])
  {
    LastSnoc(stream, b, |buf|);
    var at := if pos == |buf| then 0 else pos;
    var next := buf[at := b];
    if wrapped || pos == |buf| {
      var w := Last(stream, |buf|);
      assert w == buf[at..] + buf[..at];
      assert w[1..] + [b] == next[at + 1..] + next[..at + 1];
    }
  }

  class BuzHash {
    const table: Byte -> Word
    const n: nat
    const bshiftn: nat
    const bshiftm: nat
    const buf: array<Byte>
    var state: Word
    var bufpos: nat
    var overflow: bool
    ghost var stream: seq<Byte>  // every byte hashed since the last reset

    ghost predicate Valid()
      reads this, buf
    {
      && 0 < n == buf.Length
      && bshiftn == n % 32 && bshiftm == 32 - bshiftn
      && Ring(buf[..], bufpos, overflow, stream)
      && state == Direct(table, Last(stream, n))
    }

    constructor (table: Byte -> Word, n: nat)
      requires 0 < n
      ensures Valid() && fresh(this) && fresh(buf)
      ensures stream == [] && this.n == n && this.table == table
    {
      this.table, this.n := table, n;
      bshiftn, bshiftm := n % 32, 32 - n % 32;
      buf := new Byte[n](_ => 0);
      state, bufpos, overflow, stream := ZERO, 0, false, [];
    }

    /** Rolling equals direct: the state is the hash of the last `n` bytes and of nothing older. */
    method HashByte(b: Byte) returns (sum: Word)
      requires Valid()
      modifies this, buf
      ensures Valid()
      ensures stream == old(stream) + [b]
      ensures sum == state == Direct(table, Last(stream, n))
    {
      ghost var window := Last(stream, n);
      RingStep(buf[..], bufpos, overflow, stream, b);
      LastSnoc(stream, b, n);
      if bufpos == n {
        overflow := true;
        bufpos := 0;
      }
      var s := Mix(b, window);
      ghost var next := buf[..][bufpos := b];
      buf[bufpos] := b;
      assert buf[..] == next;
      bufpos := bufpos + 1;
      state := s;
      stream := stream + [b];
      sum := state;
    }

    /** The word arithmetic of `hashByte`: rotate, take the departing byte out, put the new byte in. */
    method Mix(b: Byte, ghost window: seq<Byte>) returns (s: Word)
      requires bshiftn == n % 32 && bshiftm == 32 - bshiftn
      requires state == Direct(table, window)
      requires overflow ==> bufpos < buf.Length && |window| == n > 0 && window[0] == buf[bufpos]
      ensures s == Direct(table, if overflow then window[1..] + [b] else window + [b])
    {
      RollStep(table, window, b, overflow);
      s := Rotate1(state);
      if overflow {
        var toshift := table(buf[bufpos]);
        ShiftPairIsRotation(toshift, n);
        s := Xor(s, Or(Shl(toshift, bshiftn), Shr(toshift, bshiftm)));
      }
      s := Xor(s, table(b));
    }
  }

  lemma LastSnoc(s: seq<Byte>, b: Byte, n: nat)
    requires 0 < n
    ensures Last(s + [b], n) == if |s| < n then s + [b] else Last(s, n)[1..] + [b]
  {
  }

  lemma LastLast(s: seq<Byte>, t: seq<Byte>, n: nat)
    ensures Last(Last(s, n) + t, n) == Last(s + t, n)
  {
  }

  /** Hashers that have seen the same last `n` bytes agree after any bytes that both see next. */
  lemma AgreeForever(table: Byte -> Word, s: seq<Byte>, t: seq<Byte>, next: seq<Byte>, n: nat)
    requires Last(s, n) == Last(t, n)
    ensures Direct(table, Last(s + next, n)) == Direct(table, Last(t + next, n))
  {
    LastLast(s, next, n);
    LastLast(t, next, n);
  }

  /**
   Rotating the old hash and xoring in the new byte (and xoring out the departing one) is the hash of the new window.
   */
  lemma RollStep(table: Byte -> Word, w: seq<Byte>, b: Byte, full: bool)
    requires full ==> w != []
    ensures Xor(Rotate1(Direct(table, w)), table(b)) == Direct(table, w + [b])
    ensures full ==>
              Xor(Xor(Rotate1(Direct(table, w)), Rotate(table(w[0]), |w|)), table(b)) == Direct(table, w[1..] + [b])
  {
    DirectSnoc(table, w, b);
    if full {
      assert (w + [b])[1..] == w[1..] + [b];
      var d, r, t := Direct(table, w[1..] + [b]), Rotate(table(w[0]), |w|), Rotate1(Direct(table, w));
      assert Xor(t, table(b)) == Xor(r, d);
      XorCancel(t, r, table(b), d);
    }
  }

  lemma XorCancel(t: Word, r: Word, v: Word, d: Word)
    requires Xor(t, v) == Xor(r, d)
    ensures Xor(Xor(t, r), v) == d
  {
    forall i | 0 <= i < WORD_BITS ensures Xor(Xor(t, r), v)[i] == d[i] {
      assert Xor(t, v)[i] == Xor(r, d)[i];
    }
  }
}
