/**
 The value hasher that a chunker owns: it feeds value bytes to the rolling hash and notices boundaries.

 `Hasher` is its state as the chunker sees it, with the window itself in place of the window's hash.
 `RollingValueHasher` is the hasher that keeps only the hash; it computes the same boundaries.
 */
module RollingHasher {
  import opened ByteSeqs
  import opened BuzHash
  import opened Chunking

  datatype Hasher = Hasher(window: seq<Byte>, bytesHashed: nat, lengthOnly: bool, crossedBoundary: bool)
  {
    function ClearLastBoundary(): Hasher {
      this.(crossedBoundary := false, bytesHashed := 0)
    }

    function HashByte(cfg: Config, b: Byte): Hasher {
      if lengthOnly then this.(bytesHashed := bytesHashed + 1)
      else
        var w := Last(window + [b], cfg.window);
        this.(window := w, bytesHashed := bytesHashed + 1, crossedBoundary := crossedBoundary || cfg.hits(w))
    }

    /** Hashes the bytes of one value. */
    function HashValue(cfg: Config, bytes: seq<Byte>): Hasher {
      if bytes == [] then this
      else HashValue(cfg, bytes[..|bytes| - 1]).HashByte(cfg, bytes[|bytes| - 1])
    }
  }

  const NEW_HASHER := Hasher([], 0, false, false)

  /** Hashing a value advances the window by its bytes and reports whether they cross a boundary. */
  lemma {:induction false} HashValueMeaning(cfg: Config, h: Hasher, bytes: seq<Byte>)
    requires |h.window| <= cfg.window
    ensures var r := h.HashValue(cfg, bytes);
            && |r.window| <= cfg.window
            && r.bytesHashed == h.bytesHashed + |bytes| && r.lengthOnly == h.lengthOnly
            && (h.lengthOnly ==> r.window == h.window && r.crossedBoundary == h.crossedBoundary)
            && (!h.lengthOnly ==> r.window == Last(h.window + bytes, cfg.window))
            && (!h.lengthOnly ==> r.crossedBoundary == (h.crossedBoundary || Crosses(cfg, h.window, bytes)))
  {
    if bytes == [] {
      assert h.window + bytes == h.window;
    } else {
      var init, b := bytes[..|bytes| - 1], bytes[|bytes| - 1];
      HashValueMeaning(cfg, h, init);
      OneMoreByte(cfg, h.window, bytes);
    }
  }

  lemma OneMoreByte(cfg: Config, w: seq<Byte>, bytes: seq<Byte>)
    requires bytes != []
    ensures var init, b := bytes[..|bytes| - 1], bytes[|bytes| - 1];
            var next := Last(Last(w + init, cfg.window) + [b], cfg.window);
            && next == Last(w + bytes, cfg.window)
            && Crosses(cfg, w, bytes) == (Crosses(cfg, w, init) || cfg.hits(next))
  {
    var init, b := bytes[..|bytes| - 1], bytes[|bytes| - 1];
    assert bytes == init + [b] && bytes[..|bytes|] == bytes;
    CrossesPrefix(cfg, w, init, b, |init|);
    LastLast(w + init, [b], cfg.window);
    assert w + init + [b] == w + bytes;
  }

  lemma {:induction false} CrossesPrefix(cfg: Config, w: seq<Byte>, bytes: seq<Byte>, b: Byte, k: nat)
    requires k <= |bytes|
    ensures CrossesBy(cfg, w, bytes + [b], k) == CrossesBy(cfg, w, bytes, k)
  {
    if k > 0 {
      CrossesPrefix(cfg, w, bytes, b, k - 1);
      assert (bytes + [b])[..k] == bytes[..k];
    }
  }

  /** The chunking configuration that a hash table, window and pattern amount to. */
  function HashConfig(table: Byte -> Word, window: nat, pattern: Word): Config {
    Config(window, w => And(Direct(table, w), pattern) == pattern)
  }

  /** A window is a boundary exactly if every bit that the pattern has is set in its hash. */
  lemma HitsExactly(table: Byte -> Word, window: nat, pattern: Word, w: seq<Byte>)
    ensures HashConfig(table, window, pattern).hits(w) <==>
            forall i: nat :: i < WORD_BITS && pattern[i] ==> Ones(table, w, i) % 2 == 1
  {
    forall i: nat | i < WORD_BITS ensures Direct(table, w)[i] <==> Ones(table, w, i) % 2 == 1 {
      DirectBit(table, w, i);
    }
    hide Direct, Ones;
    AndKeeps(Direct(table, w), pattern);
  }

  lemma AndKeeps(x: Word, pattern: Word)
    ensures And(x, pattern) == pattern <==> forall i: nat :: i < WORD_BITS && pattern[i] ==> x[i]
  {
    if And(x, pattern) == pattern {
      forall i: nat | i < WORD_BITS && pattern[i] ensures x[i] {
        assert And(x, pattern)[i] == pattern[i];
      }
    }
  }

  /** The hasher that knows only the hash of the window notices what the one that knows the window does. */
  lemma NextHasher(table: Byte -> Word, n: nat, pattern: Word, stream: seq<Byte>, b: Byte, count: nat, crossed: bool)
    ensures var w := Last(stream + [b], n);
            Hasher(Last(stream, n), count, false, crossed).HashByte(HashConfig(table, n, pattern), b)
            == Hasher(w, count + 1, false, crossed || And(Direct(table, w), pattern) == pattern)
  {
    LastLast(stream, [b], n);
  }

  class RollingValueHasher {
    const bz: BuzHash
    const window: nat
    const pattern: Word
    var bytesHashed: nat
    var lengthOnly: bool
    var crossedBoundary: bool

    ghost function Cfg(): Config
      reads bz
    {
      HashConfig(bz.table, window, pattern)
    }

    ghost predicate Valid()
      reads this, bz, bz.buf
    {
      bz.Valid() && bz.n == window
    }

    ghost function Footprint(): set<object>
    {
      {this, bz, bz.buf}
    }

    /** The state as the chunker sees it. */
    ghost function Abstract(): Hasher
      reads this, bz
    {
      Hasher(Last(bz.stream, window), bytesHashed, lengthOnly, crossedBoundary)
    }

    constructor (table: Byte -> Word, window: nat, pattern: Word)
      requires 0 < window
      ensures Valid() && fresh(Footprint())
      ensures Cfg() == HashConfig(table, window, pattern) && Abstract() == NEW_HASHER
    {
      this.window, this.pattern := window, pattern;
      bz := new BuzHash(table, window);
      bytesHashed, lengthOnly, crossedBoundary := 0, false, false;
    }

    method HashByte(b: Byte)
      requires Valid()
      modifies Footprint()
      ensures Valid() && Abstract() == old(Abstract()).HashByte(Cfg(), b)
    {
      hide HashConfig, Direct;
      bytesHashed := bytesHashed + 1;
      if lengthOnly {
        return;
      }
      NextHasher(bz.table, window, pattern, bz.stream, b, bytesHashed - 1, crossedBoundary);
      var sum := bz.HashByte(b);
      crossedBoundary := crossedBoundary || And(sum, pattern) == pattern;
    }

    method ClearLastBoundary()
      requires Valid()
      modifies this
      ensures Valid() && Abstract() == old(Abstract()).ClearLastBoundary()
    {
      crossedBoundary := false;
      bytesHashed := 0;
    }

    method HashValue(bytes: seq<Byte>)
      requires Valid()
      modifies Footprint()
      ensures Valid() && Abstract() == old(Abstract()).HashValue(Cfg(), bytes)
    {
      ghost var start, cfg := Abstract(), Cfg();
      for i := 0 to |bytes|
        invariant Valid() && Abstract() == start.HashValue(cfg, bytes[..i])
      {
        HashByte(bytes[i]);
        assert bytes[..i + 1][..i] == bytes[..i];
      }
      assert bytes[..|bytes|] == bytes;
    }
  }
}
