/**
 The bit-permutation layer of the codec (`encode` and `decode` in
 shorten_utils.py). A table `m` of bit positions drives both directions:
 `Encode` reads input bit `i` and sets output bit `m[i]`; `Decode` reads
 input bit `m[i]` and sets output bit `i`. Only positions `0 .. |m|-1` of
 the input (for `Encode`) or positions listed in `m` (for `Decode`) are
 ever read, so both drop every other bit.
 */
module BitPermutation {
  import opened Naturals

  /** No two input positions are sent to the same output position. */
  predicate Injective(m: seq<nat>)
  {
    forall i, j :: 0 <= i < j < |m| ==> m[i] != m[j]
  }

  /** Every entry is a position below `|m|`, and every such position occurs. */
  predicate Onto(m: seq<nat>)
  {
    && (forall i :: 0 <= i < |m| ==> m[i] < |m|)
    && (forall p: nat :: p < |m| ==> p in m)
  }

  /** `m` is a permutation of `0 .. |m|-1`: no duplicates and no gaps. */
  predicate IsPermutation(m: seq<nat>)
  {
    Injective(m) && Onto(m)
  }

  /** The accumulator of `encode`'s loop after its first `k` iterations: bit
      `j` is set exactly when some visited `i` has `m[i] == j` and bit `i` of
      `n` set. */
  function EncodeSteps(m: seq<nat>, n: nat, k: nat): (r: nat)
    requires k <= |m|
    ensures forall j: nat :: Bit(r, j) == 1 <==> exists i :: 0 <= i < k && m[i] == j && Bit(n, i) == 1
  {
    if k == 0 then
      ZeroBits();
      0
    else
      var acc := EncodeSteps(m, n, k - 1);
      if Bit(n, k - 1) == 1 then SetBit(acc, m[k - 1]) else acc
  }

  /** `encode(n)` with table `m`: output bit `j` is set exactly when some
      input position `i < |m|` with `m[i] == j` has its bit set. */
  function Encode(m: seq<nat>, n: nat): (r: nat)
    ensures forall j: nat :: Bit(r, j) == 1 <==> exists i :: 0 <= i < |m| && m[i] == j && Bit(n, i) == 1
  {
    EncodeSteps(m, n, |m|)
  }

  /** The accumulator of `decode`'s loop after its first `k` iterations: bit
      `j < k` copies bit `m[j]` of `n`, and no higher bit is set. */
  function DecodeSteps(m: seq<nat>, n: nat, k: nat): (r: nat)
    requires k <= |m|
    ensures forall j: nat :: Bit(r, j) == if j < k then Bit(n, m[j]) else 0
  {
    if k == 0 then
      ZeroBits();
      0
    else
      var acc := DecodeSteps(m, n, k - 1);
      if Bit(n, m[k - 1]) == 1 then SetBit(acc, k - 1) else acc
  }

  /** `decode(n)` with table `m`: output bit `j` copies input bit `m[j]` for
      `j < |m|`, and every higher output bit is clear. */
  function Decode(m: seq<nat>, n: nat): (r: nat)
    ensures forall j: nat :: Bit(r, j) == if j < |m| then Bit(n, m[j]) else 0
  {
    DecodeSteps(m, n, |m|)
  }

  /** With an injective table, output bit `m[i]` of `Encode` is input bit
      `i`, and positions not in the table stay clear. */
  lemma EncodeMovesBits(m: seq<nat>, n: nat)
    requires Injective(m)
    ensures forall i :: 0 <= i < |m| ==> Bit(Encode(m, n), m[i]) == Bit(n, i)
    ensures forall j: nat :: j !in m ==> Bit(Encode(m, n), j) == 0
  {
  }

  /** If every entry of the table is below `|m|`, `Encode` stays below
      `2^|m|`. */
  lemma EncodeBounded(m: seq<nat>, n: nat)
    requires forall i :: 0 <= i < |m| ==> m[i] < |m|
    ensures Encode(m, n) < Pow(2, |m|)
  {
    BoundFromBits(Encode(m, n), |m|);
  }

  /** `Decode` stays below `2^|m|`, whatever the table. */
  lemma DecodeBounded(m: seq<nat>, n: nat)
    ensures Decode(m, n) < Pow(2, |m|)
  {
    BoundFromBits(Decode(m, n), |m|);
  }

  /** `Encode` ignores input bits at positions `|m|` and above. */
  lemma EncodeTruncates(m: seq<nat>, n: nat)
    ensures Encode(m, n) == Encode(m, n % Pow(2, |m|))
  {
    var t := n % Pow(2, |m|);
    BitsOfMod(n, |m|);
    forall j: nat ensures Bit(Encode(m, n), j) == Bit(Encode(m, t), j) {
      if Bit(Encode(m, n), j) == 1 {
        var i :| 0 <= i < |m| && m[i] == j && Bit(n, i) == 1;
        assert Bit(t, i) == 1;
      }
    }
    BitsDetermine(Encode(m, n), Encode(m, t));
  }

  /** If every entry of the table is below `|m|`, `Decode` ignores input bits
      at positions `|m|` and above. */
  lemma DecodeTruncates(m: seq<nat>, n: nat)
    requires forall i :: 0 <= i < |m| ==> m[i] < |m|
    ensures Decode(m, n) == Decode(m, n % Pow(2, |m|))
  {
    BitsOfMod(n, |m|);
    BitsDetermine(Decode(m, n), Decode(m, n % Pow(2, |m|)));
  }

  /** Decoding undoes encoding on `[0, 2^|m|)` for every injective table:
      `Decode` reads back bit `m[i]` exactly where `Encode` wrote bit `i`. */
  lemma DecodeEncode(m: seq<nat>, n: nat)
    requires Injective(m)
    requires n < Pow(2, |m|)
    ensures Decode(m, Encode(m, n)) == n
  {
    EncodeMovesBits(m, n);
    BitsAboveWidth(n, |m|);
    BitsDetermine(Decode(m, Encode(m, n)), n);
  }

  /** Encoding undoes decoding on `[0, 2^|m|)` when the table's entries are
      exactly the positions below `|m|`. */
  lemma EncodeDecode(m: seq<nat>, n: nat)
    requires Onto(m)
    requires n < Pow(2, |m|)
    ensures Encode(m, Decode(m, n)) == n
  {
    var d := Decode(m, n);
    BitsAboveWidth(n, |m|);
    forall j: nat ensures Bit(Encode(m, d), j) == Bit(n, j) {
      if j < |m| {
        assert j in m;
        var i :| 0 <= i < |m| && m[i] == j;
        assert Bit(d, i) == Bit(n, j);
      }
    }
    BitsDetermine(Encode(m, d), n);
  }
}
