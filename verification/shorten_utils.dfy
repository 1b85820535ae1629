/**
 The public codec of shorten_utils.py: a record identifier becomes a short
 URL token by permuting its 30 low bits with the reversal table and writing
 the result in base 36; a token goes back by reading it in base 36 and
 undoing the permutation.
 */
module ShortenUtils {
  import opened Naturals
  import opened Results
  import opened BitPermutation
  import opened Radix

  /** Number of identifier bits the table covers. */
  const Width: nat := 30

  /** The bit-position table: `range(30)` reversed, so bit `i` goes to bit
      `29 - i`. */
  const Mapping: seq<nat> := ReversedRange(Width)

  /** `range(n)` reversed: `[n-1, n-2, ..., 0]`. */
  function ReversedRange(n: nat): (r: seq<nat>)
    ensures |r| == n
    ensures forall i :: 0 <= i < n ==> r[i] == n - 1 - i
  {
    if n == 0 then [] else [n - 1] + ReversedRange(n - 1)
  }

  /** The token alphabet; a character's position is its digit value. */
  const Chars: string := "abcdefghijklmnopqrstuvwxyz0123456789"

  /** The reversal table is a permutation of the 30 bit positions. */
  lemma MappingIsPermutation()
    ensures |Mapping| == Width
    ensures IsPermutation(Mapping)
  {
    forall p: nat | p < |Mapping| ensures p in Mapping {
      assert Mapping[Width - 1 - p] == p;
    }
    assert Injective(Mapping);
  }

  /** The alphabet has 36 characters and none repeats. */
  lemma CharsValid()
    ensures |Chars| == 36
    ensures ValidAlphabet(Chars)
  {
    assert forall i :: 0 <= i < 36 ==> Chars[i] as int == if i < 26 then 97 + i else 22 + i;
  }

  /** `get_short_url_from_id(id)`: `enbase(encode(id))`. The token is
      canonical: non-empty, over the alphabet, no leading `a` unless it is
      a single character. */
  function ShortUrlFromId(id: nat): (token: string)
    ensures Canonical(Chars, token)
  {
    CharsValid();
    Enbase(Chars, Encode(Mapping, id))
  }

  /** `get_id_from_short_url(token)`: `decode(debase(token))`. It fails exactly
      when the token has a character outside the alphabet, and otherwise
      yields an identifier below `2^30`. */
  function IdFromShortUrl(token: string): (r: Result<nat>)
    ensures r.Ok? <==> InAlphabet(Chars, token)
    ensures r.Ok? ==> r.value < Pow(2, Width)
  {
    match Debase(Chars, token)
    case Err(e) => Err(e)
    case Ok(n) =>
      DecodeBounded(Mapping, n);
      Ok(Decode(Mapping, n))
  }

  /** Every identifier below `2^30` is recovered from its token. */
  lemma IdRoundTrip(id: nat)
    requires id < Pow(2, Width)
    ensures IdFromShortUrl(ShortUrlFromId(id)) == Ok(id)
  {
    MappingIsPermutation();
    CharsValid();
    DebaseEnbase(Chars, Encode(Mapping, id));
    DecodeEncode(Mapping, id);
  }

  /** Re-encoding the identifier read from an issued token gives the same
      token, for every identifier (higher bits are already gone from the
      token). */
  lemma TokenRoundTrip(id: nat)
    ensures IdFromShortUrl(ShortUrlFromId(id)).Ok?
    ensures ShortUrlFromId(IdFromShortUrl(ShortUrlFromId(id)).value) == ShortUrlFromId(id)
  {
    MappingIsPermutation();
    CharsValid();
    var e := Encode(Mapping, id);
    DebaseEnbase(Chars, e);
    EncodeBounded(Mapping, id);
    EncodeDecode(Mapping, e);
  }

  /** A canonical token is accepted, and re-encoding the identifier read
      from it gives the token back exactly when its base-36 value is below
      `2^30`; above that, the dropped bits make the token come back different. */
  lemma CanonicalTokenRoundTrip(token: string)
    requires Canonical(Chars, token)
    ensures IdFromShortUrl(token).Ok?
    ensures ShortUrlFromId(IdFromShortUrl(token).value) == token
        <==> Debase(Chars, token).value < Pow(2, Width)
  {
    MappingIsPermutation();
    CharsValid();
    EnbaseDebase(Chars, token);
    var v := Debase(Chars, token).value;
    var w := Encode(Mapping, Decode(Mapping, v));
    EncodeBounded(Mapping, Decode(Mapping, v));
    if v < Pow(2, Width) {
      EncodeDecode(Mapping, v);
    } else {
      DebaseEnbase(Chars, w);
    }
  }

  /** Distinct identifiers below `2^30` get distinct tokens. */
  lemma ShortUrlInjective(id1: nat, id2: nat)
    requires id1 < Pow(2, Width) && id2 < Pow(2, Width)
    requires id1 != id2
    ensures ShortUrlFromId(id1) != ShortUrlFromId(id2)
  {
    IdRoundTrip(id1);
    IdRoundTrip(id2);
  }

  /** Identifier bits at position 30 and above are silently dropped. */
  lemma ShortUrlTruncates(id: nat)
    ensures ShortUrlFromId(id) == ShortUrlFromId(id % Pow(2, Width))
  {
    MappingIsPermutation();
    EncodeTruncates(Mapping, id);
  }

  /** The identifiers the tests in shorten_tests.py encode, 0 (`test_add_url`)
      and 1 and 2 (`test_add_url_via_form`), come back from their tokens, and
      1 and 2 get different tokens. */
  lemma SmallIdExamples()
    ensures IdFromShortUrl(ShortUrlFromId(0)) == Ok(0)
    ensures IdFromShortUrl(ShortUrlFromId(1)) == Ok(1)
    ensures IdFromShortUrl(ShortUrlFromId(2)) == Ok(2)
    ensures ShortUrlFromId(1) != ShortUrlFromId(2)
  {
    assert 2 < Pow(2, Width) by {
      assert Pow(2, 2) == 4;
      PowMonotone(2, Width);
    }
    assert IdFromShortUrl(ShortUrlFromId(0)) == Ok(0) by { IdRoundTrip(0); }
    assert IdFromShortUrl(ShortUrlFromId(1)) == Ok(1) by { IdRoundTrip(1); }
    assert IdFromShortUrl(ShortUrlFromId(2)) == Ok(2) by { IdRoundTrip(2); }
  }

  /** The first identifier past the table's width, `2^30`, shares the token
      of identifier 0. */
  lemma FirstOutOfRangeExample()
    ensures ShortUrlFromId(Pow(2, Width)) == ShortUrlFromId(0)
  {
    var top := Pow(2, Width);
    ShortUrlTruncates(top);
    assert top % top == 0;
  }

  /** A token of characters outside the alphabet is rejected. */
  lemma InvalidTokenExample()
    ensures IdFromShortUrl("!!!") == Err(InvalidToken)
  {
    assert !InAlphabet(Chars, "!!!") by {
      assert "!!!"[0] == '!';
    }
  }
}
