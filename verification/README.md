# Identifier-obfuscation codec of url-shorten, in Dafny

This project models the codec in `shorten_utils.py` that turns sequential
record identifiers into short URL tokens and back, and proves that the two
directions are inverse to each other.

The codec has two layers.

- **Bit permutation** (`encode` / `decode`). A table of 30 bit positions,
  `range(30)` reversed, drives both directions. `encode` reads input bit `i`
  and sets output bit `mapping[i]`. `decode` reads input bit `mapping[i]`
  and sets output bit `i`.
- **Radix conversion** (`enbase` / `debase`). A natural number is written in
  base 36 over the alphabet `abcdefghijklmnopqrstuvwxyz0123456789`, most
  significant digit first. A character's position in the alphabet is its
  digit value.

The public functions compose the two: `get_short_url_from_id` is `enbase`
after `encode`, and `get_id_from_short_url` is `decode` after `debase`.

Modules:

- `Naturals` (naturals.dfy): powers, `Bit(n, i)` (whether `n & (1 << i)` is
  non-zero) and `SetBit(n, k)` (`n | (1 << k)`), with the bit lemmas the
  proofs use.
- `Results` (results.dfy): `Option`, `Result` and `TokenError`. The
  `ValueError` that `chars.index` raises becomes `Err(InvalidToken)`.
- `BitPermutation` (bit_permutation.dfy): `Encode` and `Decode` for any table
  `m: seq<nat>`. The round trips are proved for any table, with the least
  assumption each one needs. `Decode(Encode(n)) == n` needs only that no
  two entries are equal. `Encode(Decode(n)) == n` needs only that the
  entries are exactly the positions below `|m|`.
- `Radix` (radix.dfy): `Enbase` and `Debase` for any alphabet of at least two
  distinct characters. `Debase` follows `debase`'s loop over the reversed
  string. `Value` is an independent most-significant-first reading, and a
  lemma proves the two agree.
- `ShortenUtils` (shorten_utils.dfy): the fixed table and alphabet, the two
  public functions, and the round-trip, injectivity and truncation
  properties.

Python 2's `x/n` on non-negative integers is floor division, which is
Dafny's `/` on `nat`. Python's arbitrary-precision integers are modelled as
`nat`. No fixed-width wrap-around is involved.

Identifiers of `2^30` and above are not rejected: `encode` and `decode`
silently drop every bit the table does not cover, and the model does the
same. `ShortenUtils.ShortUrlTruncates` and `BitPermutation.DecodeTruncates`
state the truncation, and `ShortenUtils.FirstOutOfRangeExample` pins down
`2^30`.

## Model

| member | source | states |
|---|---|---|
| Naturals.Pow | shorten_utils.py:37 | `n**i` is at least 1 whenever the base `n` is at least 1 |
| Naturals.Bit | shorten_utils.py:14 | the bit read at position `i` is always 0 or 1 |
| Naturals.BitIsDivMod | shorten_utils.py:14 | bit `i` of `n` is the last binary digit of `n` divided by `2^i`, the bit `n & (1 << i)` tests |
| Naturals.SetBit | shorten_utils.py:15 | or-ing `1 << k` into `result` sets bit `k` and leaves every other bit of `result` as it was |
| BitPermutation.EncodeSteps | shorten_utils.py:10-15 | after the first `k` iterations of `encode`'s loop, bit `j` of the accumulator is set iff some visited `i` has `mapping[i] == j` and bit `i` of `n` set |
| BitPermutation.Encode | shorten_utils.py:9-16 | output bit `j` is set iff some `i < len(mapping)` has `mapping[i] == j` and input bit `i` set; this holds for any table, duplicates included |
| BitPermutation.DecodeSteps | shorten_utils.py:19-24 | after the first `k` iterations of `decode`'s loop, accumulator bit `j < k` equals input bit `mapping[j]`, and all higher bits are clear |
| BitPermutation.Decode | shorten_utils.py:18-25 | output bit `j` equals input bit `mapping[j]` for `j < len(mapping)`, and every higher output bit is clear |
| BitPermutation.EncodeMovesBits | shorten_utils.py:11-15 | with a table without duplicates, output bit `mapping[i]` is input bit `i`, and positions not in the table stay clear |
| BitPermutation.EncodeBounded | shorten_utils.py:9-16 | if every table entry is below `len(mapping)`, `encode(n) < 2^len(mapping)` |
| BitPermutation.DecodeBounded | shorten_utils.py:18-25 | `decode(n) < 2^len(mapping)` for every table and every `n` |
| BitPermutation.EncodeTruncates | shorten_utils.py:9-16 | input bits at positions `len(mapping)` and above are dropped: `encode(n) == encode(n % 2^len(mapping))` |
| BitPermutation.DecodeTruncates | shorten_utils.py:18-25 | if every table entry is below `len(mapping)`, input bits at positions `len(mapping)` and above are dropped by `decode` |
| BitPermutation.DecodeEncode | shorten_utils.py:9-25 | for any table without duplicates, `decode(encode(n)) == n` for all `n < 2^len(mapping)` |
| BitPermutation.EncodeDecode | shorten_utils.py:9-25 | for any table whose entries are exactly the positions below its length, `encode(decode(n)) == n` for all `n < 2^len(mapping)` |
| ShortenUtils.ReversedRange | shorten_utils.py:4-5 | `range(n)` reversed has `n` entries and holds `n - 1 - i` at position `i` |
| ShortenUtils.MappingIsPermutation | shorten_utils.py:4-5 | the reversed `range(30)` has 30 entries and is a permutation of `0..29` |
| ShortenUtils.CharsValid | shorten_utils.py:7 | the alphabet has 36 characters and none repeats |
| Radix.IndexOf | shorten_utils.py:37 | `chars.index(c)` gives the first position holding `c`, and it fails iff `c` does not occur |
| Radix.IndexOfDistinct | shorten_utils.py:37 | in an alphabet without repeats, looking up the character at position `i` gives back `i` |
| Radix.Enbase | shorten_utils.py:27-31 | the result is non-empty and uses only alphabet characters; it has one character iff `x` is below the radix; it starts with the zero digit iff `x == 0`, so only the single digit zero has a leading zero |
| Radix.DebaseSteps | shorten_utils.py:35-37 | after the first `k` iterations over the reversed string, the loop has failed iff one of the last `k` characters is outside the alphabet |
| Radix.Debase | shorten_utils.py:33-38 | `debase(s)` fails iff some character of `s` is outside the alphabet, so no such character is ever read as a digit; `debase("") == 0` |
| Radix.DebaseStepsValue | shorten_utils.py:35-37 | over the alphabet, the positional sum of the last `k` digits equals the most-significant-first value of that suffix |
| Radix.DebaseValue | shorten_utils.py:33-38 | over the alphabet, `debase(s)` equals the most-significant-first value of `s` |
| Radix.ValueEnbase | shorten_utils.py:27-31 | the digits `enbase(x)` writes have value `x` |
| Radix.DebaseEnbase | shorten_utils.py:27-38 | `debase(enbase(x)) == x` for every natural `x` |
| Radix.EnbaseValue | shorten_utils.py:27-31 | `enbase` of the value of a canonical digit string is that string |
| Radix.EnbaseDebase | shorten_utils.py:27-38 | a canonical token (non-empty, over the alphabet, no leading `a` unless one character long) is accepted by `debase`, and `enbase(debase(s)) == s` |
| ShortenUtils.ShortUrlFromId | shorten_utils.py:44-46 | every token `get_short_url_from_id` returns is canonical |
| ShortenUtils.IdFromShortUrl | shorten_utils.py:40-42 | `get_id_from_short_url` fails iff the token has a character outside the alphabet, and otherwise returns an identifier below `2^30` |
| ShortenUtils.IdRoundTrip | shorten_utils.py:40-46 | `get_id_from_short_url(get_short_url_from_id(id)) == id` for every `id < 2^30` |
| ShortenUtils.TokenRoundTrip | shorten_tests.py:91-97 | for every identifier, re-encoding the identifier read back from its token gives the same token |
| ShortenUtils.CanonicalTokenRoundTrip | shorten_utils.py:40-46 | a canonical token is always accepted; re-encoding the identifier read from it gives the token back iff its base-36 value is below `2^30` |
| ShortenUtils.ShortUrlInjective | shorten_utils.py:44-46 | distinct identifiers below `2^30` get distinct tokens |
| ShortenUtils.ShortUrlTruncates | shorten_utils.py:44-46 | identifier bits at position 30 and above do not affect the token |
| ShortenUtils.SmallIdExamples | shorten_tests.py:53-89 | the identifiers the tests encode, 0 in `test_add_url` and 1 and 2 in `test_add_url_via_form`, come back from their tokens, and 1 and 2 get different tokens, so the two entries those tests add are told apart |
| ShortenUtils.FirstOutOfRangeExample | shorten_utils.py:9-16 | identifier `2^30` gets the same token as identifier 0 |
| ShortenUtils.InvalidTokenExample | shorten_utils.py:37 | the token `"!!!"` is rejected with `InvalidToken` |

## Left out

- `shorten.py`: Flask routing, sessions, Basic authentication, templates and
  SQLite storage are input/output glue. Its only contact with the codec is
  the call `get_short_url_from_id(id_number + 1)` and the call to
  `get_id_from_short_url`, and both are the functions modelled here.
- `shorten_tests.py`: `TokenRoundTrip` models the first assertion of
  `test_util_functions` (for identifier 1 there, for every identifier here).
  Its second assertion compares `get_id_from_short_url(short_url)` with
  itself; `IdRoundTrip` states the stronger fact that the identifier comes
  back. `SmallIdExamples` covers the identifiers 0, 1 and 2 that
  `test_add_url` and `test_add_url_via_form` encode. The HTTP requests, the
  login and the temporary database of those tests are not modelled.
- Negative identifiers: Python would index `chars[-1]` in `enbase` and use
  two's-complement `&` in `encode`. The model takes identifiers as `nat`.
- The unused `import random` and any random or persisted generation of the
  table. The table is the fixed reversal of `range(30)`.
- Concrete token strings are not computed. Their properties are proved for
  all identifiers instead.
