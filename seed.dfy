/**
 * The seeded sampler (src/seed.rs): a hexadecimal seed is parsed into a byte
 * store, which is then read cyclically to produce bytes, 32-bit words and
 * bounded values. Everything it yields is a function of the store, the cursor
 * and the sequence of calls.
 */
module Seed {

  import opened Wrappers
  import opened Primitives

  /** Rust's `ParseIntError`; its kind (empty, invalid digit, overflow) is not distinguished. */
  datatype ParseIntError = ParseIntError

  // ---------------------------------------------------------------------------
  // Characters, UTF-8 length and hexadecimal digits
  // ---------------------------------------------------------------------------

  /** The number of bytes UTF-8 uses for a character. */
  function Utf8Width(c: char): nat
  {
    if c as int < 0x80 then 1
    else if c as int < 0x800 then 2
    else if c as int < 0x1_0000 then 3
    else 4
  }

  /** Rust's `str::len`: the length of a string in UTF-8 bytes. */
  function ByteLen(s: string): nat
  {
    if s == [] then 0 else ByteLen(s[..|s| - 1]) + Utf8Width(s[|s| - 1])
  }

  predicate IsAscii(s: string)
  {
    forall i :: 0 <= i < |s| ==> s[i] as int < 0x80
  }

  /** The byte length equals the character count exactly for ASCII strings. */
  lemma {:induction false} ByteLenAscii(s: string)
    ensures ByteLen(s) >= |s|
    ensures ByteLen(s) == |s| <==> IsAscii(s)
  {
    if s != [] {
      var p := s[..|s| - 1];
      ByteLenAscii(p);
      assert IsAscii(s) <==> IsAscii(p) && s[|s| - 1] as int < 0x80 by {
        if IsAscii(p) && s[|s| - 1] as int < 0x80 {
          forall i | 0 <= i < |s| ensures s[i] as int < 0x80 {
            if i < |s| - 1 { assert s[i] == p[i]; }
          }
        }
        if IsAscii(s) {
          forall i | 0 <= i < |p| ensures p[i] as int < 0x80 { assert p[i] == s[i]; }
        }
      }
    }
  }

  /** What `char::to_digit(16)` accepts: both cases of letter are allowed. */
  predicate IsHexDigit(c: char)
  {
    '0' <= c <= '9' || 'a' <= c <= 'f' || 'A' <= c <= 'F'
  }

  function HexDigitValue(c: char): (v: nat)
    requires IsHexDigit(c)
    ensures v < 16
  {
    if '0' <= c <= '9' then c as int - '0' as int
    else if 'a' <= c <= 'f' then c as int - 'a' as int + 10
    else c as int - 'A' as int + 10
  }

  predicate AllHex(s: string)
  {
    forall i :: 0 <= i < |s| ==> IsHexDigit(s[i])
  }

  /** The value of a string of hexadecimal digits, most significant first. */
  function DigitsValue(ds: string): nat
    requires AllHex(ds)
  {
    if ds == [] then 0
    else DigitsValue(ds[..|ds| - 1]) * 16 + HexDigitValue(ds[|ds| - 1])
  }

  /**
   * `u8::from_str_radix(s, 16)`: an optional leading `+` followed by at least
   * one hexadecimal digit, whose value must fit in a byte.
   */
  function ParseHexU8(s: string): Option<U8>
  {
    if s == [] then None
    else
      var digits := if s[0] == '+' then s[1..] else s;
      if digits == [] || !AllHex(digits) then None
      else if DigitsValue(digits) < U8_LIMIT then Some(DigitsValue(digits))
      else None
  }

  /** A one- or two-digit chunk always parses, to its hexadecimal value. */
  lemma ParseHexDigits(s: string)
    requires 1 <= |s| <= 2 && AllHex(s)
    ensures |s| == 1 ==> ParseHexU8(s) == Some(HexDigitValue(s[0]))
    ensures |s| == 2 ==> ParseHexU8(s) == Some(16 * HexDigitValue(s[0]) + HexDigitValue(s[1]))
  {
    assert s[0] != '+';
    assert DigitsValue(s[..1]) == HexDigitValue(s[0]) by {
      assert s[..1][..0] == [];
    }
    if |s| == 2 {
      assert DigitsValue(s) == DigitsValue(s[..1]) * 16 + HexDigitValue(s[1]);
    } else {
      assert s[..1] == s;
    }
  }

  /** A chunk holding a character that is neither a digit nor a leading `+` does not parse. */
  lemma ParseHexRejects(s: string, p: nat)
    requires p < |s| && !IsHexDigit(s[p])
    requires p > 0 || s[p] != '+' || |s| == 1
    ensures ParseHexU8(s) == None
  {
    if s[0] == '+' && |s| > 1 {
      assert s[1..][p - 1] == s[p];
    }
  }

  // ---------------------------------------------------------------------------
  // Splitting the seed into chunks and decoding them
  // ---------------------------------------------------------------------------

  /** The seed cut into consecutive two-character chunks; an odd last character is a chunk alone. */
  function Pairs(s: string): seq<string>
  {
    if |s| <= 2 then (if s == [] then [] else [s])
    else [s[..2]] + Pairs(s[2..])
  }

  /** Chunking distributes over concatenation when the first part has even length. */
  lemma {:induction false} PairsAppend(a: string, b: string)
    requires |a| % 2 == 0
    ensures Pairs(a + b) == Pairs(a) + Pairs(b)
  {
    if a == [] {
      assert a + b == b;
    } else if b == [] {
      assert a + b == a;
    } else {
      assert (a + b)[..2] == a[..2];
      assert (a + b)[2..] == a[2..] + b;
      PairsAppend(a[2..], b);
      if |a| == 2 {
        assert a[..2] == a;
        assert a[2..] == [];
      }
    }
  }

  /** Chunk k is the pair of characters 2k and 2k + 1, or the lone last character. */
  lemma {:induction false} PairsAt(s: string)
    ensures |Pairs(s)| == (|s| + 1) / 2
    ensures forall k :: 0 <= k < |Pairs(s)| ==>
      Pairs(s)[k] == s[2 * k .. if 2 * k + 2 <= |s| then 2 * k + 2 else |s|]
  {
    if |s| > 2 {
      PairsAt(s[2..]);
      forall k | 0 <= k < |Pairs(s)|
        ensures Pairs(s)[k] == s[2 * k .. if 2 * k + 2 <= |s| then 2 * k + 2 else |s|]
      {
        if k > 0 {
          assert Pairs(s)[k] == Pairs(s[2..])[k - 1];
        }
      }
    }
  }

  /**
   * The chunks `try_from_seed` decodes. The loop compares a character index with
   * the UTF-8 byte length of the seed, so the lone last character of an
   * odd-length seed is kept only when the seed is pure ASCII.
   */
  function SeedChunks(seed: string): seq<string>
  {
    if ByteLen(seed) == |seed| then Pairs(seed) else Pairs(seed[..|seed| / 2 * 2])
  }

  /** The first loop of `try_from_seed`: gathering the seed's characters into chunks. */
  method SplitSeed(seed: string) returns (strings: seq<string>)
    ensures strings == SeedChunks(seed)
  {
    strings := [];
    var newString := true;
    var current: string := [];
    var len := ByteLen(seed);
    ByteLenAscii(seed);
    for i := 0 to |seed|
      invariant newString <==> i % 2 == 0
      invariant !newString ==> current == [seed[i - 1]]
      invariant strings == Pairs(seed[..i / 2 * 2]) + (if i % 2 == 1 && i == len then [[seed[i - 1]]] else [])
    {
      var c := seed[i];
      if newString {
        assert (i + 1) / 2 * 2 == i;
        current := [c];
        if i == len - 1 {
          strings := strings + [current];
        }
      } else {
        current := current + [c];
        assert i / 2 * 2 == i - 1 && (i + 1) / 2 * 2 == i + 1;
        assert seed[..i + 1] == seed[..i - 1] + [seed[i - 1], c];
        PairsAppend(seed[..i - 1], [seed[i - 1], c]);
        assert current == [seed[i - 1], c] && |current| == 2;
        assert Pairs([seed[i - 1], c]) == [current];
        strings := strings + [current];
      }
      newString := !newString;
    }
    if |seed| % 2 == 1 && len == |seed| {
      assert seed == seed[..|seed| - 1] + [seed[|seed| - 1]];
      PairsAppend(seed[..|seed| - 1], [seed[|seed| - 1]]);
    } else {
      assert |seed| % 2 == 0 ==> seed[..|seed| / 2 * 2] == seed;
    }
  }

  /** The second loop of `try_from_seed`: every chunk parsed as a byte, stopping at the first failure. */
  method DecodeChunks(strings: seq<string>) returns (r: Result<seq<U8>, ParseIntError>)
    ensures r.Success? <==> forall k :: 0 <= k < |strings| ==> ParseHexU8(strings[k]).Some?
    ensures r.Success? ==> (|r.value| == |strings| &&
      forall k :: 0 <= k < |strings| ==> ParseHexU8(strings[k]) == Some(r.value[k]))
  {
    var store: seq<U8> := [];
    for i := 0 to |strings|
      invariant |store| == i
      invariant forall k :: 0 <= k < i ==> ParseHexU8(strings[k]) == Some(store[k])
    {
      var b := ParseHexU8(strings[i]);
      if b.None? {
        return Failure(ParseIntError);
      }
      store := store + [b.value];
    }
    r := Success(store);
  }

  /** The byte a well-formed seed yields at position k: digits 2k and 2k + 1, or the lone last digit. */
  function HexByte(seed: string, k: nat): nat
    requires AllHex(seed) && 2 * k < |seed|
  {
    if 2 * k + 1 < |seed|
    then 16 * HexDigitValue(seed[2 * k]) + HexDigitValue(seed[2 * k + 1])
    else HexDigitValue(seed[2 * k])
  }

  /** A seed made only of hexadecimal digits is ASCII, so every chunk, the lone last one included, is kept and parses. */
  lemma HexSeedChunks(seed: string)
    requires AllHex(seed)
    ensures |SeedChunks(seed)| == (|seed| + 1) / 2
    ensures forall k :: 0 <= k < |SeedChunks(seed)| ==> ParseHexU8(SeedChunks(seed)[k]) == Some(HexByte(seed, k))
  {
    ByteLenAscii(seed);
    PairsAt(seed);
    forall k | 0 <= k < |SeedChunks(seed)|
      ensures ParseHexU8(SeedChunks(seed)[k]) == Some(HexByte(seed, k))
    {
      var chunk := SeedChunks(seed)[k];
      if 2 * k + 1 < |seed| {
        assert chunk == [seed[2 * k], seed[2 * k + 1]];
      } else {
        assert chunk == [seed[2 * k]];
      }
      ParseHexDigits(chunk);
    }
  }

  /**
   * A character of an ASCII seed that is not a hexadecimal digit, and is not a
   * `+` opening a two-character chunk, makes its chunk fail to parse.
   */
  lemma BadCharacterChunk(seed: string, p: nat)
    requires IsAscii(seed) && p < |seed| && !IsHexDigit(seed[p])
    requires p % 2 == 1 || seed[p] != '+' || p == |seed| - 1
    ensures p / 2 < |SeedChunks(seed)| && ParseHexU8(SeedChunks(seed)[p / 2]) == None
  {
    ByteLenAscii(seed);
    PairsAt(seed);
    var k := p / 2;
    var chunk := SeedChunks(seed)[k];
    assert chunk[p - 2 * k] == seed[p];
    ParseHexRejects(chunk, p - 2 * k);
  }

  /** When the seed is not ASCII and has odd length, its last character belongs to no chunk. */
  lemma NonAsciiTrailingDropped(seed: string)
    requires |seed| % 2 == 1 && !IsAscii(seed)
    ensures SeedChunks(seed) == Pairs(seed[..|seed| - 1])
  {
    ByteLenAscii(seed);
  }

  /** `try_from_seed` up to building the `Seeder`: the decoded byte store. */
  method ParseSeed(seed: string) returns (r: Result<seq<U8>, ParseIntError>)
    ensures r.Success? <==> forall k :: 0 <= k < |SeedChunks(seed)| ==> ParseHexU8(SeedChunks(seed)[k]).Some?
    ensures r.Success? ==> (|r.value| == |SeedChunks(seed)| &&
      forall k :: 0 <= k < |r.value| ==> ParseHexU8(SeedChunks(seed)[k]) == Some(r.value[k]))
    ensures AllHex(seed) ==> (r.Success? && |r.value| == (|seed| + 1) / 2 &&
      forall k :: 0 <= k < |r.value| ==> r.value[k] == HexByte(seed, k))
  {
    var strings := SplitSeed(seed);
    r := DecodeChunks(strings);
    if AllHex(seed) {
      HexSeedChunks(seed);
    }
  }

  // ---------------------------------------------------------------------------
  // Reading the store cyclically
  // ---------------------------------------------------------------------------

  lemma {:induction false} MulMonotone(a: nat, b: nat, n: nat)
    requires a <= b
    ensures a * n <= b * n
    decreases b - a
  {
    if a < b {
      MulMonotone(a + 1, b, n);
    }
  }

  /** Euclidean division is unique: a quotient and remainder in range determine a % n. */
  lemma DivModUnique(a: nat, n: nat, q: nat, r: nat)
    requires n > 0 && r < n && a == q * n + r
    ensures a % n == r
  {
    var q', r' := a / n, a % n;
    assert a == q' * n + r';
    if q' < q {
      MulMonotone(q' + 1, q, n);
      assert false;
    } else if q' > q {
      MulMonotone(q + 1, q', n);
      assert false;
    }
  }

  lemma DivUnique(a: nat, n: nat, q: nat, r: nat)
    requires n > 0 && r < n && a == q * n + r
    ensures a / n == q
  {
    DivModUnique(a, n, q, r);
  }

  lemma ModShift(x: nat, n: nat)
    requires n > 0
    ensures (x + n) % n == x % n
  {
    var q, r := x / n, x % n;
    assert x == q * n + r;
    assert x + n == (q + 1) * n + r;
    DivModUnique(x + n, n, q + 1, r);
  }

  /** The n bytes the store yields from cursor c onwards, wrapping round at its end. */
  function Stream(store: seq<U8>, c: nat, n: nat): seq<U8>
    requires c < |store|
    decreases n
  {
    if n == 0 then [] else [store[c]] + Stream(store, (c + 1) % |store|, n - 1)
  }

  /** The cursor after n calls of `seed()` from cursor c: each call steps it by one, wrapping at len. */
  function Advance(c: nat, n: nat, len: nat): (r: nat)
    requires c < len
    ensures r < len
    decreases n
  {
    if n == 0 then c else Advance((c + 1) % len, n - 1, len)
  }

  /** Stepping a + b times is stepping a times, then b times. */
  lemma {:induction false} AdvanceAdd(c: nat, a: nat, b: nat, len: nat)
    requires c < len
    ensures Advance(c, a + b, len) == Advance(Advance(c, a, len), b, len)
    decreases a
  {
    if a > 0 {
      AdvanceAdd((c + 1) % len, a - 1, b, len);
    }
  }

  /** The cursor after n steps is (c + n) mod len. */
  lemma {:induction false} AdvanceMod(c: nat, n: nat, len: nat)
    requires c < len
    ensures Advance(c, n, len) == (c + n) % len
    decreases n
  {
    if n == 0 {
      ModSmall(c, len);
    } else {
      var next := (c + 1) % len;
      AdvanceMod(next, n - 1, len);
      if c + 1 == len {
        ModSmall(0, len);
        ModShift(0, len);
        ModShift(n - 1, len);
        assert c + n == n - 1 + len;
      } else {
        ModSmall(c + 1, len);
      }
    }
  }

  lemma ModSmall(x: nat, n: nat)
    requires x < n
    ensures x % n == x
  {
  }

  /** After as many calls as the store has bytes, the cursor is back where it started. */
  lemma AdvanceFullCycle(c: nat, len: nat)
    requires c < len
    ensures Advance(c, len, len) == c
  {
    AdvanceMod(c, len, len);
    ModShift(c, len);
    ModSmall(c, len);
    assert (c + len) % len == c;
  }

  /** The i-th byte of the stream is the store's byte under the cursor after i steps. */
  lemma {:induction false} StreamAt(store: seq<U8>, c: nat, n: nat, i: nat)
    requires c < |store| && i < n
    ensures |Stream(store, c, n)| == n
    ensures Stream(store, c, n)[i] == store[Advance(c, i, |store|)]
    decreases n
  {
    if i > 0 {
      StreamAt(store, (c + 1) % |store|, n - 1, i - 1);
    } else if n > 1 {
      StreamAt(store, (c + 1) % |store|, n - 1, 0);
    }
  }

  /** The stream repeats with the period of the store's length. */
  lemma StreamPeriodic(store: seq<U8>, c: nat, n: nat, i: nat)
    requires c < |store| && i + |store| < n
    ensures |Stream(store, c, n)| == n
    ensures Stream(store, c, n)[i + |store|] == Stream(store, c, n)[i]
  {
    StreamAt(store, c, n, i);
    StreamAt(store, c, n, i + |store|);
    AdvanceAdd(c, i, |store|, |store|);
    AdvanceFullCycle(Advance(c, i, |store|), |store|);
  }

  /** Four bytes read as a big-endian 32-bit word. */
  function BigEndian(bs: seq<U8>): (r: U32)
    requires |bs| == 4
  {
    bs[0] as int * 0x100_0000 + bs[1] as int * 0x1_0000 + bs[2] as int * 0x100 + bs[3] as int
  }

  /** The bytes of a 32-bit word, most significant first. */
  function Bytes(r: U32): (bs: seq<U8>)
    ensures |bs| == 4
  {
    [r / 0x100_0000, r / 0x1_0000 % 0x100, r / 0x100 % 0x100, r % 0x100]
  }

  /** Combining four bytes loses nothing: the word splits back into them. */
  lemma BigEndianRoundTrip(bs: seq<U8>)
    requires |bs| == 4
    ensures Bytes(BigEndian(bs)) == bs
  {
    var r := BigEndian(bs);
    var b0, b1, b2, b3 := bs[0] as int, bs[1] as int, bs[2] as int, bs[3] as int;
    DivModUnique(r, 0x100, b0 * 0x1_0000 + b1 * 0x100 + b2, b3);
    assert r / 0x100 == b0 * 0x1_0000 + b1 * 0x100 + b2 by {
      DivUnique(r, 0x100, b0 * 0x1_0000 + b1 * 0x100 + b2, b3);
    }
    DivModUnique(r / 0x100, 0x100, b0 * 0x100 + b1, b2);
    assert r / 0x1_0000 == b0 * 0x100 + b1 by {
      DivUnique(r, 0x1_0000, b0 * 0x100 + b1, b2 * 0x100 + b3);
    }
    DivModUnique(r / 0x1_0000, 0x100, b0, b1);
    DivUnique(r, 0x100_0000, b0, b1 * 0x1_0000 + b2 * 0x100 + b3);
  }

  /** `seed_u32_bounded`'s reduction: the word taken modulo the range size, shifted by the lower bound. */
  function ReduceToRange(x: U32, lo: U32, hi: U32): (r: U32)
    requires lo <= hi && hi - lo + 1 < U32_LIMIT
    ensures lo <= r <= hi
  {
    x % (hi - lo + 1) + lo
  }

  // ---------------------------------------------------------------------------
  // The sampler
  // ---------------------------------------------------------------------------

  class Seeder {
    var store: seq<U8>
    var cursor: nat

    /** The cursor indexes the store whenever the store has bytes. */
    ghost predicate Valid()
      reads this
    {
      cursor == 0 || cursor < |store|
    }

    constructor (store: seq<U8>)
      ensures this.store == store && cursor == 0 && Valid()
    {
      this.store := store;
      cursor := 0;
    }

    /** `Seeder::try_from_seed`: a sampler over the decoded seed, positioned at its first byte. */
    static method TryFromSeed(seed: string) returns (r: Result<Seeder, ParseIntError>)
      ensures r.Success? <==> forall k :: 0 <= k < |SeedChunks(seed)| ==> ParseHexU8(SeedChunks(seed)[k]).Some?
      ensures r.Success? ==> fresh(r.value) && r.value.Valid() && r.value.cursor == 0
      ensures r.Success? ==> (|r.value.store| == |SeedChunks(seed)| &&
        forall k :: 0 <= k < |r.value.store| ==> ParseHexU8(SeedChunks(seed)[k]) == Some(r.value.store[k]))
      ensures AllHex(seed) ==> (r.Success? && |r.value.store| == (|seed| + 1) / 2 &&
        forall k :: 0 <= k < |r.value.store| ==> r.value.store[k] == HexByte(seed, k))
    {
      var store := ParseSeed(seed);
      if store.Failure? {
        return Failure(store.error);
      }
      var s := new Seeder(store.value);
      r := Success(s);
    }

    /** `seed()`: the byte under the cursor; the cursor steps on, wrapping at the end of the store. */
    method Seed() returns (b: U8)
      requires Valid() && |store| > 0
      modifies this
      ensures store == old(store) && Valid()
      ensures b == store[old(cursor)] && [b] == Stream(store, old(cursor), 1)
      ensures cursor == (old(cursor) + 1) % |store| == Advance(old(cursor), 1, |store|)
    {
      b := store[cursor];
      cursor := (cursor + 1) % |store|;
    }

    /** `seed_u32()`: the next four bytes combined most significant first. */
    method SeedU32() returns (r: U32)
      requires Valid() && |store| > 0
      modifies this
      ensures store == old(store) && Valid()
      ensures r == BigEndian(Stream(store, old(cursor), 4))
      ensures cursor == (old(cursor) + 4) % |store| == Advance(old(cursor), 4, |store|)
    {
      ghost var c0 := cursor;
      var b0 := Seed();
      ghost var c1 := cursor;
      var b1 := Seed();
      ghost var c2 := cursor;
      var b2 := Seed();
      ghost var c3 := cursor;
      var b3 := Seed();
      r := b0 as int * 0x100_0000 + b1 as int * 0x1_0000 + b2 as int * 0x100 + b3 as int;
      assert Stream(store, c3, 1) == [b3];
      assert Stream(store, c2, 2) == [b2, b3];
      assert Stream(store, c1, 3) == [b1, b2, b3];
      assert Stream(store, c0, 4) == [b0, b1, b2, b3];
      assert Advance(c1, 3, |store|) == Advance(c2, 2, |store|) == Advance(c3, 1, |store|) == cursor;
      AdvanceMod(c0, 4, |store|);
    }

    /** `seed_u32_bounded(lo, hi)`: the next word reduced into [lo, hi], with the modulo bias kept. */
    method SeedU32Bounded(lo: U32, hi: U32) returns (r: U32)
      requires Valid() && |store| > 0
      requires lo <= hi && hi - lo + 1 < U32_LIMIT
      modifies this
      ensures store == old(store) && Valid()
      ensures r == ReduceToRange(BigEndian(Stream(store, old(cursor), 4)), lo, hi)
      ensures lo <= r <= hi
      ensures cursor == (old(cursor) + 4) % |store|
    {
      var x := SeedU32();
      r := x % (hi - lo + 1) + lo;
    }
  }

  /** Two samplers in the same state answer the same calls identically and stay in step. */
  method SameStateSameDraws(a: Seeder, b: Seeder, lo: U32, hi: U32) returns (x: U32, y: U32)
    requires a != b && a.Valid() && b.Valid() && |a.store| > 0
    requires a.store == b.store && a.cursor == b.cursor
    requires lo <= hi && hi - lo + 1 < U32_LIMIT
    modifies a, b
    ensures x == y
    ensures a.store == b.store && a.cursor == b.cursor
  {
    x := a.SeedU32Bounded(lo, hi);
    y := b.SeedU32Bounded(lo, hi);
  }
}
