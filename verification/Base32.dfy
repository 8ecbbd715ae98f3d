/**
 Share slugs: base32 as section 6 of RFC 4648 defines it, lowercased and without padding, computed
 through a 32-bit accumulator that is never masked.
 */
module Base32 {
  type Byte = b: int | 0 <= b < 256

  type Bit = b: int | 0 <= b < 2

  const ALPHABET := "abcdefghijklmnopqrstuvwxyz234567"

  // ----- Bits -----

  /** The last `k` binary digits of `v`, most significant first. */
  function BitsOf(v: nat, k: nat): (r: seq<Bit>)
    ensures |r| == k
  {
    if k == 0 then [] else BitsOf(v / 2, k - 1) + [v % 2]
  }

  function Value(bits: seq<Bit>): nat {
    if bits == [] then 0 else 2 * Value(bits[..|bits| - 1]) + bits[|bits| - 1]
  }

  function Pow2(k: nat): (p: nat)
    ensures p > 0
  {
    if k == 0 then 1 else 2 * Pow2(k - 1)
  }

  lemma {:induction false} ValueBound(bits: seq<Bit>)
    ensures Value(bits) < Pow2(|bits|)
  {
    if bits != [] { ValueBound(bits[..|bits| - 1]); }
  }

  lemma SmallPowers()
    ensures Pow2(5) == 32 && Pow2(8) == 256
  {
    assert Pow2(2) == 4 && Pow2(4) == 16 && Pow2(6) == 64;
  }

  lemma {:induction false} ValueOfBits(v: nat, k: nat)
    requires v < Pow2(k)
    ensures Value(BitsOf(v, k)) == v
  {
    if k > 0 {
      ValueOfBits(v / 2, k - 1);
      assert BitsOf(v, k)[..k - 1] == BitsOf(v / 2, k - 1);
    }
  }

  lemma {:induction false} BitsOfValue(bits: seq<Bit>)
    ensures BitsOf(Value(bits), |bits|) == bits
  {
    if bits != [] {
      var below := bits[..|bits| - 1];
      BitsOfValue(below);
      assert Value(bits) / 2 == Value(below) && Value(bits) % 2 == bits[|bits| - 1];
    }
  }

  // ----- The encoding, as groups of bits -----

  /** All bytes' bits, most significant first. */
  function Bits(bytes: seq<Byte>): (r: seq<Bit>)
    ensures |r| == 8 * |bytes|
  {
    if bytes == [] then [] else Bits(bytes[..|bytes| - 1]) + BitsOf(bytes[|bytes| - 1], 8)
  }

  function Letter(group: seq<Bit>): char
    requires |group| == 5
  {
    ValueBound(group);
    SmallPowers();
    ALPHABET[Value(group)]
  }

  /** The letters of the whole groups of five bits. */
  function WholeGroups(bits: seq<Bit>): string {
    if |bits| < 5 then "" else [Letter(bits[..5])] + WholeGroups(bits[5..])
  }

  lemma {:induction false} WholeGroupsLength(bits: seq<Bit>)
    ensures |WholeGroups(bits)| == |bits| / 5
    decreases |bits|
  {
    if |bits| >= 5 { WholeGroupsLength(bits[5..]); }
  }

  /** The zero bits that fill up the last group. */
  function Filler(n: nat): seq<Bit> {
    BitsOf(0, if n % 5 == 0 then 0 else 5 - n % 5)
  }

  lemma FillerLength(n: nat)
    ensures |Filler(n)| < 5 && (n + |Filler(n)|) % 5 == 0
    ensures (n + |Filler(n)|) / 5 == (n + 4) / 5
  {
    hide BitsOf;
  }

  function Encoded(bytes: seq<Byte>): string {
    WholeGroups(Bits(bytes) + Filler(8 * |bytes|))
  }

  // ----- 32-bit arithmetic, digit by digit -----

  /** The number made of the last `k` binary digits. */
  function Low(v: nat, k: nat): nat {
    if k == 0 then 0 else 2 * Low(v / 2, k - 1) + v % 2
  }

  function Doubled(v: nat, k: nat): nat {
    if k == 0 then v else 2 * Doubled(v, k - 1)
  }

  /** `v << k`: doubled `k` times, cut to 32 bits. */
  function Shl(v: nat, k: nat): nat {
    Low(Doubled(v, k), 32)
  }

  /** `v | w`, digit by digit. */
  function Or(v: nat, w: nat): nat
    decreases v + w
  {
    if v == 0 && w == 0 then 0 else 2 * Or(v / 2, w / 2) + if v % 2 == 1 || w % 2 == 1 then 1 else 0
  }

  /** `v >>> k`: halved `k` times. */
  function Shr(v: nat, k: nat): nat {
    if k == 0 then v else Shr(v / 2, k - 1)
  }

  lemma {:induction false} LowKeepsBits(v: nat, m: nat, k: nat)
    requires k <= m
    ensures BitsOf(Low(v, m), k) == BitsOf(v, k)
  {
    if k > 0 { LowKeepsBits(v / 2, m - 1, k - 1); }
  }

  lemma {:induction false} LowIsValue(v: nat, k: nat)
    ensures Low(v, k) == Value(BitsOf(v, k))
  {
    if k > 0 {
      LowIsValue(v / 2, k - 1);
      assert BitsOf(v, k)[..k - 1] == BitsOf(v / 2, k - 1);
    }
  }

  lemma {:induction false} LowOfDoubled(v: nat, m: nat, s: nat)
    requires s <= m
    ensures Low(Doubled(v, s), m) == Doubled(Low(v, m - s), s)
  {
    if s > 0 {
      LowOfDoubled(v, m - 1, s - 1);
      assert Doubled(v, s) / 2 == Doubled(v, s - 1) && Doubled(v, s) % 2 == 0;
    }
  }

  /** The digits of a doubled number plus a small one are those of the one, then those of the other. */
  lemma {:induction false} DoubledBits(v: nat, s: nat, b: nat, k: nat)
    requires b < Pow2(s)
    ensures BitsOf(Doubled(v, s) + b, k + s) == BitsOf(v, k) + BitsOf(b, s)
  {
    if s > 0 {
      DoubledBits(v, s - 1, b / 2, k);
      assert (Doubled(v, s) + b) / 2 == Doubled(v, s - 1) + b / 2 && (Doubled(v, s) + b) % 2 == b % 2;
    } else {
      assert BitsOf(v, k) + BitsOf(b, s) == BitsOf(v, k);
    }
  }

  lemma {:induction false} OrZero(v: nat)
    ensures Or(v, 0) == v
    decreases v
  {
    if v > 0 { OrZero(v / 2); }
  }

  /** Or-ing into the zeros a shift leaves behind is adding. */
  lemma {:induction false} OrIntoZeros(v: nat, s: nat, b: nat)
    requires b < Pow2(s)
    ensures Or(Doubled(v, s), b) == Doubled(v, s) + b
    decreases s
  {
    if s == 0 {
      OrZero(v);
    } else {
      OrIntoZeros(v, s - 1, b / 2);
      assert Doubled(v, s) / 2 == Doubled(v, s - 1) && Doubled(v, s) % 2 == 0;
    }
  }

  /** A byte shifted in at the end; what the shift pushes out is never read again. */
  lemma PushByte(v: nat, k: nat, b: Byte)
    requires k < 5
    ensures BitsOf(Or(Shl(v, 8), b), k + 8) == BitsOf(v, k) + BitsOf(b, 8)
  {
    SmallPowers();
    LowOfDoubled(v, 32, 8);
    OrIntoZeros(Low(v, 24), 8, b);
    DoubledBits(Low(v, 24), 8, b, k);
    LowKeepsBits(v, 24, k);
  }

  lemma {:induction false} ShrBits(v: nat, j: nat)
    ensures BitsOf(Shr(v, j), 5) == BitsOf(v, j + 5)[..5] && BitsOf(v, j) == BitsOf(v, j + 5)[5..]
  {
    if j > 0 { ShrBits(v / 2, j - 1); }
  }

  /** The letter looked up for the five bits above the last `j`. */
  lemma TakeFive(v: nat, j: nat)
    ensures Low(Shr(v, j), 5) < 32
    ensures ALPHABET[Low(Shr(v, j), 5)] == Letter(BitsOf(v, j + 5)[..5])
    ensures BitsOf(v, j) == BitsOf(v, j + 5)[5..]
  {
    ShrBits(v, j);
    LowIsValue(Shr(v, j), 5);
    ValueBound(BitsOf(Shr(v, j), 5));
    SmallPowers();
  }

  /** The letter looked up for the last `k` bits filled up with zeros. */
  lemma TakeLast(v: nat, k: nat)
    requires 0 < k < 5
    ensures Low(Shl(v, 5 - k), 5) < 32
    ensures ALPHABET[Low(Shl(v, 5 - k), 5)] == Letter(BitsOf(v, k) + BitsOf(0, 5 - k))
  {
    var s := 5 - k;
    DoubledBits(v, s, 0, k);
    LowKeepsBits(Doubled(v, s), 32, 5);
    LowIsValue(Shl(v, s), 5);
    ValueBound(BitsOf(Shl(v, s), 5));
    SmallPowers();
  }

  // ----- The encoder -----

  /** Whole groups, and no bits left over. */
  predicate NoneOver(bits: seq<Bit>) {
    |bits| % 5 == 0
  }

  lemma {:induction false} WholeGroupsConcat(bits: seq<Bit>, more: seq<Bit>)
    requires NoneOver(bits)
    ensures WholeGroups(bits + more) == WholeGroups(bits) + WholeGroups(more)
    decreases |bits|
  {
    if bits == [] {
      assert bits + more == more;
    } else {
      assert (bits + more)[..5] == bits[..5] && (bits + more)[5..] == bits[5..] + more;
      WholeGroupsConcat(bits[5..], more);
    }
  }

  lemma OneMoreGroup(bits: seq<Bit>, group: seq<Bit>)
    requires NoneOver(bits) && |group| == 5
    ensures NoneOver(bits + group)
    ensures WholeGroups(bits + group) == WholeGroups(bits) + [Letter(group)]
  {
    WholeGroupsConcat(bits, group);
    assert group[..5] == group && WholeGroups(group[5..]) == "";
  }

  /** Between two steps: the whole groups of `all` are written, its last `bits` bits are still in `value`. */
  ghost predicate Pending(all: seq<Bit>, out: string, value: nat, bits: nat) {
    && bits <= |all| && NoneOver(all[..|all| - bits])
    && out == WholeGroups(all[..|all| - bits]) && BitsOf(value, bits) == all[|all| - bits..]
  }

  lemma PendingPush(all: seq<Bit>, out: string, value: nat, bits: nat, b: Byte)
    requires Pending(all, out, value, bits) && bits < 5
    ensures Pending(all + BitsOf(b, 8), out, Or(Shl(value, 8), b), bits + 8)
  {
    hide NoneOver, WholeGroups, BitsOf, Or, Shl;
    PushByte(value, bits, b);
    var more := all + BitsOf(b, 8);
    assert more[..|more| - (bits + 8)] == all[..|all| - bits];
    assert more[|more| - (bits + 8)..] == all[|all| - bits..] + BitsOf(b, 8);
  }

  lemma PendingEmit(all: seq<Bit>, out: string, value: nat, bits: nat)
    requires Pending(all, out, value, bits) && bits >= 5
    ensures Low(Shr(value, bits - 5), 5) < 32
    ensures Pending(all, out + [ALPHABET[Low(Shr(value, bits - 5), 5)]], value, bits - 5)
  {
    hide NoneOver, WholeGroups, BitsOf, Low, Shr, Letter;
    TakeFive(value, bits - 5);
    var done, rest := all[..|all| - bits], all[|all| - bits..];
    OneMoreGroup(done, rest[..5]);
    assert all[..|all| - (bits - 5)] == done + rest[..5];
    assert all[|all| - (bits - 5)..] == rest[5..];
  }

  /** The filler after whole groups and `bits` more bits. */
  lemma LastPart(done: seq<Bit>, bits: nat)
    requires NoneOver(done) && bits < 5
    ensures Filler(|done| + bits) == BitsOf(0, if bits == 0 then 0 else 5 - bits)
  {
  }

  /** The bits left over, filled up with zeros, make one more letter. */
  lemma LastGroup(done: seq<Bit>, rest: seq<Bit>, value: nat)
    requires NoneOver(done) && 0 < |rest| < 5 && BitsOf(value, |rest|) == rest
    ensures Low(Shl(value, 5 - |rest|), 5) < 32
    ensures WholeGroups(done + rest + Filler(|done| + |rest|))
         == WholeGroups(done) + [ALPHABET[Low(Shl(value, 5 - |rest|), 5)]]
  {
    hide NoneOver, WholeGroups, BitsOf, Low, Shl, Letter, Filler;
    var filler := Filler(|done| + |rest|);
    LastPart(done, |rest|);
    TakeLast(value, |rest|);
    OneMoreGroup(done, rest + filler);
    assert done + rest + filler == done + (rest + filler);
  }

  lemma NothingLeft(done: seq<Bit>)
    requires NoneOver(done)
    ensures done + Filler(|done|) == done
  {
    hide NoneOver, Filler;
    LastPart(done, 0);
  }

  lemma PendingEnd(all: seq<Bit>, out: string, value: nat, bits: nat)
    requires Pending(all, out, value, bits) && bits < 5
    ensures bits > 0 ==> Low(Shl(value, 5 - bits), 5) < 32
    ensures WholeGroups(all + Filler(|all|))
         == out + if bits > 0 then [ALPHABET[Low(Shl(value, 5 - bits), 5)]] else []
  {
    hide NoneOver, WholeGroups, BitsOf, Low, Shl, Filler;
    var done, rest := all[..|all| - bits], all[|all| - bits..];
    if bits > 0 {
      LastGroup(done, rest, value);
      assert all == done + rest;
    } else {
      NothingLeft(done);
      assert done == all;
    }
  }

  /** The loop over bytes and, inside, over the whole groups they complete. */
  method Encode(bytes: seq<Byte>) returns (out: string)
    ensures out == Encoded(bytes)
  {
    hide Pending, WholeGroups, Shl, Shr, Or, Low, Bits, BitsOf, Filler;
    var value: nat, bits: nat := 0, 0;
    out := "";
    NothingYet();
    for i := 0 to |bytes|
      invariant bits < 5 && Pending(Bits(bytes[..i]), out, value, bits)
    {
      BitsOfOneMore(bytes, i);
      PendingPush(Bits(bytes[..i]), out, value, bits, bytes[i]);
      value := Or(Shl(value, 8), bytes[i]);
      bits := bits + 8;
      while bits >= 5
        invariant Pending(Bits(bytes[..i + 1]), out, value, bits)
      {
        PendingEmit(Bits(bytes[..i + 1]), out, value, bits);
        out := out + [ALPHABET[Low(Shr(value, bits - 5), 5)]];
        bits := bits - 5;
      }
    }
    assert bytes[..|bytes|] == bytes;
    PendingEnd(Bits(bytes), out, value, bits);
    if bits > 0 {
      out := out + [ALPHABET[Low(Shl(value, 5 - bits), 5)]];
    }
  }

  lemma BitsOfOneMore(bytes: seq<Byte>, i: nat)
    requires i < |bytes|
    ensures Bits(bytes[..i + 1]) == Bits(bytes[..i]) + BitsOf(bytes[i], 8)
  {
    assert bytes[..i + 1][..i] == bytes[..i];
  }

  lemma NothingYet()
    ensures Bits([]) == [] && Pending([], "", 0, 0)
  {
  }

  // ----- Decoding -----

  /** A letter's place in the alphabet; anything else counts as zero. */
  function IndexOf(c: char): (v: nat)
    ensures v < 32
  {
    if 'a' <= c <= 'z' then c as int - 'a' as int
    else if '2' <= c <= '7' then c as int - '2' as int + 26
    else 0
  }

  function LetterBits(text: string): seq<Bit> {
    if text == "" then [] else BitsOf(IndexOf(text[0]), 5) + LetterBits(text[1..])
  }

  /** The whole bytes; bits left over are dropped. */
  function WholeBytes(bits: seq<Bit>): seq<Byte> {
    if |bits| < 8 then []
    else
      ValueBound(bits[..8]);
      SmallPowers();
      [Value(bits[..8])] + WholeBytes(bits[8..])
  }

  function Decoded(text: string): seq<Byte> {
    WholeBytes(LetterBits(text))
  }

  lemma IndexOfLetter(v: nat)
    requires v < 32
    ensures IndexOf(ALPHABET[v]) == v
  {
  }

  lemma {:induction false} LettersHoldTheBits(bits: seq<Bit>)
    requires NoneOver(bits)
    ensures LetterBits(WholeGroups(bits)) == bits
    decreases |bits|
  {
    if bits != [] {
      var group := bits[..5];
      LettersHoldTheBits(bits[5..]);
      ValueBound(group);
      SmallPowers();
      IndexOfLetter(Value(group));
      BitsOfValue(group);
      assert WholeGroups(bits)[1..] == WholeGroups(bits[5..]) && WholeGroups(bits)[0] == Letter(group);
      assert bits == group + bits[5..];
    }
  }

  lemma FirstByte(b: Byte, tail: seq<Bit>)
    ensures WholeBytes(BitsOf(b, 8) + tail) == [b] + WholeBytes(tail)
  {
    SmallPowers();
    ValueOfBits(b, 8);
    hide BitsOf, Value, Pow2;
    var more := BitsOf(b, 8) + tail;
    assert more[..8] == BitsOf(b, 8) && more[8..] == tail;
  }

  lemma {:induction false} BytesHoldTheBits(bytes: seq<Byte>, tail: seq<Bit>)
    ensures WholeBytes(Bits(bytes) + tail) == bytes + WholeBytes(tail)
    decreases |bytes|
  {
    hide Bits, BitsOf, WholeBytes;
    if bytes == [] {
      NothingYet();
      assert Bits(bytes) + tail == tail;
    } else {
      var below, b := bytes[..|bytes| - 1], bytes[|bytes| - 1];
      var more := BitsOf(b, 8) + tail;
      assert bytes[..|bytes|] == bytes;
      BitsOfOneMore(bytes, |bytes| - 1);
      assert Bits(bytes) + tail == Bits(below) + more;
      BytesHoldTheBits(below, more);
      FirstByte(b, tail);
      assert bytes == below + [b];
    }
  }

  /** Decoding an encoding gives the bytes back, so no two byte strings share a slug. */
  lemma RoundTrip(bytes: seq<Byte>)
    ensures Decoded(Encoded(bytes)) == bytes
  {
    hide WholeGroups, Bits, BitsOf, Filler, LetterBits, WholeBytes;
    var filler := Filler(8 * |bytes|);
    FillerLength(8 * |bytes|);
    TooFewBits(filler);
    LettersHoldTheBits(Bits(bytes) + filler);
    BytesHoldTheBits(bytes, filler);
    assert bytes + WholeBytes(filler) == bytes;
  }

  lemma TooFewBits(bits: seq<Bit>)
    requires |bits| < 8
    ensures WholeBytes(bits) == []
  {
  }

  lemma DifferentBytesDifferentText(a: seq<Byte>, b: seq<Byte>)
    ensures Encoded(a) == Encoded(b) <==> a == b
  {
    RoundTrip(a);
    RoundTrip(b);
  }

  /** A lower-case letter or one of the digits 2 to 7. */
  predicate IsSlugLetter(c: char) {
    'a' <= c <= 'z' || '2' <= c <= '7'
  }

  lemma AlphabetLetter(v: nat)
    requires v < 32
    ensures IsSlugLetter(ALPHABET[v])
  {
  }

  lemma {:induction false} GroupLetters(bits: seq<Bit>)
    ensures forall c | c in WholeGroups(bits) :: IsSlugLetter(c)
    decreases |bits|
  {
    hide IsSlugLetter;
    if |bits| >= 5 {
      ValueBound(bits[..5]);
      SmallPowers();
      AlphabetLetter(Value(bits[..5]));
      GroupLetters(bits[5..]);
    }
  }

  lemma SlugLetters(bytes: seq<Byte>)
    ensures forall c | c in Encoded(bytes) :: 'a' <= c <= 'z' || '2' <= c <= '7'
  {
    GroupLetters(Bits(bytes) + Filler(8 * |bytes|));
  }

  /** Eight bits a byte, five bits a letter, rounded up. */
  lemma EncodedLength(bytes: seq<Byte>)
    ensures |Encoded(bytes)| == (8 * |bytes| + 4) / 5
  {
    hide WholeGroups, Bits, BitsOf, Filler;
    FillerLength(8 * |bytes|);
    WholeGroupsLength(Bits(bytes) + Filler(8 * |bytes|));
  }

  /** Ten random bytes make a slug of sixteen letters that holds all of them. */
  method MintShareSlug(randomBytes: seq<Byte>) returns (slug: string)
    requires |randomBytes| == 10
    ensures |slug| == 16 && Decoded(slug) == randomBytes
    ensures forall c | c in slug :: 'a' <= c <= 'z' || '2' <= c <= '7'
  {
    slug := Encode(randomBytes);
    RoundTrip(randomBytes);
    EncodedLength(randomBytes);
    SlugLetters(randomBytes);
  }
}
