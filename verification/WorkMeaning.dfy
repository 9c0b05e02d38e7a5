/** Proof of work in bits and bytes: what is hashed, which hashes will do, and which nonce is found. */
module WorkMeaning {
  import opened Basics
  import opened Order
  import opened ClockLattice
  import opened Merkle
  import opened ProofsOfWork

  // ---------------------------------------------------------------- leading zero bits

  const UNITS: seq<nat> := [128, 64, 32, 16, 8, 4, 2, 1]

  /** Bit i of a byte string, the highest bit of the first byte being bit 0. */
  function BitOf(x: Bytes, i: nat): nat
    requires i < 8 * |x|
  {
    x[i / 8] / UNITS[i % 8] % 2
  }

  ghost predicate LeadingZeros(x: Bytes, d: int)
    requires d <= 8 * |x|
  {
    forall i :: 0 <= i < d ==> BitOf(x, i) == 0
  }

  /** The e highest bits of a byte. */
  ghost predicate HighZeros(b: byte, e: nat)
    requires e <= 8
  {
    forall j :: 0 <= j < e ==> b / UNITS[j] % 2 == 0
  }

  lemma UnitIsPower(j: nat)
    requires j < 8
    ensures UNITS[j] == Pow2(7 - j)
  {
    assert Pow2(0) == 1 && Pow2(1) == 2 && Pow2(2) == 4 && Pow2(3) == 8;
    assert Pow2(4) == 16 && Pow2(5) == 32 && Pow2(6) == 64 && Pow2(7) == 128;
  }

  lemma OneMoreBit(b: byte, u: nat)
    requires u > 0 && b < 2 * u
    ensures b < u <==> b / u % 2 == 0
  {
    if b >= u {
      assert b / u == 1;
    }
  }

  lemma {:induction false} ByteZeros(b: byte, e: nat)
    requires e <= 8
    ensures b < Pow2(8 - e) <==> HighZeros(b, e)
  {
    if e == 0 {
      UnitIsPower(0);
      assert Pow2(8) == 2 * Pow2(7) == 256;
    } else {
      ByteZeros(b, e - 1);
      UnitIsPower(e - 1);
      if b < Pow2(8 - (e - 1)) {
        OneMoreBit(b, Pow2(8 - e));
      } else {
        assert Pow2(8 - (e - 1)) == 2 * Pow2(8 - e);
      }
    }
  }

  lemma BitInFront(x: Bytes, i: nat)
    requires x != [] && i < 8 * (|x| - 1)
    ensures BitOf(x, i) == BitOf(x[..|x| - 1], i)
  {
  }

  lemma BitInLast(x: Bytes, j: nat)
    requires x != [] && j < 8
    ensures BitOf(x, 8 * (|x| - 1) + j) == x[|x| - 1] / UNITS[j] % 2
  {
    var n := |x| - 1;
    assert (8 * n + j) / 8 == n && (8 * n + j) % 8 == j;
  }

  lemma FrontZeros(x: Bytes, d: int)
    requires x != [] && d <= 8 * (|x| - 1)
    ensures LeadingZeros(x, d) <==> LeadingZeros(x[..|x| - 1], d)
  {
    var front := x[..|x| - 1];
    forall i | 0 <= i < d ensures BitOf(x, i) == BitOf(front, i) {
      BitInFront(x, i);
    }
    if LeadingZeros(front, d) {
      forall i | 0 <= i < d ensures BitOf(x, i) == 0 {
        assert BitOf(front, i) == 0;
      }
    }
    if LeadingZeros(x, d) {
      forall i | 0 <= i < d ensures BitOf(front, i) == 0 {
        assert BitOf(x, i) == 0;
      }
    }
  }

  lemma LastZeros(x: Bytes, e: nat)
    requires x != [] && e <= 8
    ensures LeadingZeros(x, 8 * (|x| - 1) + e) <==> LeadingZeros(x[..|x| - 1], 8 * (|x| - 1)) && HighZeros(x[|x| - 1], e)
  {
    var n := 8 * (|x| - 1);
    FrontZeros(x, n);
    forall j | 0 <= j < e ensures BitOf(x, n + j) == x[|x| - 1] / UNITS[j] % 2 {
      BitInLast(x, j);
    }
    if LeadingZeros(x[..|x| - 1], n) && HighZeros(x[|x| - 1], e) {
      forall i | 0 <= i < n + e ensures BitOf(x, i) == 0 {
        if i >= n {
          assert x[|x| - 1] / UNITS[i - n] % 2 == 0;
          BitInLast(x, i - n);
        }
      }
    }
    if LeadingZeros(x, n + e) {
      forall j | 0 <= j < e ensures x[|x| - 1] / UNITS[j] % 2 == 0 {
        BitInLast(x, j);
        assert BitOf(x, n + j) == 0;
      }
    }
  }

  lemma {:induction false} PowerSum(a: nat, b: nat)
    ensures Pow2(a + b) == Pow2(a) * Pow2(b)
  {
    if a > 0 {
      PowerSum(a - 1, b);
    }
  }

  /** A number is below 2^(8n - d) exactly if the d highest of its 8n bits are zero. */
  lemma {:induction false} BelowPower(x: Bytes, d: nat)
    requires d <= 8 * |x|
    ensures BigEndian(x) < Pow2(8 * |x| - d) <==> LeadingZeros(x, d)
  {
    if x != [] {
      var n := |x| - 1;
      var front, last := x[..n], x[n];
      if d <= 8 * n {
        BelowPower(front, d);
        FrontZeros(x, d);
        PowerSum(8, 8 * n - d);
        assert Pow2(8) == 256;
        Shifted(BigEndian(front), last, Pow2(8 * n - d));
      } else {
        var e := d - 8 * n;
        BelowPower(front, 8 * n);
        LastZeros(x, e);
        ByteZeros(last, e);
        PowerSum(8 - e, e);
        LastDecides(BigEndian(front), last, Pow2(8 - e), e);
      }
    }
  }

  lemma Shifted(m: nat, b: byte, p: nat)
    ensures 256 * m + b < 256 * p <==> m < p
  {
  }

  lemma LastDecides(m: nat, b: byte, p: nat, e: nat)
    requires e <= 8 && p == Pow2(8 - e)
    ensures 256 * m + b < p <==> m == 0 && b < p
  {
    PowerSum(8 - e, e);
    assert Pow2(8) == 256 && Pow2(e) >= 1;
    assert p <= p * Pow2(e);
  }

  /** A hash will do exactly if it starts with as many zero bits as the difficulty says. */
  lemma MeetsExactly(c: Codec, hd: Header, nonce: int)
    requires hd.difficulty <= 256
    ensures Meets(c, hd, nonce) <==> LeadingZeros(c.hash(PrepareData(c, hd, nonce)), hd.difficulty)
  {
    var x := c.hash(PrepareData(c, hd, nonce));
    if hd.difficulty >= 0 {
      BelowPower(x, hd.difficulty);
    } else {
      AnyMeets(x, -hd.difficulty);
    }
  }

  /** A difficulty below 0 asks for nothing. */
  lemma AnyMeets(x: Digest, e: nat)
    ensures BigEndian(x) < Pow2(256 + e)
  {
    BelowPower(x, 0);
    PowerSum(256, e);
    Scaled(BigEndian(x), Pow2(256), Pow2(e));
  }

  lemma Scaled(m: nat, p: nat, q: nat)
    requires m < p && q >= 1
    ensures m < p * q
  {
    assert p <= p * q;
  }

  // ---------------------------------------------------------------- numbers as text

  /** Digits without a leading zero. */
  predicate IsNumeral(text: Bytes) {
    text != [] && (forall i :: 0 <= i < |text| ==> 48 <= text[i] <= 57) && (text[0] == 48 ==> |text| == 1)
  }

  function DigitOf(b: byte): int {
    var code: int := b;
    code - 48
  }

  /** The number a text of digits stands for, read from the left. */
  function Reads(text: Bytes, before: int): int {
    if text == [] then before else Reads(text[1..], 10 * before + DigitOf(text[0]))
  }

  lemma {:induction false} ReadsOn(text: Bytes, digit: byte, before: int)
    ensures Reads(text + [digit], before) == 10 * Reads(text, before) + DigitOf(digit)
    decreases |text|
  {
    if text == [] {
      assert ([] + [digit])[1..] == [];
    } else {
      assert (text + [digit])[1..] == text[1..] + [digit];
      ReadsOn(text[1..], digit, 10 * before + DigitOf(text[0]));
    }
  }

  /** A text is the decimal form of the number it reads as. */
  lemma {:induction false} NumeralOf(text: Bytes)
    requires IsNumeral(text)
    ensures Reads(text, 0) >= 0 && Decimal(Reads(text, 0)) == text
    ensures text != [48] ==> Reads(text, 0) > 0
    decreases |text|
  {
    var n := |text| - 1;
    var front, digit := text[..n], text[n];
    assert text == front + [digit];
    ReadsOn(front, digit, 0);
    if n > 0 {
      NumeralOf(front);
    }
  }

  /** A number in decimal, with a minus sign if it is negative. */
  predicate Writes(text: Bytes, n: int) {
    if n >= 0 then IsNumeral(text) && Reads(text, 0) == n
    else text != [] && text[0] == 45 && IsNumeral(text[1..]) && Reads(text[1..], 0) == -n
  }

  lemma DigitsWritten(text: Bytes, n: int)
    requires Writes(text, n)
    ensures Digits(n) == text
  {
    if n >= 0 {
      NumeralOf(text);
    } else {
      NumeralOf(text[1..]);
      assert text == [text[0]] + text[1..];
    }
  }

  /** The hashed bytes: every field in its place, numbers as text, a missing clock as nothing. */
  lemma PreparedBytes(c: Codec, hd: Header, nonce: int, time: Bytes, shard: Bytes, height: Bytes, difficulty: Bytes, tried: Bytes)
    requires Writes(time, hd.timestamp) && Writes(shard, hd.shardID) && Writes(height, hd.height)
    requires Writes(difficulty, hd.difficulty) && Writes(tried, nonce)
    ensures
      var clock := if hd.vectorClock.None? then [] else c.serialize(hd.vectorClock.value);
      PrepareData(c, hd, nonce) == hd.prevBlockHash + hd.merkleRoot + hd.stateRoot + time + shard + height + difficulty
        + hd.bloomFilter + hd.proposerID + clock + tried + hd.accumulatorState
  {
    DigitsWritten(time, hd.timestamp);
    DigitsWritten(shard, hd.shardID);
    DigitsWritten(height, hd.height);
    DigitsWritten(difficulty, hd.difficulty);
    DigitsWritten(tried, nonce);
    var front := hd.prevBlockHash + hd.merkleRoot + hd.stateRoot;
    assert front + (time + shard + height + difficulty) == front + time + shard + height + difficulty;
  }

  /** Valid: the stored hash is that of these bytes, and starts with enough zero bits. */
  lemma SealsExactly(c: Codec, hd: Header, hash: Bytes)
    requires hd.difficulty <= 256
    ensures Seals(c, hd, hash) <==>
      hash == c.hash(PrepareData(c, hd, hd.nonce)) && LeadingZeros(c.hash(PrepareData(c, hd, hd.nonce)), hd.difficulty)
  {
    MeetsExactly(c, hd, hd.nonce);
  }

  ghost predicate Works(c: Codec, hd: Header, nonce: int)
    requires hd.difficulty <= 256
  {
    LeadingZeros(c.hash(PrepareData(c, hd, nonce)), hd.difficulty)
  }

  /** What the search comes to: the least nonce below 2^60 that works, or 2^60 with the hash of 2^60 - 1. */
  lemma FoundExactly(c: Codec, hd: Header, nonce: int, hash: Bytes)
    requires hd.difficulty <= 256 && IsFound(c, hd, nonce, hash)
    ensures 0 <= nonce <= 0x1000_0000_0000_0000
    ensures forall n :: 0 <= n < nonce ==> !Works(c, hd, n)
    ensures nonce < 0x1000_0000_0000_0000 ==> Works(c, hd, nonce) && hash == c.hash(PrepareData(c, hd, nonce))
    ensures nonce == 0x1000_0000_0000_0000 ==> hash == c.hash(PrepareData(c, hd, 0xFFF_FFFF_FFFF_FFFF))
  {
    MeetsExactly(c, hd, nonce);
    forall n | 0 <= n < nonce ensures !Works(c, hd, n) {
      MeetsExactly(c, hd, n);
    }
  }

  /** Bytes as a number, from the most significant one: the first of n + 1 bytes weighs 2^(8n). */
  lemma {:induction false} NumberFromFront(x: byte, rest: Bytes)
    ensures BigEndian([x] + rest) == x * Pow2(8 * |rest|) + BigEndian(rest)
  {
    var s := [x] + rest;
    if rest == [] {
      assert s[..0] == [];
    } else {
      var n := |rest| - 1;
      assert s[..|s| - 1] == [x] + rest[..n];
      NumberFromFront(x, rest[..n]);
      PowerSum(8, 8 * n);
      assert Pow2(8) == 256;
      Weighed(x, Pow2(8 * n), BigEndian(rest[..n]), rest[n]);
    }
  }

  lemma Weighed(x: int, p: nat, m: nat, y: int)
    ensures 256 * (x * p + m) + y == x * (256 * p) + (256 * m + y)
  {
  }
}
