/** The numbers of a header, hashed one after the other without separators: when they run together. */
module HeaderNumbers {
  import opened Basics
  import opened Order
  import opened ProofsOfWork

  lemma DigitsSign(n: int)
    ensures Digits(n)[0] == 45 <==> n < 0
  {
    if n >= 0 {
      DecimalIsDigits(n, 0);
    }
  }

  lemma DigitsInjective(m: int, n: int)
    requires Digits(m) == Digits(n)
    ensures m == n
  {
    DigitsSign(m);
    DigitsSign(n);
    if m >= 0 {
      DecimalInjective(m, n);
    } else {
      assert Decimal(-m) == Digits(m)[1..] == Digits(n)[1..] == Decimal(-n);
      DecimalInjective(-m, -n);
    }
  }

  /**
   * Numbers are hashed without separators, but within one shard and difficulty, times of the same
   * number of digits keep them apart.
   */
  lemma NumbersSeparated(a: Header, b: Header)
    requires a.shardID == b.shardID && a.difficulty == b.difficulty
    requires |Digits(a.timestamp)| == |Digits(b.timestamp)|
    ensures NumberFields(a) == NumberFields(b) <==> a.timestamp == b.timestamp && a.height == b.height
  {
    if NumberFields(a) == NumberFields(b) {
      var s, d := Digits(a.shardID), Digits(a.difficulty);
      OuterEqual(Digits(a.timestamp), Digits(b.timestamp), s, Digits(a.height), Digits(b.height), d);
      DigitsInjective(a.timestamp, b.timestamp);
      DigitsInjective(a.height, b.height);
    }
  }

  lemma OuterEqual(t: Bytes, u: Bytes, s: Bytes, x: Bytes, y: Bytes, d: Bytes)
    requires t + s + x + d == u + s + y + d && |t| == |u|
    ensures t == u && x == y
  {
    assert t == (t + s + x + d)[..|t|] && u == (u + s + y + d)[..|u|];
    MiddleEqual(t + s, x, y, d);
  }

  // ---------------------------------------------------------------- times of different lengths

  /** The number written with n ones, and how it is written. */
  function Ones(n: nat): nat {
    if n == 0 then 0 else 10 * Ones(n - 1) + 1
  }

  function OnesText(n: nat): (text: Bytes)
    ensures |text| == n
  {
    if n == 0 then [] else OnesText(n - 1) + [49]
  }

  lemma {:induction false} OnesWritten(n: nat)
    requires n > 0
    ensures Digits(Ones(n)) == OnesText(n)
  {
    if n > 1 {
      OnesWritten(n - 1);
      assert Ones(n) / 10 == Ones(n - 1) && Ones(n) % 10 == 1;
    }
  }

  lemma {:induction false} OnesJoined(m: nat, n: nat)
    ensures OnesText(m) + OnesText(n) == OnesText(m + n)
  {
    if n > 0 {
      OnesJoined(m, n - 1);
      assert OnesText(m) + OnesText(n) == (OnesText(m) + OnesText(n - 1)) + [49];
    }
  }

  /** Twenty ones still fit into a height, and differ from one. */
  lemma OnesFit(n: nat)
    requires 2 <= n <= 20
    ensures 1 < Ones(n) < WORD
  {
    OnesGrow(2, n);
    OnesGrow(n, 20);
    assert Ones(5) == 11111;
    assert Ones(10) == 1111111111;
    assert Ones(15) == 111111111111111;
    assert Ones(20) == 11111111111111111111;
  }

  lemma {:induction false} OnesGrow(m: nat, n: nat)
    requires m <= n
    ensures Ones(m) <= Ones(n)
  {
    if m < n {
      OnesGrow(m, n - 1);
    }
  }

  /** Ones moved from the height to the time, past the shard's own. */
  lemma OnesMoved(m: nat, n: nat)
    requires 0 < m < n
    ensures Digits(Ones(m)) + Digits(1) + Digits(Ones(n - m + 1)) == Digits(Ones(n)) + Digits(1) + Digits(1)
  {
    OnesWritten(m);
    OnesWritten(n);
    OnesWritten(1);
    OnesWritten(n - m + 1);
    assert Ones(1) == 1;
    OnesJoined(m, 1);
    OnesJoined(m + 1, n - m + 1);
    OnesJoined(n, 1);
    OnesJoined(n + 1, 1);
  }

  /**
   * Times of m and of n digits, up to 19 apart, do run into the heights: these two headers of one
   * shard have different heights and share every proof of work.
   */
  lemma HeightNotSeparated(c: Codec, hd: Header, m: nat, n: nat, nonce: int)
    requires 0 < m < n <= m + 19
    ensures Ones(n - m + 1) < WORD
    ensures
      var a := hd.(timestamp := Ones(m), shardID := 1, height := Ones(n - m + 1));
      var b := hd.(timestamp := Ones(n), shardID := 1, height := 1);
      && |Digits(a.timestamp)| == m && |Digits(b.timestamp)| == n && a.height != b.height
      && NumberFields(a) == NumberFields(b) && PrepareData(c, a, nonce) == PrepareData(c, b, nonce)
  {
    OnesFit(n - m + 1);
    OnesWritten(m);
    OnesWritten(n);
    OnesMoved(m, n);
    var a := hd.(timestamp := Ones(m), shardID := 1, height := Ones(n - m + 1));
    var b := hd.(timestamp := Ones(n), shardID := 1, height := 1);
    assert NumberFields(a) == NumberFields(b);
    assert BeforeNonce(c, a) == BeforeNonce(c, b);
  }

  function Pow10(k: nat): nat {
    if k == 0 then 1 else 10 * Pow10(k - 1)
  }

  lemma {:induction false} DecimalShort(n: nat, k: nat)
    requires k > 0 && n < Pow10(k)
    ensures 1 <= |Decimal(n)| <= k
  {
    if n >= 10 {
      assert Pow10(1) == 10;
      assert n / 10 < Pow10(k - 1);
      DecimalShort(n / 10, k - 1);
    }
  }

  lemma HeightShort(height: uint64)
    ensures 1 <= |Digits(height)| <= 20
  {
    assert Pow10(5) == 100000;
    assert Pow10(10) == 10000000000;
    assert Pow10(15) == 1000000000000000;
    assert Pow10(20) == 100000000000000000000;
    DecimalShort(height, 20);
  }

  /** Two headers of one shard and difficulty, their times m and n digits long, whose heights are not told apart. */
  ghost predicate RunTogether(a: Header, b: Header, m: nat, n: nat) {
    && a.shardID == b.shardID && a.difficulty == b.difficulty && a.height != b.height
    && |Digits(a.timestamp)| == m && |Digits(b.timestamp)| == n
    && NumberFields(a) == NumberFields(b)
  }

  lemma LengthsMoved(a: Header, b: Header, m: nat, n: nat)
    requires RunTogether(a, b, m, n)
    ensures m + |Digits(a.height)| == n + |Digits(b.height)|
  {
    assert |NumberFields(a)| == m + |Digits(a.shardID)| + |Digits(a.height)| + |Digits(a.difficulty)|;
    assert |NumberFields(b)| == n + |Digits(b.shardID)| + |Digits(b.height)| + |Digits(b.difficulty)|;
  }

  lemma RunTogetherFlipped(a: Header, b: Header, m: nat, n: nat)
    requires RunTogether(a, b, m, n)
    ensures RunTogether(b, a, n, m)
  {
  }

  lemma SomeRunTogether(hd: Header, m: nat, n: nat) returns (a: Header, b: Header)
    requires 0 < m < n <= m + 19
    ensures RunTogether(a, b, m, n)
  {
    var c := Codec(_ => seq(32, _ => 0), _ => []);
    HeightNotSeparated(c, hd, m, n, 0);
    a := hd.(timestamp := Ones(m), shardID := 1, height := Ones(n - m + 1));
    b := hd.(timestamp := Ones(n), shardID := 1, height := 1);
  }

  /** Exactly times whose digit counts differ by 1 to 19 let heights run together. */
  lemma RunTogetherExactly(m: nat, n: nat)
    requires m > 0 && n > 0
    ensures (exists a: Header, b: Header :: RunTogether(a, b, m, n)) <==> m != n && m <= n + 19 && n <= m + 19
  {
    if a: Header, b: Header :| RunTogether(a, b, m, n) {
      LengthsMoved(a, b, m, n);
      HeightShort(a.height);
      HeightShort(b.height);
      if m == n {
        NumbersSeparated(a, b);
      }
    }
    var hd := Header(1, 0, [], [], [], 0, 0, 0, [], [], [], None, []);
    if m < n <= m + 19 {
      var a, b := SomeRunTogether(hd, m, n);
    } else if n < m <= n + 19 {
      var a, b := SomeRunTogether(hd, n, m);
      RunTogetherFlipped(a, b, n, m);
    }
  }
}
