/** The generator: `NewData`, `New` and `MustNew`. The wall clock
    (`time.Now().UnixMilli()`) and the random source (`RandomGenerator()`)
    are parameters `now` and `rnd`. */
module Generator {
  import opened Hex
  import opened Ucid

  /** A non-zero multiple of `m` is at least `m` away from 0. */
  lemma ScaledBounds(m: int, k: int)
    requires m > 0
    ensures k >= 1 ==> m * k >= m
    ensures k <= -1 ==> m * k <= -m
  {
    if k >= 1 {
      assert m * k == m + m * (k - 1);
    } else if k <= -1 {
      assert m * k == -m + m * (k + 1);
    }
  }

  /** A multiple of `m` leaves no Euclidean remainder. */
  lemma MultipleMod(k: int, m: int)
    requires m > 0
    ensures (k * m) % m == 0
  {
    var x := k * m;
    var j := k - x / m;
    assert x == m * (x / m) + x % m;
    assert m * j == x % m;
    ScaledBounds(m, j);
  }

  /** The only multiple of `m` strictly between `-m` and `m` is 0. */
  lemma SmallMultiple(x: int, m: int)
    requires m > 0 && -m < x < m && x % m == 0
    ensures x == 0
  {
    var k := x / m;
    assert x == m * k;
    ScaledBounds(m, k);
  }

  /** Go's `%` on integers: the remainder of division truncated toward zero,
      so it takes the sign of the dividend. */
  function Rem(a: int, m: int): (r: int)
    requires m > 0
    ensures -m < r < m
    ensures a >= 0 ==> r >= 0
    ensures a <= 0 ==> r <= 0
    ensures (a - r) % m == 0
  {
    if a >= 0 then
      assert a - a % m == (a / m) * m;
      MultipleMod(a / m, m);
      a % m
    else
      assert a + (-a) % m == (-((-a) / m)) * m;
      MultipleMod(-((-a) / m), m);
      -((-a) % m)
  }

  /** The contract of Rem leaves exactly one value: the remainder is unique. */
  lemma RemUnique(a: int, m: int, r: int)
    requires m > 0 && -m < r < m && (a - r) % m == 0
    requires a >= 0 ==> r >= 0
    requires a <= 0 ==> r <= 0
    ensures r == Rem(a, m)
  {
    var q := Rem(a, m);
    var x, y := (a - q) / m, (a - r) / m;
    assert a - q == x * m && a - r == y * m;
    assert r - q == (x - y) * m;
    MultipleMod(x - y, m);
    SmallMultiple(r - q, m);
  }

  /** Go's `%` and Dafny's Euclidean `%` part ways on negative dividends. */
  lemma RemIsTruncated()
    ensures Rem(-1, 16) == -1 && (-1) % 16 == 15
    ensures Rem(-17, 16) == -1
  {
  }

  /** `NewData`: the clock reading reduced modulo `MaxTimestamp + 1` and the
      random reading reduced modulo `MaxRandom + 1`, with Go's remainder. */
  function NewData(context: seq<Byte>, now: Int64, rnd: Int32): (d: Data)
    ensures d.context == context
    ensures d.timestamp == Rem(now, MaxTimestamp as int + 1)
    ensures d.random == Rem(rnd, MaxRandom as int + 1)
  {
    Data(context, Rem(now, MaxTimestamp as int + 1), Rem(rnd, MaxRandom as int + 1))
  }

  /** The fields of NewData never exceed their maxima, are in range
      whenever the readings are non-negative, and keep a reading that is
      already in range unchanged. */
  lemma NewDataRanges(context: seq<Byte>, now: Int64, rnd: Int32)
    ensures var d := NewData(context, now, rnd);
      d.timestamp <= MaxTimestamp && d.random <= MaxRandom
      && (now >= 0 ==> ValidTimestamp(d.timestamp))
      && (rnd >= 0 ==> ValidRandom(d.random))
      && (ValidTimestamp(now) ==> d.timestamp == now)
      && (ValidRandom(rnd) ==> d.random == rnd)
  {
  }

  /** `New`: NewData followed by ToUCID, as written (space-separated). */
  function New(context: seq<Byte>, now: Int64, rnd: Int32): (r: (seq<Byte>, Option<Error>))
    ensures r.1.None? <==>
      && ValidContext(context)
      && (now >= 0 || now % (MaxTimestamp as int + 1) == 0)
      && (rnd >= 0 || rnd % (MaxRandom as int + 1) == 0)
    ensures r.1 != Some(TimestampTooHigh) && r.1 != Some(RandomTooHigh)
    ensures r.1.Some? ==> r.0 == ErrorUCID
  {
    var d := NewData(context, now, rnd);
    NegativeRemIsZero(now, MaxTimestamp as int + 1);
    NegativeRemIsZero(rnd, MaxRandom as int + 1);
    ToUCID(d)
  }

  /** For a negative dividend, Go's remainder is non-negative exactly when
      the divisor divides it. */
  lemma NegativeRemIsZero(a: int, m: int)
    requires m > 0
    ensures a < 0 ==> (Rem(a, m) >= 0 <==> a % m == 0)
  {
    if a < 0 {
      if a % m == 0 {
        RemUnique(a, m, 0);
      } else {
        assert Rem(a, m) != 0;
      }
    }
  }

  /** `New` on a valid context never fails for a clock and a random source
      that read non-negative (as `time.Now().UnixMilli()` after 1970 and
      `rand.Int31` do). */
  lemma NewSucceeds(context: seq<Byte>, now: Int64, rnd: Int32)
    requires ValidContext(context) && now >= 0 && rnd >= 0
    ensures New(context, now, rnd).1 == None
    ensures var u := New(context, now, rnd).0; var n := |context|;
      |u| == n + 20 && u[..n] == context
      && ParseInt(Stream(u, n)[..TimestampDigits], 64) == IntOk(now % (MaxTimestamp as int + 1))
      && ParseInt(Stream(u, n)[TimestampDigits..], 32) == IntOk(rnd % (MaxRandom as int + 1))
  {
    var d := NewData(context, now, rnd);
    NewDataRanges(context, now, rnd);
    ToUCIDShape(d);
  }

  /** `MustNew`: `New` where the caller asserts that it cannot fail; the
      panic of the source becomes the precondition. The result is a
      well-formed token of the given context, never the sentinel. */
  function MustNew(context: seq<Byte>, now: Int64, rnd: Int32): (u: seq<Byte>)
    requires New(context, now, rnd).1 == None
    ensures |u| == |context| + 20 && u[..|context|] == context
    ensures u != ErrorUCID
    ensures u[|context|] == ' '
  {
    var d := NewData(context, now, rnd);
    ToUCIDShape(d);
    EncodedIsNotSentinel(d);
    New(context, now, rnd).0
  }

  /** `MustNew("test")` never panics while the clock and the random source
      read non-negative. */
  lemma MustNewTestNeverPanics(now: Int64, rnd: Int32)
    requires now >= 0 && rnd >= 0
    ensures New("test", now, rnd).1 == None
  {
    assert ValidContext("test");
    NewSucceeds("test", now, rnd);
  }
}
