/** Volume sizes: pkg/utils/util.go and getVolSizeBytes, in int64 arithmetic. */
module Capacity {
  import opened Int64
  import opened Results

  const GIB: int := 1024 * 1024 * 1024
  const DEFAULT_VOLUME_SIZE: int64 := 10 * GIB

  /** The largest size that can be rounded up without leaving int64. */
  const MAX_ROUNDABLE: int := TWO_63 - GIB

  /** CSI's CapacityRange; a missing field reads as 0. */
  datatype CapacityRange = CapacityRange(required: int64, limit: int64)

  function RoundUpSize(sizeBytes: int64, unit: int64): int64
    requires unit != 0
  {
    Quot(Sub(Add(sizeBytes, unit), 1), unit)
  }

  function RoundUpBytes(sizeBytes: int64): int64 { Mul(RoundUpSize(sizeBytes, GIB), GIB) }

  function RoundUpGiB(sizeBytes: int64): int64 { RoundUpSize(sizeBytes, GIB) }

  function BytesToGiB(sizeBytes: int64): int64 { Quot(sizeBytes, GIB) }

  function GiBToBytes(sizeGiB: int64): int64 { Mul(sizeGiB, GIB) }

  /** m is the least multiple of GiB that is not below x. */
  ghost predicate LeastMultiple(m: int, x: int) {
    m % GIB == 0 && m - GIB < x <= m
  }

  /** LeastMultiple means what its name says. */
  lemma LeastMultipleIsLeast(m: int, x: int, other: int)
    requires LeastMultiple(m, x) && other % GIB == 0 && x <= other
    ensures m <= other
  {
    assert (other - m) % GIB == 0;
  }

  /** What the int64 operations of RoundUpSize compute, without wrapping or truncation. */
  function RoundedGiB(x: int): int {
    if x > MAX_ROUNDABLE then -((TWO_64 - x - GIB + 1) / GIB)
    else if x > -GIB then (x + GIB - 1) / GIB
    else -((-x - GIB + 1) / GIB)
  }

  lemma RoundUpGiBValue(x: int64)
    ensures RoundUpGiB(x) == RoundedGiB(x)
  {
    var sum := Add(x, GIB);
    assert sum == if x >= MAX_ROUNDABLE then x + GIB - TWO_64 else x + GIB;
    var numerator := Sub(sum, 1);
    assert numerator == if x > MAX_ROUNDABLE then x + GIB - 1 - TWO_64 else x + GIB - 1;
    assert 0 <= Abs(numerator) / GIB < TWO_63;
  }

  lemma RoundedGiBBounds(x: int)
    requires -TWO_63 <= x < TWO_63
    ensures -TWO_63 <= RoundedGiB(x) * GIB < TWO_63
    ensures x > MAX_ROUNDABLE ==> RoundedGiB(x) < 0
    ensures -GIB < x <= MAX_ROUNDABLE ==> x <= RoundedGiB(x) * GIB < x + GIB
    ensures x <= -GIB ==> x <= RoundedGiB(x) * GIB && (RoundedGiB(x) * GIB < x + GIB <==> x % GIB == 1)
  {}

  lemma ScaledIsWhole(g: int)
    ensures (g * GIB) % GIB == 0 && (g * GIB) / GIB == g
  {}

  /** The final multiplication never overflows, and the result is always whole GiB. */
  lemma RoundUpBytesIsWhole(x: int64)
    ensures RoundUpBytes(x) == RoundUpGiB(x) * GIB
    ensures RoundUpBytes(x) == RoundedGiB(x) * GIB
    ensures RoundUpBytes(x) % GIB == 0
  {
    var g := RoundedGiB(x);
    assert RoundUpGiB(x) == g by { RoundUpGiBValue(x); }
    assert -TWO_63 <= g * GIB < TWO_63 by { RoundedGiBBounds(x); }
    ScaledIsWhole(g);
  }

  /** Rounding is exact on the whole range a caller can ask for, and exactly there. Outside it the
      addition has wrapped, or truncation towards zero has rounded a negative size one unit too far. */
  lemma RoundUpBytesExact(x: int64)
    ensures LeastMultiple(RoundUpBytes(x), x)
       <==> -GIB < x <= MAX_ROUNDABLE || (x <= -GIB && x % GIB == 1)
  {
    RoundUpBytesIsWhole(x);
    RoundedGiBBounds(x);
  }

  /** The addition wraps exactly above MAX_ROUNDABLE. */
  lemma RoundUpSizeWraps(x: int64)
    ensures x > MAX_ROUNDABLE <==> Sub(Add(x, GIB), 1) != x + GIB - 1
  {
    assert Add(x, GIB) == if x >= MAX_ROUNDABLE then x + GIB - TWO_64 else x + GIB;
  }

  /** A wrapped rounding is negative, and an unwrapped one never loses bytes. */
  lemma RoundUpBytesWraps(x: int64)
    ensures x > MAX_ROUNDABLE ==> RoundUpBytes(x) < 0
    ensures x <= MAX_ROUNDABLE ==> RoundUpBytes(x) >= x
  {
    assert RoundUpBytes(x) == RoundedGiB(x) * GIB by { RoundUpBytesIsWhole(x); }
    RoundedGiBBounds(x);
  }

  lemma LeastMultipleMonotone(m: int, x: int, n: int, y: int)
    requires LeastMultiple(m, x) && LeastMultiple(n, y) && x <= y <= MAX_ROUNDABLE
    ensures m <= n <= MAX_ROUNDABLE
  {
    LeastMultipleIsLeast(m, x, n);
    LeastMultipleIsLeast(n, y, MAX_ROUNDABLE);
  }

  lemma RoundUpBytesMonotone(x: int64, y: int64)
    requires 0 <= x <= y <= MAX_ROUNDABLE
    ensures RoundUpBytes(x) <= RoundUpBytes(y) <= MAX_ROUNDABLE
    ensures RoundUpBytes(RoundUpBytes(x)) == RoundUpBytes(x)
  {
    var rx, ry := RoundUpBytes(x), RoundUpBytes(y);
    assert LeastMultiple(rx, x) by { RoundUpBytesExact(x); }
    assert LeastMultiple(ry, y) by { RoundUpBytesExact(y); }
    LeastMultipleMonotone(rx, x, ry, y);
    var rrx := RoundUpBytes(rx);
    assert LeastMultiple(rrx, rx) by { RoundUpBytesExact(rx); }
    LeastMultipleIsLeast(rrx, rx, rx);
  }

  lemma CeilingAdjunction(x: int, g: int)
    requires 0 <= x <= MAX_ROUNDABLE
    ensures RoundedGiB(x) <= g <==> x <= g * GIB
  {}

  /** RoundUpGiB and GiBToBytes are adjoint wherever neither leaves int64. */
  lemma GaloisConnection(x: int64, g: int64)
    requires 0 <= x <= MAX_ROUNDABLE && 0 <= g <= (TWO_63 - 1) / GIB
    ensures RoundUpGiB(x) <= g <==> x <= GiBToBytes(g)
  {
    assert RoundUpGiB(x) == RoundedGiB(x) by { RoundUpGiBValue(x); }
    CeilingAdjunction(x, g);
    assert GiBToBytes(g) == g * GIB;
  }

  /** BytesToGiB rounds towards zero. */
  lemma BytesToGiBTruncates(x: int64)
    ensures x >= 0 ==> BytesToGiB(x) * GIB <= x < (BytesToGiB(x) + 1) * GIB
    ensures x <= 0 ==> (BytesToGiB(x) - 1) * GIB < x <= BytesToGiB(x) * GIB
  {
    assert 0 <= Abs(x) / GIB < TWO_63;
  }

  /** Converting to bytes and back loses nothing, and rounding in GiB or in bytes is the same. */
  lemma GiBConversions(x: int64, g: int64)
    requires 0 <= g <= (TWO_63 - 1) / GIB
    ensures BytesToGiB(GiBToBytes(g)) == g
    ensures GiBToBytes(RoundUpGiB(x)) == RoundUpBytes(x)
  {
    assert GiBToBytes(g) == g * GIB;
    ScaledIsWhole(g);
  }

  function GetVolSizeBytes(range: Option<CapacityRange>): Result<int64> {
    match range
    case None => Success(DEFAULT_VOLUME_SIZE)
    case Some(r) =>
      var size := RoundUpBytes(r.required);
      if r.limit > 0 && r.limit < size then Failure(InvalidArgument) else Success(size)
  }

  /** Whole-GiB sizes that satisfy a capacity range; a limit that is not positive is no limit. */
  ghost predicate Admits(r: CapacityRange, size: int) {
    size % GIB == 0 && r.required <= size && (r.limit <= 0 || size <= r.limit)
  }

  /** A request that can be rounded succeeds exactly when some whole-GiB size satisfies the range,
      and then yields the least such size. No range at all means 10 GiB. */
  lemma GetVolSizeBytesMeetsRange(r: CapacityRange)
    requires 0 <= r.required <= MAX_ROUNDABLE
    ensures GetVolSizeBytes(Some(r)).Success? <==> exists size :: Admits(r, size)
    ensures GetVolSizeBytes(Some(r)).Success? ==>
              var size := GetVolSizeBytes(Some(r)).value;
              Admits(r, size) && forall other :: Admits(r, other) ==> size <= other
    ensures GetVolSizeBytes(Some(r)).Failure? ==> GetVolSizeBytes(Some(r)).error == InvalidArgument
    ensures GetVolSizeBytes(None) == Success(10_737_418_240)
  {
    var size := RoundUpBytes(r.required);
    RoundUpBytesExact(r.required);
    forall other | Admits(r, other) ensures size <= other {
      LeastMultipleIsLeast(size, r.required, other);
    }
    if r.limit <= 0 || size <= r.limit {
      assert Admits(r, size);
    }
  }

  /** Above MAX_ROUNDABLE the handler succeeds, whatever the limit, with a negative size. So for every
      int64 request, negative ones included, a successful answer honours the range exactly when the
      required size can be rounded. */
  lemma GetVolSizeBytesHonoursRange(r: CapacityRange)
    ensures r.required > MAX_ROUNDABLE ==> GetVolSizeBytes(Some(r)).Success? && GetVolSizeBytes(Some(r)).value < 0
    ensures GetVolSizeBytes(Some(r)).Success? ==>
              (Admits(r, GetVolSizeBytes(Some(r)).value) <==> r.required <= MAX_ROUNDABLE)
  {
    RoundUpBytesWraps(r.required);
    RoundUpBytesIsWhole(r.required);
  }

  /** The size a volume is created with: 10 GiB if no range is given; otherwise, for a request that can be
      rounded, the least whole-GiB size that satisfies the range. */
  ghost predicate SizeAnswers(range: Option<CapacityRange>, size: int64) {
    match range
    case None => size == 10_737_418_240
    case Some(r) => 0 <= r.required <= MAX_ROUNDABLE ==> Admits(r, size) && size - GIB < r.required
  }

  lemma CreatedSize(range: Option<CapacityRange>)
    ensures GetVolSizeBytes(range).Success? ==> SizeAnswers(range, GetVolSizeBytes(range).value)
  {
    if range.Some? { RoundUpBytesExact(range.value.required); }
  }

  /** The counters of statfs that getDeviceStats reads, as their int64 conversions. */
  datatype Statfs = Statfs(blocks: int64, bfree: int64, bavail: int64, bsize: int64, files: int64, ffree: int64)

  datatype DeviceStats = DeviceStats(
    availableBytes: int64, totalBytes: int64, usedBytes: int64,
    availableInodes: int64, totalInodes: int64, usedInodes: int64)

  function GetDeviceStats(s: Statfs): DeviceStats {
    DeviceStats(
      Mul(s.bavail, s.bsize), Mul(s.blocks, s.bsize), Mul(Sub(s.blocks, s.bfree), s.bsize),
      s.ffree, s.files, Sub(s.files, s.ffree))
  }

  lemma ScaleMonotone(a: int, b: int, unit: int)
    requires a <= b && 0 <= unit
    ensures a * unit <= b * unit
  {
    assert (b - a) * unit >= 0;
    assert (b - a) * unit == b * unit - a * unit;
  }

  /** On a filesystem whose size fits int64 nothing wraps; bytes in use and free bytes make up the
      whole, and what an unprivileged user sees is everything exactly when no block is reserved. */
  lemma DeviceStatsConserveBytes(s: Statfs)
    requires 0 <= s.bavail <= s.bfree <= s.blocks && 0 < s.bsize && s.blocks * s.bsize < TWO_63
    ensures var d := GetDeviceStats(s);
            && d.availableBytes == s.bavail * s.bsize >= 0 && d.usedBytes == (s.blocks - s.bfree) * s.bsize >= 0
            && d.usedBytes + s.bfree * s.bsize == d.totalBytes == s.blocks * s.bsize
            && d.usedBytes + d.availableBytes <= d.totalBytes
            && (d.usedBytes + d.availableBytes == d.totalBytes <==> s.bavail == s.bfree)
  {
    ScaleMonotone(0, s.bavail, s.bsize);
    ScaleMonotone(s.bavail, s.bfree, s.bsize);
    ScaleMonotone(s.bfree, s.blocks, s.bsize);
    assert (s.blocks - s.bfree) * s.bsize == s.blocks * s.bsize - s.bfree * s.bsize;
    if s.bavail < s.bfree {
      ScaleMonotone(s.bavail + 1, s.bfree, s.bsize);
      assert (s.bavail + 1) * s.bsize == s.bavail * s.bsize + s.bsize;
    }
  }

  /** Each counter is what it says. Those of inodes are taken over; a count of used inodes that is not
      negative is their difference. Bytes are blocks times block size, modulo 2^64. */
  lemma DeviceStatsReport(s: Statfs)
    ensures var d := GetDeviceStats(s);
            && d.availableInodes == s.ffree && d.totalInodes == s.files
            && (0 <= s.ffree <= s.files ==> d.usedInodes == s.files - s.ffree >= 0)
            && (d.usedInodes - (s.files - s.ffree)) % TWO_64 == 0
            && (d.availableBytes - s.bavail * s.bsize) % TWO_64 == 0
            && (d.totalBytes - s.blocks * s.bsize) % TWO_64 == 0
  {
    assert (Wrap(s.bavail * s.bsize) - s.bavail * s.bsize) % TWO_64 == 0 by { NegatedMultiple(s.bavail * s.bsize); }
    assert (Wrap(s.blocks * s.bsize) - s.blocks * s.bsize) % TWO_64 == 0 by { NegatedMultiple(s.blocks * s.bsize); }
    NegatedMultiple(s.files - s.ffree);
  }

  lemma NegatedMultiple(x: int)
    ensures (Wrap(x) - x) % TWO_64 == 0
  {
    assert (x - Wrap(x)) % TWO_64 == 0;
  }

  /** Without any bound, used and free bytes, and used and free inodes, still make up the total modulo
      2^64. */
  lemma DeviceStatsConserveModulo(s: Statfs)
    ensures Add(GetDeviceStats(s).usedBytes, Mul(s.bfree, s.bsize)) == GetDeviceStats(s).totalBytes
    ensures Add(GetDeviceStats(s).usedInodes, GetDeviceStats(s).availableInodes) == GetDeviceStats(s).totalInodes
  {
    var used := s.blocks - s.bfree;
    var k := (Wrap(used) - used) / TWO_64;
    assert Wrap(used) == used + k * TWO_64 by {
      assert (used - Wrap(used)) % TWO_64 == 0;
    }
    var a, b, c := Wrap(used) * s.bsize, s.bfree * s.bsize, s.blocks * s.bsize;
    assert a + b == c + k * s.bsize * TWO_64 by {
      assert (used + k * TWO_64) * s.bsize == used * s.bsize + k * TWO_64 * s.bsize;
      assert used * s.bsize == s.blocks * s.bsize - s.bfree * s.bsize;
    }
    WrapsAdd(a, b, c, k * s.bsize);
    WrapsAdd(s.files - s.ffree, s.ffree, s.files, 0);
  }

  lemma WrapsAdd(a: int, b: int, c: int, k: int)
    requires a + b == c + k * TWO_64
    ensures Add(Wrap(a), Wrap(b)) == Wrap(c)
  {
    assert (a - Wrap(a)) % TWO_64 == 0 && (b - Wrap(b)) % TWO_64 == 0 && (c - Wrap(c)) % TWO_64 == 0;
    assert (Wrap(a) + Wrap(b) - Wrap(c)) % TWO_64 == 0;
    WrapUnique(Wrap(a) + Wrap(b), Wrap(c));
  }
}
