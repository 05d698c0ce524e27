/** The location encoder that places end devices near switches
    (`Muhamud.geoHash`).

    It follows the shape of Geohash (alternate longitude and latitude
    bisections, five bits per output symbol) but, as written, it differs in
    three ways that this module reproduces:
    - each 5-bit group appends the DECIMAL CODE of the alphabet character
      (the alphabet is an `int[]`), e.g. "48" for '0' and "122" for 'z';
    - the latitude branch takes the other bound from the LONGITUDE range;
    - the midpoint is `(int) ((lo + hi) / 2)`, truncated toward zero.
    Every caller passes integer coordinates and every bound stays integral,
    so the model works on `int` throughout. */
module GeoHash {

  /** The 32 symbols of the Geohash alphabet, in index order. */
  const Alphabet: string := "0123456789bcdefghjkmnpqrstuvwxyz"

  function Pow2(n: nat): (r: nat)
    ensures r >= 1
  {
    if n == 0 then 1 else 2 * Pow2(n - 1)
  }

  /** Bitwise OR of two non-negative integers, one binary digit at a time. */
  function BitOr(a: nat, b: nat): nat
  {
    if a == 0 then b
    else if b == 0 then a
    else 2 * BitOr(a / 2, b / 2) + (if a % 2 == 1 || b % 2 == 1 then 1 else 0)
  }

  /** OR-ing in bit m of a number whose bits 0..m are clear adds 2^m. */
  lemma {:induction false} BitOrSetsFreshBit(w: nat, m: nat)
    ensures BitOr(w * Pow2(m + 1), Pow2(m)) == w * Pow2(m + 1) + Pow2(m)
  {
    var a := w * Pow2(m + 1);
    assert a == 2 * (w * Pow2(m));
    if a != 0 {
      if m == 0 {
        assert a % 2 == 0;
        assert BitOr(a / 2, 0) == a / 2;
      } else {
        assert Pow2(m) == 2 * Pow2(m - 1);
        BitOrSetsFreshBit(w, m - 1);
        assert a / 2 == w * Pow2(m);
        assert Pow2(m) / 2 == Pow2(m - 1);
      }
    }
  }

  /** `(int) (x / 2.0)`: half of x, truncated toward zero (Dafny's `/`
      rounds toward minus infinity instead). */
  function TruncHalf(x: int): (r: int)
    ensures 0 <= x ==> 0 <= x - 2 * r <= 1
    ensures x < 0 ==> 0 <= 2 * r - x <= 1
  {
    if x >= 0 then x / 2 else -((-x) / 2)
  }

  /** The two intervals the encoder narrows: `lat_range` and `lon_range`. */
  datatype Ranges = Ranges(latLo: int, latHi: int, lonLo: int, lonHi: int)

  const InitialRanges: Ranges := Ranges(-90, 90, -180, 180)

  /** One bisection for bit number t: an even t bisects the longitude range,
      an odd t the latitude range, whose updates borrow the longitude bounds.
      Yields the bit and the narrowed ranges. */
  function Bisect(r: Ranges, t: nat, lat: int, lon: int): (bool, Ranges)
  {
    if t % 2 == 0 then
      var mid := TruncHalf(r.lonLo + r.lonHi);
      if lon > mid then (true, r.(lonLo := mid)) else (false, r.(lonHi := mid))
    else
      var mid := TruncHalf(r.latLo + r.latHi);
      if lat > mid then (true, r.(latLo := mid, latHi := r.lonHi))
      else (false, r.(latLo := r.lonLo, latHi := mid))
  }

  /** The ranges after the first n bits have been produced. */
  function RangesAfter(lat: int, lon: int, n: nat): Ranges
  {
    if n == 0 then InitialRanges else Bisect(RangesAfter(lat, lon, n - 1), n - 1, lat, lon).1
  }

  /** Bit number t of the encoding. */
  function BitAt(lat: int, lon: int, t: nat): bool
  {
    Bisect(RangesAfter(lat, lon, t), t, lat, lon).0
  }

  /** The first k bits of group g read as a binary number, first bit most
      significant. */
  function GroupWord(lat: int, lon: int, g: nat, k: nat): (w: nat)
    ensures w < Pow2(k)
  {
    if k == 0 then 0
    else 2 * GroupWord(lat, lon, g, k - 1) + (if BitAt(lat, lon, 5 * g + k - 1) then 1 else 0)
  }

  /** A partial group, shifted to its final position, stays below 32. */
  lemma GroupBitsBound(w: nat, k: nat)
    requires k <= 5 && w < Pow2(k)
    ensures w * Pow2(5 - k) < 32
  {
    assert Pow2(1) == 2 && Pow2(2) == 4 && Pow2(3) == 8 && Pow2(4) == 16 && Pow2(5) == 32;
  }

  /** Taking bit `b` into a partial group of k bits, as the loop does with
      `bits |= 1 << (4 - k)`, yields the partial group of k + 1 bits. */
  lemma AccumulateBit(w: nat, k: nat, b: bool)
    requires k < 5
    ensures (if b then BitOr(w * Pow2(5 - k), Pow2(4 - k)) else w * Pow2(5 - k))
            == (2 * w + (if b then 1 else 0)) * Pow2(5 - (k + 1))
  {
    var p := Pow2(4 - k);
    assert Pow2(5 - k) == 2 * p;
    assert w * (2 * p) == (2 * w) * p;
    if b {
      BitOrSetsFreshBit(w, 4 - k);
      assert (2 * w) * p + p == (2 * w + 1) * p;
    }
  }

  /** The encoder's `bits` variable after k bits of group g: the partial
      group shifted into the top of a 5-bit number. */
  function PartialBits(lat: int, lon: int, g: nat, k: nat): nat
    requires k <= 5
  {
    GroupWord(lat, lon, g, k) * Pow2(5 - k)
  }

  /** One iteration's effect on `bits`: the next bit of the group is OR-ed
      in at position 4 - k, and the value stays below 32; a finished group
      is its alphabet index, and a fresh group starts from 0. */
  lemma PartialBitsStep(lat: int, lon: int, g: nat, k: nat)
    requires k < 5
    ensures PartialBits(lat, lon, g, k + 1)
            == if BitAt(lat, lon, 5 * g + k) then BitOr(PartialBits(lat, lon, g, k), Pow2(4 - k))
               else PartialBits(lat, lon, g, k)
    ensures PartialBits(lat, lon, g, k + 1) < 32
    ensures k == 4 ==> PartialBits(lat, lon, g, k + 1) == GroupCode(lat, lon, g)
    ensures PartialBits(lat, lon, g + 1, 0) == 0
  {
    var w := GroupWord(lat, lon, g, k);
    AccumulateBit(w, k, BitAt(lat, lon, 5 * g + k));
    assert GroupWord(lat, lon, g, k + 1) == 2 * w + (if BitAt(lat, lon, 5 * g + k) then 1 else 0);
    GroupBitsBound(GroupWord(lat, lon, g, k + 1), k + 1);
  }

  /** The alphabet index chosen by group g. */
  function GroupCode(lat: int, lon: int, g: nat): (c: nat)
    ensures c < |Alphabet|
  {
    assert Pow2(5) == 32;
    GroupWord(lat, lon, g, 5)
  }

  predicate IsDigit(c: char) { '0' <= c <= '9' }

  predicate AllDigits(s: string) { forall i :: 0 <= i < |s| ==> IsDigit(s[i]) }

  /** `Integer.toString` of a non-negative number. */
  function DecimalText(n: nat): (s: string)
    ensures |s| >= 1 && AllDigits(s)
  {
    if n < 10 then ['0' + n as char] else DecimalText(n / 10) + ['0' + (n % 10) as char]
  }

  /** The number a string of decimal digits denotes. */
  function DigitsValue(s: string): nat
    requires AllDigits(s)
  {
    if s == [] then 0 else 10 * DigitsValue(s[..|s| - 1]) + (s[|s| - 1] - '0') as nat
  }

  /** Reading the decimal text back gives the number. */
  lemma {:induction false} DecimalTextRoundTrip(n: nat)
    ensures DigitsValue(DecimalText(n)) == n
  {
    var s := DecimalText(n);
    if n >= 10 {
      DecimalTextRoundTrip(n / 10);
      assert s[..|s| - 1] == DecimalText(n / 10);
    }
  }

  /** A two- or three-digit number is written with two or three digits. */
  lemma DecimalTextLength(n: nat)
    requires 10 <= n < 1000
    ensures 2 <= |DecimalText(n)| <= 3
  {
    assert |DecimalText(n)| == |DecimalText(n / 10)| + 1;
    if n / 10 >= 10 {
      assert |DecimalText(n / 10)| == |DecimalText(n / 100)| + 1;
    }
  }

  /** The code of alphabet symbol i, by runs of consecutive letters: the
      alphabet skips 'a', 'i', 'l' and 'o'. */
  function SymbolCode(i: nat): (c: int)
    requires i < 32
    ensures 48 <= c <= 122
  {
    if i < 10 then 48 + i       // '0' .. '9'
    else if i < 17 then 88 + i  // 'b' .. 'h'
    else if i < 19 then 89 + i  // 'j', 'k'
    else if i < 21 then 90 + i  // 'm', 'n'
    else 91 + i                 // 'p' .. 'z'
  }

  /** SymbolCode agrees with the alphabet the encoder indexes. */
  lemma SymbolCodeIsAlphabet(i: nat)
    requires i < |Alphabet|
    ensures SymbolCode(i) == Alphabet[i] as int
  {
  }

  /** The text appended for group g: the decimal code of its symbol. */
  function Chunk(lat: int, lon: int, g: nat): (s: string)
    ensures 2 <= |s| <= 3
  {
    var code := SymbolCode(GroupCode(lat, lon, g));
    DecimalTextLength(code);
    DecimalText(code)
  }

  /** The text of the first g groups. */
  function Encoded(lat: int, lon: int, g: nat): (s: string)
    ensures 2 * g <= |s|
  {
    if g == 0 then "" else Encoded(lat, lon, g - 1) + Chunk(lat, lon, g - 1)
  }

  /** The text of any number of groups is made of decimal digits only. */
  lemma {:induction false} EncodedDigits(lat: int, lon: int, g: nat)
    ensures AllDigits(Encoded(lat, lon, g))
  {
    if g > 0 {
      EncodedDigits(lat, lon, g - 1);
      AllDigitsConcat(Encoded(lat, lon, g - 1), Chunk(lat, lon, g - 1));
    }
  }

  lemma AllDigitsConcat(a: string, c: string)
    requires AllDigits(a) && AllDigits(c)
    ensures AllDigits(a + c)
  {
    assert forall i :: 0 <= i < |a + c| ==> (a + c)[i] == if i < |a| then a[i] else c[i - |a|];
  }

  /** Emits whole groups, starting from group g, until the text reaches the
      requested precision. */
  function EncodeFrom(lat: int, lon: int, precision: int, g: nat): string
    decreases if precision > g then precision - g else 0
  {
    if |Encoded(lat, lon, g)| >= precision then Encoded(lat, lon, g)
    else EncodeFrom(lat, lon, precision, g + 1)
  }

  /** What `geoHash(latitude, longitude, precision)` returns. */
  function GeoHashSpec(lat: int, lon: int, precision: int): string
  {
    EncodeFrom(lat, lon, precision, 0)
  }

  /** Emitting from group g stops at the first group count whose text
      reaches the precision: never shorter than the precision, and at most
      two symbols past it, since a group adds at most three. */
  lemma {:induction false} EncodeFromShape(lat: int, lon: int, precision: int, g: nat)
    ensures |EncodeFrom(lat, lon, precision, g)| >= precision
    ensures |Encoded(lat, lon, g)| < precision ==> |EncodeFrom(lat, lon, precision, g)| <= precision + 2
    ensures |Encoded(lat, lon, g)| >= precision ==> EncodeFrom(lat, lon, precision, g) == Encoded(lat, lon, g)
    ensures AllDigits(EncodeFrom(lat, lon, precision, g))
    decreases if precision > g then precision - g else 0
  {
    if |Encoded(lat, lon, g)| < precision {
      EncodeFromShape(lat, lon, precision, g + 1);
    } else {
      EncodedDigits(lat, lon, g);
    }
  }

  /** The length bounds and the digits-only alphabet of the encoder's output. */
  lemma GeoHashShape(lat: int, lon: int, precision: int)
    ensures |GeoHashSpec(lat, lon, precision)| >= precision
    ensures precision >= 1 ==> |GeoHashSpec(lat, lon, precision)| <= precision + 2
    ensures precision <= 0 ==> GeoHashSpec(lat, lon, precision) == ""
    ensures AllDigits(GeoHashSpec(lat, lon, precision))
  {
    EncodeFromShape(lat, lon, precision, 0);
  }

  /** The text of fewer groups is a prefix of the text of more groups. */
  lemma {:induction false} EncodedPrefix(lat: int, lon: int, a: nat, b: nat)
    requires a <= b
    ensures Encoded(lat, lon, a) <= Encoded(lat, lon, b)
    decreases b - a
  {
    if a < b {
      EncodedPrefix(lat, lon, a + 1, b);
      PrefixTransitive(Encoded(lat, lon, a), Encoded(lat, lon, a + 1), Encoded(lat, lon, b));
    }
  }

  lemma PrefixTransitive(x: string, y: string, z: string)
    requires x <= y && y <= z
    ensures x <= z
  {
  }

  /** Whatever EncodeFrom emits extends the text it started from. */
  lemma {:induction false} EncodeFromExtends(lat: int, lon: int, precision: int, g: nat)
    ensures Encoded(lat, lon, g) <= EncodeFrom(lat, lon, precision, g)
    decreases if precision > g then precision - g else 0
  {
    if |Encoded(lat, lon, g)| < precision {
      EncodeFromExtends(lat, lon, precision, g + 1);
      EncodedPrefix(lat, lon, g, g + 1);
    }
  }

  /** Emitting from the same group, a lower precision yields a prefix of
      what a higher precision yields. */
  lemma {:induction false} EncodeFromPrefix(lat: int, lon: int, p: int, q: int, g: nat)
    requires p <= q
    ensures EncodeFrom(lat, lon, p, g) <= EncodeFrom(lat, lon, q, g)
    decreases if q > g then q - g else 0
  {
    if |Encoded(lat, lon, g)| < p {
      EncodeFromPrefix(lat, lon, p, q, g + 1);
    } else if |Encoded(lat, lon, g)| < q {
      EncodeFromExtends(lat, lon, q, g);
    }
  }

  /** Raising the precision only extends the hash: the hash at a lower
      precision is a prefix of the hash at a higher one. */
  lemma GeoHashPrefix(lat: int, lon: int, p: int, q: int)
    requires p <= q
    ensures GeoHashSpec(lat, lon, p) <= GeoHashSpec(lat, lon, q)
  {
    EncodeFromPrefix(lat, lon, p, q, 0);
  }

  /** The longitude interval behaves as in Geohash: it stays ordered and
      inside [-180, 180] whatever the coordinates. */
  lemma {:induction false} LongitudeRangeOrdered(lat: int, lon: int, n: nat)
    ensures -180 <= RangesAfter(lat, lon, n).lonLo <= RangesAfter(lat, lon, n).lonHi <= 180
  {
    if n > 0 {
      LongitudeRangeOrdered(lat, lon, n - 1);
      LongitudeStepOrdered(lat, lon, n - 1);
    }
  }

  /** One bisection keeps an ordered longitude range inside [-180, 180]. */
  lemma LongitudeStepOrdered(lat: int, lon: int, t: nat)
    requires -180 <= RangesAfter(lat, lon, t).lonLo <= RangesAfter(lat, lon, t).lonHi <= 180
    ensures -180 <= RangesAfter(lat, lon, t + 1).lonLo <= RangesAfter(lat, lon, t + 1).lonHi <= 180
  {
    var r := RangesAfter(lat, lon, t);
    assert RangesAfter(lat, lon, t + 1) == Bisect(r, t, lat, lon).1;
  }

  /** Even-numbered bits compare the longitude, odd-numbered bits the
      latitude, each against the truncated midpoint of its range; a step
      leaves the other coordinate's range alone, except that a latitude step
      copies a longitude bound into the latitude range. */
  lemma BisectionAlternates(lat: int, lon: int, t: nat)
    ensures var r := RangesAfter(lat, lon, t);
            var r' := RangesAfter(lat, lon, t + 1);
            if t % 2 == 0 then
              var mid := TruncHalf(r.lonLo + r.lonHi);
              && BitAt(lat, lon, t) == (lon > mid)
              && r'.latLo == r.latLo && r'.latHi == r.latHi
              && r' == (if lon > mid then r.(lonLo := mid) else r.(lonHi := mid))
            else
              var mid := TruncHalf(r.latLo + r.latHi);
              && BitAt(lat, lon, t) == (lat > mid)
              && r'.lonLo == r.lonLo && r'.lonHi == r.lonHi
              && r' == (if lat > mid then r.(latLo := mid, latHi := r.lonHi) else r.(latLo := r.lonLo, latHi := mid))
  {
  }

  /** Because of the borrowed longitude bound, the latitude interval can end
      up inverted: for latitude 45 and longitude -100 it is [0, -90] after
      four bits. */
  lemma LatitudeRangeCanInvert()
    ensures RangesAfter(45, -100, 4) == Ranges(0, -90, -180, -90)
  {
    assert RangesAfter(45, -100, 1) == Ranges(-90, 90, -180, 0);
    assert RangesAfter(45, -100, 2) == Ranges(0, 0, -180, 0);
    assert RangesAfter(45, -100, 3) == Ranges(0, 0, -180, -90);
  }

  /** Bit 5g + k is bit k of group g, and the next bit closes the group
      exactly when k == 4. */
  lemma GroupPosition(t: nat, g: nat, k: nat)
    requires t == 5 * g + k && k < 5
    ensures t % 5 == k
    ensures (t + 1) % 5 == if k == 4 then 0 else k + 1
  {
  }

  /** Everything one loop iteration needs about bit t = 5g + k: the ranges
      after it, the value `bits` takes, and whether it closes the group. */
  lemma BitStep(lat: int, lon: int, t: nat, g: nat, k: nat, bits: nat, r: Ranges)
    requires t == 5 * g + k && k < 5
    requires bits == PartialBits(lat, lon, g, k) && r == RangesAfter(lat, lon, t)
    ensures var step := Bisect(r, t, lat, lon);
            var next := if step.0 then BitOr(bits, Pow2(4 - t % 5)) else bits;
            && RangesAfter(lat, lon, t + 1) == step.1
            && next == PartialBits(lat, lon, g, k + 1) && next < 32
            && ((t + 1) % 5 == 0 <==> k == 4)
            && (k == 4 ==> next == GroupCode(lat, lon, g))
    ensures PartialBits(lat, lon, g + 1, 0) == 0
  {
    GroupPosition(t, g, k);
    PartialBitsStep(lat, lon, g, k);
    assert Bisect(r, t, lat, lon).0 == BitAt(lat, lon, 5 * g + k);
  }

  /** `geohash += _base32[bits]`: the alphabet array holds `int`s, so the
      symbol's decimal code is appended. */
  method AppendSymbol(geohash: string, bits: nat) returns (r: string)
    requires bits < 32
    ensures r == geohash + DecimalText(SymbolCode(bits))
  {
    SymbolCodeIsAlphabet(bits);
    r := geohash + DecimalText(Alphabet[bits] as int);
  }

  /** The first half of the loop body: bisect the range of the coordinate
      whose turn it is (longitude on even `bitsTotal`, latitude on odd) and
      OR the bit into `bits` when the coordinate lies above the midpoint. */
  method BisectStep(latitude: int, longitude: int, bitsTotal: nat, bits: nat,
                    latRange: array<int>, lonRange: array<int>) returns (bits': nat)
    requires latRange.Length == 2 && lonRange.Length == 2 && latRange != lonRange
    modifies latRange, lonRange
    ensures var step := Bisect(old(Ranges(latRange[0], latRange[1], lonRange[0], lonRange[1])),
                               bitsTotal, latitude, longitude);
            && Ranges(latRange[0], latRange[1], lonRange[0], lonRange[1]) == step.1
            && bits' == if step.0 then BitOr(bits, Pow2(4 - bitsTotal % 5)) else bits
  {
    var mid: int;
    bits' := bits;
    if bitsTotal % 2 == 0 {
      mid := TruncHalf(lonRange[0] + lonRange[1]);
      if longitude > mid {
        bits' := BitOr(bits', Pow2(4 - bitsTotal % 5));
        lonRange[0] := mid;
        lonRange[1] := lonRange[1];
      } else {
        lonRange[0] := lonRange[0];
        lonRange[1] := mid;
      }
    } else {
      mid := TruncHalf(latRange[0] + latRange[1]);
      if latitude > mid {
        bits' := BitOr(bits', Pow2(4 - bitsTotal % 5));
        latRange[0] := mid;
        latRange[1] := lonRange[1];
      } else {
        latRange[0] := lonRange[0];
        latRange[1] := mid;
      }
    }
  }

  /** The encoder's loop: one bit per iteration, one group of text every
      five iterations. */
  method GeoHash(latitude: int, longitude: int, precision: int) returns (geohash: string)
    ensures geohash == GeoHashSpec(latitude, longitude, precision)
  {
    var latRange := new int[2];
    latRange[0], latRange[1] := -90, 90;
    var lonRange := new int[2];
    lonRange[0], lonRange[1] := -180, 180;
    geohash := Encode(latitude, longitude, precision, latRange, lonRange);
  }

  /** The `while (geohash.length() < precision)` loop of the encoder, on the
      two range arrays it bisects in place. */
  method Encode(latitude: int, longitude: int, precision: int, latRange: array<int>, lonRange: array<int>)
    returns (geohash: string)
    requires latRange.Length == 2 && lonRange.Length == 2 && latRange != lonRange
    requires Ranges(latRange[0], latRange[1], lonRange[0], lonRange[1]) == InitialRanges
    modifies latRange, lonRange
    ensures geohash == GeoHashSpec(latitude, longitude, precision)
  {
    geohash := "";
    var bits: nat := 0;
    var bitsTotal: nat := 0;
    ghost var g: nat, k: nat := 0, 0;  // the group being built and its bits so far
    while |geohash| < precision
      invariant bitsTotal == 5 * g + k
      invariant k < 5
      invariant bits == PartialBits(latitude, longitude, g, k) && bits < 32
      invariant RangesAfter(latitude, longitude, bitsTotal)
        == Ranges(latRange[0], latRange[1], lonRange[0], lonRange[1])
      invariant geohash == Encoded(latitude, longitude, g)
      invariant EncodeFrom(latitude, longitude, precision, g) == GeoHashSpec(latitude, longitude, precision)
      decreases precision - |geohash|, 4 - k
    {
      BitStep(latitude, longitude, bitsTotal, g, k, bits,
              Ranges(latRange[0], latRange[1], lonRange[0], lonRange[1]));
      bits := BisectStep(latitude, longitude, bitsTotal, bits, latRange, lonRange);
      bitsTotal := bitsTotal + 1;
      if bitsTotal % 5 == 0 {
        geohash := AppendSymbol(geohash, bits);
        bits := 0;
        g, k := g + 1, 0;
      } else {
        k := k + 1;
      }
    }
  }
}
