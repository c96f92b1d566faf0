/** Table-driven printing of unsigned integers, against plain decimal notation. */
module FastPrint {

  type U64 = n: int | 0 <= n < 0x1_0000_0000_0000_0000

  function Digit(d: nat): char
    requires d < 10
  {
    "0123456789"[d]
  }

  /** Plain decimal notation. */
  function Decimal(v: nat): (s: string)
    ensures |s| >= 1
  {
    if v < 10 then [Digit(v)] else Decimal(v / 10) + [Digit(v % 10)]
  }

  function Zeros(n: nat): (s: string)
    ensures |s| == n && forall i :: 0 <= i < n ==> s[i] == '0'
  {
    seq(n, _ => '0')
  }

  /** Decimal notation with zeros in front up to a width. */
  function Padded(v: nat, width: nat): string {
    var s := Decimal(v);
    if width <= |s| then s else Zeros(width - |s|) + s
  }

  /** gLeadingZeroIntegerStrings */
  function TwoDigits(v: nat): (s: string)
    requires v < 100
    ensures |s| == 2
  {
    [Digit(v / 10), Digit(v % 10)]
  }

  lemma LastTwo(v: nat)
    requires v >= 100
    ensures Decimal(v) == Decimal(v / 100) + TwoDigits(v % 100)
  {
    assert Decimal(v) == Decimal(v / 10) + [Digit(v % 10)];
    assert v / 10 >= 10 && v / 10 / 10 == v / 100 && v / 10 % 10 == v % 100 / 10 && v % 100 % 10 == v % 10;
    assert Decimal(v / 10) == Decimal(v / 100) + [Digit(v / 10 % 10)];
    assert Decimal(v / 100) + [Digit(v / 10 % 10)] + [Digit(v % 10)] == Decimal(v / 100) + TwoDigits(v % 100);
  }

  /** Numbers of two digits. */
  lemma Two(v: nat)
    requires 10 <= v < 100
    ensures Decimal(v) == TwoDigits(v)
  {
    assert Decimal(v / 10) == [Digit(v / 10)];
  }

  lemma Zero()
    ensures Decimal(0) == "0"
  {
  }

  lemma One(v: nat)
    requires v < 10
    ensures Decimal(v) == [Digit(v)]
  {
  }

  lemma Three(v: nat)
    requires 100 <= v < 1000
    ensures Decimal(v) == [Digit(v / 100)] + TwoDigits(v % 100)
  {
    LastTwo(v);
  }

  lemma Four(v: nat)
    requires 1000 <= v < 10000
    ensures Decimal(v) == TwoDigits(v / 100) + TwoDigits(v % 100)
  {
    LastTwo(v);
    Two(v / 100);
  }

  /** The code splits off `leading` and prints the rest as two pairs. */
  lemma FiveOrSix(v: nat, leading: nat, residual: nat)
    requires 10000 <= v < 1000000 && leading == v / 10000 && residual == v - leading * 10000
    ensures residual < 10000
    ensures Decimal(v) == Decimal(leading) + TwoDigits(residual / 100) + TwoDigits(residual % 100)
  {
    LastTwo(v);
    LastTwo(v / 100);
    assert v / 100 / 100 == leading && v / 100 % 100 == residual / 100 && v % 100 == residual % 100;
  }

  lemma {:induction false} Length(v: nat, size: nat)
    requires size >= 1 && v < Pow10(size) && (size == 1 || v >= Pow10(size - 1))
    ensures |Decimal(v)| == size
    decreases size
  {
    if size > 1 {
      assert Pow10(size) == 10 * Pow10(size - 1);
      if size > 2 {
        assert Pow10(size - 1) == 10 * Pow10(size - 2);
      }
      Length(v / 10, size - 1);
    }
  }

  function Pow10(n: nat): (r: nat)
    ensures r >= 1
  {
    if n == 0 then 1 else 10 * Pow10(n - 1)
  }

  lemma {:induction false} LengthAtLeast(v: nat, size: nat)
    requires size >= 1 && v >= Pow10(size - 1)
    ensures |Decimal(v)| >= size
    decreases size
  {
    if size > 1 {
      assert Pow10(size - 1) == 10 * Pow10(size - 2);
      LengthAtLeast(v / 10, size - 1);
    }
  }

  lemma PowersOfTen()
    ensures Pow10(0) == 1 && Pow10(1) == 10 && Pow10(2) == 100 && Pow10(3) == 1000 && Pow10(4) == 10000
    ensures Pow10(5) == 100000 && Pow10(6) == 1000000 && Pow10(7) == 10000000 && Pow10(8) == 100000000
  {
    assert Pow10(2) == 10 * Pow10(1);
    assert Pow10(4) == 10 * Pow10(3) == 100 * Pow10(2);
    assert Pow10(6) == 10 * Pow10(5) == 100 * Pow10(4);
    assert Pow10(8) == 10 * Pow10(7) == 100 * Pow10(6);
  }

  /** How many digits the code reckons with, by the branch it takes: 0 from 10^8 on. */
  function Reckoned(v: nat): nat {
    if v < 10 then 1 else if v < 100 then 2 else if v < 1000 then 3 else if v < 10000 then 4
    else if v < 100000 then 5 else if v < 1000000 then 6 else if v < 10000000 then 7
    else if v < 100000000 then 8 else 0
  }

  lemma ReckonedIsLength(v: nat)
    ensures v < 100000000 ==> Reckoned(v) == |Decimal(v)|
    ensures v >= 100000000 ==> |Decimal(v)| >= 9
  {
    PowersOfTen();
    if v < 100000000 {
      Length(v, Reckoned(v));
    } else {
      LengthAtLeast(v, 9);
    }
  }

  /** The zeros in front, by the size the code reckons with. */
  function LeadingZeros(v: nat, minWidth: nat): nat {
    if minWidth > Reckoned(v) then minWidth - Reckoned(v) else 0
  }

  /** The text the code means to write. */
  function Text(v: nat, minWidth: nat): string {
    Zeros(LeadingZeros(v, minWidth)) + Decimal(v)
  }

  lemma TextIs(v: nat, minWidth: nat, s: string, size: nat)
    requires s == Decimal(v) && |s| == size && v < 100000000
    ensures Text(v, minWidth) == Zeros(if minWidth > size then minWidth - size else 0) + s
  {
    ReckonedIsLength(v);
    hide Decimal;
  }

  /** It is the padded decimal exactly for values below 10^8 or no width to fill. */
  lemma {:induction false} TextIsPaddedExactlyWhen(v: nat, minWidth: nat)
    ensures Text(v, minWidth) == Padded(v, minWidth) <==> v < 100000000 || minWidth == 0
  {
    ReckonedIsLength(v);
    assert Zeros(0) + Decimal(v) == Decimal(v);
    if v >= 100000000 && minWidth > 0 {
      assert |Text(v, minWidth)| == minWidth + |Decimal(v)|;
    }
  }

  /** How many characters are written, the terminator included: the digits, but not the zeros in
    * front, are cut at the limit. */
  function Reach(v: nat, minWidth: nat, maxLen: nat): (n: nat)
    ensures minWidth < maxLen && maxLen > 1 ==> 0 < n <= |Text(v, minWidth)| + 1
  {
    if maxLen == 0 || minWidth >= maxLen then 0
    else if maxLen == 1 then 1
    else LeadingZeros(v, minWidth) + if |Decimal(v)| < maxLen then |Decimal(v)| + 1 else maxLen
  }

  /** The code stays within its limit exactly for values below 10^8, for calls it refuses, without a
    * width, and when width and digits fit together. */
  lemma {:induction false} StaysInsideExactlyWhen(v: nat, minWidth: nat, maxLen: nat)
    ensures Reach(v, minWidth, maxLen) <= maxLen <==>
      v < 100000000 || minWidth == 0 || minWidth >= maxLen || minWidth + |Decimal(v)| < maxLen
  {
    ReckonedIsLength(v);
  }

  /** A buffer into whose front the first `reach` - 1 characters of a text and a terminator have
    * been written. */
  function Overwritten(before: seq<char>, text: string, reach: nat): seq<char>
    requires 0 < reach <= |text| + 1 && reach <= |before|
  {
    text[..reach - 1] + "\0" + before[reach..]
  }

  // ---------- the code ----------

  /** Writes a string at a position, as wmMemCpy does. */
  method Copy(result: array<char>, pos: nat, s: string)
    requires pos + |s| <= result.Length
    modifies result
    ensures result[..] == old(result[..])[..pos] + s + old(result[..])[pos + |s|..]
  {
    var i := 0;
    while i < |s|
      invariant 0 <= i <= |s|
      invariant result[..] == old(result[..pos]) + s[..i] + old(result[pos + i..])
    {
      result[pos + i] := s[i];
      i := i + 1;
    }
    assert s[..i] == s;
  }

  /** Writes zeros while the width exceeds `size`. */
  method Pad(result: array<char>, minWidth: nat, size: nat) returns (extra: nat)
    requires minWidth <= result.Length + size
    modifies result
    ensures extra == if minWidth > size then minWidth - size else 0
    ensures result[..] == Zeros(extra) + old(result[..])[extra..]
  {
    extra := 0;
    var w := minWidth;
    while w > size
      invariant w + extra == minWidth && (w >= size || extra == 0)
      invariant extra <= result.Length && result[..] == Zeros(extra) + old(result[extra..])
    {
      result[extra] := '0';
      extra := extra + 1;
      w := w - 1;
    }
  }

  /** Zeros and a string that fits behind them, with its terminator. */
  method Put(result: array<char>, minWidth: nat, size: nat, s: string) returns (r: nat)
    requires |s| == size < result.Length && minWidth < result.Length
    modifies result
    ensures var text := Zeros(if minWidth > size then minWidth - size else 0) + s;
      r == |text| < result.Length && result[..] == Overwritten(old(result[..]), text, r + 1)
  {
    var extra := Pad(result, minWidth, size);
    Copy(result, extra, s + "\0");
    r := extra + size;
    ghost var text := Zeros(extra) + s;
    assert text[..r] == text;
  }

  /** snprintf of a value with a limit, at a position. */
  method Snprintf(result: array<char>, pos: nat, maxLen: nat, value: U64) returns (n: nat)
    requires maxLen > 0 && pos + Cut(|Decimal(value)|, maxLen) < result.Length
    modifies result
    ensures n == |Decimal(value)|
    ensures var k := Cut(n, maxLen);
      result[..] == old(result[..])[..pos] + Decimal(value)[..k] + "\0" + old(result[..])[pos + k + 1..]
  {
    var s := Decimal(value);
    n := |s|;
    var k := Cut(n, maxLen);
    Copy(result, pos, s[..k] + "\0");
  }

  /** Values below 10^4 whose digits fit. */
  method PrintUpToFour(result: array<char>, maxLen: nat, value: U64, minWidth: nat) returns (r: nat)
    requires minWidth < maxLen <= result.Length && value < 10000 && |Decimal(value)| < maxLen
    modifies result
    ensures var text := Text(value, minWidth);
      r == |text| < result.Length && result[..] == Overwritten(old(result[..]), text, r + 1)
  {
    hide *;
    if value == 0 {
      Zero();
      TextIs(value, minWidth, "0", 1);
      r := Put(result, minWidth, 1, "0");
    } else if value < 10 {
      One(value);
      TextIs(value, minWidth, [Digit(value)], 1);
      r := Put(result, minWidth, 1, [Digit(value)]);
    } else if value < 100 {
      Two(value);
      TextIs(value, minWidth, TwoDigits(value), 2);
      r := Put(result, minWidth, 2, TwoDigits(value));
    } else if value < 1000 {
      Three(value);
      TextIs(value, minWidth, [Digit(value / 100)] + TwoDigits(value % 100), 3);
      r := Put(result, minWidth, 3, [Digit(value / 100)] + TwoDigits(value % 100));
    } else {
      Four(value);
      TextIs(value, minWidth, TwoDigits(value / 100) + TwoDigits(value % 100), 4);
      r := Put(result, minWidth, 4, TwoDigits(value / 100) + TwoDigits(value % 100));
    }
  }

  /** Values of five or six digits that fit. */
  method PrintFiveOrSix(result: array<char>, maxLen: nat, value: U64, minWidth: nat) returns (r: nat)
    requires minWidth < maxLen <= result.Length && 10000 <= value < 1000000 && |Decimal(value)| < maxLen
    modifies result
    ensures var text := Text(value, minWidth);
      r == |text| < result.Length && result[..] == Overwritten(old(result[..]), text, r + 1)
  {
    var leading := value / 10000;
    var residual := value - leading * 10000;
    FiveOrSix(value, leading, residual);
    ReckonedIsLength(value);
    if value < 100000 {
      r := Put(result, minWidth, 5, [Digit(leading)] + TwoDigits(residual / 100) + TwoDigits(residual % 100));
    } else {
      Two(leading);
      r := Put(result, minWidth, 6, TwoDigits(leading) + TwoDigits(residual / 100) + TwoDigits(residual % 100));
    }
  }

  /** How many digits snprintf writes. */
  function Cut(n: nat, maxLen: nat): (k: nat)
    requires maxLen > 0
    ensures k <= n && k < maxLen
  {
    if n < maxLen then n else maxLen - 1
  }

  lemma LargeText(v: nat, minWidth: nat, maxLen: nat, size: nat)
    requires minWidth < maxLen && maxLen > 1 && (v >= 1000000 || |Decimal(v)| >= maxLen)
    requires size == if v < 10000000 then 7 else if v < 100000000 then 8 else 0
    ensures maxLen > size || minWidth <= size
    ensures var lead := if maxLen > size && minWidth > size then minWidth - size else 0;
      && Text(v, minWidth) == Zeros(lead) + Decimal(v)
      && Reach(v, minWidth, maxLen) == lead + Cut(|Decimal(v)|, maxLen) + 1
  {
    ReckonedIsLength(v);
    hide Decimal;
  }

  lemma Pieces(before: seq<char>, padded: seq<char>, after: seq<char>, lead: nat, text: string, n: nat, k: nat,
               s: string)
    requires lead + k < |before| && text == Zeros(lead) + s && n == |s| && k <= n
    requires padded == Zeros(lead) + before[lead..]
    requires after == padded[..lead] + s[..k] + "\0" + padded[lead + k + 1..]
    ensures |text| == lead + n && after == Overwritten(before, text, lead + k + 1)
  {
    assert text[..lead + k] == Zeros(lead) + s[..k];
    assert padded[lead + k + 1..] == before[lead + k + 1..];
  }

  /** The rest: values from 10^6 on, and values whose digits do not fit. */
  method PrintLarge(result: array<char>, maxLen: nat, value: U64, minWidth: nat) returns (r: nat)
    requires minWidth < maxLen <= result.Length && maxLen > 1 && (value >= 1000000 || |Decimal(value)| >= maxLen)
    requires Reach(value, minWidth, maxLen) <= result.Length
    modifies result
    ensures r == |Text(value, minWidth)|
    ensures result[..] == Overwritten(old(result[..]), Text(value, minWidth), Reach(value, minWidth, maxLen))
  {
    hide *;
    var size := 0;
    if value < 10000000 {
      size := 7;
    } else if value < 100000000 {
      size := 8;
    }
    LargeText(value, minWidth, maxLen, size);
    if maxLen > size {
      var extra := Pad(result, minWidth, size);
      var n := PrintBehind(result, extra, maxLen, value, old(result[..]));
      return extra + n;
    }
    NoZeros(result[..]);
    r := PrintBehind(result, 0, maxLen, value, old(result[..]));
  }

  lemma NoZeros(s: seq<char>)
    ensures s == Zeros(0) + s[0..]
  {
  }

  /** The call of snprintf behind `extra` zeros. */
  method PrintBehind(result: array<char>, extra: nat, maxLen: nat, value: U64, ghost before: seq<char>) returns (n: nat)
    requires maxLen > 0 && extra + Cut(|Decimal(value)|, maxLen) < result.Length == |before|
    requires result[..] == Zeros(extra) + before[extra..]
    modifies result
    ensures var text := Zeros(extra) + Decimal(value);
      && extra + n == |text|
      && result[..] == Overwritten(before, text, extra + Cut(n, maxLen) + 1)
  {
    hide *;
    ghost var padded := result[..];
    n := Snprintf(result, extra, maxLen, value);
    Pieces(before, padded, result[..], extra, Zeros(extra) + Decimal(value), n, Cut(n, maxLen), Decimal(value));
  }

  /** The memory behind `result` is at least `maxLen` long, and as long as what the code writes, which
    * StaysInsideExactlyWhen tells apart. */
  method FastPrintU64(result: array<char>, maxLen: nat, value: U64, minWidth: nat) returns (r: int)
    requires result.Length >= maxLen && result.Length >= Reach(value, minWidth, maxLen)
    modifies result
    ensures r == -1 <==> maxLen == 0 || minWidth >= maxLen
    ensures r == -1 ==> result[..] == old(result[..])
    ensures r != -1 && maxLen == 1 ==> r == 0 && result[..] == Overwritten(old(result[..]), "", 1)
    ensures r != -1 && maxLen > 1 ==> r == |Text(value, minWidth)|
    ensures r != -1 && maxLen > 1 ==>
      result[..] == Overwritten(old(result[..]), Text(value, minWidth), Reach(value, minWidth, maxLen))
  {
    if maxLen == 0 || minWidth >= maxLen {
      return -1;
    }
    if maxLen == 1 {
      result[0] := '\0';
      return 0;
    }
    ReckonedIsLength(value);
    if value < 10 || (value < 100 && maxLen > 2) || (value < 1000 && maxLen > 3) || (value < 10000 && maxLen > 4) {
      r := PrintUpToFour(result, maxLen, value, minWidth);
    } else if (value < 100000 && maxLen > 5) || (value < 1000000 && maxLen > 6) {
      r := PrintFiveOrSix(result, maxLen, value, minWidth);
    } else {
      r := PrintLarge(result, maxLen, value, minWidth);
    }
  }

  /** A value of nine digits, a width of 9 and a limit of 10: the padded decimal would fit, but the code
    * writes nine zeros in front of it, so that the first character is wrong and the terminator is put
    * at index 18. */
  method Overrun() returns (result: array<char>)
    ensures fresh(result) && result.Length == 19
    ensures result[..9] == Zeros(9) && result[9..18] == Decimal(100000000) && result[18] == '\0'
  {
    result := new char[19](_ => ' ');
    PowersOfTen();
    assert Pow10(9) == 10 * Pow10(8);
    Length(100000000, 9);
    var r := FastPrintU64(result, 10, 100000000, 9);
    ghost var text := Text(100000000, 9);
    assert text == Zeros(9) + Decimal(100000000) && text[..18] == text;
    assert result[..] == text + "\0" + [];
  }
}
