/** Decimal conversion of integers of any width (src/cast.hpp).

    All arithmetic of the source happens in the unsigned type of the same width, that is modulo
    2^(8 * bytes); the modulus and every truncation are written out. Strings are byte strings. */
module IntegerCast {
  import opened Basics
  import opened ByteRegions
  import opened Modular

  const ZERO: Byte := 48   // '0'
  const MINUS: Byte := 45  // '-'
  const PLUS: Byte := 43   // '+'

  function Pow(base: nat, e: nat): nat {
    if e == 0 then 1 else base * Pow(base, e - 1)
  }

  /** The decimal digits of a value fit in three characters a byte. */
  lemma {:induction false} ThreeDigitsPerByte(k: nat)
    ensures 1 <= Pow(256, k) <= Pow(10, 3 * k)
    ensures k > 0 ==> Pow(256, k) < Pow(10, 3 * k) && Pow(256, k) == 2 * (128 * Pow(256, k - 1))
  {
    if k > 0 {
      ThreeDigitsPerByte(k - 1);
      assert Pow(10, 3 * k) == 10 * Pow(10, 3 * k - 1) == 100 * Pow(10, 3 * k - 2) == 1000 * Pow(10, 3 * k - 3);
    }
  }

  /** An integer type of the source. */
  datatype IntType = IntType(bytes: nat, signed: bool) {
    function Modulus(): int {
      Pow(256, bytes)
    }

    function Half(): int {
      Modulus() / 2
    }

    function MinValue(): int {
      if signed then -Half() else 0
    }

    function MaxValue(): int {
      if signed then Half() - 1 else Modulus() - 1
    }

    predicate Contains(n: int) {
      MinValue() <= n <= MaxValue()
    }

    /** Conversion of an integer to this type, modulo its width. */
    function Convert(n: int): int
      requires Modulus() > 0
    {
      var r := n % Modulus();
      if signed && r >= Half() then r - Modulus() else r
    }

    /** The offset of the overflow check: max or min, as an unsigned number. */
    function CheckOffset(negative: bool): int
      requires Modulus() > 0
    {
      (if negative then MaxValue() else MinValue()) % Modulus()
    }
  }

  lemma ModulusIsEven(t: IntType)
    requires t.bytes > 0
    ensures t.Modulus() == 2 * t.Half() && t.Half() >= 128
  {
    ThreeDigitsPerByte(t.bytes);
    ThreeDigitsPerByte(t.bytes - 1);
    assert t.Half() == 128 * Pow(256, t.bytes - 1);
  }

  lemma TypeFacts(t: IntType)
    requires t.bytes > 0
    ensures t.Modulus() == 2 * t.Half() && t.Half() >= 128
    ensures t.CheckOffset(false) == (if t.signed then t.Half() else 0)
    ensures t.CheckOffset(true) == (if t.signed then t.Half() - 1 else t.Modulus() - 1)
  {
    ModulusIsEven(t);
    var m, half := t.Modulus(), t.Half();
    if t.signed {
      ModOnce(-half, m);
      ModOfSmall(half - 1, m);
    } else {
      ModOfSmall(0, m);
      ModOfSmall(m - 1, m);
    }
  }

  lemma ConvertIsIdentity(t: IntType, n: int)
    requires t.bytes > 0 && t.Contains(n)
    ensures t.Modulus() > 0 && t.Convert(n) == n
  {
    TypeFacts(t);
    if n < 0 {
      ModOnce(n, t.Modulus());
    } else {
      ModOfSmall(n, t.Modulus());
    }
  }

  /** A conversion keeps a number exactly if it is in the range of the type. */
  lemma ConvertKeepsExactly(t: IntType, n: int)
    requires t.bytes > 0
    ensures t.Modulus() > 0 && t.Contains(t.Convert(n)) && (t.Convert(n) == n <==> t.Contains(n))
  {
    ModulusIsEven(t);
    if t.Contains(n) {
      ConvertIsIdentity(t, n);
    }
  }

  // ---------- string to integer ----------

  predicate IsDigit(ch: Byte) {
    ZERO <= ch <= ZERO + 9
  }

  predicate AllDigits(s: seq<Byte>, from: nat) {
    forall i :: from <= i < |s| ==> IsDigit(s[i])
  }

  /** The decimal value of v followed by the digits s[i..], without any truncation. */
  function Decimal(s: seq<Byte>, i: nat, v: int): int
    requires i <= |s|
    decreases |s| - i
  {
    if i == |s| then v else Decimal(s, i + 1, v * 10 + (s[i] - ZERO))
  }

  /** One round of the digit loop: the next truncated value, or None at a non-digit or a failed overflow
      check. */
  function NextValue(m: nat, offset: int, value: nat, ch: Byte): Option<nat>
    requires m > 0
  {
    if !IsDigit(ch) then None
    else
      var next := (value * 10 + ch - ZERO) % m;
      if (offset + next) % m <= value then None else Some(next)
  }

  /** The digit loop from the i-th character on. */
  function Scan(m: nat, offset: int, s: seq<Byte>, i: nat, value: nat): Option<nat>
    requires m > 0 && i <= |s|
    decreases |s| - i
  {
    if i == |s| then Some(value)
    else
      var next := NextValue(m, offset, value, s[i]);
      if next.None? then None else Scan(m, offset, s, i + 1, next.value)
  }

  function SignLength(s: seq<Byte>): nat {
    if s != [] && (s[0] == MINUS || s[0] == PLUS) then 1 else 0
  }

  predicate IsNegative(s: seq<Byte>) {
    s != [] && s[0] == MINUS
  }

  function Cast(t: IntType, s: seq<Byte>): Option<int>
    requires t.bytes > 0
  {
    TypeFacts(t);
    if s == [] then Some(0)
    else
      var scanned := Scan(t.Modulus(), t.CheckOffset(IsNegative(s)), s, SignLength(s), 0);
      if scanned.None? then None
      else Some(t.Convert(if IsNegative(s) then 0 - scanned.value else scanned.value))
  }

  method CastFromString(t: IntType, s: seq<Byte>) returns (r: Option<int>)
    requires t.bytes > 0
    ensures r == Cast(t, s)
  {
    TypeFacts(t);
    var d := 0;
    if s != [] {
      var it := 0;
      var sign := s[it];
      var offset := t.CheckOffset(sign == MINUS);
      var value := 0;
      if sign == MINUS || sign == PLUS {
        it := it + 1;
      }
      ghost var goal := Scan(t.Modulus(), offset, s, it, 0);
      while it < |s|
        invariant it <= |s| && 0 <= value
        invariant Scan(t.Modulus(), offset, s, it, value) == goal
      {
        var ch := s[it];
        if ch < ZERO || ch > ZERO + 9 {
          return None;
        }
        var nextValue := (value * 10 + ch - ZERO) % t.Modulus();
        if (offset + nextValue) % t.Modulus() <= value {
          return None;
        }
        value := nextValue;
        it := it + 1;
      }
      d := t.Convert(if sign == MINUS then -value else value);
    }
    return Some(d);
  }

  lemma {:induction false} DecimalGrows(s: seq<Byte>, i: nat, v: int)
    requires i <= |s| && AllDigits(s, i) && v >= 0
    ensures Decimal(s, i, v) >= v
    decreases |s| - i
  {
    if i < |s| {
      DecimalGrows(s, i + 1, v * 10 + (s[i] - ZERO));
    }
  }

  /** Truncating at every digit is truncating once at the end. */
  lemma StepModulo(m: nat, v: int, d: int)
    requires m > 0
    ensures ((v % m) * 10 + d) % m == (v * 10 + d) % m
  {
    var q := v / m;
    assert v == q * m + v % m;
    assert (10 * q) * m == 10 * (q * m);
    SameResidue((v % m) * 10 + d, 10 * q, m);
  }

  /** Whatever is accepted is the decimal value modulo the width, and consists of digits. */
  lemma {:induction false} ScanIsModular(m: nat, offset: int, s: seq<Byte>, i: nat, v: int)
    requires m > 0 && i <= |s| && Scan(m, offset, s, i, v % m).Some?
    ensures AllDigits(s, i) && Scan(m, offset, s, i, v % m).value == Decimal(s, i, v) % m
    decreases |s| - i
  {
    if i < |s| {
      var next := v * 10 + (s[i] - ZERO);
      NextValueExactly(m, offset, v, s[i], next);
      ScanIsModular(m, offset, s, i + 1, next);
    }
  }

  /** What a numeral with an optional sign says. */
  function Meaning(s: seq<Byte>): int {
    if IsNegative(s) then -Decimal(s, SignLength(s), 0) else Decimal(s, SignLength(s), 0)
  }

  lemma NegatedResidue(n: int, m: nat)
    requires m > 0
    ensures (0 - n % m) % m == (0 - n) % m
  {
    assert n == (n / m) * m + n % m;
    SameResidue(0 - n, n / m, m);
  }

  /** For every type, an accepted string is a numeral, and gives its value truncated to the type: the
      value itself exactly if that is in range. */
  lemma CastIsModular(t: IntType, s: seq<Byte>)
    requires t.bytes > 0 && s != [] && Cast(t, s).Some?
    ensures t.Modulus() > 0 && AllDigits(s, SignLength(s)) && Cast(t, s).value == t.Convert(Meaning(s))
    ensures Cast(t, s).value == Meaning(s) <==> t.Contains(Meaning(s))
  {
    TypeFacts(t);
    ModOfSmall(0, t.Modulus());
    ScanIsModular(t.Modulus(), t.CheckOffset(IsNegative(s)), s, SignLength(s), 0);
    var n := Decimal(s, SignLength(s), 0);
    NegatedResidue(n, t.Modulus());
    ModOfSmall(n % t.Modulus(), t.Modulus());
    ConvertKeepsExactly(t, Meaning(s));
  }

  /** A cast to an unsigned type of a numeral without minus sign gives its value modulo 2^w, if it
      accepts. */
  lemma UnsignedCastIsModular(t: IntType, s: seq<Byte>)
    requires t.bytes > 0 && !t.signed && s != [] && !IsNegative(s) && Cast(t, s).Some?
    ensures t.Modulus() > 0 && AllDigits(s, SignLength(s)) && Cast(t, s).value == Decimal(s, SignLength(s), 0) % t.Modulus()
  {
    CastIsModular(t, s);
  }

  // The overflow check, in terms of the exact values of the digits read so far.

  /** The decimal value of s[lo..hi], without any truncation. */
  function Prefix(s: seq<Byte>, lo: nat, hi: nat): int
    requires hi <= |s|
    decreases hi
  {
    if hi <= lo then 0 else Prefix(s, lo, hi - 1) * 10 + (s[hi - 1] - ZERO)
  }

  /** The k-th character is a digit that makes the value greater, by the arithmetic of the check. */
  predicate PassesCheck(m: nat, offset: int, s: seq<Byte>, from: nat, k: nat)
    requires m > 0 && k < |s|
  {
    IsDigit(s[k]) && (offset + Prefix(s, from, k + 1)) % m > Prefix(s, from, k) % m
  }

  /** A round in terms of the exact values v, before it, and next, after it. */
  lemma NextValueExactly(m: nat, offset: int, v: int, ch: Byte, next: int)
    requires m > 0 && next == v * 10 + (ch - ZERO)
    ensures NextValue(m, offset, v % m, ch) == if IsDigit(ch) && (offset + next) % m > v % m then Some(next % m) else None
  {
    var value := v % m;
    assert (value * 10 + ch - ZERO) % m == next % m by { StepModulo(m, v, ch - ZERO); }
    assert (offset + next % m) % m == (offset + next) % m by { OffsetModulo(m, offset, next); }
  }

  predicate AllPass(m: nat, offset: int, s: seq<Byte>, from: nat, i: nat)
    requires m > 0
  {
    forall k :: i <= k < |s| ==> PassesCheck(m, offset, s, from, k)
  }

  lemma AllPassUnfold(m: nat, offset: int, s: seq<Byte>, from: nat, i: nat)
    requires m > 0 && i < |s|
    ensures AllPass(m, offset, s, from, i) <==> PassesCheck(m, offset, s, from, i) && AllPass(m, offset, s, from, i + 1)
  {
  }

  lemma {:induction false} ScanAcceptsExactly(m: nat, offset: int, s: seq<Byte>, from: nat, i: nat)
    requires m > 0 && from <= i <= |s|
    ensures Scan(m, offset, s, i, Prefix(s, from, i) % m).Some? <==> AllPass(m, offset, s, from, i)
    decreases |s| - i
  {
    if i < |s| {
      NextValueExactly(m, offset, Prefix(s, from, i), s[i], Prefix(s, from, i + 1));
      ScanAcceptsExactly(m, offset, s, from, i + 1);
      AllPassUnfold(m, offset, s, from, i);
    }
  }

  lemma OffsetModulo(m: nat, offset: int, n: int)
    requires m > 0
    ensures (offset + n % m) % m == (offset + n) % m
  {
    assert n == (n / m) * m + n % m;
    SameResidue(offset + n % m, n / m, m);
  }

  lemma {:induction false} PrefixIsDecimal(s: seq<Byte>, from: nat, i: nat)
    requires from <= i <= |s|
    ensures Decimal(s, i, Prefix(s, from, i)) == Prefix(s, from, |s|)
    decreases |s| - i
  {
    if i < |s| {
      PrefixIsDecimal(s, from, i + 1);
    }
  }

  /** The exact result, for every type and string: accepted are the numerals in which every digit makes
      the offset value of the prefix, modulo 2^w, greater than that of the prefix before. */
  lemma CastExactly(t: IntType, s: seq<Byte>)
    requires t.bytes > 0 && s != []
    ensures t.Modulus() > 0
    ensures Cast(t, s) ==
            if AllPass(t.Modulus(), t.CheckOffset(IsNegative(s)), s, SignLength(s), SignLength(s))
            then Some(t.Convert(Meaning(s)))
            else None
    ensures Decimal(s, SignLength(s), 0) == Prefix(s, SignLength(s), |s|)
  {
    TypeFacts(t);
    ModOfSmall(0, t.Modulus());
    ScanAcceptsExactly(t.Modulus(), t.CheckOffset(IsNegative(s)), s, SignLength(s), SignLength(s));
    PrefixIsDecimal(s, SignLength(s), SignLength(s));
    if Cast(t, s).Some? {
      CastIsModular(t, s);
    }
  }

  /** One digit more is accepted exactly if that digit passes, whatever overflow there was before. */
  lemma OneDigitMore(t: IntType, s: seq<Byte>, d: Byte)
    requires t.bytes > 0 && |s| > SignLength(s)
    ensures t.Modulus() > 0
    ensures Cast(t, s + [d]).Some? <==>
            Cast(t, s).Some? && PassesCheck(t.Modulus(), t.CheckOffset(IsNegative(s)), s + [d], SignLength(s), |s|)
  {
    var longer, from := s + [d], SignLength(s);
    CastExactly(t, s);
    CastExactly(t, longer);
    forall k {:trigger Prefix(s, from, k)} | 0 <= k <= |s|
      ensures Prefix(longer, from, k) == Prefix(s, from, k)
    {
      SamePrefix(longer, s, from, k);
    }
    forall k | 0 <= k < |s|
      ensures PassesCheck(t.Modulus(), t.CheckOffset(IsNegative(s)), longer, from, k)
              <==> PassesCheck(t.Modulus(), t.CheckOffset(IsNegative(s)), s, from, k)
    {
      assert Prefix(longer, from, k + 1) == Prefix(s, from, k + 1) && longer[k] == s[k];
    }
  }

  lemma {:induction false} SamePrefix(s: seq<Byte>, s': seq<Byte>, lo: nat, hi: nat)
    requires hi <= |s| && hi <= |s'| && s[..hi] == s'[..hi]
    ensures Prefix(s, lo, hi) == Prefix(s', lo, hi)
  {
    if hi > lo {
      assert s[..hi - 1] == s[..hi][..hi - 1] == s'[..hi - 1];
      assert s[hi - 1] == s[..hi][hi - 1] == s'[hi - 1];
      SamePrefix(s, s', lo, hi - 1);
    }
  }

  // Signs, by character codes: '+' is 43, '-' is 45, '0'..'9' are 48..57.

  lemma {:induction false} ScanBehind(m: nat, offset: int, sign: Byte, s: seq<Byte>, i: nat, value: nat)
    requires m > 0 && i <= |s|
    ensures Scan(m, offset, [sign] + s, i + 1, value) == Scan(m, offset, s, i, value)
    decreases |s| - i
  {
    if i < |s| {
      var next := NextValue(m, offset, value, s[i]);
      if next.Some? {
        ScanBehind(m, offset, sign, s, i + 1, next.value);
      }
    }
  }

  /** A plus sign in front of a numeral without sign changes nothing. */
  lemma PlusSaysNothing(t: IntType, s: seq<Byte>)
    requires t.bytes > 0 && s != [] && s[0] != 43 && s[0] != 45
    ensures Cast(t, [43] + s) == Cast(t, s)
  {
    TypeFacts(t);
    ScanBehind(t.Modulus(), t.CheckOffset(false), 43, s, 0, 0);
  }

  /** A minus sign in front of one negates what it says, if every digit passes the check for it. */
  lemma MinusNegates(t: IntType, s: seq<Byte>)
    requires t.bytes > 0 && s != [] && s[0] != 43 && s[0] != 45
    ensures t.Modulus() > 0 && Meaning([45] + s) == -Meaning(s)
    ensures Cast(t, [45] + s)
            == if AllPass(t.Modulus(), t.CheckOffset(true), [45] + s, 1, 1) then Some(t.Convert(-Meaning(s))) else None
  {
    DecimalShift(s, 45, 0, 0);
    CastExactly(t, [45] + s);
  }

  /** Nothing, and a sign with nothing behind it, is zero; any other single character that is no digit is
      refused. */
  lemma WithoutDigits(t: IntType, ch: Byte)
    requires t.bytes > 0
    ensures Cast(t, []) == Cast(t, [43]) == Cast(t, [45]) == Some(0)
    ensures ch != 43 && ch != 45 && !(48 <= ch <= 57) ==> Cast(t, [ch]) == None
  {
    TypeFacts(t);
    ModOfSmall(0, t.Modulus());
  }

  /** The unsigned overflow check lets every in-range value through once a non-zero digit was read. */
  lemma {:induction false} UnsignedScanAccepts(m: nat, s: seq<Byte>, i: nat, v: nat)
    requires m > 0 && i <= |s| && AllDigits(s, i) && Decimal(s, i, v) < m
    requires v > 0 || i == |s| || s[i] != ZERO
    ensures Scan(m, 0, s, i, v) == Some(Decimal(s, i, v))
    decreases |s| - i
  {
    if i < |s| {
      var next := v * 10 + (s[i] - ZERO);
      DecimalGrows(s, i + 1, next);
      ModOfSmall(next, m);
      UnsignedScanAccepts(m, s, i + 1, next);
    }
  }

  /** Among the digit strings whose value fits, exactly those with a non-zero first digit are
      accepted, and they give their value. In particular "0" is rejected. */
  lemma UnsignedCastAcceptsExactly(t: IntType, s: seq<Byte>)
    requires t.bytes > 0 && !t.signed && s != [] && AllDigits(s, 0) && t.Contains(Decimal(s, 0, 0))
    ensures Cast(t, s).Some? <==> s[0] != ZERO
    ensures Cast(t, s).Some? ==> Cast(t, s).value == Decimal(s, 0, 0)
  {
    TypeFacts(t);
    ModOfSmall(0, t.Modulus());
    assert IsDigit(s[0]);
    if s[0] != ZERO {
      UnsignedScanAccepts(t.Modulus(), s, 0, 0);
      ConvertIsIdentity(t, Decimal(s, 0, 0));
    }
  }

  /** The check of a signed type lets every value within its limit through, leading zeros included. */
  lemma {:induction false} SignedScanAccepts(half: nat, negative: bool, s: seq<Byte>, i: nat, v: nat)
    requires half >= 2 && i <= |s| && AllDigits(s, i)
    requires Decimal(s, i, v) <= if negative then half else half - 1
    ensures Scan(2 * half, if negative then half - 1 else half, s, i, v) == Some(Decimal(s, i, v))
    decreases |s| - i
  {
    if i < |s| {
      var next := v * 10 + (s[i] - ZERO);
      var offset := if negative then half - 1 else half;
      DecimalGrows(s, i + 1, next);
      ModOfSmall(next, 2 * half);
      ModOfSmall(offset + next, 2 * half);
      SignedScanAccepts(half, negative, s, i + 1, next);
    }
  }

  /** A cast to a signed type gives the value of every numeral in its range, whatever its sign. */
  lemma SignedCastIsExact(t: IntType, s: seq<Byte>)
    requires t.bytes > 0 && t.signed && s != [] && AllDigits(s, SignLength(s))
    requires t.Contains(if IsNegative(s) then -Decimal(s, SignLength(s), 0) else Decimal(s, SignLength(s), 0))
    ensures Cast(t, s) == Some(if IsNegative(s) then -Decimal(s, SignLength(s), 0) else Decimal(s, SignLength(s), 0))
  {
    TypeFacts(t);
    SignedScanAccepts(t.Half(), IsNegative(s), s, SignLength(s), 0);
    ConvertIsIdentity(t, if IsNegative(s) then -Decimal(s, SignLength(s), 0) else Decimal(s, SignLength(s), 0));
  }

  // ---------- integer to string ----------

  function Digits(v: nat): (s: seq<Byte>)
    ensures s != []
  {
    if v < 10 then [ZERO + v] else Digits(v / 10) + [ZERO + v % 10]
  }

  function Numeral(n: int): seq<Byte> {
    if n < 0 then [MINUS] + Digits(-n) else Digits(n)
  }

  lemma {:induction false} DigitsFit(v: nat, n: nat)
    requires v < Pow(10, n) && n > 0
    ensures |Digits(v)| <= n
  {
    if v >= 10 {
      assert Pow(10, n) == 10 * Pow(10, n - 1);
      assert n > 1;
      DigitsFit(v / 10, n - 1);
    }
  }

  /** The digits of a value of a type fit in three characters a byte. */
  lemma MagnitudeFits(t: IntType, n: int)
    requires t.bytes > 0 && t.Contains(n)
    ensures |Digits(if n < 0 then -n else n)| <= 3 * t.bytes
  {
    ModulusIsEven(t);
    ThreeDigitsPerByte(t.bytes);
    DigitsFit(if n < 0 then -n else n, 3 * t.bytes);
  }

  /** Writes the digits before a final NUL, the last one first. */
  method PrintDigits(buffer: array<Byte>, n: nat) returns (b: nat)
    requires |Digits(n)| < buffer.Length
    modifies buffer
    ensures b + |Digits(n)| + 1 == buffer.Length && buffer[b..buffer.Length - 1] == Digits(n)
  {
    var value := n;
    b := buffer.Length - 1;
    buffer[b] := 0;
    ghost var tail := [];
    while true
      invariant b + |tail| + 1 == buffer.Length && Digits(value) + tail == Digits(n)
      invariant forall k :: 0 <= k < |tail| ==> buffer[b + k] == tail[k]
      decreases value
    {
      b := b - 1;
      buffer[b] := ZERO + value % 10;
      DigitMoved(value, tail);
      tail := [ZERO + value % 10] + tail;
      value := value / 10;
      if value == 0 {
        break;
      }
    }
  }

  /** Fills a buffer of 3 * sizeof + 2 characters from its end; no index leaves the buffer.
      Negating the smallest value of a type as wide as int is not defined. */
  method CastToString(t: IntType, s: int) returns (r: seq<Byte>)
    requires t.bytes > 0 && t.Contains(s)
    requires t.signed && t.bytes >= 4 ==> s != t.MinValue()
    ensures r == Numeral(s) && |r| + 1 <= 3 * t.bytes + 2
  {
    MagnitudeFits(t, s);
    var buffer := new Byte[t.bytes * 3 + 2](_ => 0);
    var b := PrintDigits(buffer, if s < 0 then -s else s);
    if s < 0 {
      b := b - 1;
      buffer[b] := MINUS;
    }
    r := buffer[b..buffer.Length - 1];
  }

  lemma DigitMoved(value: nat, tail: seq<Byte>)
    ensures value >= 10 ==> Digits(value) + tail == Digits(value / 10) + ([ZERO + value % 10] + tail)
    ensures value < 10 ==> Digits(value) + tail == [ZERO + value % 10] + tail
  {
  }

  lemma {:induction false} DecimalOfAppend(s: seq<Byte>, d: Byte, i: nat, v: int)
    requires i <= |s|
    ensures Decimal(s + [d], i, v) == Decimal(s, i, v) * 10 + (d - ZERO)
    decreases |s| - i
  {
    if i < |s| {
      DecimalOfAppend(s, d, i + 1, v * 10 + (s[i] - ZERO));
    } else {
      assert Decimal(s + [d], i + 1, v * 10 + (d - ZERO)) == v * 10 + (d - ZERO);
    }
  }

  /** The printed digits denote the value and have no leading zero. */
  lemma {:induction false} DigitsDenote(v: nat)
    ensures AllDigits(Digits(v), 0) && Decimal(Digits(v), 0, 0) == v
    ensures Digits(v)[0] == ZERO <==> v == 0
  {
    if v >= 10 {
      DigitsDenote(v / 10);
      DecimalOfAppend(Digits(v / 10), ZERO + v % 10, 0, 0);
    } else {
      assert Decimal([ZERO + v], 1, v) == v;
    }
  }

  lemma {:induction false} DecimalShift(s: seq<Byte>, sign: Byte, i: nat, v: int)
    requires i <= |s|
    ensures Decimal([sign] + s, i + 1, v) == Decimal(s, i, v)
    decreases |s| - i
  {
    if i < |s| {
      DecimalShift(s, sign, i + 1, v * 10 + (s[i] - ZERO));
    }
  }

  /** Printing and parsing gives the value back, for every value of a signed type, and for every value
      of an unsigned type except zero. */
  lemma PrintParse(t: IntType, n: int)
    requires t.bytes > 0 && t.Contains(n)
    ensures Cast(t, Numeral(n)) == Some(n) <==> t.signed || n != 0
  {
    var s := Numeral(n);
    var magnitude := if n < 0 then -n else n;
    DigitsDenote(magnitude);
    assert IsDigit(Digits(magnitude)[0]);
    if n < 0 {
      DecimalShift(Digits(magnitude), MINUS, 0, 0);
      assert forall i :: 1 <= i < |s| ==> s[i] == Digits(magnitude)[i - 1];
      SignedCastIsExact(t, s);
    } else if t.signed {
      SignedCastIsExact(t, s);
    } else {
      UnsignedCastAcceptsExactly(t, s);
    }
  }

  /** What the check is not: an out-of-range numeral can be accepted, with its value truncated. */
  lemma ThreeHundredAsByte()
    ensures Cast(IntType(1, false), [51, 48, 48]) == Some(44)
  {
    var t, s := IntType(1, false), [51, 48, 48];
    TypeFacts(t);
    assert t.Modulus() == 256 * Pow(256, 0) == 256;
    assert Scan(256, 0, s, 3, 44) == Some(44);
    assert Scan(256, 0, s, 2, 30) == Some(44);
    assert Scan(256, 0, s, 1, 3) == Some(44);
    assert Scan(256, 0, s, 0, 0) == Some(44);
  }

  /** So it can by a signed type, even with the wrong sign. */
  lemma TwoFiftyFiveAsSignedByte()
    ensures Cast(IntType(1, true), [50, 53, 53]) == Some(-1)
  {
    var t, s := IntType(1, true), [50, 53, 53];
    TypeFacts(t);
    assert t.Modulus() == 256 * Pow(256, 0) == 256;
    assert Scan(256, 128, s, 3, 255) == Some(255);
    assert Scan(256, 128, s, 2, 25) == Some(255);
    assert Scan(256, 128, s, 1, 2) == Some(255);
    assert Scan(256, 128, s, 0, 0) == Some(255);
  }
}
