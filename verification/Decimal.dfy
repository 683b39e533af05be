/** Decimal text of a number, and the two kernel-side printers of the target PID of a kill: one fills a
    scratch buffer backwards, the other walks a divisor down. */
module Decimal {
  import opened Options

  newtype byte = x: int | 0 <= x < 0x100
  newtype u32 = x: int | 0 <= x < 0x1_0000_0000
  newtype i32 = x: int | -0x8000_0000 <= x < 0x8000_0000

  /** Most significant digit first, no leading zeros, "0" for zero. */
  function Digits(v: nat): seq<nat> {
    if v < 10 then [v] else Digits(v / 10) + [v % 10]
  }

  function Value(digits: seq<nat>): nat {
    if digits == [] then 0 else 10 * Value(digits[..|digits| - 1]) + digits[|digits| - 1]
  }

  lemma {:induction false} DigitsReadBack(v: nat)
    ensures Value(Digits(v)) == v
    ensures forall d :: d in Digits(v) ==> d < 10
    ensures |Digits(v)| > 0 && (Digits(v)[0] == 0 ==> v == 0)
  {
    if v >= 10 {
      DigitsReadBack(v / 10);
      assert Digits(v)[..|Digits(v)| - 1] == Digits(v / 10);
    }
  }

  function Pow10(n: nat): nat {
    if n == 0 then 1 else 10 * Pow10(n - 1)
  }

  /** A number has as many digits as its size says. */
  lemma {:induction false} DigitCount(v: nat, n: nat)
    requires v > 0 && n > 0
    ensures |Digits(v)| == n <==> Pow10(n - 1) <= v < Pow10(n)
    decreases v
  {
    if v < 10 {
      if n > 1 {
        Pow10Grows(1, n - 1);
      }
    } else if n > 1 {
      DigitCount(v / 10, n - 1);
    }
  }

  lemma {:induction false} Pow10Grows(m: nat, n: nat)
    requires m <= n
    ensures Pow10(m) <= Pow10(n)
    decreases n
  {
    if m < n {
      Pow10Grows(m, n - 1);
    }
  }

  lemma U32HasTenDigits(v: nat)
    requires v < 0x1_0000_0000
    ensures |Digits(v)| <= 10
  {
    if v > 0 {
      var n := |Digits(v)|;
      DigitsReadBack(v);
      DigitCount(v, n);
      assert Pow10(10) == 10_000_000_000;
      Pow10Grows(10, if n > 10 then n - 1 else 10);
    }
  }

  const ZERO: byte := 48
  const COLON: byte := 58

  function Ascii(digits: seq<nat>): (r: seq<byte>)
    requires forall d :: d in digits ==> d < 10
    ensures |r| == |digits|
  {
    seq(|digits|, i requires 0 <= i < |digits| => (assert digits[i] in digits; ZERO + digits[i] as byte))
  }

  /** The decimal text of `v` in bytes. */
  function Text(v: nat): (r: seq<byte>)
    ensures |r| == |Digits(v)|
  {
    DigitsReadBack(v);
    Ascii(Digits(v))
  }

  lemma TextStep(v: nat)
    requires v >= 10
    ensures Text(v) == Text(v / 10) + [ZERO + (v % 10) as byte]
  {
  }

  lemma {:induction false} TextDeterminesNumber(v: nat, w: nat)
    requires Text(v) == Text(w)
    ensures v == w
  {
    DigitsReadBack(v);
    DigitsReadBack(w);
    assert Digits(v) == Digits(w) by {
      forall i | 0 <= i < |Digits(v)| ensures Digits(v)[i] == Digits(w)[i] {
        assert Text(v)[i] == Text(w)[i];
        assert Digits(v)[i] in Digits(v) && Digits(w)[i] in Digits(w);
      }
    }
  }

  /** Reads decimal digits up to the first colon. */
  function Read(bytes: seq<byte>, value: nat): Option<nat> {
    if bytes == [] then None
    else if bytes[0] == 58 then Some(value)
    else if 48 <= bytes[0] <= 57 then Read(bytes[1..], 10 * value + (bytes[0] - 48) as nat)
    else None
  }

  /** `value` with `n` more decimal places. */
  function Shifted(value: nat, n: nat): nat {
    if n == 0 then value else 10 * Shifted(value, n - 1)
  }

  lemma {:induction false} ShiftedZero(n: nat)
    ensures Shifted(0, n) == 0
  {
    if n > 0 {
      ShiftedZero(n - 1);
    }
  }

  lemma ReadDigit(d: nat, value: nat, rest: seq<byte>)
    requires d < 10
    ensures Read([ZERO + d as byte] + rest, value) == Read(rest, 10 * value + d)
  {
    assert ([ZERO + d as byte] + rest)[1..] == rest;
  }

  lemma {:induction false} ReadOn(v: nat, value: nat, rest: seq<byte>)
    ensures Read(Text(v) + rest, value) == Read(rest, Shifted(value, |Digits(v)|) + v)
    decreases v
  {
    if v < 10 {
      TextOfDigit(v);
      ReadDigit(v, value, rest);
      assert Shifted(value, 1) == 10 * value;
    } else {
      TextStep(v);
      var last := [ZERO + (v % 10) as byte];
      assert Text(v) + rest == Text(v / 10) + (last + rest);
      ReadOn(v / 10, value, last + rest);
      hide Text, Read;
      ReadDigit(v % 10, Shifted(value, |Digits(v / 10)|) + v / 10, rest);
    }
  }

  /** What the printers write, digits and a colon in ASCII, reads back as the number. */
  lemma TextReadsBack(v: nat, rest: seq<byte>)
    ensures Read(Text(v) + [COLON] + rest, 0) == Some(v)
  {
    ReadOn(v, 0, [COLON] + rest);
    ShiftedZero(|Digits(v)|);
    assert Text(v) + [COLON] + rest == Text(v) + ([COLON] + rest);
  }

  // ----- the reverse-buffer printer -----

  /** `target_pid as u32`: two's complement. */
  function AsU32(pid: i32): u32 {
    if pid >= 0 then pid as u32 else (pid as int + 0x1_0000_0000) as u32
  }

  lemma TextOfDigit(v: nat)
    requires v < 10
    ensures Text(v) == [ZERO + v as byte]
  {
  }

  /** The part of the number that is not in the buffer yet. */
  function Unwritten(v: nat): seq<byte> {
    if v == 0 then [] else Text(v)
  }

  /** One digit goes from the end of the number to the end of the buffer. */
  lemma FillStep(v: nat, filled: seq<byte>)
    requires v > 0
    ensures Unwritten(v) + Backwards(filled) == Unwritten(v / 10) + Backwards(filled + [ZERO + (v % 10) as byte])
  {
    if v >= 10 {
      TextStep(v);
    } else {
      TextOfDigit(v);
    }
    BackwardsAppend(filled, ZERO + (v % 10) as byte);
  }

  /** The first loop: digits into the scratch buffer, least significant first. */
  method FillReversed(value: u32) returns (tmp: array<byte>, n: nat)
    requires value > 0
    ensures fresh(tmp) && n <= tmp.Length == 10
    ensures Backwards(tmp[..n]) == Text(value as nat)
  {
    U32HasTenDigits(value as nat);
    tmp := new byte[10];
    n := 0;
    var v := value;
    while v > 0 && n < 10
      invariant n <= 10
      invariant Text(value as nat) == Unwritten(v as nat) + Backwards(tmp[..n])
      decreases 10 - n
    {
      hide Text, Backwards, Unwritten;
      FillStep(v as nat, tmp[..n]);
      ghost var filled := tmp[..n] + [ZERO + (v as nat % 10) as byte];
      tmp[n] := ZERO + (v % 10) as byte;
      assert tmp[..n + 1] == filled;
      v := v / 10;
      n := n + 1;
    }
    assert v == 0;
  }

  method PrintReversed(argv: array<byte>, targetPid: i32) returns (pos: nat)
    requires argv.Length == 128
    modifies argv
    ensures 2 <= pos <= 11
    ensures argv[..pos] == Text(AsU32(targetPid) as nat) + [COLON] && forall j :: pos <= j < 128 ==> argv[j] == old(argv[j])
  {
    pos := 0;
    var v := AsU32(targetPid);
    U32HasTenDigits(v as nat);
    if v == 0 {
      argv[0] := ZERO;
      pos := 1;
      TextOfDigit(0);
    } else {
      var tmp, n := FillReversed(v);
      ghost var text := Text(v as nat);
      var i := 0;
      while i < n
        invariant i <= n && pos == i
        invariant Backwards(tmp[..n]) == text
        invariant argv[..pos] == text[..i]
        invariant forall j :: pos <= j < 128 ==> argv[j] == old(argv[j])
      {
        assert text[i] == tmp[n - 1 - i];
        argv[pos] := tmp[n - 1 - i];
        pos := pos + 1;
        i := i + 1;
      }
      assert text[..n] == text;
    }
    assert argv[..pos] == Text(v as nat);
    if pos < 127 {
      argv[pos] := COLON;
      pos := pos + 1;
    }
  }

  function Backwards(s: seq<byte>): (r: seq<byte>)
    ensures |r| == |s| && forall i :: 0 <= i < |s| ==> r[i] == s[|s| - 1 - i]
  {
    seq(|s|, i requires 0 <= i < |s| => s[|s| - 1 - i])
  }

  lemma BackwardsAppend(s: seq<byte>, x: byte)
    ensures Backwards(s + [x]) == [x] + Backwards(s)
  {
  }

  // ----- the divisor printer -----

  /** `(__u32)(target_pid < 0 ? -target_pid : target_pid)`. Negating the least i32 is undefined in C. */
  function Magnitude(pid: i32): u32
    requires pid > -0x8000_0000
  {
    if pid < 0 then (-(pid as int)) as u32 else pid as u32
  }

  /** The greatest power of ten not above the number. */
  ghost predicate LeadingPower(v: nat, n: nat, divisor: nat) {
    n > 0 && divisor == Pow10(n - 1) && divisor <= v < 10 * divisor
  }

  /** The first loop. No multiplication leaves 32 bits: the guard keeps the product below the number. */
  method FindDivisor(v: u32) returns (divisor: u32)
    requires v > 0
    ensures LeadingPower(v as nat, |Digits(v as nat)|, divisor as nat)
  {
    divisor := 1;
    ghost var n: nat := 1;
    while divisor <= v / 10
      invariant n > 0 && divisor as nat == Pow10(n - 1) && 1 <= divisor <= v
      decreases v - divisor
    {
      divisor := divisor * 10;
      n := n + 1;
    }
    DigitCount(v as nat, n);
  }

  lemma {:induction false} Pow10Positive(n: nat)
    ensures Pow10(n) > 0
  {
    if n > 0 {
      Pow10Positive(n - 1);
    }
  }

  /** Integer division; a function of its own so that proofs need not look inside it. */
  function Quotient(v: nat, d: nat): nat
    requires d > 0
  {
    v / d
  }

  /** Dividing by ten `k` times drops the last `k` digits. */
  lemma {:induction false} DigitsDropLast(v: nat, k: nat)
    requires k < |Digits(v)|
    ensures Pow10(k) > 0 && Digits(Quotient(v, Pow10(k))) == Digits(v)[..|Digits(v)| - k]
  {
    Pow10Positive(k);
    if k > 0 {
      DigitsDropLast(v / 10, k - 1);
      DivTwice(v, Pow10(k - 1));
    }
  }

  lemma {:induction false} MulMonotone(a: nat, b: nat, d: nat)
    requires a <= b
    ensures a * d <= b * d
    decreases b
  {
    if a < b {
      MulMonotone(a, b - 1, d);
      assert b * d == (b - 1) * d + d;
    }
  }

  lemma QuotientUnique(v: nat, d: nat, q: nat)
    requires d > 0 && q * d <= v < (q + 1) * d
    ensures v / d == q
  {
    var p := v / d;
    assert p * d <= v < (p + 1) * d;
    if p < q {
      MulMonotone(p + 1, q, d);
    } else if q < p {
      MulMonotone(q + 1, p, d);
    }
  }

  lemma DivTwice(v: nat, p: nat)
    requires p > 0
    ensures Quotient(v / 10, p) == Quotient(v, 10 * p)
  {
    var a := v / 10 / p;
    assert a * p <= v / 10 < (a + 1) * p;
    assert a * (10 * p) == 10 * (a * p) && (a + 1) * (10 * p) == 10 * ((a + 1) * p);
    QuotientUnique(v, 10 * p, a);
  }

  lemma LastOfPrefix(v: nat, k: nat, w: nat)
    requires k < |Digits(v)| && Digits(w) == Digits(v)[..|Digits(v)| - k]
    ensures w % 10 == Digits(v)[|Digits(v)| - 1 - k]
  {
    assert Digits(w)[|Digits(w)| - 1] == w % 10;
  }

  /** What the second loop writes for one divisor is that digit. */
  lemma DigitAtDivisor(v: nat, k: nat)
    requires k < |Digits(v)|
    ensures Pow10(k) > 0 && Quotient(v, Pow10(k)) % 10 == Digits(v)[|Digits(v)| - 1 - k]
  {
    hide Quotient;
    DigitsDropLast(v, k);
    LastOfPrefix(v, k, Quotient(v, Pow10(k)));
  }

  /** The byte one round of the second loop writes. */
  function DigitByte(v: u32, divisor: u32): byte
    requires divisor > 0
  {
    hide Quotient;
    ZERO + (Quotient(v as nat, divisor as nat) % 10) as byte
  }

  /** `k` more rounds to go: the byte is that position of the text, and the next divisor is one power down. */
  lemma ByteAtDivisor(v: u32, divisor: u32, k: nat)
    requires k < |Digits(v as nat)| && divisor as nat == Pow10(k)
    ensures divisor > 0 && DigitByte(v, divisor) == Text(v as nat)[|Text(v as nat)| - 1 - k]
    ensures divisor / 10 == if k > 0 then Pow10(k - 1) as u32 else 0
  {
    hide Quotient;
    DigitAtDivisor(v as nat, k);
    DigitsReadBack(v as nat);
  }

  method PrintByDivisor(argv: array<byte>, targetPid: i32) returns (pos: nat)
    requires argv.Length == 128 && targetPid > -0x8000_0000
    modifies argv
    ensures 2 <= pos <= 11
    ensures argv[..pos] == Text(Magnitude(targetPid) as nat) + [COLON] && forall j :: pos <= j < 128 ==> argv[j] == old(argv[j])
  {
    pos := 0;
    var v := Magnitude(targetPid);
    ghost var text := Text(v as nat);
    U32HasTenDigits(v as nat);
    if v == 0 {
      argv[0] := ZERO;
      pos := 1;
      TextOfDigit(0);
    } else {
      var divisor := FindDivisor(v);
      ghost var n := |text|;
      while divisor > 0 && pos < 127
        invariant pos <= n <= 10 && |text| == n
        invariant divisor as nat == if pos < n then Pow10(n - 1 - pos) else 0
        invariant argv[..pos] == text[..pos]
        invariant forall j :: pos <= j < 128 ==> argv[j] == old(argv[j])
        decreases divisor
      {
        ByteAtDivisor(v, divisor, n - 1 - pos);
        assert text[n - 1 - (n - 1 - pos)] == text[pos];
        argv[pos] := DigitByte(v, divisor);
        pos := pos + 1;
        divisor := divisor / 10;
      }
      if pos < n {
        Pow10Positive(n - 1 - pos);
      }
      assert text[..n] == text;
    }
    assert argv[..pos] == text;
    if pos < 127 {
      argv[pos] := COLON;
      pos := pos + 1;
    }
  }

  /** The two printers write the same text exactly for the targets that are not negative: a negative one
      (a process group) comes out as its magnitude from one and as its two's complement from the other. */
  lemma PrintersAgreeIffNotNegative(targetPid: i32)
    requires targetPid > -0x8000_0000
    ensures Text(AsU32(targetPid) as nat) == Text(Magnitude(targetPid) as nat) <==> targetPid >= 0
  {
    if Text(AsU32(targetPid) as nat) == Text(Magnitude(targetPid) as nat) {
      TextDeterminesNumber(AsU32(targetPid) as nat, Magnitude(targetPid) as nat);
    }
  }

  /** The two numbers printed for one target: its residue modulo 2^32, and its distance from zero. */
  lemma PrintedNumbers(targetPid: i32)
    requires targetPid > -0x8000_0000
    ensures AsU32(targetPid) as int == targetPid as int % 4294967296
    ensures Magnitude(targetPid) as int == if targetPid as int < 0 then -(targetPid as int) else targetPid as int
  {
  }
}
