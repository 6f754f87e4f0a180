/** Number formatting in sdk/lib/bsp/printf.c: the digits of a number, and the field they are put into. */
module NumberFormat {
  import opened Bytes

  const BF_MAX := 20
  const TWO64 := 0x1_0000_0000_0000_0000

  type uint64 = x: nat | x < TWO64
  type uint32 = x: nat | x < 0x1_0000_0000

  function Pow(base: nat, n: nat): nat {
    if n == 0 then 1 else base * Pow(base, n - 1)
  }

  lemma {:induction false} PowPositive(base: nat, n: nat)
    requires base >= 1
    ensures Pow(base, n) >= 1
    decreases n
  {
    if n > 0 {
      PowPositive(base, n - 1);
      assert base * Pow(base, n - 1) >= Pow(base, n - 1);
    }
  }

  predicate IsBase(base: nat) {
    base == 8 || base == 10 || base == 16
  }

  /** The character for a digit. */
  function DigitChar(digit: nat, uc: bool): char
    requires digit < 16
  {
    (digit + if digit < 10 then '0' as int else (if uc then 'A' as int else 'a' as int) - 10) as char
  }

  /** a2d: the digit that a character stands for, -1 if none. */
  function A2d(ch: char): int {
    if '0' <= ch <= '9' then ch as int - '0' as int
    else if 'a' <= ch <= 'f' then ch as int - 'a' as int + 10
    else if 'A' <= ch <= 'F' then ch as int - 'A' as int + 10
    else -1
  }

  /** The sixteen digits, in either case. */
  function Table(uc: bool): (r: string)
    ensures |r| == 16
  {
    if uc then "0123456789ABCDEF" else "0123456789abcdef"
  }

  lemma DigitRoundTrip(digit: nat, uc: bool)
    requires digit < 16
    ensures DigitChar(digit, uc) == Table(uc)[digit]
    ensures A2d(DigitChar(digit, uc)) == digit
    ensures DigitChar(digit, uc) != '\0'
  {
  }

  /** Every letter is in the case asked for. */
  predicate InCase(s: string, uc: bool) {
    forall i :: 0 <= i < |s| ==> s[i] in Table(uc)
  }

  /** The number that a string of digits stands for. */
  function Value(s: string, base: nat): int {
    if s == "" then 0 else Value(s[..|s| - 1], base) * base + A2d(s[|s| - 1])
  }

  /** Every character is a digit of the base, and there is no leading zero but that of 0 itself. */
  predicate Canonical(s: string, base: nat) {
    && (forall i :: 0 <= i < |s| ==> 0 <= A2d(s[i]) < base)
    && (|s| > 1 ==> A2d(s[0]) > 0)
  }

  // --- the digits -------------------------------------------------------------------------------------------------

  lemma ValueOfMore(s: string, ch: char, base: nat)
    ensures Value(s + [ch], base) == Value(s, base) * base + A2d(ch)
  {
    assert (s + [ch])[..|s|] == s;
  }

  lemma QuotientAtLeast(num: nat, d: nat, base: nat)
    requires d >= 1 && num / d >= base
    ensures d * base <= num
  {
    var q := num / d;
    assert d * q <= num;
    assert d * base <= d * q;
  }

  lemma QuotientBelow(num: nat, d: nat, base: nat)
    requires d >= 1 && num / d < base
    ensures num < d * base
  {
    var q := num / d;
    assert num < d * (q + 1);
    assert d * (q + 1) <= d * base;
  }

  lemma DigitBelow(num: nat, d: nat, base: nat)
    requires d >= 1 && num < d * base
    ensures num / d < base
  {
    if num / d >= base {
      QuotientAtLeast(num, d, base);
    }
  }

  /** The first loop: the largest power of the base that is not above num (or 1). It never overflows. */
  method TopDivisor(num: uint64, base: nat) returns (d: uint64, ghost k: nat)
    requires IsBase(base)
    ensures d == Pow(base, k) && num < Pow(base, k + 1) && d >= 1 && (k > 0 ==> d <= num)
  {
    d, k := 1, 0;
    while num / d >= base
      invariant d >= 1 && d == Pow(base, k) && (k > 0 ==> d <= num)
      decreases num - d
    {
      QuotientAtLeast(num, d, base);
      d := d * base;
      k := k + 1;
    }
    QuotientBelow(num, d, base);
  }

  /** What the second loop keeps: left digits are still to come, d is the divisor for the next one. */
  predicate Dividing(num: nat, base: nat, written: string, rest: nat, d: nat, left: nat) {
    && d == (if left == 0 then 0 else Pow(base, left - 1))
    && rest < Pow(base, left)
    && Value(written, base) * Pow(base, left) + rest == num
  }

  /** The divisor is not 0 while digits are left, and gives one digit of the base. */
  lemma DigitNow(num: nat, base: nat, written: string, rest: nat, d: nat, left: nat)
    requires IsBase(base) && left > 0 && Dividing(num, base, written, rest, d, left)
    ensures d >= 1 && rest / d < base
  {
    NextDivisor(base, d, left);
    DigitBelow(rest, d, base);
  }

  /** One round: digit is rest / d, rest' is rest % d and d' is d / base. */
  lemma NextDigit(num: nat, base: nat, written: string, rest: nat, d: nat, left: nat, digit: nat, rest': nat, d': nat,
        ch: char)
    requires IsBase(base) && left > 0 && Dividing(num, base, written, rest, d, left)
    requires d >= 1 && digit == rest / d && rest' == rest % d && d' == d / base && A2d(ch) == digit
    ensures Dividing(num, base, written + [ch], rest', d', left - 1)
  {
    hide Value, A2d, Pow;
    NextDivisor(base, d, left);
    NextValue(num, base, written, rest, d, left, ch);
  }

  lemma NextDivisor(base: nat, d: nat, left: nat)
    requires IsBase(base) && left > 0 && d == Pow(base, left - 1)
    ensures d >= 1 && Pow(base, left) == d * base
    ensures d / base == if left == 1 then 0 else Pow(base, left - 2)
  {
    PowPositive(base, left - 1);
    if left > 1 {
      ExactQuotient(base, Pow(base, left - 2));
    }
  }

  lemma NextValue(num: nat, base: nat, written: string, rest: nat, d: nat, left: nat, ch: char)
    requires d >= 1 && left > 0 && d == Pow(base, left - 1) && Pow(base, left) == d * base && A2d(ch) == rest / d
    requires Value(written, base) * Pow(base, left) + rest == num
    ensures rest % d < d && Value(written + [ch], base) * d + rest % d == num
  {
    hide Value, A2d, Pow;
    ValueOfMore(written, ch, base);
    Regroup(Value(written, base), base, d, rest / d, rest);
  }

  lemma Regroup(v: int, base: nat, d: nat, digit: nat, rest: nat)
    requires d >= 1 && digit == rest / d
    ensures (v * base + digit) * d + rest % d == v * (d * base) + rest
  {
    assert rest == digit * d + rest % d;
    assert (v * base + digit) * d == v * base * d + digit * d;
    assert v * base * d == v * (d * base);
  }

  lemma ExactQuotient(base: nat, p: nat)
    requires IsBase(base)
    ensures base * p / base == p
  {
  }

  class Param {
    var lz: bool
    var alt: bool
    var uc: bool
    var alignLeft: bool
    var width: int
    var prec: int
    var sign: Option<char>
    var base: nat
    const bf: array<char>
    var bfLen: nat

    function Text(): string
      reads this, bf
      requires bfLen <= bf.Length
    {
      bf[..bfLen]
    }

    /** As tfp_format sets it up for a conversion. */
    constructor (base: nat, prec: int)
      requires IsBase(base)
      ensures this.base == base && this.prec == prec && bfLen == 0 && bf.Length == BF_MAX && fresh(bf)
      ensures !lz && !alt && !uc && !alignLeft && width == 0 && sign == None
    {
      lz, alt, uc, alignLeft, width, sign := false, false, false, false, 0, None;
      this.base, this.prec, bfLen := base, prec, 0;
      bf := new char[BF_MAX];
    }

    /** One round of the second loop. */
    method PutDigit(ghost num: uint64, ghost k: nat, i: nat, rest: nat, d: uint64) returns (rest': nat, d': uint64)
      requires IsBase(base) && i <= bf.Length && Writing(num, base, k, bf[..i], rest, d)
      requires d != 0 && k < bf.Length
      modifies bf
      ensures i <= k && Writing(num, base, k, bf[..i + 1], rest', d')
      ensures bf[..i] == old(bf[..i]) && bf[i] in Table(uc)
    {
      hide Writing, DigitChar, A2d, Table;
      ghost var before := bf[..i];
      WritingDigit(num, base, k, before, rest, d);
      var digit := rest / d;
      DigitRoundTrip(digit, uc);
      rest' := rest % d;
      QuotientIn64(d, base);
      d' := d / base;
      KeepWriting(num, base, k, before, rest, d, digit, rest', d', DigitChar(digit, uc));
      bf[i] := DigitChar(digit, uc);
      assert bf[..i + 1] == before + [DigitChar(digit, uc)];
    }

    /**
      ulli2a, and uli2a, which is the same: unsigned long has 64 bits. The digits stand for num; with
      precision 0, 0 has no digits, and bf_len keeps the 0 that it starts with.
     */
    method Ulli2a(num: uint64)
      requires IsBase(base) && bf.Length == BF_MAX && num < Pow(base, BF_MAX) && bfLen == 0
      modifies this`bfLen, bf
      ensures bfLen <= BF_MAX && InCase(Text(), uc)
      ensures if prec == 0 && num == 0 then Text() == "" else
                && Text() != "" && Value(Text(), base) == num && Canonical(Text(), base)
    {
      hide Value, Canonical, DigitChar, Writing, Pow, Table;
      if prec == 0 && num == 0 {
        return;
      }
      var d: uint64;
      ghost var k: nat;
      d, k := TopDivisor(num, base);
      DigitsFit(base, k, num, BF_MAX);
      StartWriting(num, base, d, k);
      var rest: nat, i: nat := num, 0;
      while d != 0
        invariant i <= k + 1 <= BF_MAX && Writing(num, base, k, bf[..i], rest, d) && InCase(bf[..i], uc)
        decreases k + 1 - i
      {
        ghost var before := bf[..i];
        rest, d := PutDigit(num, k, i, rest, d);
        assert bf[..i + 1] == before + [bf[i]];
        i := i + 1;
      }
      DoneWriting(num, base, k, bf[..i], rest);
      bfLen := i;
    }

    /** ui2a: for unsigned int, all that the formatter ever gives out to base 8. */
    method Ui2a(num: uint32)
      requires IsBase(base) && bf.Length == BF_MAX && bfLen == 0
      modifies this`bfLen, bf
      ensures bfLen <= BF_MAX && InCase(Text(), uc)
      ensures if prec == 0 && num == 0 then Text() == "" else
                && Text() != "" && Value(Text(), base) == num && Canonical(Text(), base)
    {
      hide Value, Canonical, Pow, InCase;
      EveryNumberFits(num, base);
      Ulli2a(num);
    }

    /** lli2a, and li2a and i2a: the sign and the digits of the absolute value, the least number included. */
    method Lli2a(num: int64)
      requires (base == 10 || base == 16) && bf.Length == BF_MAX && bfLen == 0
      modifies this`bfLen, this`sign, bf
      ensures bfLen <= BF_MAX && InCase(Text(), uc) && sign == if num < 0 then Some('-') else old(sign)
      ensures if prec == 0 && num == 0 then Text() == "" else
                && Text() != "" && Canonical(Text(), base)
                && Value(Text(), base) == if num < 0 then -(num as int) else num
    {
      hide Value, Canonical, Pow, Negated, InCase;
      AbsoluteValue(num);
      var magnitude: int64 := num;
      if num < 0 {
        magnitude := Negated(num);
        sign := Some('-');
      }
      EveryNumberFits(magnitude % TWO64, base);
      Ulli2a(magnitude % TWO64);
    }

    /** How many characters sign, prefix, zeros of the precision and digits take. */
    function Content(): nat
      reads this
    {
      (if sign.Some? then 1 else 0) + |Prefix()| + bfLen + Positive(prec - bfLen)
    }

    /** The alternate form's prefix. */
    function Prefix(): string
      reads this
    {
      if alt && base == 16 then ['0', if uc then 'X' else 'x'] else if alt && base == 8 then "0" else ""
    }

    function SignText(): string
      reads this
    {
      if sign.Some? then [sign.value] else ""
    }

    /** How much is missing to the width. */
    function Fill(): nat
      reads this
    {
      Positive(width - Content())
    }

    /** The filling: spaces on the left, zeros of the precision and of the width, or spaces on the right. */
    function LeftFill(): string
      reads this
    {
      if !lz && !alignLeft then Repeat(' ', Fill()) else ""
    }

    function PrecisionFill(): string
      reads this
    {
      Repeat('0', Positive(prec - bfLen))
    }

    function ZeroFill(): string
      reads this
    {
      if lz then Repeat('0', Fill()) else ""
    }

    function RightFill(): string
      reads this
    {
      if !lz && alignLeft then Repeat(' ', Fill()) else ""
    }

    /** The field: the content, filled up to the width at one place. */
    function Field(): string
      reads this, bf
      requires bfLen <= bf.Length
    {
      LeftFill() + SignText() + Prefix() + PrecisionFill() + ZeroFill() + Text() + RightFill()
    }

    /**
      What a field is: the sign, the prefix of the base, zeros and the digits, which stand for the same number with the
      zeros as without, and all the filling at one place. That is before the sign, with spaces; between the prefix and
      the digits, with zeros, if lz; or after the digits, with spaces, if alignLeft.
     */
    ghost predicate Shows(out: string)
      reads this, bf
      requires bfLen <= bf.Length
    {
      exists left, zeros, right :: IsField(out, left, zeros, right)
    }

    ghost predicate IsField(out: string, left: string, zeros: string, right: string)
      reads this, bf
      requires bfLen <= bf.Length
    {
      var signText := if sign.Some? then [sign.value] else "";
      var prefix := if !alt then "" else if base == 8 then "0" else if base != 16 then "" else if uc then "0X" else "0x";
      && out == left + signText + prefix + zeros + bf[..bfLen] + right
      && All(' ', left) && All('0', zeros) && All(' ', right)
      && Value(zeros + bf[..bfLen], base) == Value(bf[..bfLen], base)
      && (left != "" ==> !lz && !alignLeft) && (right != "" ==> !lz && alignLeft)
      && (if lz then |zeros| >= prec - bfLen else |zeros| == Larger(prec - bfLen, 0))
      && |out| == Larger(width, |signText| + |prefix| + Larger(prec, bfLen))
    }

    lemma FieldShows()
      requires bfLen <= bf.Length
      ensures Shows(Field())
    {
      hide Value, Repeat, Shows;
      var zeros := PrecisionFill() + ZeroFill();
      ZerosKeepValue(zeros, Text(), base);
      FieldLength(this);
      FieldIs(zeros);
    }

    lemma FieldIs(zeros: string)
      requires bfLen <= bf.Length && zeros == PrecisionFill() + ZeroFill() && All('0', zeros)
      requires Value(zeros + Text(), base) == Value(Text(), base)
      requires |Field()| == Larger(width, |SignText()| + |Prefix()| + Larger(prec, bfLen))
      ensures Shows(Field())
    {
      hide Value, Repeat;
      assert Field() == LeftFill() + SignText() + Prefix() + zeros + Text() + RightFill();
      assert IsField(Field(), LeftFill(), zeros, RightFill());
    }

    /** There is only one such text. */
    lemma OnlyOneField(out: string, other: string)
      requires bfLen <= bf.Length && Shows(out) && Shows(other)
      ensures out == other
    {
      hide Value;
      var left, zeros, right :| IsField(out, left, zeros, right);
      var left', zeros', right' :| IsField(other, left', zeros', right');
      assert |left| == |left'| && |zeros| == |zeros'| && |right| == |right'|;
      assert left == left' && zeros == zeros' && right == right';
    }

    /** The number of filling characters. */
    method CountFill() returns (fill: int, zeros: int)
      ensures Positive(fill) == Fill() && Positive(zeros) == Positive(prec - bfLen)
    {
      fill, zeros := width, prec;
      fill, zeros := fill - bfLen, zeros - bfLen;
      if sign.Some? {
        fill := fill - 1;
      }
      if alt && base == 16 {
        fill := fill - 2;
      } else if alt && base == 8 {
        fill := fill - 1;
      }
      if zeros > 0 {
        fill := fill - zeros;
      }
    }

    method PutSignAndPrefix(before: string) returns (out: string)
      ensures out == before + SignText() + Prefix()
    {
      out := before;
      if sign.Some? {
        out := out + [sign.value];
      }
      if alt && base == 16 {
        out := out + "0";
        out := out + [if uc then 'X' else 'x'];
      } else if alt && base == 8 {
        out := out + "0";
      }
    }

    method PutZeros(before: string, zeros: int, fill: int) returns (out: string)
      requires Positive(fill) == Fill() && Positive(zeros) == Positive(prec - bfLen)
      ensures out == before + PrecisionFill() + ZeroFill()
    {
      out := Put(before, '0', zeros);
      if lz {
        out := Put(out, '0', fill);
      }
    }

    /** putchw; out is what putf is called with, in order. */
    method PutChw() returns (out: string)
      requires bfLen <= bf.Length && '\0' !in Text()
      ensures out == Field() && Shows(out)
    {
      hide Repeat, Prefix, SignText, Text, Positive, Fill, PrecisionFill, ZeroFill, Shows;
      FieldShows();
      var fill, zeros := CountFill();
      out := "";
      if !lz && !alignLeft {
        out := Put(out, ' ', fill);
      }
      assert out == LeftFill();
      out := PutSignAndPrefix(out);
      out := PutZeros(out, zeros, fill);
      out := PutText(out);
      if !lz && alignLeft {
        out := Put(out, ' ', fill);
      }
    }

    /** while((bf_len-- > 0) && (ch = *bf++)) */
    method PutText(before: string) returns (out: string)
      requires bfLen <= bf.Length && '\0' !in Text()
      ensures out == before + Text()
    {
      forall j | 0 <= j < bfLen ensures bf[j] != '\0' {
        assert Text()[j] in Text();
      }
      out := before;
      var i := 0;
      while i < bfLen && bf[i] != '\0'
        invariant i <= bfLen && out == before + Text()[..i]
        decreases bfLen - i
      {
        out := out + [bf[i]];
        i := i + 1;
      }
      assert Text()[..bfLen] == Text();
    }
  }

  function Positive(n: int): nat {
    if n > 0 then n else 0
  }

  function Repeat(ch: char, n: nat): (r: string)
    ensures |r| == n && All(ch, r)
  {
    seq(n, _ => ch)
  }

  /** while(n-- > 0) putf(putp, ch) */
  method Put(before: string, ch: char, n: int) returns (out: string)
    ensures out == before + Repeat(ch, Positive(n))
  {
    out := before;
    var i := n;
    while i > 0
      invariant i <= Positive(n) && (n > 0 ==> i >= 0)
      invariant out == before + Repeat(ch, Positive(n) - Positive(i))
    {
      out := out + [ch];
      i := i - 1;
    }
  }

  predicate All(ch: char, s: string) {
    forall i :: 0 <= i < |s| ==> s[i] == ch
  }

  /** Zeros in front do not change the number. */
  lemma {:induction false} ZerosKeepValue(zeros: string, s: string, base: nat)
    requires All('0', zeros)
    ensures Value(zeros + s, base) == Value(s, base)
    decreases |zeros| + |s|
  {
    if s != "" {
      ZerosKeepValue(zeros, s[..|s| - 1], base);
      assert zeros + s == zeros + s[..|s| - 1] + [s[|s| - 1]];
      ValueOfMore(zeros + s[..|s| - 1], s[|s| - 1], base);
    } else if zeros != "" {
      ZerosKeepValue(zeros[..|zeros| - 1], "", base);
      assert zeros + s == zeros && zeros[..|zeros| - 1] + "" == zeros[..|zeros| - 1];
    }
  }

  function Larger(a: int, b: int): int {
    if a > b then a else b
  }

  /** The field has exactly max(width, sign + prefix + max(precision, digits)) characters. */
  lemma FieldLength(p: Param)
    requires p.bfLen <= p.bf.Length
    ensures |p.Field()| == Larger(p.width, |p.SignText()| + |p.Prefix()| + Larger(p.prec, p.bfLen))
  {
  }

  type int64 = x: int | -0x8000_0000_0000_0000 <= x < 0x8000_0000_0000_0000

  /** -num in 64 bits: the least number is its own negation. */
  function Negated(num: int64): int64 {
    if num == -0x8000_0000_0000_0000 then num else -num
  }

  lemma AbsoluteValue(num: int64)
    ensures num < 0 ==> Negated(num) % TWO64 == -(num as int)
    ensures num >= 0 ==> num % TWO64 == num
  {
  }

  lemma EveryNumberFits(num: uint64, base: nat)
    requires base == 10 || base == 16 || (base == 8 && num < 0x1_0000_0000)
    ensures num < Pow(base, BF_MAX)
  {
    TwentyPowers();
  }

  lemma FourPowers(n: nat)
    ensures Pow(8, n + 4) == 4096 * Pow(8, n)
    ensures Pow(10, n + 4) == 10000 * Pow(10, n)
    ensures Pow(16, n + 4) == 65536 * Pow(16, n)
  {
    FourFrom(8, n, Pow(8, n));
    FourFrom(10, n, Pow(10, n));
    FourFrom(16, n, Pow(16, n));
  }

  lemma FourFrom(base: nat, n: nat, p: nat)
    requires IsBase(base) && p == Pow(base, n)
    ensures Pow(base, n + 4) == base * (base * (base * (base * p)))
  {
    assert Pow(base, n + 1) == base * p;
    assert Pow(base, n + 2) == base * (base * p);
    assert Pow(base, n + 3) == base * (base * (base * p));
  }

  lemma TwentyPowers()
    ensures Pow(8, BF_MAX) == 0x1000_0000_0000_0000
    ensures Pow(10, BF_MAX) == 1_0000_0000_0000_0000_0000
    ensures Pow(16, BF_MAX) == 0x1_0000_0000_0000_0000_0000
  {
    assert Pow(8, 0) == Pow(10, 0) == Pow(16, 0) == 1;
    FourPowers(0);
    FourPowers(4);
    FourPowers(8);
    FourPowers(12);
    FourPowers(16);
  }

  /** Digits of a number without a leading zero: as many as the powers of the base say. */
  lemma {:induction false} CanonicalLength(s: string, base: nat)
    requires IsBase(base) && s != "" && Canonical(s, base)
    ensures 0 <= Value(s, base) < Pow(base, |s|) && (|s| > 1 ==> Pow(base, |s| - 1) <= Value(s, base))
    decreases |s|
  {
    var front, digit := s[..|s| - 1], A2d(s[|s| - 1]);
    PowOne(base);
    if front == "" {
      assert Value(front, base) == 0;
    } else {
      hide Value, Pow;
      CanonicalFront(s, base);
      CanonicalLength(front, base);
      ValueOfMore(front, s[|s| - 1], base);
      assert s == front + [s[|s| - 1]];
      OneDigitMore(Value(front, base), digit, base, |front|);
    }
  }

  lemma PowOne(base: nat)
    ensures Pow(base, 0) == 1 && Pow(base, 1) == base
  {
  }

  lemma CanonicalFront(s: string, base: nat)
    requires Canonical(s, base) && |s| > 1
    ensures Canonical(s[..|s| - 1], base)
    ensures |s| == 2 ==> Value(s[..|s| - 1], base) > 0
  {
    if |s| == 2 {
      assert s[..1][..0] == "";
    }
  }

  lemma OneDigitMore(value: int, digit: int, base: nat, n: nat)
    requires IsBase(base) && 0 <= value < Pow(base, n) && 0 <= digit < base && n > 0
    ensures 0 <= value * base + digit < Pow(base, n + 1)
    ensures Pow(base, n - 1) <= value ==> Pow(base, n) <= value * base + digit
  {
    var bottom, top, next := Pow(base, n - 1), Pow(base, n), Pow(base, n + 1);
    assert top == base * bottom && next == base * top;
    hide Pow;
    Shifted(value, digit, base, bottom, top);
  }

  lemma Shifted(value: nat, digit: nat, base: nat, bottom: nat, top: nat)
    requires IsBase(base) && value < top && digit < base && top == base * bottom
    ensures value * base + digit < base * top && (bottom <= value ==> top <= value * base + digit)
  {
    if base == 8 {
    } else if base == 10 {
    } else {
    }
  }

  /** The digits of a number fit the buffer exactly when the number is below the twentieth power of the base. */
  lemma FitsExactly(s: string, base: nat)
    requires IsBase(base) && s != "" && Canonical(s, base)
    ensures |s| <= BF_MAX <==> Value(s, base) < Pow(base, BF_MAX)
  {
    hide Value, Pow, Canonical;
    CanonicalLength(s, base);
    if |s| <= BF_MAX {
      PowGrows(base, |s|, BF_MAX);
    } else {
      PowGrows(base, BF_MAX, |s| - 1);
    }
  }

  /** The state of the second loop, when the number has k + 1 digits. */
  predicate Writing(num: nat, base: nat, k: nat, written: string, rest: nat, d: nat) {
    && |written| <= k + 1 && Canonical(written, base)
    && Dividing(num, base, written, rest, d, k + 1 - |written|)
    && if written == "" then rest == num && (k > 0 ==> 0 < d <= num) else k > 0 ==> A2d(written[0]) > 0
  }

  lemma WritingDigit(num: nat, base: nat, k: nat, written: string, rest: nat, d: nat)
    requires IsBase(base) && d != 0 && Writing(num, base, k, written, rest, d)
    ensures |written| <= k && rest / d < base
  {
    hide Dividing, Canonical, Pow;
    DivisorTells(num, base, written, rest, d, k + 1 - |written|);
    DigitNow(num, base, written, rest, d, k + 1 - |written|);
  }

  lemma KeepWriting(num: nat, base: nat, k: nat, written: string, rest: nat, d: nat, digit: nat, rest': nat, d': nat,
        ch: char)
    requires IsBase(base) && d != 0 && Writing(num, base, k, written, rest, d) && |written| <= k
    requires digit == rest / d && digit < base && rest' == rest % d && d' == d / base && A2d(ch) == digit
    ensures Writing(num, base, k, written + [ch], rest', d')
  {
    hide Dividing, Canonical, Pow, A2d;
    NextDigit(num, base, written, rest, d, k + 1 - |written|, digit, rest', d', ch);
    if written == "" && k > 0 {
      LeadingDigit(num, d);
    }
    CanonicalMore(written, base, ch);
  }

  lemma QuotientIn64(d: uint64, base: nat)
    requires IsBase(base)
    ensures d / base < TWO64
  {
  }

  lemma DoneWriting(num: nat, base: nat, k: nat, written: string, rest: nat)
    requires IsBase(base) && Writing(num, base, k, written, rest, 0)
    ensures |written| == k + 1 && Value(written, base) == num && Canonical(written, base)
  {
    DivisorTells(num, base, written, rest, 0, k + 1 - |written|);
  }

  lemma StartWriting(num: nat, base: nat, d: nat, k: nat)
    requires d == Pow(base, k) && num < Pow(base, k + 1) && d >= 1 && (k > 0 ==> d <= num)
    ensures Writing(num, base, k, "", num, d)
  {
  }

  /** The divisor is 0 exactly when all digits are written; then they stand for num. */
  lemma DivisorTells(num: nat, base: nat, written: string, rest: nat, d: nat, left: nat)
    requires IsBase(base) && Dividing(num, base, written, rest, d, left)
    ensures d == 0 <==> left == 0
    ensures d == 0 ==> Value(written, base) == num
  {
    if left > 0 {
      PowPositive(base, left - 1);
    }
  }

  lemma CanonicalMore(written: string, base: nat, ch: char)
    requires Canonical(written, base) && 0 <= A2d(ch) < base
    requires written != "" ==> A2d(written[0]) > 0
    ensures Canonical(written + [ch], base)
  {
  }

  lemma LeadingDigit(num: nat, d: nat)
    requires 1 <= d <= num
    ensures num / d >= 1
  {
  }

  /** A number below base^n has at most n digits. */
  lemma DigitsFit(base: nat, k: nat, num: nat, n: nat)
    requires IsBase(base) && num < Pow(base, n) && (k > 0 ==> Pow(base, k) <= num)
    ensures n > 0 ==> k + 1 <= n
  {
    if k >= n {
      PowGrows(base, n, k);
    }
  }

  lemma {:induction false} PowGrows(base: nat, m: nat, n: nat)
    requires IsBase(base) && m <= n
    ensures Pow(base, m) <= Pow(base, n)
    decreases n
  {
    if m < n {
      PowGrows(base, m, n - 1);
      assert base * Pow(base, n - 1) >= Pow(base, n - 1);
    }
  }
}
