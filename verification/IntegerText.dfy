/** The integer formatter witoabuf in its wide and narrow versions, and the positional reading that inverts it. */
module IntegerText {
  import opened Basics

  // The four value types the template is instantiated for.
  datatype IntType = Int32 | UInt32 | Int64 | UInt64 {
    function Min(): int {
      match this
      case Int32 => -0x8000_0000
      case Int64 => -0x8000_0000_0000_0000
      case _ => 0
    }

    function Max(): int {
      match this
      case Int32 => 0x7FFF_FFFF
      case UInt32 => 0xFFFF_FFFF
      case Int64 => 0x7FFF_FFFF_FFFF_FFFF
      case UInt64 => 0xFFFF_FFFF_FFFF_FFFF
    }
  }

  function DigitChar(d: nat): char
    requires d < 16
  {
    if d < 10 then '0' + d as char else 'A' + (d - 10) as char
  }

  // -------------------------------------------------------------------------
  // The text, built backwards and then reversed

  // Quotient, remainder and product by repetition: QuotRemMeaning and ProductMeaning tie them to the operators.
  function Quot(n: nat, base: nat): (q: nat)
    requires base >= 2
    ensures q <= n && (n > 0 ==> q < n)
  {
    if n < base then 0 else 1 + Quot(n - base, base)
  }

  function Rem(n: nat, base: nat): (r: nat)
    requires base >= 2
    ensures r < base
  {
    if n < base then n else Rem(n - base, base)
  }

  function Product(a: nat, b: nat): nat {
    if a == 0 then 0 else b + Product(a - 1, b)
  }

  lemma {:induction false} ProductMeaning(a: nat, b: nat)
    ensures Product(a, b) == a * b
  {
    if a > 0 {
      ProductMeaning(a - 1, b);
    }
  }

  lemma {:induction false} QuotRem(n: nat, base: nat)
    requires base >= 2
    ensures Product(Quot(n, base), base) + Rem(n, base) == n
  {
    if n >= base {
      QuotRem(n - base, base);
    }
  }

  lemma {:induction false} QuotRemMeaning(n: nat, base: nat)
    requires base >= 2
    ensures Quot(n, base) == n / base && Rem(n, base) == n % base
  {
    if n >= base {
      QuotRemMeaning(n - base, base);
      OneLess(n, base);
    }
  }

  lemma OneLess(n: nat, base: nat)
    requires base > 0 && n >= base
    ensures n / base == 1 + (n - base) / base && n % base == (n - base) % base
  {
    var q, r := (n - base) / base, (n - base) % base;
    assert n == base * (q + 1) + r;
    DivUnique(n, base, q + 1, r);
  }

  lemma DivUnique(n: nat, base: nat, q: nat, r: nat)
    requires base > 0 && n == base * q + r && r < base
    ensures n / base == q && n % base == r
  {
    var q2 := n / base;
    assert n == base * q2 + n % base;
    if q2 < q {
      AtLeast(base, q2 + 1, q);
    } else if q2 > q {
      AtLeast(base, q + 1, q2);
    }
  }

  lemma AtLeast(base: nat, x: nat, y: nat)
    requires 0 < x <= y
    ensures base * (x - 1) + base <= base * y
  {
  }

  // Digits of n, least significant first, at least one.
  function Backwards(n: nat, base: nat): (s: string)
    requires 2 <= base <= 16
    ensures |s| >= 1
  {
    if Quot(n, base) == 0 then [DigitChar(Rem(n, base))]
    else [DigitChar(Rem(n, base))] + Backwards(Quot(n, base), base)
  }

  function Zeros(k: int): (s: string)
    ensures |s| == if k > 0 then k else 0
    decreases k
  {
    if k <= 0 then "" else Zeros(k - 1) + ['0']
  }

  // The wide version pads up to padDigits; the narrow one always adds one zero first.
  function Padded(digits: string, padDigits: int, wide: bool): string {
    if wide then digits + Zeros(padDigits - |digits|)
    else digits + Zeros(1) + Zeros(padDigits - |digits| - 1)
  }

  predicate Negative(value: int, base: int) {
    value < 0 && base == 10
  }

  function Magnitude(value: int): nat {
    if value < 0 then -value else value
  }

  function BackwardsText(value: int, base: nat, padDigits: int, wide: bool): string
    requires 2 <= base <= 16
  {
    Padded(Backwards(Magnitude(value), base), padDigits, wide) + (if Negative(value, base) then "-" else "")
  }

  function Reverse<T>(s: seq<T>): (r: seq<T>)
    ensures |r| == |s|
  {
    if s == [] then [] else Reverse(s[1..]) + [s[0]]
  }

  function Text(value: int, base: nat, padDigits: int, wide: bool): string
    requires 2 <= base <= 16
  {
    Reverse(BackwardsText(value, base, padDigits, wide))
  }

  // -------------------------------------------------------------------------
  // Reading a numeral

  function DigitValue(c: char): Option<nat> {
    if '0' <= c <= '9' then Some((c - '0') as nat)
    else if 'A' <= c <= 'F' then Some(10 + (c - 'A') as nat)
    else None
  }

  // base * high + d
  function Shifted(high: nat, base: nat, d: nat): nat {
    Product(high, base) + d
  }

  // Positional value, most significant digit first; a digit too large for the base is an error.
  function ReadDigits(s: string, base: nat): Option<nat> {
    if s == "" then Some(0)
    else
      match (ReadDigits(s[..|s| - 1], base), DigitValue(s[|s| - 1]))
      case (Some(high), Some(d)) => if d < base then Some(Shifted(high, base, d)) else None
      case _ => None
  }

  function ReadNumber(s: string, base: nat): Option<int> {
    if s != "" && s[0] == '-' then
      match ReadDigits(s[1..], base)
      case Some(n) => var m: int := n; Some(-m)
      case None => None
    else
      match ReadDigits(s, base)
      case Some(n) => Some(n)
      case None => None
  }

  // -------------------------------------------------------------------------
  // Reading undoes writing

  lemma {:induction false} ReverseAppend<T>(a: seq<T>, b: seq<T>)
    ensures Reverse(a + b) == Reverse(b) + Reverse(a)
  {
    if a == [] {
      assert a + b == b;
    } else {
      assert (a + b)[1..] == a[1..] + b;
      ReverseAppend(a[1..], b);
    }
  }

  lemma {:induction false} ReverseAt<T>(s: seq<T>, k: nat)
    requires k < |s|
    ensures Reverse(s)[k] == s[|s| - 1 - k]
  {
    if k < |s| - 1 {
      ReverseAt(s[1..], k);
    }
  }

  // The text of n without sign and padding, most significant digit first.
  function Forwards(n: nat, base: nat): string
    requires 2 <= base <= 16
  {
    (if Quot(n, base) == 0 then "" else Forwards(Quot(n, base), base)) + [DigitChar(Rem(n, base))]
  }

  lemma ReverseFirst<T>(c: T, rest: seq<T>)
    ensures Reverse([c] + rest) == Reverse(rest) + [c]
  {
    assert ([c] + rest)[1..] == rest;
  }

  lemma {:induction false} ReversedIsForwards(n: nat, base: nat)
    requires 2 <= base <= 16
    ensures Reverse(Backwards(n, base)) == Forwards(n, base)
    decreases n
  {
    var q, c := Quot(n, base), DigitChar(Rem(n, base));
    if q == 0 {
      assert [c] + "" == [c];
      ReverseFirst(c, "");
    } else {
      ReversedIsForwards(q, base);
      ReverseFirst(c, Backwards(q, base));
    }
  }

  lemma {:induction false} ReadForwards(n: nat, base: nat)
    requires 2 <= base <= 16
    ensures ReadDigits(Forwards(n, base), base) == Some(n)
    decreases n
  {
    var q, d := Quot(n, base), Rem(n, base);
    QuotRem(n, base);
    if q == 0 {
      ReadOneMore("", 0, d, base);
    } else {
      ReadForwards(q, base);
      ReadOneMore(Forwards(q, base), q, d, base);
    }
  }

  lemma ReadBackwards(n: nat, base: nat)
    requires 2 <= base <= 16
    ensures ReadDigits(Reverse(Backwards(n, base)), base) == Some(n)
  {
    ReversedIsForwards(n, base);
    ReadForwards(n, base);
  }

  lemma ReadOneMore(s: string, high: nat, d: nat, base: nat)
    requires 2 <= base && d < base && d < 16 && ReadDigits(s, base) == Some(high)
    ensures ReadDigits(s + [DigitChar(d)], base) == Some(Shifted(high, base, d))
  {
    assert (s + [DigitChar(d)])[..|s|] == s;
  }

  lemma {:induction false} ZerosAreZero(k: int, base: nat)
    requires base >= 2
    ensures ReadDigits(Zeros(k), base) == Some(0)
    decreases k
  {
    if k > 0 {
      ZerosAreZero(k - 1, base);
      ReadOneMore(Zeros(k - 1), 0, 0, base);
    }
  }

  // Leading zeroes, whoever adds them, do not change the value.
  lemma {:induction false} LeadingZeros(k: int, s: string, base: nat)
    requires base >= 2
    ensures ReadDigits(Zeros(k) + s, base) == ReadDigits(s, base)
    decreases |s|
  {
    var z := Zeros(k);
    if s == "" {
      assert z + s == z;
      ZerosAreZero(k, base);
    } else {
      var init := s[..|s| - 1];
      LeadingZeros(k, init, base);
      assert (z + s)[..|z + s| - 1] == z + init;
    }
  }

  lemma {:induction false} ZerosSymmetric(k: int)
    ensures Reverse(Zeros(k)) == Zeros(k)
    decreases k
  {
    if k > 0 {
      ZerosSymmetric(k - 1);
      ReverseAppend(Zeros(k - 1), ['0']);
      ZeroFirst(k - 1);
      assert Reverse(['0']) == ['0'];
    }
  }

  lemma {:induction false} ZeroFirst(k: int)
    ensures ['0'] + Zeros(k) == Zeros(k) + ['0']
    decreases k
  {
    if k > 0 {
      ZeroFirst(k - 1);
    }
  }

  lemma PaddingKeepsValue(digits: string, padDigits: int, wide: bool, base: nat)
    requires base >= 2
    ensures ReadDigits(Reverse(Padded(digits, padDigits, wide)), base) == ReadDigits(Reverse(digits), base)
  {
    var r := Reverse(digits);
    if wide {
      var k := padDigits - |digits|;
      ReverseAppend(digits, Zeros(k));
      ZerosSymmetric(k);
      LeadingZeros(k, r, base);
    } else {
      var k := padDigits - |digits| - 1;
      ReverseAppend(digits + Zeros(1), Zeros(k));
      ReverseAppend(digits, Zeros(1));
      ZerosSymmetric(1);
      ZerosSymmetric(k);
      LeadingZeros(1, r, base);
      LeadingZeros(k, Zeros(1) + r, base);
    }
  }

  // The first character of an unsigned text is a digit, so it is not taken for a sign.
  lemma {:induction false} BackwardsEndsInDigit(n: nat, base: nat)
    requires 2 <= base <= 16
    ensures Backwards(n, base)[|Backwards(n, base)| - 1] != '-'
    decreases n
  {
    if Quot(n, base) != 0 {
      BackwardsEndsInDigit(Quot(n, base), base);
    }
  }

  lemma {:induction false} ZerosOnly(k: int)
    ensures forall c :: c in Zeros(k) ==> c == '0'
    decreases k
  {
    if k > 0 {
      ZerosOnly(k - 1);
    }
  }

  // Whatever the padding, reading the text in its base gives the value back.
  lemma ReadText(value: int, base: nat, padDigits: int, wide: bool)
    requires 2 <= base <= 16 && (value >= 0 || base == 10)
    ensures ReadNumber(Text(value, base, padDigits, wide), base) == Some(value)
  {
    var n := Magnitude(value);
    ReadPadded(n, base, padDigits, wide);
    PaddedEndsInDigit(n, base, padDigits, wide);
    TextParts(value, base, padDigits, wide);
    if value < 0 {
      ReadWithSign(Text(value, base, padDigits, wide), Padded(Backwards(n, base), padDigits, wide), base, n);
    } else {
      ReadWithoutSign(Text(value, base, padDigits, wide), Padded(Backwards(n, base), padDigits, wide), base, n);
    }
  }

  lemma TextParts(value: int, base: nat, padDigits: int, wide: bool)
    requires 2 <= base <= 16 && (value >= 0 || base == 10)
    ensures Text(value, base, padDigits, wide)
         == Reverse(Padded(Backwards(Magnitude(value), base), padDigits, wide) + (if value < 0 then "-" else ""))
  {
  }

  lemma ReadPadded(n: nat, base: nat, padDigits: int, wide: bool)
    requires 2 <= base <= 16
    ensures ReadDigits(Reverse(Padded(Backwards(n, base), padDigits, wide)), base) == Some(n)
  {
    ReadBackwards(n, base);
    PaddingKeepsValue(Backwards(n, base), padDigits, wide, base);
  }

  lemma ReadWithSign(text: string, padded: string, base: nat, n: nat)
    requires ReadDigits(Reverse(padded), base) == Some(n) && text == Reverse(padded + "-")
    ensures var m: int := n; ReadNumber(text, base) == Some(-m)
  {
    ReverseAppend(padded, "-");
    assert Reverse("-") == "-";
    ReadSigned(Reverse(padded), base, n);
  }

  lemma ReadWithoutSign(text: string, padded: string, base: nat, n: nat)
    requires ReadDigits(Reverse(padded), base) == Some(n) && text == Reverse(padded + "")
    requires padded != "" && padded[|padded| - 1] != '-'
    ensures ReadNumber(text, base) == Some(n)
  {
    assert padded + "" == padded;
    ReverseAt(padded, 0);
    ReadUnsigned(Reverse(padded), base, n);
  }

  lemma ReadSigned(s: string, base: nat, n: nat)
    requires ReadDigits(s, base) == Some(n)
    ensures var m: int := n; ReadNumber("-" + s, base) == Some(-m)
  {
    assert ("-" + s)[1..] == s;
  }

  lemma ReadUnsigned(s: string, base: nat, n: nat)
    requires ReadDigits(s, base) == Some(n) && s != "" && s[0] != '-'
    ensures ReadNumber(s, base) == Some(n)
  {
  }

  lemma PaddedEndsInDigit(n: nat, base: nat, padDigits: int, wide: bool)
    requires 2 <= base <= 16
    ensures var p := Padded(Backwards(n, base), padDigits, wide); p != "" && p[|p| - 1] != '-'
  {
    var digits := Backwards(n, base);
    BackwardsEndsInDigit(n, base);
    ZerosOnly(1);
    ZerosOnly(padDigits - |digits|);
    ZerosOnly(padDigits - |digits| - 1);
    var p := Padded(digits, padDigits, wide);
    var last := p[|p| - 1];
    assert last == digits[|digits| - 1] || last in Zeros(1) || last in Zeros(padDigits - |digits|)
        || last in Zeros(padDigits - |digits| - 1);
  }

  // The digits are minimal: their first one is not zero unless the number is.
  lemma {:induction false} NoLeadingZero(n: nat, base: nat)
    requires 2 <= base <= 16 && n > 0
    ensures Backwards(n, base)[|Backwards(n, base)| - 1] != '0'
    decreases n
  {
    if Quot(n, base) == 0 {
      QuotRem(n, base);
    } else {
      NoLeadingZero(Quot(n, base), base);
    }
  }

  // The width of a text: its digits, one zero more in the narrow version, at least padDigits, and the sign.
  lemma TextWidth(value: int, base: nat, padDigits: int, wide: bool)
    requires 2 <= base <= 16
    ensures var digits := |Backwards(Magnitude(value), base)| + if wide then 0 else 1;
            |Text(value, base, padDigits, wide)|
            == (if padDigits > digits then padDigits else digits) + if Negative(value, base) then 1 else 0
  {
    assert |Zeros(1)| == 1;
  }

  // Two values never share a text in one base, even under different padding.
  lemma TextIsInjective(v: int, w: int, base: nat, padV: int, padW: int, wide: bool)
    requires 2 <= base <= 16 && (v >= 0 || base == 10) && (w >= 0 || base == 10)
    requires Text(v, base, padV, wide) == Text(w, base, padW, wide)
    ensures v == w
  {
    ReadText(v, base, padV, wide);
    ReadText(w, base, padW, wide);
  }

  // -------------------------------------------------------------------------
  // The formatter

  // Stores one character after the first i.
  method PutChar(buffer: array<char>, i: nat, c: char)
    requires i < buffer.Length
    modifies buffer
    ensures buffer[..i + 1] == old(buffer[..i]) + [c]
    ensures forall x :: 0 <= x < buffer.Length && x != i ==> buffer[x] == old(buffer[x])
  {
    buffer[i] := c;
  }

  method DivideOnce(currentValue: nat, base: nat) returns (nextValue: nat, remainder: nat)
    requires base >= 2
    ensures nextValue == Quot(currentValue, base) && remainder == Rem(currentValue, base)
  {
    QuotRemMeaning(currentValue, base);
    nextValue := currentValue / base;
    assert currentValue == nextValue * base + currentValue % base;
    remainder := currentValue - nextValue * base;
  }

  // The digit loop: least significant digit first, at least one.
  method EmitDigits(buffer: array<char>, absValue: nat, base: nat) returns (offset: nat)
    requires 2 <= base <= 16 && |Backwards(absValue, base)| <= buffer.Length
    modifies buffer
    ensures offset == |Backwards(absValue, base)| && buffer[..offset] == Backwards(absValue, base)
    ensures forall x :: offset <= x < buffer.Length ==> buffer[x] == old(buffer[x])
  {
    offset := 0;
    var currentValue := absValue;
    ghost var rest := Backwards(absValue, base);
    assert buffer[..0] + rest == rest;
    while true
      invariant currentValue >= 0 && rest == Backwards(currentValue, base)
      invariant offset + |rest| <= buffer.Length
      invariant buffer[..offset] + rest == Backwards(absValue, base)
      invariant forall x :: offset <= x < buffer.Length ==> buffer[x] == old(buffer[x])
      decreases currentValue
    {
      var nextValue, remainder := DivideOnce(currentValue, base);
      ghost var tail := if nextValue == 0 then "" else Backwards(nextValue, base);
      MoveOne(buffer[..offset], DigitChar(remainder), tail);
      assert rest == [DigitChar(remainder)] + tail;
      PutChar(buffer, offset, DigitChar(remainder));
      offset := offset + 1;
      if nextValue == 0 {
        break;
      }
      currentValue, rest := nextValue, tail;
    }
  }

  // One padding loop; it does nothing when there is nothing to pad.
  method Pad(buffer: array<char>, start: nat, padDigits: int) returns (offset: nat)
    requires start <= buffer.Length && padDigits <= buffer.Length
    modifies buffer
    ensures offset == start + |Zeros(padDigits - start)| <= buffer.Length
    ensures buffer[..offset] == old(buffer[..start]) + Zeros(padDigits - start)
    ensures forall x :: offset <= x < buffer.Length ==> buffer[x] == old(buffer[x])
  {
    offset := start;
    assert buffer[..offset] == old(buffer[..start]) + Zeros(0);
    while padDigits > offset
      invariant start <= offset <= buffer.Length && (offset == start || offset <= padDigits)
      invariant buffer[..offset] == old(buffer[..start]) + Zeros(offset - start)
      invariant forall x :: offset <= x < buffer.Length ==> buffer[x] == old(buffer[x])
    {
      PutChar(buffer, offset, '0');
      offset := offset + 1;
    }
  }

  // The padding of the two versions: a while loop, or a do-while loop that always runs once.
  method EmitPadding(buffer: array<char>, start: nat, padDigits: int, wide: bool) returns (offset: nat)
    requires start <= buffer.Length && |Padded(buffer[..start], padDigits, wide)| <= buffer.Length
    modifies buffer
    ensures offset == |Padded(old(buffer[..start]), padDigits, wide)|
    ensures buffer[..offset] == Padded(old(buffer[..start]), padDigits, wide)
    ensures forall x :: offset <= x < buffer.Length ==> buffer[x] == old(buffer[x])
  {
    offset := start;
    if !wide {
      PutChar(buffer, offset, '0');
      offset := offset + 1;
      assert Zeros(1) == Zeros(0) + ['0'];
    }
    offset := Pad(buffer, offset, padDigits);
  }

  // The in-place reversal: indices up to the middle are swapped with their mirror images.
  method ReverseInPlace(buffer: array<char>, offset: nat)
    requires 1 <= offset <= buffer.Length
    modifies buffer
    ensures buffer[..offset] == Reverse(old(buffer[..offset]))
    ensures forall x :: offset <= x < buffer.Length ==> buffer[x] == old(buffer[x])
  {
    var halfOffset := (offset - 1) / 2;
    var index := 0;
    while index <= halfOffset
      invariant 0 <= index <= halfOffset + 1
      invariant forall k :: 0 <= k < index ==>
                  buffer[k] == old(buffer[offset - 1 - k]) && buffer[offset - 1 - k] == old(buffer[k])
      invariant forall k :: index <= k < offset - index ==> buffer[k] == old(buffer[k])
      invariant forall x :: offset <= x < buffer.Length ==> buffer[x] == old(buffer[x])
    {
      var swapIndex := offset - index - 1;
      var temp := buffer[index];
      buffer[index] := buffer[swapIndex];
      buffer[swapIndex] := temp;
      index := index + 1;
    }
    ghost var was := old(buffer[..offset]);
    forall k | 0 <= k < offset ensures buffer[..offset][k] == Reverse(was)[k] {
      ReverseAt(was, k);
    }
  }

  // witoabuf. The minimum of a signed type has no magnitude in the type, and a negative value in a base
  // other than 10 indexes the digit table with a negative remainder.
  method Witoabuf(buffer: array<char>, t: IntType, value: int, base: nat, padDigits: int, wide: bool)
    returns (offset: nat)
    requires 2 <= base <= 16 && t.Min() <= value <= t.Max()
    requires value < 0 ==> base == 10 && value != t.Min()
    requires |Text(value, base, padDigits, wide)| < buffer.Length
    modifies buffer
    ensures offset == |Text(value, base, padDigits, wide)|
    ensures buffer[..offset] == Text(value, base, padDigits, wide) && buffer[offset] == '\0'
    ensures forall x :: offset < x < buffer.Length ==> buffer[x] == old(buffer[x])
  {
    var isNegative := value < 0 && base == 10;
    var absValue := if isNegative then -value else value;
    assert absValue <= t.Max();
    ghost var digits := Backwards(absValue, base);
    offset := EmitDigits(buffer, absValue, base);
    offset := EmitPadding(buffer, offset, padDigits, wide);
    if isNegative {
      PutChar(buffer, offset, '-');
      offset := offset + 1;
    }
    assert buffer[..offset] == BackwardsText(value, base, padDigits, wide);
    buffer[offset] := '\0';
    ReverseInPlace(buffer, offset);
  }
}
