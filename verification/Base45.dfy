/** The Base45 encoder, against the encoding and decoding rules of section 4 of RFC 9285. */
module Base45 {
  import opened Basics

  // The 45-entry table: the digits, the upper-case letters, then nine punctuation characters.
  function Charset(d: nat): char
    requires d < 45
  {
    if d < 10 then '0' + d as char
    else if d < 36 then 'A' + (d - 10) as char
    else PUNCTUATION[d - 36]
  }

  const PUNCTUATION: string := " $%*+-./:"

  const BASE45_MEMORY_ERROR: int := 4

  // -------------------------------------------------------------------------
  // The rules of the RFC

  // k base-45 digits of n, least significant first.
  function Digits(n: nat, k: nat): (s: string)
    ensures |s| == k
  {
    if k == 0 then "" else [Charset(n % 45)] + Digits(n / 45, k - 1)
  }

  // Two bytes give three characters, a last single byte gives two.
  function Encoded(bytes: seq<Byte>): string
    decreases |bytes|
  {
    if bytes == [] then ""
    else if |bytes| == 1 then Digits(bytes[0], 2)
    else Digits(Pair(bytes[0], bytes[1]), 3) + Encoded(bytes[2..])
  }

  function Pair(a: Byte, b: Byte): (n: nat)
    ensures n < 65536
  {
    var high: nat := a;
    high * 256 + b
  }

  // Position of a character in the alphabet.
  function IndexOf(c: char): Option<nat> {
    if '0' <= c <= '9' then Some((c - '0') as nat)
    else if 'A' <= c <= 'Z' then Some(10 + (c - 'A') as nat)
    else
      match c
      case ' ' => Some(36)
      case '$' => Some(37)
      case '%' => Some(38)
      case '*' => Some(39)
      case '+' => Some(40)
      case '-' => Some(41)
      case '.' => Some(42)
      case '/' => Some(43)
      case ':' => Some(44)
      case _ => None
  }

  function ValueOf(s: string): Option<nat> {
    if s == "" then Some(0)
    else
      match (IndexOf(s[0]), ValueOf(s[1..]))
      case (Some(c), Some(rest)) => Some(c + 45 * rest)
      case _ => None
  }

  // Decoding rejects foreign characters, a left-over single character, and groups whose value is too large.
  function Decoded(s: string): Option<seq<Byte>>
    decreases |s|
  {
    if s == "" then Some([])
    else if |s| == 1 then None
    else if |s| == 2 then
      match ValueOf(s)
      case Some(n) => if n < 256 then Some([n]) else None
      case None => None
    else
      match (ValueOf(s[..3]), Decoded(s[3..]))
      case (Some(n), Some(rest)) => if n < 65536 then Some([n / 256, n % 256] + rest) else None
      case _ => None
  }

  function Pow45(k: nat): nat {
    if k == 0 then 1 else 45 * Pow45(k - 1)
  }

  // The table lists 45 different characters, and IndexOf finds exactly those.
  lemma AlphabetInverse(d: nat, c: char)
    ensures d < 45 ==> IndexOf(Charset(d)) == Some(d)
    ensures IndexOf(c).Some? ==> IndexOf(c).value < 45 && Charset(IndexOf(c).value) == c
  {
    if d >= 36 && d < 45 {
      assert d == 36 || d == 37 || d == 38 || d == 39 || d == 40 || d == 41 || d == 42 || d == 43 || d == 44;
    }
  }

  lemma {:induction false} DigitsValue(n: nat, k: nat)
    requires n < Pow45(k)
    ensures ValueOf(Digits(n, k)) == Some(n)
  {
    if k > 0 {
      DigitsValue(n / 45, k - 1);
      AlphabetInverse(n % 45, '0');
      assert Digits(n, k)[1..] == Digits(n / 45, k - 1);
    }
  }

  lemma {:induction false} ValueDigits(s: string)
    requires ValueOf(s).Some?
    ensures ValueOf(s).value < Pow45(|s|) && Digits(ValueOf(s).value, |s|) == s
  {
    if s != "" {
      ValueDigits(s[1..]);
      AlphabetInverse(0, s[0]);
      var c, rest := IndexOf(s[0]).value, ValueOf(s[1..]).value;
      assert (c + 45 * rest) / 45 == rest && (c + 45 * rest) % 45 == c;
      assert s == [s[0]] + s[1..];
    }
  }

  // Every group fits its digits: 255 < 45^2 and 65535 < 45^3.
  lemma GroupSizes()
    ensures Pow45(2) == 2025 && Pow45(3) == 91125
  {
    assert Pow45(1) == 45;
  }

  lemma PairBytes(a: Byte, b: Byte)
    ensures Pair(a, b) / 256 == a && Pair(a, b) % 256 == b
  {
  }

  lemma DecodePair(group: string, tail: string)
    requires |group| == 3
    ensures Decoded(group + tail) ==
            match (ValueOf(group), Decoded(tail))
            case (Some(n), Some(rest)) => if n < 65536 then Some([n / 256, n % 256] + rest) else None
            case _ => None
  {
    assert (group + tail)[..3] == group && (group + tail)[3..] == tail;
  }

  lemma DecodeSingle(b: Byte)
    ensures Decoded(Digits(b, 2)) == Some([b])
  {
    GroupSizes();
    DigitsValue(b, 2);
  }

  lemma DecodeGroup(a: Byte, b: Byte, tail: string, rest: seq<Byte>)
    requires Decoded(tail) == Some(rest)
    ensures Decoded(Digits(Pair(a, b), 3) + tail) == Some([a, b] + rest)
  {
    GroupSizes();
    DigitsValue(Pair(a, b), 3);
    DecodePair(Digits(Pair(a, b), 3), tail);
    PairBytes(a, b);
  }

  // Decoding undoes encoding for every byte string.
  lemma {:induction false} DecodeEncoded(bytes: seq<Byte>)
    ensures Decoded(Encoded(bytes)) == Some(bytes)
    decreases |bytes|
  {
    if |bytes| == 1 {
      DecodeSingle(bytes[0]);
      assert bytes == [bytes[0]];
    } else if |bytes| > 1 {
      DecodeEncoded(bytes[2..]);
      DecodeGroup(bytes[0], bytes[1], Encoded(bytes[2..]), bytes[2..]);
      assert bytes == [bytes[0], bytes[1]] + bytes[2..];
    }
  }

  // And encoding undoes every successful decoding, so the code words are exactly the decodable strings.
  lemma {:induction false} EncodeDecoded(s: string)
    requires Decoded(s).Some?
    ensures Encoded(Decoded(s).value) == s
    decreases |s|
  {
    if |s| == 2 {
      ValueDigits(s);
    } else if |s| > 2 {
      ValueDigits(s[..3]);
      EncodeDecoded(s[3..]);
      EncodedPair(ValueOf(s[..3]).value, Decoded(s[3..]).value);
      assert s == s[..3] + s[3..];
    }
  }

  lemma EncodedPair(n: nat, rest: seq<Byte>)
    requires n < 65536
    ensures Encoded([n / 256, n % 256] + rest) == Digits(n, 3) + Encoded(rest)
  {
    assert ([n / 256, n % 256] + rest)[2..] == rest;
  }

  lemma {:induction false} EncodedLength(bytes: seq<Byte>)
    ensures |Encoded(bytes)| == |bytes| / 2 * 3 + |bytes| % 2 * 2
    decreases |bytes|
  {
    if |bytes| > 1 {
      EncodedLength(bytes[2..]);
    }
  }

  // -------------------------------------------------------------------------
  // The encoder

  function Pow(base: nat, exp: nat): nat {
    if exp == 0 then 1 else base * Pow(base, exp - 1)
  }

  method PowInt(base: nat, exp: nat) returns (result: nat)
    ensures result == Pow(base, exp)
  {
    result := 1;
    for index := 0 to exp
      invariant result == Pow(base, index)
    {
      result := result * base;
    }
  }

  // The value of a group of one or two bytes, most significant first.
  function GroupValue(group: seq<Byte>): nat
    requires 1 <= |group| <= 2
  {
    if |group| == 1 then group[0] else Pair(group[0], group[1])
  }

  lemma GroupFits(group: seq<Byte>)
    requires 1 <= |group| <= 2
    ensures GroupValue(group) < Pow45(|group| + 1)
  {
    GroupSizes();
  }

  method GroupSum(src: seq<Byte>) returns (sum: nat)
    requires 1 <= |src| <= 2
    ensures sum == GroupValue(src)
  {
    sum := 0;
    for i := 0 to |src|
      invariant sum == if i == 0 then 0 else if i == 1 then src[|src| - 1] as nat else GroupValue(src)
    {
      var c: nat := src[|src| - i - 1];
      var weight := PowInt(256, i);
      assert weight == if i == 0 then 1 else 256 by { assert Pow(256, 1) == 256 * Pow(256, 0); }
      sum := sum + c * weight;
    }
    assert sum < 0x1_0000_0000; // no wrap-around in 32 bits
  }

  // Storing the next digit of a text extends the part that is written and leaves the rest to come.
  lemma PeelDigit(text: string, i: nat, n: nat, k: nat)
    requires i <= |text| && text[i..] == Digits(n, k) && 0 < n < Pow45(k)
    ensures k > 0 && n / 45 < Pow45(k - 1) && i < |text|
    ensures text[i] == Charset(n % 45) && text[i + 1..] == Digits(n / 45, k - 1)
  {
    assert text[i] == text[i..][0] && text[i + 1..] == text[i..][1..];
  }

  lemma PeelZero(text: string, i: nat, k: nat)
    requires i <= |text| && text[i..] == Digits(0, k) && k > 0
    ensures i < |text| && text[i] == Charset(0) && text[i + 1..] == Digits(0, k - 1)
  {
    assert text[i] == text[i..][0] && text[i + 1..] == text[i..][1..];
  }

  // Stores character i of the text.
  method PutChar(dst: array<char>, offset: nat, i: nat, c: char, ghost text: string)
    requires offset + i < dst.Length && i < |text| && c == text[i] && dst[offset..offset + i] == text[..i]
    modifies dst
    ensures dst[offset..offset + i + 1] == text[..i + 1]
    ensures forall x :: 0 <= x < dst.Length && x != offset + i ==> dst[x] == old(dst[x])
  {
    dst[offset + i] := c;
  }

  // encode: writes the digits of one group up to its leading zeroes, which are all that is left to write.
  method EncodeGroup(dst: array<char>, offset: nat, src: seq<Byte>) returns (written: nat)
    requires 1 <= |src| <= 2 && offset + |src| + 1 <= dst.Length
    modifies dst
    ensures var text := Digits(GroupValue(src), |src| + 1);
            && written <= |src| + 1 && dst[offset..offset + written] == text[..written]
            && text[written..] == Digits(0, |src| + 1 - written)
    ensures forall x :: 0 <= x < dst.Length && !(offset <= x < offset + written) ==> dst[x] == old(dst[x])
  {
    var sum: nat := GroupSum(src);
    GroupFits(src);
    written := WriteDigits(dst, offset, sum, |src| + 1, Digits(sum, |src| + 1));
  }

  // The digit loop.
  method WriteDigits(dst: array<char>, offset: nat, value: nat, ghost k: nat, ghost text: string) returns (written: nat)
    requires value < Pow45(k) && offset + k <= dst.Length && text == Digits(value, k)
    modifies dst
    ensures written <= k
    ensures dst[offset..offset + written] == text[..written] && text[written..] == Digits(0, k - written)
    ensures forall x :: 0 <= x < dst.Length && !(offset <= x < offset + written) ==> dst[x] == old(dst[x])
  {
    var sum := value;
    written := 0;
    while sum > 0
      invariant 0 <= sum && written <= k && sum < Pow45(k - written)
      invariant dst[offset..offset + written] == text[..written] && text[written..] == Digits(sum, k - written)
      invariant forall x :: 0 <= x < dst.Length && !(offset <= x < offset + written) ==> dst[x] == old(dst[x])
    {
      PeelDigit(text, written, sum, k - written);
      PutChar(dst, offset, written, Charset(sum % 45), text);
      sum := sum / 45;
      written := written + 1;
    }
  }

  // Writes one group and its leading zeroes.
  method WriteGroup(dst: array<char>, offset: nat, src: seq<Byte>)
    requires 1 <= |src| <= 2 && offset + |src| + 1 <= dst.Length
    modifies dst
    ensures dst[offset..offset + |src| + 1] == Digits(GroupValue(src), |src| + 1)
    ensures forall x :: 0 <= x < dst.Length && !(offset <= x < offset + |src| + 1) ==> dst[x] == old(dst[x])
  {
    var size := |src|;
    var written: nat := EncodeGroup(dst, offset, src);
    ghost var text := Digits(GroupValue(src), size + 1);
    while written < size + 1
      invariant written <= size + 1
      invariant dst[offset..offset + written] == text[..written] && text[written..] == Digits(0, size + 1 - written)
      invariant forall x :: 0 <= x < dst.Length && !(offset <= x < offset + written) ==> dst[x] == old(dst[x])
    {
      PeelZero(text, written, size + 1 - written);
      PutChar(dst, offset, written, Charset(0), text);
      written := written + 1;
    }
    assert text[..size + 1] == text;
  }

  // size_t to int
  function ToInt32(n: nat): int {
    var low := n % 0x1_0000_0000;
    if low < 0x8000_0000 then low else low - 0x1_0000_0000
  }

  lemma Int32Value(n: nat)
    ensures n < 0x8000_0000 ==> ToInt32(n) == n
    ensures -0x8000_0000 <= ToInt32(n) < 0x8000_0000 && (n - ToInt32(n)) % 0x1_0000_0000 == 0
  {
    var high, low := n / 0x1_0000_0000, n % 0x1_0000_0000;
    assert n - low == 0x1_0000_0000 * high && n - low + 0x1_0000_0000 == 0x1_0000_0000 * (high + 1);
  }

  // Nothing is written past the returned length, and nothing at all when the buffer is too small.
  // The length is returned as a 32-bit int: itself below 2^31, and its value modulo 2^32 in any case.
  method Encode(dest: array<char>, input: seq<Byte>) returns (result: int)
    modifies dest
    ensures dest.Length <= |Encoded(input)| ==> result == -BASE45_MEMORY_ERROR && dest[..] == old(dest[..])
    ensures dest.Length > |Encoded(input)| ==>
              && (|Encoded(input)| < 0x8000_0000 ==> result == |Encoded(input)|)
              && -0x8000_0000 <= result < 0x8000_0000 && (|Encoded(input)| - result) % 0x1_0000_0000 == 0
              && dest[..|Encoded(input)|] == Encoded(input)
              && dest[|Encoded(input)|..] == old(dest[|Encoded(input)|..])
  {
    var requiredLength := |input| / 2 * 3 + |input| % 2 * 2 + 1;
    EncodedLength(input);
    if dest.Length < requiredLength {
      return -BASE45_MEMORY_ERROR;
    }
    EncodeGroups(dest, input);
    Int32Value(requiredLength - 1);
    result := ToInt32(requiredLength - 1);
  }

  // The loop of Base45_encode.
  method EncodeGroups(dest: array<char>, input: seq<Byte>)
    requires |Encoded(input)| <= dest.Length
    modifies dest
    ensures dest[..|Encoded(input)|] == Encoded(input)
    ensures forall x :: |Encoded(input)| <= x < dest.Length ==> dest[x] == old(dest[x])
  {
    var i, offset := 0, 0;
    ghost var done, rest := "", Encoded(input);
    assert input[0..] == input && done + rest == Encoded(input);
    while i < |input|
      invariant i <= |input| && offset == |done| <= dest.Length
      invariant rest == Encoded(input[i..]) && done + rest == Encoded(input)
      invariant dest[..offset] == done
      invariant forall x :: offset <= x < dest.Length ==> dest[x] == old(dest[x])
    {
      var size;
      size, done := EncodeNext(dest, input, i, offset, done);
      i := i + size;
      offset := offset + size + 1;
      rest := Encoded(input[i..]);
    }
    assert done == Encoded(input);
  }

  // One round: two bytes at a time, or the last one alone.
  method EncodeNext(dest: array<char>, input: seq<Byte>, i: nat, offset: nat, ghost done: string)
    returns (size: nat, ghost more: string)
    requires i < |input| && offset == |done| && offset + |Encoded(input[i..])| <= dest.Length
    requires dest[..offset] == done
    modifies dest
    ensures 0 < size <= |input| - i && |more| == offset + size + 1 <= dest.Length && dest[..|more|] == more
    ensures more + Encoded(input[i + size..]) == done + Encoded(input[i..])
    ensures forall x :: |more| <= x < dest.Length ==> dest[x] == old(dest[x])
  {
    size := if |input| - i > 1 then 2 else 1;
    var group := input[i..i + size];
    SplitGroup(input, i, size);
    WriteGroup(dest, offset, group);
    ghost var text := Digits(GroupValue(group), size + 1);
    GroupDone(dest[..], done, text, Encoded(input[i + size..]));
    more := done + text;
  }

  lemma GroupDone(dest: string, done: string, text: string, rest: string)
    requires |done| + |text| <= |dest| && dest[..|done|] == done && dest[|done|..|done| + |text|] == text
    ensures dest[..|done + text|] == done + text && done + text + rest == done + (text + rest)
  {
  }

  lemma SplitGroup(input: seq<Byte>, i: nat, size: nat)
    requires i < |input| && size == if |input| - i > 1 then 2 else 1
    ensures Encoded(input[i..]) == Digits(GroupValue(input[i..i + size]), size + 1) + Encoded(input[i + size..])
  {
    var rest := input[i..];
    assert rest[..size] == input[i..i + size] && rest[size..] == input[i + size..];
  }
}
