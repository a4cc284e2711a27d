/** Byte-addressed memory with little-endian 64-bit words and NUL-terminated strings. */
module StackMemory {
  import opened Basics

  // A non-zero UTF-16 code unit: what a wide string is made of before its terminator.
  type Wide = w: nat | 0 < w < 0x1_0000 witness 1

  // -------------------------------------------------------------------------
  // Words

  function Bytes(w: nat, k: nat): (s: seq<Byte>)
    ensures |s| == k
  {
    if k == 0 then [] else [w % 256] + Bytes(w / 256, k - 1)
  }

  function Value(s: seq<Byte>): nat {
    if s == [] then 0 else s[0] as nat + 256 * Value(s[1..])
  }

  function Pow256(k: nat): nat {
    if k == 0 then 1 else 256 * Pow256(k - 1)
  }

  lemma {:induction false} ValueOfBytes(w: nat, k: nat)
    requires w < Pow256(k)
    ensures Value(Bytes(w, k)) == w
  {
    if k > 0 {
      ValueOfBytes(w / 256, k - 1);
      assert Bytes(w, k)[1..] == Bytes(w / 256, k - 1);
    }
  }

  lemma WordSize()
    ensures Pow256(8) == 0x1_0000_0000_0000_0000
  {
    assert Pow256(4) == 0x1_0000_0000;
    assert Pow256(6) == 0x1_0000_0000_0000;
  }

  ghost function ReadWord(m: seq<Byte>, off: nat): nat
    requires off + 8 <= |m|
  {
    Value(m[off..off + 8])
  }

  method StoreWord(mem: array<Byte>, off: nat, w: nat)
    requires off + 8 <= mem.Length && w < 0x1_0000_0000_0000_0000
    modifies mem
    ensures ReadWord(mem[..], off) == w && mem[off] as nat == w % 256
    ensures Outside(old(mem[..]), mem[..], off, off + 8)
  {
    var i, rest := 0, w;
    assert Bytes(w, 8) == [] + Bytes(w, 8);
    while i < 8
      invariant 0 <= i <= 8 && rest >= 0
      invariant Bytes(w, 8) == mem[off..off + i] + Bytes(rest, 8 - i)
      invariant forall x :: 0 <= x < mem.Length && !(off <= x < off + i) ==> mem[x] == old(mem[x])
    {
      ghost var done := mem[off..off + i];
      mem[off + i] := rest % 256;
      assert mem[off..off + i + 1] == done + [rest % 256];
      Peel(done, rest, 8 - i);
      rest := rest / 256;
      i := i + 1;
    }
    WordSize();
    ValueOfBytes(w, 8);
    assert mem[off..off + 8] == Bytes(w, 8);
    assert mem[..][off..off + 8] == mem[off..off + 8];
  }

  lemma Peel(done: seq<Byte>, rest: nat, k: nat)
    requires k > 0
    ensures done + Bytes(rest, k) == done + [rest % 256] + Bytes(rest / 256, k - 1)
  {
  }

  // -------------------------------------------------------------------------
  // Frames

  // m' differs from m at most in [lo, hi).
  ghost predicate Outside(m: seq<Byte>, m': seq<Byte>, lo: nat, hi: nat) {
    |m'| == |m| && forall x :: 0 <= x < |m| && !(lo <= x < hi) ==> m'[x] == m[x]
  }

  ghost predicate Same(m: seq<Byte>, m': seq<Byte>, lo: nat, hi: nat) {
    |m'| == |m| && forall x :: lo <= x < hi && x < |m| ==> m'[x] == m[x]
  }

  lemma SameWithin(m: seq<Byte>, m': seq<Byte>, lo: nat, hi: nat, from: nat, to: nat)
    requires Same(m, m', lo, hi) && lo <= from && to <= hi
    ensures Same(m, m', from, to)
  {
  }

  lemma SameWord(m: seq<Byte>, m': seq<Byte>, off: nat)
    requires off + 8 <= |m| && Same(m, m', off, off + 8)
    ensures ReadWord(m', off) == ReadWord(m, off)
  {
    assert m'[off..off + 8] == m[off..off + 8];
  }

  // -------------------------------------------------------------------------
  // Strings

  function LowByte(c: Wide): Byte {
    var n: nat := c;
    n % 256
  }

  // The low byte of each code unit.
  function Narrow(s: seq<Wide>): (r: seq<Byte>)
    ensures |r| == |s|
  {
    seq(|s|, i requires 0 <= i < |s| => LowByte(s[i]))
  }

  // What a reader of a C string sees: the bytes before the first zero.
  function UntilZero(s: seq<Byte>): seq<Byte> {
    if s == [] || s[0] == 0 then [] else [s[0]] + UntilZero(s[1..])
  }

  ghost function CString(m: seq<Byte>, off: nat): seq<Byte>
    requires off <= |m|
  {
    UntilZero(m[off..])
  }

  function Min(a: nat, b: nat): nat {
    if a < b then a else b
  }

  // How many characters a conversion with this limit copies.
  function Copied<T>(s: seq<T>, limit: nat): nat {
    Min(|s|, limit)
  }

  // Characters that a list of strings takes, each with its terminator, when copied with this limit.
  function Used<T>(strs: seq<seq<T>>, limit: nat): nat {
    if strs == [] then 0
    else Used(strs[..|strs| - 1], limit) + Copied(strs[|strs| - 1], limit) + 1
  }

  lemma UsedStep<T>(strs: seq<seq<T>>, limit: nat, j: nat)
    requires j < |strs|
    ensures Used(strs[..j + 1], limit) == Used(strs[..j], limit) + Copied(strs[j], limit) + 1
  {
    assert strs[..j + 1][..j] == strs[..j];
  }

  lemma {:induction false} UsedGrows<T>(strs: seq<seq<T>>, limit: nat, i: nat, j: nat)
    requires i <= j <= |strs|
    ensures Used(strs[..i], limit) <= Used(strs[..j], limit)
    decreases j - i
  {
    if i < j {
      UsedStep(strs, limit, j - 1);
      UsedGrows(strs, limit, i, j - 1);
    }
  }

  // A conversion without an output buffer, in either direction, only counts.
  method CountCopied<T>(s: seq<T>, limit: nat) returns (index: nat)
    ensures index == Copied(s, limit) && index <= |s| && index <= limit && (index == |s| || index == limit)
  {
    index := 0;
    while index < |s| && index < limit
      invariant index <= |s| && index <= limit
    {
      index := index + 1;
    }
  }

  // The counting loops of CreateProcess and sys_execve.
  method CountAllCopied<T>(strs: seq<seq<T>>, limit: nat) returns (units: nat, count: nat)
    ensures units == Used(strs, limit) && count == |strs|
  {
    units, count := 0, 0;
    while count < |strs|
      invariant count <= |strs| && units == Used(strs[..count], limit)
    {
      UsedStep(strs, limit, count);
      var n := CountCopied(strs[count], limit);
      units := units + n + 1;
      count := count + 1;
    }
    assert strs[..|strs|] == strs;
  }

  // wide_to_ascii into memory: the low bytes, then a zero.
  method WideToAscii(mem: array<Byte>, off: nat, s: seq<Wide>, limit: nat) returns (index: nat)
    requires off + Copied(s, limit) < mem.Length
    modifies mem
    ensures index == Copied(s, limit) && index <= |s| && index <= limit && (index == |s| || index == limit)
    ensures mem[off..off + index + 1] == Narrow(s[..index]) + [0]
    ensures Outside(old(mem[..]), mem[..], off, off + index + 1)
  {
    index := 0;
    while index < |s| && index < limit
      invariant index <= |s| && index <= limit
      invariant forall k :: 0 <= k < index ==> mem[off + k] == LowByte(s[k])
      invariant forall x :: 0 <= x < mem.Length && !(off <= x < off + index) ==> mem[x] == old(mem[x])
    {
      mem[off + index] := LowByte(s[index]);
      index := index + 1;
    }
    mem[off + index] := 0;
  }

  // A reader of a copied string sees its low bytes up to the first zero among them.
  lemma CopiedString(m: seq<Byte>, off: nat, text: seq<Byte>)
    requires off + |text| < |m| && m[off..off + |text| + 1] == text + [0]
    ensures CString(m, off) == UntilZero(text)
  {
    var stored := m[off..off + |text| + 1];
    assert stored[|text|] == m[off + |text|] == 0;
    forall i | 0 <= i < |text| ensures m[off + i] == text[i] {
      assert stored[i] == m[off + i];
    }
    ReadUntilZero(m, off, text);
  }

  lemma {:induction false} ReadUntilZero(m: seq<Byte>, off: nat, text: seq<Byte>)
    requires off + |text| < |m| && m[off + |text|] == 0
    requires forall i :: 0 <= i < |text| ==> m[off + i] == text[i]
    ensures UntilZero(m[off..]) == UntilZero(text)
    decreases |text|
  {
    if text != [] && text[0] != 0 {
      assert m[off + 0] == text[0];
      assert m[off..][1..] == m[off + 1..];
      forall i | 0 <= i < |text| - 1 ensures m[off + 1 + i] == text[1..][i] {
        assert m[off + (i + 1)] == text[i + 1];
      }
      ReadUntilZero(m, off + 1, text[1..]);
    } else if text != [] {
      assert m[off + 0] == text[0];
    }
  }

  // The bytes before the first zero: nothing less and nothing more.
  lemma {:induction false} UntilZeroIsPrefix(s: seq<Byte>)
    ensures var r := UntilZero(s);
            && |r| <= |s| && (forall i :: 0 <= i < |r| ==> r[i] == s[i] != 0)
            && (|r| < |s| ==> s[|r|] == 0)
  {
    if s != [] && s[0] != 0 {
      UntilZeroIsPrefix(s[1..]);
      var r, rest := UntilZero(s), UntilZero(s[1..]);
      forall i | 0 <= i < |r| ensures r[i] == s[i] != 0 {
        assert i == 0 || (r[i] == rest[i - 1] && s[i] == s[1..][i - 1]);
      }
    }
  }

  lemma {:induction false} UntilZeroExact(s: seq<Byte>)
    ensures |UntilZero(s)| <= |s|
    ensures UntilZero(s) == s <==> forall i :: 0 <= i < |s| ==> s[i] != 0
  {
    if s != [] {
      UntilZeroExact(s[1..]);
      assert s == [s[0]] + s[1..];
      if s[0] != 0 {
        assert UntilZero(s)[1..] == UntilZero(s[1..]);
        assert (forall i :: 0 <= i < |s| ==> s[i] != 0) <==> (forall i :: 0 <= i < |s[1..]| ==> s[1..][i] != 0) by {
          forall i | 0 < i < |s| ensures s[i] == s[1..][i - 1] {}
        }
      }
    }
  }
}
