/**
 * The hexadecimal codec of the back end: `print_hex` writes bytes as
 * lower-case hexadecimal digits, high nibble first, and `scan_hex` reads
 * them back; it accepts only the lower-case digits `print_hex` writes.
 */
module HexCodec {

  import opened CTypes

  /** The digits `print_hex` writes, indexed by their value. */
  const LowerHexDigits: seq<char> := "0123456789abcdef"

  predicate IsLowerHex(c: char)
  {
    '0' <= c <= '9' || 'a' <= c <= 'f'
  }

  predicate AllLowerHex(s: seq<char>)
  {
    forall k :: 0 <= k < |s| ==> IsLowerHex(s[k])
  }

  /** The digit for a nibble: ten and up are offset from `'a'`, the rest from `'0'`. */
  function HexDigit(v: int): (c: char)
    requires 0 <= v < 16
    ensures IsLowerHex(c)
  {
    if v >= 10 then (v - 10 + 'a' as int) as char else (v + '0' as int) as char
  }

  /** The value of a lower-case hexadecimal digit. */
  function NibbleValue(c: char): (v: int)
    requires IsLowerHex(c)
    ensures 0 <= v < 16
  {
    if 'a' <= c <= 'f' then c as int - 'a' as int + 10 else c as int - '0' as int
  }

  /** The digit of a nibble is the one at its place in the digit table. */
  lemma DigitInTable(v: int)
    requires 0 <= v < 16
    ensures HexDigit(v) == LowerHexDigits[v]
  {
  }

  /** A digit and its value determine each other. */
  lemma NibbleDigit(v: int, c: char)
    requires 0 <= v < 16 && IsLowerHex(c)
    ensures NibbleValue(c) == v <==> HexDigit(v) == c
  {
  }

  /** The two digits of one byte. */
  function HexByte(b: Byte): (r: seq<char>)
    ensures |r| == 2 && AllLowerHex(r)
  {
    [HexDigit(b / 16), HexDigit(b % 16)]
  }

  /** The text `print_hex` writes for the bytes d, before its NUL. */
  function Hex(d: seq<Byte>): (r: seq<char>)
    ensures |r| == 2 * |d| && AllLowerHex(r)
  {
    if d == [] then [] else HexByte(d[0]) + Hex(d[1..])
  }

  /** The byte two digits stand for, the first one the high nibble. */
  function ByteOfDigits(hi: char, lo: char): Byte
    requires IsLowerHex(hi) && IsLowerHex(lo)
  {
    NibbleValue(hi) * 16 + NibbleValue(lo)
  }

  /** A byte is its high nibble shifted up, or-ed with its low nibble, and nothing else is. */
  lemma Nibbles(b: Byte, hi: int, lo: int)
    requires 0 <= hi < 16 && 0 <= lo < 16
    ensures hi * 16 + lo == b <==> hi == b / 16 && lo == b % 16
  {
  }

  /** The two digits of the byte two digits stand for are those digits. */
  lemma DigitsOfByte(hi: char, lo: char)
    requires IsLowerHex(hi) && IsLowerHex(lo)
    ensures HexByte(ByteOfDigits(hi, lo)) == [hi, lo]
  {
    var b := ByteOfDigits(hi, lo);
    Nibbles(b, NibbleValue(hi), NibbleValue(lo));
    NibbleDigit(b / 16, hi);
    NibbleDigit(b % 16, lo);
  }

  /** The byte the two digits of b stand for is b. */
  lemma ByteOfItsDigits(b: Byte)
    ensures ByteOfDigits(HexDigit(b / 16), HexDigit(b % 16)) == b
  {
    NibbleDigit(b / 16, HexDigit(b / 16));
    NibbleDigit(b % 16, HexDigit(b % 16));
  }

  /** The bytes `scan_hex` stores for a text of lower-case digit pairs. */
  function Unhex(s: seq<char>): (d: seq<Byte>)
    requires |s| % 2 == 0 && AllLowerHex(s)
    ensures 2 * |d| == |s|
  {
    if s == [] then [] else [ByteOfDigits(s[0], s[1])] + Unhex(s[2..])
  }

  /** Reading back what was written gives the bytes. */
  lemma {:induction false} UnhexHex(d: seq<Byte>)
    ensures Unhex(Hex(d)) == d
  {
    if d != [] {
      var h := Hex(d);
      assert h[..2] == HexByte(d[0]) && h[2..] == Hex(d[1..]);
      ByteOfItsDigits(d[0]);
      UnhexHex(d[1..]);
    }
  }

  /** Writing back what was read gives the text. */
  lemma {:induction false} HexUnhex(s: seq<char>)
    requires |s| % 2 == 0 && AllLowerHex(s)
    ensures Hex(Unhex(s)) == s
    decreases |s|
  {
    if s != [] {
      LowerHexTail(s);
      var d := Unhex(s);
      assert d[0] == ByteOfDigits(s[0], s[1]) && d[1..] == Unhex(s[2..]);
      HexUnhex(s[2..]);
      DigitsOfByte(s[0], s[1]);
      assert Hex(d) == HexByte(d[0]) + Hex(d[1..]);
      assert s == [s[0], s[1]] + s[2..];
    }
  }

  lemma LowerHexTail(s: seq<char>)
    requires |s| >= 2 && AllLowerHex(s)
    ensures IsLowerHex(s[0]) && IsLowerHex(s[1]) && AllLowerHex(s[2..])
  {
    forall k | 0 <= k < |s[2..]|
      ensures IsLowerHex(s[2..][k])
    {
      assert s[2..][k] == s[k + 2];
    }
  }

  /** The digits of the bytes from k on are the digits of byte k before those of the rest. */
  lemma HexFrom(d: seq<Byte>, k: nat, len: nat)
    requires k < len <= |d|
    ensures Hex(d[k..len]) == HexByte(d[k]) + Hex(d[k + 1..len])
  {
    assert d[k..len][1..] == d[k + 1..len];
  }

  /**
   * `print_hex(str, data, len)`: the NUL goes to `str[2 * len]` first, then
   * the bytes are written from the last one down, each as two digits.
   */
  method PrintHex(str: array<char>, data: array<Byte>, len: nat)
    requires len <= data.Length && 2 * len < str.Length
    modifies str
    ensures str[..2 * len + 1] == Hex(data[..len]) + [NUL]
    ensures str[2 * len + 1..] == old(str[2 * len + 1..])
  {
    str[2 * len] := NUL;
    var n := len;
    while n > 0
      invariant 0 <= n <= len
      invariant str[2 * n..2 * len] == Hex(data[n..len]) && str[2 * len] == NUL
      invariant str[2 * len + 1..] == old(str[2 * len + 1..])
    {
      n := n - 1;
      ghost var tail := str[2 * n + 2..2 * len];
      PutByte(str, data[n], 2 * n, 2 * len);
      assert str[2 * n..2 * len] == str[2 * n..2 * n + 2] + tail;
      HexFrom(data[..], n, len);
      assert data[n..len] == data[..][n..len] && data[n + 1..len] == data[..][n + 1..len];
    }
    assert data[..len] == data[0..len];
    assert str[..2 * len + 1] == str[0..2 * len] + [NUL];
  }

  /** The inner loop of `print_hex`: the low nibble's digit at p + 1, then the high nibble's at p. */
  method PutByte(str: array<char>, b: Byte, p: nat, ghost end: nat)
    requires p + 2 <= end < str.Length
    modifies str
    ensures str[p..p + 2] == HexByte(b)
    ensures forall k :: 0 <= k < str.Length && !(p <= k < p + 2) ==> str[k] == old(str[k])
    ensures str[p + 2..end] == old(str[p + 2..end]) && str[end..] == old(str[end..])
  {
    var nibble := new int[2];
    nibble[1] := b % 16;
    nibble[0] := b / 16;
    var i := 2;
    while i > 0
      invariant 0 <= i <= 2 && nibble[0] == b / 16 && nibble[1] == b % 16
      invariant forall j :: i <= j < 2 ==> str[p + j] == HexByte(b)[j]
      invariant forall k :: 0 <= k < str.Length && !(p + i <= k < p + 2) ==> str[k] == old(str[k])
    {
      i := i - 1;
      var ch := HexDigit(nibble[i]);
      str[p + i] := ch;
    }
  }

  /**
   * `scan_hex(data, str, len)`: reads 2 * len digits from the last pair
   * down; the result is -1 when any of them is not a lower-case hexadecimal
   * digit, 0 otherwise, and on success `data[..len]` holds the bytes.
   */
  method ScanHex(data: array<Byte>, str: array<char>, len: nat) returns (e: int)
    requires len <= data.Length && 2 * len <= str.Length
    modifies data
    ensures e == 0 || e == -1
    ensures e == 0 <==> AllLowerHex(str[..2 * len])
    ensures e == 0 ==> data[..len] == Unhex(str[..2 * len])
    ensures data[len..] == old(data[len..])
  {
    e := 0;
    var nibble := new int[2];
    var n := len;
    while n > 0
      invariant 0 <= n <= len
      invariant e == 0 || e == -1
      invariant e == 0 <==> AllLowerHex(str[2 * n..2 * len])
      invariant e == 0 ==> data[n..len] == Unhex(str[2 * n..2 * len])
      invariant data[len..] == old(data[len..])
    {
      n := n - 1;
      var ok;
      ok := ReadPair(str, 2 * n, nibble);
      if !ok {
        e := -1;
      }
      data[n] := (nibble[0] * 16 + nibble[1]) % 256;
      ghost var s := str[2 * n..2 * len];
      assert s[..2] == str[2 * n..2 * n + 2] && s[2..] == str[2 * n + 2..2 * len];
      if e == 0 {
        assert AllLowerHex(s[..2]) && AllLowerHex(s[2..]);
        assert data[n..len] == [data[n]] + data[n + 1..len];
      } else if ok {
        assert !AllLowerHex(s[2..]);
        assert !AllLowerHex(s) by {
          var k :| 0 <= k < |s[2..]| && !IsLowerHex(s[2..][k]);
          assert s[k + 2] == s[2..][k];
        }
      } else {
        assert !AllLowerHex(s) by {
          if IsLowerHex(s[0]) {
            assert !IsLowerHex(s[1]);
          }
        }
      }
    }
    assert str[..2 * len] == str[0..2 * len];
  }

  /** The inner loop of `scan_hex`: the digit at p + 1, then the one at p, each into its nibble when it is one. */
  method ReadPair(str: array<char>, p: nat, nibble: array<int>) returns (ok: bool)
    requires p + 2 <= str.Length && nibble.Length == 2
    modifies nibble
    ensures ok <==> IsLowerHex(str[p]) && IsLowerHex(str[p + 1])
    ensures ok ==> nibble[0] * 16 + nibble[1] == ByteOfDigits(str[p], str[p + 1])
  {
    ok := true;
    var i := 2;
    while i > 0
      invariant 0 <= i <= 2
      invariant ok <==> (i <= 1 ==> IsLowerHex(str[p + 1])) && (i == 0 ==> IsLowerHex(str[p]))
      invariant i <= 1 && IsLowerHex(str[p + 1]) ==> nibble[1] == NibbleValue(str[p + 1])
      invariant i == 0 && IsLowerHex(str[p]) ==> nibble[0] == NibbleValue(str[p])
    {
      i := i - 1;
      var ch := str[p + i];
      if 'a' <= ch <= 'f' {
        nibble[i] := ch as int - 'a' as int + 10;
      } else if '0' <= ch <= '9' {
        nibble[i] := ch as int - '0' as int;
      } else {
        ok := false;
      }
    }
  }
}
