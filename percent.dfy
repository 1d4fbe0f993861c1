/**
 * `percent2c` of memorysurfer.c: the in-place decoding of a form field
 * sent as `application/x-www-form-urlencoded` (the percent-encoding of
 * section 2.1 of RFC 3986, with `+` for a space).
 *
 * `PercentDecode` is the decoding the field is specified by, `Percent2c`
 * the in-place loop, and `Percent2cAsWritten` the loop as the source has
 * it, which treats a `%0D` not followed by `%0A` differently (see the
 * findings in the README).
 */
module PercentCodec {
  import opened CTypes

  /** The digit table of `percent2c`: only upper-case hexadecimal digits are accepted. */
  const UpperHexDigits: seq<char> := "0123456789ABCDEF"

  predicate IsUpperHex(c: char)
  {
    '0' <= c <= '9' || 'A' <= c <= 'F'
  }

  function UpperHexValue(c: char): (v: nat)
    requires IsUpperHex(c)
    ensures v < 16 && UpperHexDigits[v] == c
  {
    if c <= '9' then c as int - '0' as int else c as int - 'A' as int + 10
  }

  /** What decoding a field gives: the decoded text, or the error code `percent2c` returns. */
  datatype Decoding = Decoded(text: seq<char>) | Failed(code: int)

  /** The text decoded so far, in front of what the rest decodes to. */
  function Prefixed(p: seq<char>, d: Decoding): Decoding
  {
    match d
    case Decoded(t) => Decoded(p + t)
    case Failed(c) => Failed(c)
  }

  lemma PrefixedTwice(a: seq<char>, b: seq<char>, d: Decoding)
    ensures Prefixed(a, Prefixed(b, d)) == Prefixed(a + b, d)
  {
    if d.Decoded? {
      assert a + (b + d.text) == a + b + d.text;
    }
  }

  /** A decoded byte is refused when it is a control character other than tab, or DEL. */
  predicate Refused(b: int)
  {
    (b < 32 && b != 9) || b == 127
  }

  /** The escape that stands for a line break: `%0D%0A` follows the `%`. */
  const LineBreakTail: seq<char> := "0D%0A"

  /** The line-break escape, character by character. */
  lemma TailChars(u: seq<char>)
    requires |u| >= 6
    ensures (u[1..6] == LineBreakTail) == (u[1] == '0' && u[2] == 'D' && u[3] == '%' && u[4] == '0' && u[5] == 'A')
  {
    if u[1] == '0' && u[2] == 'D' && u[3] == '%' && u[4] == '0' && u[5] == 'A' {
      assert u[1..6] == LineBreakTail;
    }
  }

  /** The first escape of a field: the byte it stands for and its width, or an error code. */
  datatype Token = Char(c: char, width: nat) | Bad(code: int)

  /**
   * The escape at the start of a non-empty field: `+` is a space, `%0D%0A`
   * a line break, `%XY` with upper-case hexadecimal digits the byte XY,
   * refused (code 1) when it is a control character other than tab or DEL;
   * any other `%` is an error (code -1); every other byte stands for itself.
   */
  function Head(s: seq<char>): (r: Token)
    requires s != []
    ensures r.Char? ==> 1 <= r.width <= |s|
    ensures r.Bad? ==> r.code == 1 || r.code == -1
  {
    if s[0] == '+' then Char(' ', 1)
    else if s[0] == '%' then
      if |s| >= 6 && s[1..6] == LineBreakTail then Char('\n', 6)
      else if |s| >= 3 && IsUpperHex(s[1]) && IsUpperHex(s[2]) then
        var b := 16 * UpperHexValue(s[1]) + UpperHexValue(s[2]);
        if Refused(b) then Bad(1) else Char(b as char, 3)
      else Bad(-1)
    else Char(s[0], 1)
  }

  /** The decoding of a field: its escapes one after the other, failing at the first bad one. */
  function PercentDecode(s: seq<char>): (r: Decoding)
    ensures r.Decoded? ==> |r.text| <= |s|
    ensures r.Failed? ==> r.code == 1 || r.code == -1
    decreases |s|
  {
    if s == [] then Decoded([])
    else match Head(s)
      case Char(c, n) => Prefixed([c], PercentDecode(s[n..]))
      case Bad(code) => Failed(code)
  }

  // ---------------------------------------------------------------------
  // The in-place decoding

  /** The search of `percent2c` for a character in its digit table. */
  method HexLookup(c: char) returns (found: bool, v: int)
    ensures found <==> IsUpperHex(c)
    ensures found ==> v == UpperHexValue(c)
  {
    found := false;
    v := 0;
    var i := 0;
    while i < 16 && !found
      invariant 0 <= i <= 16
      invariant found ==> i > 0 && UpperHexDigits[i - 1] == c && v == i - 1
      invariant !found ==> c !in UpperHexDigits[..i]
    {
      if c == UpperHexDigits[i] {
        v := i;
        found := true;
      }
      i := i + 1;
    }
    InTable(c);
    if found {
      var u := UpperHexValue(c);
      assert UpperHexDigits[u] == UpperHexDigits[v];
    } else {
      assert UpperHexDigits[..16] == UpperHexDigits;
    }
  }

  /** Every upper-case hexadecimal digit is in the table. */
  lemma InTable(c: char)
    ensures IsUpperHex(c) ==> c in UpperHexDigits
  {
    if IsUpperHex(c) {
      var v := UpperHexValue(c);
      assert UpperHexDigits[v] == c;
    }
  }

  /**
   * The escape that starts at the `%` at rp, read as `percent2c` reads it:
   * the byte it stands for and the position after it, or the error code.
   * The byte at len is the `&` or NUL that ends the field.
   */
  method ReadEscape(str: array<char>, rp: int, len: int) returns (e: int, b: char, next: int)
    requires 0 <= rp < len < str.Length && str[rp] == '%' && (str[len] == '&' || str[len] == NUL)
    ensures rp < next <= len && (e == 0 ==> Head(str[rp..len]) == Char(b, next - rp))
    ensures e != 0 ==> Head(str[rp..len]) == Bad(e)
  {
    ghost var u := str[rp..len];
    assert forall k :: 0 <= k < |u| ==> u[k] == str[rp + k];
    if |u| >= 6 {
      TailChars(u);
    }
    b := NUL;
    next := rp + 1;
    if str[rp + 1] == '0' && str[rp + 2] == 'D' && str[rp + 3] == '%' && str[rp + 4] == '0' && str[rp + 5] == 'A' {
      assert u[1..6] == LineBreakTail;
      e, b, next := 0, '\n', rp + 6;
    } else {
      var found, hi := HexLookup(str[rp + 1]);
      if !found {
        e := -1;
      } else {
        var found2, lo := HexLookup(str[rp + 2]);
        if !found2 {
          e := -1;
        } else {
          assert |u| >= 3 && u[1] == str[rp + 1] && u[2] == str[rp + 2];
          var w := hi * 16 + lo;
          if w < 32 {
            e := if w != 9 then 1 else 0;
          } else {
            e := if w == 127 then 1 else 0;
          }
          b, next := w as char, rp + 3;
        }
      }
    }
  }

  /** The escape at rp, as the loop of `percent2c` reads it. */
  method ReadToken(str: array<char>, rp: int, len: int) returns (e: int, b: char, next: int)
    requires 0 <= rp < len < str.Length && (str[len] == '&' || str[len] == NUL)
    ensures rp < next <= len && (e == 0 ==> Head(str[rp..len]) == Char(b, next - rp))
    ensures e != 0 ==> Head(str[rp..len]) == Bad(e)
  {
    var ch := str[rp];
    assert str[rp..len][0] == ch;
    if ch == '+' {
      e, b, next := 0, ' ', rp + 1;
    } else if ch == '%' {
      e, b, next := ReadEscape(str, rp, len);
    } else {
      e, b, next := 0, ch, rp + 1;
    }
  }

  /**
   * `percent2c(str, len)`: decodes the first len bytes of str in place and
   * terminates the result with NUL.  The byte at len is the `&` that ends
   * the field or the NUL that ends the posted data.  On an error the
   * buffer holds a partly decoded field.
   */
  method Percent2c(str: array<char>, len: int) returns (e: int)
    requires 0 <= len < str.Length && (str[len] == '&' || str[len] == NUL)
    modifies str
    ensures e == 0 <==> PercentDecode(old(str[..len])).Decoded?
    ensures e != 0 ==> PercentDecode(old(str[..len])) == Failed(e)
    ensures e == 0 ==>
      var t := PercentDecode(old(str[..len])).text;
      |t| <= len && str[..|t|] == t && str[|t|] == NUL && str[|t| + 1..] == old(str[|t| + 1..])
  {
    ghost var orig := str[..];
    ghost var s := str[..len];
    e := 0;
    var rp, wp := 0, 0;
    while rp < len && e == 0
      invariant 0 <= wp <= rp <= len
      invariant forall k :: wp <= k < str.Length ==> str[k] == orig[k]
      invariant e == 0 ==> Prefixed(str[..wp], PercentDecode(s[rp..])) == PercentDecode(s)
      invariant e != 0 ==> PercentDecode(s) == Failed(e)
    {
      var next;
      e, next := DecodeNext(str, len, rp, wp, orig);
      rp := next;
      wp := wp + 1;
    }
    str[wp] := NUL;
    if e == 0 {
      assert s[rp..] == [];
      ghost var t := PercentDecode(s).text;
      assert str[..wp] == t;
      assert str[wp + 1..] == orig[wp + 1..];
    }
  }

  /**
   * One pass of the loop of `percent2c`: read the escape at rp from the
   * field as it was and, when it decodes, write its byte at wp.
   */
  method DecodeNext(str: array<char>, len: int, rp: int, wp: int, ghost orig: seq<char>) returns (e: int, next: int)
    requires 0 <= wp <= rp < len < str.Length && |orig| == str.Length && (orig[len] == '&' || orig[len] == NUL)
    requires forall k :: wp <= k < str.Length ==> str[k] == orig[k]
    modifies str
    ensures rp < next <= len
    ensures forall k :: wp + 1 <= k < str.Length ==> str[k] == orig[k]
    ensures e == 0 ==> Prefixed(old(str[..wp]), PercentDecode(orig[..len][rp..]))
                       == Prefixed(str[..wp + 1], PercentDecode(orig[..len][next..]))
    ensures e != 0 ==> PercentDecode(orig[..len][rp..]) == Failed(e)
  {
    ghost var out := str[..wp];
    SameRest(str[..], orig, wp, rp, len);
    var b;
    e, b, next := ReadToken(str, rp, len);
    if e == 0 {
      str[wp] := b;
      Step(out, b, orig[..len], rp, next - rp);
      assert str[..wp + 1] == out + [b];
    }
  }

  /** Bytes not yet overwritten still hold the field as it was. */
  lemma SameRest(a: seq<char>, orig: seq<char>, wp: int, rp: int, len: int)
    requires |a| == |orig| && 0 <= wp <= rp <= len <= |a|
    requires forall k :: wp <= k < |a| ==> a[k] == orig[k]
    ensures a[rp..len] == orig[..len][rp..]
  {
    assert forall i :: 0 <= i < len - rp ==> a[rp..len][i] == a[rp + i];
  }

  /** One decoded byte appended to the output keeps the output in front of what is still to decode. */
  lemma Step(out: seq<char>, c: char, s: seq<char>, rp: nat, n: nat)
    requires rp < |s| && Head(s[rp..]) == Char(c, n)
    ensures rp + n <= |s|
    ensures Prefixed(out, PercentDecode(s[rp..])) == Prefixed(out + [c], PercentDecode(s[rp + n..]))
  {
    assert s[rp..][n..] == s[rp + n..];
  }

  // ---------------------------------------------------------------------
  // Properties of the decoding

  /** An escape that decodes reads the same with anything after it. */
  lemma HeadConcat(p: seq<char>, q: seq<char>)
    requires p != [] && Head(p).Char?
    ensures Head(p + q) == Head(p)
  {
    var s := p + q;
    assert s[0] == p[0];
    if p[0] == '%' {
      if |p| >= 6 && p[1..6] == LineBreakTail {
        assert s[1..6] == p[1..6];
      } else {
        assert |p| >= 3 && s[1] == p[1] && s[2] == p[2];
      }
    }
  }

  /**
   * A field that decodes is made of whole escapes: what follows it is
   * decoded on its own.
   */
  lemma {:induction false} DecodeConcat(p: seq<char>, q: seq<char>)
    requires PercentDecode(p).Decoded?
    ensures PercentDecode(p + q) == Prefixed(PercentDecode(p).text, PercentDecode(q))
    decreases |p|
  {
    if p == [] {
      assert p + q == q;
    } else {
      var c, n := Head(p).c, Head(p).width;
      assert PercentDecode(p) == Prefixed([c], PercentDecode(p[n..]));
      HeadConcat(p, q);
      assert (p + q)[n..] == p[n..] + q;
      assert PercentDecode(p + q) == Prefixed([c], PercentDecode(p[n..] + q));
      DecodeConcat(p[n..], q);
      var t := PercentDecode(p[n..]).text;
      assert PercentDecode(p).text == [c] + t;
      PrefixedTwice([c], t, PercentDecode(q));
    }
  }

  /** A `%` whose next character is not an upper-case hexadecimal digit fails the field with code -1. */
  lemma BadEscapeFails(p: seq<char>, c: char, q: seq<char>)
    requires PercentDecode(p).Decoded? && !IsUpperHex(c)
    ensures PercentDecode(p + ['%', c] + q) == Failed(-1)
  {
    var u := ['%', c] + q;
    DecodeConcat(p, u);
    assert p + ['%', c] + q == p + u;
    assert u[0] == '%' && u[1] == c;
  }

  /** An escape of a control character other than tab and carriage return, or of DEL, fails the field with code 1. */
  lemma ControlEscapeFails(p: seq<char>, b: nat, q: seq<char>)
    requires PercentDecode(p).Decoded? && b < 256 && Refused(b) && b != 13
    ensures PercentDecode(p + ['%', UpperHexDigits[b / 16], UpperHexDigits[b % 16]] + q) == Failed(1)
  {
    var u := ['%', UpperHexDigits[b / 16], UpperHexDigits[b % 16]] + q;
    DecodeConcat(p, u);
    assert p + ['%', UpperHexDigits[b / 16], UpperHexDigits[b % 16]] + q == p + u;
    DigitOf(b / 16);
    DigitOf(b % 16);
    assert u[0] == '%' && u[1] == UpperHexDigits[b / 16] && u[2] == UpperHexDigits[b % 16];
    assert 16 * (b / 16) + b % 16 == b;
    if |u| >= 6 {
      TailChars(u);
    }
    assert Head(u) == Bad(1);
  }

  /** The table digit of a value reads back as that value. */
  lemma DigitOf(v: nat)
    requires v < 16
    ensures IsUpperHex(UpperHexDigits[v]) && UpperHexValue(UpperHexDigits[v]) == v
  {
  }

  // ---------------------------------------------------------------------
  // The encoding a browser applies, and the round trip

  predicate IsAlnum(c: char)
  {
    '0' <= c <= '9' || 'A' <= c <= 'Z' || 'a' <= c <= 'z'
  }

  /** The bytes a field may hold: tab, line break, and every byte that is not a control character or DEL. */
  predicate Sendable(c: Octet)
  {
    c == '\t' || c == '\n' || (c as int >= 32 && c as int != 127)
  }

  /** How a form sends one byte: letters and digits as they are, space as `+`, a line break as CR LF, the rest as `%XY`. */
  function EncodeChar(c: Octet): (r: seq<char>)
    ensures |r| >= 1
  {
    if IsAlnum(c) then [c]
    else if c == ' ' then ['+']
    else if c == '\n' then "%0D%0A"
    else ['%', UpperHexDigits[c as int / 16], UpperHexDigits[c as int % 16]]
  }

  function PercentEncode(t: seq<Octet>): (r: seq<char>)
    ensures |r| >= |t|
  {
    if t == [] then [] else EncodeChar(t[0]) + PercentEncode(t[1..])
  }

  /** One encoded byte decodes to that byte. */
  lemma DecodeChar(c: Octet)
    requires Sendable(c)
    ensures PercentDecode(EncodeChar(c)) == Decoded([c])
  {
    var e := EncodeChar(c);
    if IsAlnum(c) {
      assert e[1..] == [];
    } else if c == ' ' {
      assert e[1..] == [];
    } else if c == '\n' {
      assert e[1..6] == LineBreakTail && e[6..] == [];
    } else {
      var b := c as int;
      DigitOf(b / 16);
      DigitOf(b % 16);
      assert e[3..] == [];
      assert 16 * (b / 16) + b % 16 == b;
      assert (b as char) == c;
    }
  }

  /** Decoding what a form sends gives back the field: `percent2c` undoes the encoding. */
  lemma {:induction false} DecodeEncode(t: seq<Octet>)
    requires forall k :: 0 <= k < |t| ==> Sendable(t[k])
    ensures PercentDecode(PercentEncode(t)) == Decoded(t)
    decreases |t|
  {
    if t != [] {
      DecodeChar(t[0]);
      DecodeConcat(EncodeChar(t[0]), PercentEncode(t[1..]));
      DecodeEncode(t[1..]);
      assert [t[0]] + t[1..] == t;
    }
  }

  // ---------------------------------------------------------------------
  // The loop as written

  /**
   * The loop of `percent2c` as the source has it, on the original bytes
   * orig (the field and the byte after it), from read position rp with
   * output out.  When `%0D` is not followed by `%0A` nothing is written
   * but the write position still advances, so the output takes the
   * original byte at that position, and the `0D` that follows is copied.
   */
  function AsWrittenFrom(orig: seq<char>, len: nat, rp: nat, out: seq<char>): (r: Decoding)
    requires len < |orig| && |out| <= rp <= len
    decreases len - rp
  {
    if rp == len then Decoded(out)
    else
      var ch := orig[rp];
      if ch == '+' then AsWrittenFrom(orig, len, rp + 1, out + [' '])
      else if ch == '%' then
        if rp + 2 < len && orig[rp + 1] == '0' && orig[rp + 2] == 'D' then
          if rp + 5 < len && orig[rp + 3..rp + 6] == "%0A" then AsWrittenFrom(orig, len, rp + 6, out + ['\n'])
          else AsWrittenFrom(orig, len, rp + 1, out + [orig[|out|]])
        else if rp + 2 < len && IsUpperHex(orig[rp + 1]) && IsUpperHex(orig[rp + 2]) then
          var b := 16 * UpperHexValue(orig[rp + 1]) + UpperHexValue(orig[rp + 2]);
          if Refused(b) then Failed(1) else AsWrittenFrom(orig, len, rp + 3, out + [b as char])
        else Failed(-1)
      else AsWrittenFrom(orig, len, rp + 1, out + [ch])
  }

  /** `percent2c` as written, on a field of len bytes followed by the byte that ends it. */
  function Percent2cAsWritten(orig: seq<char>, len: nat): (r: Decoding)
    requires len < |orig|
    ensures r.Decoded? ==> |r.text| <= len
  {
    AsWrittenBound(orig, len, 0, []);
    AsWrittenFrom(orig, len, 0, [])
  }

  lemma {:induction false} AsWrittenBound(orig: seq<char>, len: nat, rp: nat, out: seq<char>)
    requires len < |orig| && |out| <= rp <= len
    ensures AsWrittenFrom(orig, len, rp, out).Decoded? ==> |AsWrittenFrom(orig, len, rp, out).text| <= len
    decreases len - rp
  {
    if rp < len {
      var ch := orig[rp];
      if ch == '+' {
        AsWrittenBound(orig, len, rp + 1, out + [' ']);
      } else if ch == '%' {
        if rp + 2 < len && orig[rp + 1] == '0' && orig[rp + 2] == 'D' {
          if rp + 5 < len && orig[rp + 3..rp + 6] == "%0A" {
            AsWrittenBound(orig, len, rp + 6, out + ['\n']);
          } else {
            AsWrittenBound(orig, len, rp + 1, out + [orig[|out|]]);
          }
        } else if rp + 2 < len && IsUpperHex(orig[rp + 1]) && IsUpperHex(orig[rp + 2]) {
          var b := 16 * UpperHexValue(orig[rp + 1]) + UpperHexValue(orig[rp + 2]);
          if !Refused(b) {
            AsWrittenBound(orig, len, rp + 3, out + [b as char]);
          }
        }
      } else {
        AsWrittenBound(orig, len, rp + 1, out + [ch]);
      }
    }
  }

  /**
   * The field `%41%0D` (an `A`, then a carriage return on its own) is
   * accepted as written and comes out as `A40D`: the `%` at the write
   * position is replaced by the stale `4`, and `0D` is copied.  The
   * decoding refuses it, as it refuses every other control character.
   */
  lemma LoneCarriageReturn()
    ensures Percent2cAsWritten("%41%0D&", 6) == Decoded("A40D")
    ensures PercentDecode("%41%0D") == Failed(1)
  {
    var orig := "%41%0D&";
    DigitOf(4);
    DigitOf(1);
    DigitOf(0);
    DigitOf(13);
    assert AsWrittenFrom(orig, 6, 3, "A") == AsWrittenFrom(orig, 6, 4, "A4");
    assert AsWrittenFrom(orig, 6, 0, []) == AsWrittenFrom(orig, 6, 3, "A");
    var u := "%0D";
    assert PercentDecode(u) == Failed(1);
    var s := "%41%0D";
    assert s[1..6] != LineBreakTail by { assert s[1] == '4'; }
    assert s[3..] == u;
    assert PercentDecode(s) == Prefixed(['A'], PercentDecode(u));
  }
}
