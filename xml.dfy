/**
 * `xml_escape` and `xml_unescape` of memorysurfer.c: the character
 * references of section 4.6 of XML 1.0 that the back end writes into its
 * HTML and XML output (`&amp;`, `&lt;`, `&quot;`, each switched on by a
 * bit of the escape mask) and the two it reads back (`&amp;`, `&lt;`).
 */
module XmlText {
  import opened Wrappers
  import opened CTypes

  /** The bits of `escape_mask`. */
  const EscAmp: bv32 := 1
  const EscLt: bv32 := 2
  const EscQuot: bv32 := 4

  /** The names of the references, as they follow the `&`. */
  const AmpName: seq<char> := "amp;"
  const LtName: seq<char> := "lt;"
  const QuotName: seq<char> := "quot;"

  predicate HasPrefix(s: seq<char>, pat: seq<char>)
  {
    |pat| <= |s| && s[..|pat|] == pat
  }

  /** What one character of the text becomes under the mask. */
  function EscapeChar(c: char, mask: bv32): (r: seq<char>)
    ensures 1 <= |r| <= 6 && (r == [c] || (r[0] == '&' && r[|r| - 1] == ';'))
  {
    if c == '&' && mask & EscAmp != 0 then ['&'] + AmpName
    else if c == '<' && mask & EscLt != 0 then ['&'] + LtName
    else if c == '"' && mask & EscQuot != 0 then ['&'] + QuotName
    else [c]
  }

  /** The escaped text: each character escaped in turn. */
  function Escape(s: seq<char>, mask: bv32): (r: seq<char>)
    ensures |r| >= |s|
  {
    if s == [] then [] else EscapeChar(s[0], mask) + Escape(s[1..], mask)
  }

  /**
   * The unescaped text: `&amp;` is `&`, `&lt;` is `<`, any other `&` is an
   * error, every other character stands for itself.
   */
  function Unescape(s: seq<char>): (r: Option<seq<char>>)
    ensures r.Some? ==> |r.value| <= |s|
    decreases |s|
  {
    if s == [] then Some([])
    else if s[0] != '&' then Prepend(s[0], Unescape(s[1..]))
    else if HasPrefix(s[1..], AmpName) then Prepend('&', Unescape(s[5..]))
    else if HasPrefix(s[1..], LtName) then Prepend('<', Unescape(s[4..]))
    else None
  }

  function Prepend(c: char, r: Option<seq<char>>): Option<seq<char>>
  {
    match r
    case Some(t) => Some([c] + t)
    case None => None
  }

  /** The capacity `xml_escape` grows the buffer to: doubled plus one until need fits. */
  function Grown(n: nat, need: nat): (m: nat)
    ensures m >= n && m >= need
    decreases need - n
  {
    if need > n then Grown(2 * n + 1, need) else n
  }

  /** Growing first for a smaller need and then for a larger one is growing for the larger one. */
  lemma {:induction false} GrownTwice(n: nat, a: nat, b: nat)
    requires a <= b
    ensures Grown(Grown(n, a), b) == Grown(n, b)
    decreases a - n
  {
    if a > n {
      GrownTwice(2 * n + 1, a, b);
    }
  }

  // ---------------------------------------------------------------------
  // The routines

  /**
   * `xml_escape(&buf, &n, text, mask)`: writes the escaped text and its
   * NUL into the buffer from its start, growing the buffer (with
   * `realloc`, n doubled plus one) whenever fewer than six places are left
   * at the write position.  A NULL text is escaped as the empty string.
   * The returned array is the buffer after the call, its length the new n.
   */
  method XmlEscape(buf: array<char>, text: Option<seq<char>>, mask: bv32) returns (out: array<char>)
    requires text.Some? ==> NUL !in text.value
    modifies buf
    ensures var e := Escape(if text.Some? then text.value else [], mask);
      out.Length == Grown(buf.Length, |e| + 6) && |e| < out.Length && out[..|e| + 1] == e + [NUL]
    ensures out == buf || fresh(out)
  {
    var s := if text.Some? then text.value else [];
    out := buf;
    var src, dest := 0, 0;
    ghost var last: nat := 0;
    // The do-while loop of the source: the characters of the text, then its NUL.
    while src < |s|
      invariant src <= |s| && (out == buf || fresh(out))
      invariant src == 0 ==> out.Length == buf.Length && dest == 0
      invariant src > 0 ==> last <= dest && out.Length == Grown(buf.Length, last + 6)
      invariant dest <= out.Length && dest == |Escape(s[..src], mask)| && out[..dest] == Escape(s[..src], mask)
    {
      ghost var r;
      out, dest, r := EscapeOne(out, dest, s[src], mask, buf.Length, src > 0, last);
      EscapeSnoc(s, src, mask);
      last := dest - |r|;
      src := src + 1;
    }
    assert s[..src] == s;
    ghost var r;
    out, dest, r := EscapeOne(out, dest, NUL, mask, buf.Length, src > 0, last);
  }

  /**
   * One round of the loop of `xml_escape`: grow the buffer if fewer than six
   * places are left at dest, then store the escape of ch there.
   */
  method EscapeOne(a: array<char>, dest: nat, ch: char, mask: bv32, ghost n0: nat, ghost grown: bool, ghost last: nat)
    returns (b: array<char>, dest': nat, ghost r: seq<char>)
    requires dest <= a.Length
    requires !grown ==> a.Length == n0 && dest == 0
    requires grown ==> last <= dest && a.Length == Grown(n0, last + 6)
    modifies a
    ensures b == a || fresh(b)
    ensures r == EscapeChar(ch, mask) && dest' == dest + |r| <= b.Length
    ensures b[..dest'] == old(a[..dest]) + r
    ensures b.Length == Grown(n0, dest + 6)
  {
    if grown {
      GrownTwice(n0, last + 6, dest + 6);
    }
    b := Reserve(a, dest);
    var esc := EscapeChar(ch, mask);
    Put(b, dest, esc);
    dest' := dest + |esc|;
    r := esc;
  }

  /**
   * `memcmp(a + p, pat, |pat|) == 0`: the bytes at p are the pattern.  For
   * a pattern without NUL the comparison fails at the latest at the NUL
   * that ends the string.
   */
  predicate MatchesAt(a: seq<char>, p: int, pat: seq<char>)
  {
    0 <= p && p + |pat| <= |a| && a[p..p + |pat|] == pat
  }

  /** A pattern without NUL matches at p exactly when the string from p up to its NUL starts with it. */
  lemma MatchWithin(a: seq<char>, p: int, n: int, pat: seq<char>)
    requires 0 <= p <= n < |a| && a[n] == NUL && NUL !in pat
    ensures MatchesAt(a, p, pat) <==> HasPrefix(a[p..n], pat)
  {
    if MatchesAt(a, p, pat) {
      if n < p + |pat| {
        assert false;
      }
      assert a[p..n][..|pat|] == a[p..p + |pat|];
    }
    if HasPrefix(a[p..n], pat) {
      assert a[p..n][..|pat|] == a[p..p + |pat|];
    }
  }

  /**
   * One round of the loop of `xml_unescape`: the character at rp, or the
   * one a reference there stands for, with the read position after it; a
   * nonzero e when `&` starts neither `&amp;` nor `&lt;`.
   */
  method ReadChar(a: array<char>, rp: int, ghost n: int) returns (e: int, ch: char, next: int)
    requires 0 <= rp <= n < a.Length && a[n] == NUL
    ensures rp < next <= n + 1
    ensures rp == n ==> e == 0 && ch == NUL
    ensures rp < n && e == 0 ==> (ch == NUL <==> a[rp] == NUL)
    ensures rp < n && e == 0 ==> next <= n && Unescape(a[rp..n]) == Prepend(ch, Unescape(a[next..n]))
    ensures rp < n && e != 0 ==> Unescape(a[rp..n]) == None
  {
    ghost var u := a[rp..n];
    e := 0;
    ch := a[rp];
    next := rp + 1;
    if ch == '&' {
      assert rp < n && u[0] == '&' && u[1..] == a[next..n];
      MatchWithin(a[..], next, n, AmpName);
      MatchWithin(a[..], next, n, LtName);
      if MatchesAt(a[..], next, AmpName) {
        assert u[5..] == a[next + 4..n];
        next := next + 4;
        ch := '&';
      } else {
        e := if MatchesAt(a[..], next, LtName) then 0 else 1;
        if e == 0 {
          assert u[4..] == a[next + 3..n];
          next := next + 3;
          ch := '<';
        }
      }
    } else if rp < n {
      assert u[1..] == a[next..n];
    }
  }

  /**
   * `xml_unescape(str)`: replaces `&amp;` and `&lt;` by the characters
   * they stand for, in place, up to and including the NUL at n.  The
   * result is nonzero when an `&` starts neither reference; the buffer
   * then holds a partly unescaped string.
   */
  method XmlUnescape(a: array<char>, ghost n: nat) returns (e: int)
    requires n < a.Length && a[n] == NUL && NUL !in a[..n]
    modifies a
    ensures e == 0 <==> Unescape(old(a[..n])).Some?
    ensures e == 0 ==> var t := Unescape(old(a[..n])).value;
      a[..|t| + 1] == t + [NUL] && a[|t| + 1..] == old(a[|t| + 1..])
  {
    ghost var orig := a[..];
    ghost var s := a[..n];
    e := 0;
    var rp, wp := 0, 0;
    var go := true;
    assert s[rp..] == s && a[..wp] == [];
    PrependedNil(Unescape(s));
    while go
      invariant 0 <= wp <= rp <= n + 1 && (go ==> rp <= n) && wp <= n + 1
      invariant forall k :: wp <= k < a.Length ==> a[k] == orig[k]
      invariant go ==> e == 0 && Prepended(a[..wp], Unescape(s[rp..])) == Unescape(s)
      invariant !go && e == 0 ==> Unescape(s).Some? && a[..wp] == Unescape(s).value + [NUL]
      invariant e != 0 ==> Unescape(s) == None
      decreases n + 1 - rp, go
    {
      ghost var out := a[..wp];
      Untouched(a[..], orig, wp, rp, n);
      var ch, next;
      e, ch, next := ReadChar(a, rp, n);
      a[wp] := ch;
      if rp == n {
        assert s[rp..] == [];
        assert a[..wp + 1] == out + [NUL];
        PrependedNil(Unescape(s[rp..]));
        assert Unescape(s).value == out;
      } else if e == 0 {
        assert s[rp] != NUL;
        assert s[rp..][next - rp..] == s[next..] && a[next..n] == s[next..];
        assert a[..wp + 1] == out + [ch];
        PrependedStep(out, ch, Unescape(s[next..]));
      }
      rp := next;
      wp := wp + 1;
      go := ch != NUL && e == 0;
    }
  }

  /** The positions from the write position on still hold the original text. */
  lemma Untouched(a: seq<char>, orig: seq<char>, wp: int, rp: int, n: int)
    requires 0 <= wp <= rp <= n < |a| == |orig|
    requires forall k :: wp <= k < |a| ==> a[k] == orig[k]
    ensures a[rp..n] == orig[..n][rp..] && a[n] == orig[n]
  {
    forall i | 0 <= i < n - rp
      ensures a[rp..n][i] == orig[..n][rp..][i]
    {
      assert a[rp + i] == orig[rp + i];
    }
  }

  lemma PrependedNil(r: Option<seq<char>>)
    ensures Prepended([], r) == r
  {
    if r.Some? {
      assert [] + r.value == r.value;
    }
  }

  /** The text unescaped so far, in front of what the rest unescapes to. */
  function Prepended(p: seq<char>, r: Option<seq<char>>): Option<seq<char>>
  {
    match r
    case Some(t) => Some(p + t)
    case None => None
  }

  lemma PrependedStep(p: seq<char>, c: char, r: Option<seq<char>>)
    ensures Prepended(p, Prepend(c, r)) == Prepended(p + [c], r)
  {
    if r.Some? {
      assert p + ([c] + r.value) == p + [c] + r.value;
    }
  }

  // ---------------------------------------------------------------------
  // Properties

  /** A text that unescapes is made of whole references: what follows it is unescaped on its own. */
  lemma {:induction false} UnescapeConcat(p: seq<char>, q: seq<char>)
    requires Unescape(p).Some?
    ensures Unescape(p + q) == Prepended(Unescape(p).value, Unescape(q))
    decreases |p|
  {
    if p == [] {
      assert p + q == q;
      PrependedNil(Unescape(q));
    } else {
      var s := p + q;
      assert s[0] == p[0] && s[1..] == p[1..] + q;
      var n := if p[0] != '&' then 1 else if HasPrefix(p[1..], AmpName) then 5 else 4;
      var c := if p[0] != '&' then p[0] else if n == 5 then '&' else '<';
      if p[0] == '&' {
        if n == 5 {
          assert s[1..][..4] == p[1..][..4];
        } else {
          assert HasPrefix(p[1..], LtName);
          assert s[1..][..3] == p[1..][..3];
          assert !HasPrefix(s[1..], AmpName) by {
            assert |s[1..]| >= 4 ==> s[1..][0] == p[1..][0];
          }
        }
      }
      assert Unescape(p) == Prepend(c, Unescape(p[n..]));
      assert s[n..] == p[n..] + q;
      assert Unescape(s) == Prepend(c, Unescape(p[n..] + q));
      UnescapeConcat(p[n..], q);
      PrependedTwice(c, Unescape(p[n..]).value, Unescape(q));
    }
  }

  lemma PrependedTwice(c: char, b: seq<char>, r: Option<seq<char>>)
    ensures Prepend(c, Prepended(b, r)) == Prepended([c] + b, r)
  {
    if r.Some? {
      assert [c] + (b + r.value) == [c] + b + r.value;
    }
  }

  /** The references `xml_escape` writes under `ESC_AMP | ESC_LT` are the ones `xml_unescape` reads back: the text comes back. */
  lemma {:induction false} UnescapeEscape(s: seq<char>)
    ensures Unescape(Escape(s, EscAmp | EscLt)) == Some(s)
    decreases |s|
  {
    if s != [] {
      var mask := EscAmp | EscLt;
      var c := s[0];
      var e := EscapeChar(c, mask);
      assert mask & EscAmp != 0 && mask & EscLt != 0 && mask & EscQuot == 0;
      assert Unescape(e) == Some([c]) by {
        assert [c] + [] == [c];
        if c == '&' {
          assert e == ['&'] + AmpName;
          assert e[1..][..4] == AmpName && e[5..] == [];
          assert Unescape(e[5..]) == Some([]);
        } else if c == '<' {
          assert e == ['&'] + LtName;
          assert e[1..][..3] == LtName && e[4..] == [];
          assert !HasPrefix(e[1..], AmpName);
          assert Unescape(e[4..]) == Some([]);
        } else {
          assert e == [c] && e[1..] == [];
          assert Unescape(e[1..]) == Some([]);
        }
      }
      UnescapeConcat(e, Escape(s[1..], mask));
      UnescapeEscape(s[1..]);
      assert [c] + s[1..] == s;
    }
  }

  /** An `&` that starts neither `&amp;` nor `&lt;` makes `xml_unescape` fail, whatever came before it. */
  lemma BadReferenceFails(p: seq<char>, q: seq<char>)
    requires Unescape(p).Some? && q != [] && q[0] == '&'
    requires !HasPrefix(q[1..], AmpName) && !HasPrefix(q[1..], LtName)
    ensures Unescape(p + q) == None
  {
    UnescapeConcat(p, q);
  }

  /** The growing loop of `xml_escape`: room for six more places after dest, the contents kept. */
  method Reserve(a: array<char>, dest: nat) returns (b: array<char>)
    requires dest <= a.Length
    ensures b.Length == Grown(a.Length, dest + 6) && b[..dest] == a[..dest]
    ensures b == a || fresh(b)
  {
    b := a;
    while dest + 6 > b.Length
      invariant b == a || fresh(b)
      invariant Grown(b.Length, dest + 6) == Grown(a.Length, dest + 6)
      invariant dest <= b.Length && b[..dest] == a[..dest]
      decreases dest + 6 - b.Length
    {
      b := Realloc(b, 2 * b.Length + 1);
    }
  }

  /** Escaping one more character appends its escape. */
  lemma EscapeSnoc(s: seq<char>, k: nat, mask: bv32)
    requires k < |s|
    ensures Escape(s[..k + 1], mask) == Escape(s[..k], mask) + EscapeChar(s[k], mask)
  {
    EscapeConcat(s[..k], [s[k]], mask);
    assert s[..k + 1] == s[..k] + [s[k]];
    assert Escape([s[k]], mask) == EscapeChar(s[k], mask) + Escape([], mask);
  }

  lemma {:induction false} EscapeConcat(a: seq<char>, b: seq<char>, mask: bv32)
    ensures Escape(a + b, mask) == Escape(a, mask) + Escape(b, mask)
    decreases |a|
  {
    if a == [] {
      assert a + b == b;
    } else {
      assert (a + b)[1..] == a[1..] + b;
      EscapeConcat(a[1..], b, mask);
    }
  }

  /** The stores of one escape at the write position. */
  method Put(out: array<char>, dest: int, r: seq<char>)
    requires 0 <= dest && dest + |r| <= out.Length
    modifies out
    ensures out[..dest + |r|] == old(out[..dest]) + r
  {
    forall k | 0 <= k < |r| {
      out[dest + k] := r[k];
    }
  }

  /** `realloc`: a buffer of the new size holding the old contents. */
  method Realloc(a: array<char>, n: int) returns (b: array<char>)
    requires n >= a.Length
    ensures fresh(b) && b.Length == n && b[..a.Length] == a[..]
  {
    b := new char[n];
    forall k | 0 <= k < a.Length {
      b[k] := a[k];
    }
  }
}
