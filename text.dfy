/**
 * Small text routines of the back end: `str_tolower`, which folds the
 * search text and the cards to lower case for A_SEARCH, `utf8_char_len`
 * and `utf8_strcspn`, which find where the reveal of an answer stops, and
 * `e2str`, which spells an error code for the error page.
 */
module TextRoutines {

  import opened CTypes

  // ---------------------------------------------------------------------
  // str_tolower

  /**
   * The entry of the 256-byte table of `str_tolower` for c: `A`..`Z` map
   * to `a`..`z`, every other byte to itself.
   */
  function LowerChar(c: char): char
  {
    if 'A' <= c <= 'Z' then (c as int + 32) as char else c
  }

  /** The text with every character looked up in that table. */
  function Lowered(s: seq<char>): (r: seq<char>)
    ensures |r| == |s|
  {
    if s == [] then [] else [LowerChar(s[0])] + Lowered(s[1..])
  }

  lemma {:induction false} LoweredAt(s: seq<char>, k: nat)
    requires k < |s|
    ensures Lowered(s)[k] == LowerChar(s[k])
  {
    if k > 0 {
      LoweredAt(s[1..], k - 1);
    }
  }

  /** Two texts fold to the same text exactly when they agree up to the case of ASCII letters. */
  lemma LoweredEqual(s: seq<char>, t: seq<char>)
    requires |s| == |t|
    ensures Lowered(s) == Lowered(t) <==> forall k :: 0 <= k < |s| ==> LowerChar(s[k]) == LowerChar(t[k])
  {
    if Lowered(s) == Lowered(t) {
      forall k | 0 <= k < |s|
        ensures LowerChar(s[k]) == LowerChar(t[k])
      {
        LoweredAt(s, k);
        LoweredAt(t, k);
      }
    }
    if forall k :: 0 <= k < |s| ==> LowerChar(s[k]) == LowerChar(t[k]) {
      forall k | 0 <= k < |s|
        ensures Lowered(s)[k] == Lowered(t)[k]
      {
        LoweredAt(s, k);
        LoweredAt(t, k);
      }
    }
  }

  /** The folded text has no upper-case ASCII letter and changes nothing else, so folding twice is folding once. */
  lemma LoweredIdempotent(s: seq<char>)
    ensures forall k :: 0 <= k < |s| ==> !('A' <= Lowered(s)[k] <= 'Z')
    ensures forall k :: 0 <= k < |s| && !('A' <= s[k] <= 'Z') ==> Lowered(s)[k] == s[k]
    ensures Lowered(Lowered(s)) == Lowered(s)
  {
    forall k | 0 <= k < |s|
      ensures !('A' <= Lowered(s)[k] <= 'Z') && (!('A' <= s[k] <= 'Z') ==> Lowered(s)[k] == s[k])
      ensures Lowered(Lowered(s))[k] == Lowered(s)[k]
    {
      LoweredAt(s, k);
      LoweredAt(Lowered(s), k);
    }
  }

  /** `str_tolower(str)`: every character before the NUL at l replaced by its table entry, in place. */
  method StrToLower(str: array<char>, ghost l: nat)
    requires l < str.Length && str[l] == NUL && NUL !in str[..l]
    modifies str
    ensures str[..l] == Lowered(old(str[..l])) && str[l..] == old(str[l..])
  {
    ghost var orig := str[..];
    var i := 0;
    while str[i] != NUL
      invariant 0 <= i <= l
      invariant str[..i] == Lowered(orig[..i]) && str[i..] == orig[i..]
      invariant forall k :: i <= k < l ==> str[k] != NUL
      decreases l - i
    {
      assert orig[i] == str[i];
      assert orig[..i + 1] == orig[..i] + [orig[i]];
      LoweredSnoc(orig[..i], orig[i]);
      str[i] := LowerChar(str[i]);
      assert str[..i + 1] == str[..i] + [str[i]];
      i := i + 1;
      assert str[i..] == orig[i..] by {
        assert forall k :: i <= k < str.Length ==> str[k] == orig[k];
      }
    }
  }

  lemma {:induction false} LoweredSnoc(s: seq<char>, c: char)
    ensures Lowered(s + [c]) == Lowered(s) + [LowerChar(c)]
  {
    if s != [] {
      assert (s + [c])[1..] == s[1..] + [c];
      LoweredSnoc(s[1..], c);
    } else {
      assert [c][1..] == [];
    }
  }

  // ---------------------------------------------------------------------
  // utf8_char_len

  /**
   * `utf8_char_len(s)`: the length of the UTF-8 sequence the byte c
   * leads, read off its high bits; 0 for a byte that leads none.
   */
  function Utf8CharLen(c: Octet): (len: nat)
    ensures len <= 4
  {
    var b := c as int as bv8;
    if b & 0x80 == 0 then 1
    else if b & 0xE0 == 0xC0 then 2
    else if b & 0xF0 == 0xE0 then 3
    else if b & 0xF8 == 0xF0 then 4
    else 0
  }

  /**
   * The classes of lead bytes of section 3 of RFC 3629, by value:
   * 00..7F lead one byte, C0..DF two, E0..EF three, F0..F7 four, and
   * continuation bytes 80..BF and F8..FF lead nothing.
   */
  lemma Utf8Classes(c: Octet)
    ensures Utf8CharLen(c) == 1 <==> c as int < 0x80
    ensures Utf8CharLen(c) == 2 <==> 0xC0 <= c as int < 0xE0
    ensures Utf8CharLen(c) == 3 <==> 0xE0 <= c as int < 0xF0
    ensures Utf8CharLen(c) == 4 <==> 0xF0 <= c as int < 0xF8
    ensures Utf8CharLen(c) == 0 <==> 0x80 <= c as int < 0xC0 || 0xF8 <= c as int
  {
  }

  // ---------------------------------------------------------------------
  // utf8_strcspn

  /**
   * The reject set, as the text before its NUL, can be walked character
   * by character: no character runs past the NUL.  A byte that leads no
   * character ends the walk.
   */
  predicate Walkable(r: seq<Octet>)
    decreases |r|
  {
    r == [] || Utf8CharLen(r[0]) == 0 || (Utf8CharLen(r[0]) <= |r| && Walkable(r[Utf8CharLen(r[0])..]))
  }

  /** The characters of the reject set, up to the first byte that leads none. */
  function Tokens(r: seq<Octet>): seq<seq<Octet>>
    requires Walkable(r)
    decreases |r|
  {
    if r == [] || Utf8CharLen(r[0]) == 0 then []
    else [r[..Utf8CharLen(r[0])]] + Tokens(r[Utf8CharLen(r[0])..])
  }

  /** The walk over the reject set meets a byte that leads no character. */
  predicate HitsInvalid(r: seq<Octet>)
    requires Walkable(r)
    decreases |r|
  {
    r != [] && (Utf8CharLen(r[0]) == 0 || HitsInvalid(r[Utf8CharLen(r[0])..]))
  }

  /**
   * The comparison loop of `utf8_strcspn`: the character t counts as
   * found at n when s agrees with it byte for byte up to the end of t or
   * to the NUL of s at l, whichever comes first.
   */
  predicate Matches(s: seq<Octet>, l: nat, n: nat, t: seq<Octet>)
    requires n <= l < |s|
  {
    forall j :: 0 <= j < |t| && n + j < l ==> s[n + j] == t[j]
  }

  /** Some character of ts, tried in order, is found at n. */
  predicate AnyMatch(s: seq<Octet>, l: nat, n: nat, ts: seq<seq<Octet>>)
    requires n <= l < |s|
  {
    ts != [] && (Matches(s, l, n, ts[0]) || AnyMatch(s, l, n, ts[1..]))
  }

  /** The character sets `A_REVEAL` passes: comma, middle dot (C2 B7), full stop and hyphen. */
  const RevealStops: seq<Octet> := [',', 0xC2 as char, 0xB7 as char, '.', '-']

  /** The middle dot is walked as one two-byte character and the set holds no bad lead byte. */
  lemma RevealStopsTokens()
    ensures Walkable(RevealStops) && !HitsInvalid(RevealStops)
    ensures Tokens(RevealStops) == [[','], [0xC2 as char, 0xB7 as char], ['.'], ['-']]
  {
    var r := RevealStops;
    Utf8Classes(r[0]);
    Utf8Classes(r[1]);
    Utf8Classes(r[3]);
    Utf8Classes(r[4]);
    assert r[5..] == [] && r[4..][1..] == r[5..] && r[3..][1..] == r[4..] && r[1..][2..] == r[3..] && r[1..] == r[0..][1..];
    assert r[4..][..1] == ['-'] && r[3..][..1] == ['.'] && r[1..][..2] == [0xC2 as char, 0xB7 as char] && r[..1] == [','];
    assert Walkable(r[4..]) && Tokens(r[4..]) == [['-']] && !HitsInvalid(r[4..]);
    assert Walkable(r[3..]) && Tokens(r[3..]) == [['.'], ['-']] && !HitsInvalid(r[3..]);
    assert Walkable(r[1..]) && Tokens(r[1..]) == [[0xC2 as char, 0xB7 as char], ['.'], ['-']] && !HitsInvalid(r[1..]);
  }

  /** Where the walk stands at reject offset i, the rest of it decides the outcome. */
  lemma TokensStep(r: seq<Octet>, i: nat)
    requires i < |r| && Walkable(r[i..]) && Utf8CharLen(r[i]) != 0
    ensures Utf8CharLen(r[i]) <= |r| - i && Walkable(r[i + Utf8CharLen(r[i])..])
    ensures Tokens(r[i..]) == [r[i..i + Utf8CharLen(r[i])]] + Tokens(r[i + Utf8CharLen(r[i])..])
    ensures HitsInvalid(r[i..]) == HitsInvalid(r[i + Utf8CharLen(r[i])..])
  {
    var len := Utf8CharLen(r[i]);
    assert r[i..][0] == r[i] && r[i..][len..] == r[i + len..] && r[i..][..len] == r[i..i + len];
  }

  lemma AnyMatchCons(s: seq<Octet>, l: nat, n: nat, t: seq<Octet>, ts: seq<seq<Octet>>)
    requires n <= l < |s|
    ensures AnyMatch(s, l, n, [t] + ts) <==> Matches(s, l, n, t) || AnyMatch(s, l, n, ts)
  {
    assert ([t] + ts)[0] == t && ([t] + ts)[1..] == ts;
  }

  /** At the NUL of s the first character of the set is found at once; with none, the set starts with a bad lead byte. */
  lemma EndMatches(s: seq<Octet>, l: nat, r: seq<Octet>)
    requires l < |s| && r != [] && Walkable(r)
    ensures Tokens(r) != [] ==> AnyMatch(s, l, l, Tokens(r))
    ensures Tokens(r) == [] ==> HitsInvalid(r)
  {
    if Tokens(r) != [] {
      assert Matches(s, l, l, Tokens(r)[0]);
    }
  }

  /**
   * The innermost loop of `utf8_strcspn`: compares the len bytes of the
   * reject character at i with s from n on, stopping at the NUL of s or at
   * the first difference.
   */
  method MatchChar(s: array<Octet>, l: nat, n: nat, reject: array<Octet>, i: nat, len: nat) returns (found: int)
    requires n <= l < s.Length && s[l] == NUL && NUL !in s[..l]
    requires i + len <= reject.Length
    ensures found == 0 || found == 1
    ensures found == 1 <==> Matches(s[..], l, n, reject[i..i + len])
  {
    var j := 0;
    found := 1;
    while s[n + j] != NUL && j < len && found == 1
      invariant 0 <= j <= len && n + j <= l
      invariant found == 0 || found == 1
      invariant found == 1 <==> s[n..n + j] == reject[i..i + j]
      invariant found == 0 ==> j > 0 && n + j - 1 < l && s[n + j - 1] != reject[i + j - 1]
      decreases len - j
    {
      found := if s[n + j] == reject[i + j] then 1 else 0;
      assert n + j < l;
      j := j + 1;
    }
    ghost var t := reject[i..i + len];
    if found == 1 {
      if s[n + j] == NUL {
        assert n + j == l;
      }
      forall k | 0 <= k < j
        ensures s[..][n + k] == t[k]
      {
        assert s[n..n + j][k] == reject[i..i + j][k];
      }
    } else {
      assert s[..][n + j - 1] != t[j - 1];
    }
  }

  /**
   * One round of the middle loop of `utf8_strcspn`, at reject offset i:
   * the NUL of the set ends the walk with -1, a byte that leads no
   * character sets e, and any other character is compared with s at n.
   * A failed round leaves found as it was.
   */
  method RejectStep(s: array<Octet>, l: nat, n: nat, reject: array<Octet>, ghost r: seq<Octet>, i: nat, found: int)
    returns (e: int, found': int, next: nat)
    requires n <= l < s.Length && s[l] == NUL && NUL !in s[..l]
    requires |r| < reject.Length && r == reject[..|r|] && reject[|r|] == NUL && NUL !in r
    requires i <= |r| && Walkable(r[i..])
    ensures e == 0 || e == 1
    ensures i == |r| ==> e == 0 && found' == -1 && next == i
    ensures i < |r| && e == 1 ==> next == i && found' == found && Tokens(r[i..]) == [] && HitsInvalid(r[i..])
    ensures i < |r| && e == 0 ==> i < next <= |r| && Walkable(r[next..]) && (found' == 0 || found' == 1)
    ensures i < |r| && e == 0 ==> (AnyMatch(s[..], l, n, Tokens(r[i..])) <==> found' == 1 || AnyMatch(s[..], l, n, Tokens(r[next..])))
    ensures i < |r| && e == 0 ==> HitsInvalid(r[i..]) == HitsInvalid(r[next..])
  {
    var len := Utf8CharLen(reject[i]);
    e := if len == 0 then 1 else 0;
    found', next := found, i;
    if e == 0 {
      found' := MatchChar(s, l, n, reject, i, len);
      if reject[i] != NUL {
        assert i < |r|;
        assert r[i] == reject[i];
        TokensStep(r, i);
        assert reject[i..i + len] == r[i..i + len];
        AnyMatchCons(s[..], l, n, r[i..i + len], Tokens(r[i + len..]));
        next := i + len;
      } else {
        assert i == |r|;
        found' := -1;
      }
    } else {
      assert i < |r| && r[i..][0] == reject[i];
    }
  }

  /**
   * The outcome of the reject walk at position n of s: found is 1 when a
   * character of the set is found there, -1 when none is and the walk
   * reached the NUL of the set; e is 1 when it met a bad lead byte first.
   */
  predicate ScanResult(s: seq<Octet>, l: nat, n: nat, r: seq<Octet>, e: int, found: int)
    requires n <= l < |s| && Walkable(r)
  {
    && (e == 0 || e == 1)
    && (found == 1 ==> e == 0 && AnyMatch(s, l, n, Tokens(r)))
    && (e == 0 && found != 1 ==> found == -1 && !AnyMatch(s, l, n, Tokens(r)) && !HitsInvalid(r))
    && (e == 1 ==> found == 0 && HitsInvalid(r) && !AnyMatch(s, l, n, Tokens(r)))
  }

  /**
   * The middle loop of `utf8_strcspn`: walks the reject characters at one
   * position n of s, until one is found (1), the NUL of the set is reached
   * (-1), or a byte leads no character (e = 1).
   */
  method ScanRejects(s: array<Octet>, l: nat, n: nat, reject: array<Octet>, ghost r: seq<Octet>) returns (e: int, found: int)
    requires n <= l < s.Length && s[l] == NUL && NUL !in s[..l]
    requires |r| < reject.Length && r == reject[..|r|] && reject[|r|] == NUL && NUL !in r && Walkable(r)
    ensures ScanResult(s[..], l, n, r, e, found)
  {
    var i := 0;
    e, found := 0, 0;
    assert r[i..] == r;
    var go := true;
    while go
      invariant 0 <= i <= |r| && Walkable(r[i..])
      invariant go ==> e == 0 && found == 0
      invariant go ==> (AnyMatch(s[..], l, n, Tokens(r)) <==> AnyMatch(s[..], l, n, Tokens(r[i..])))
      invariant go ==> HitsInvalid(r) == HitsInvalid(r[i..])
      invariant !go ==> ScanResult(s[..], l, n, r, e, found)
      decreases |r| - i, go
    {
      var next;
      ghost var at := i;
      e, found, next := RejectStep(s, l, n, reject, r, i, found);
      if at == |r| {
        assert r[at..] == [];
      }
      i := next;
      go := found == 0 && e == 0;
    }
  }

  /**
   * What `utf8_strcspn` promises: e is 1 exactly when the walk over the
   * set meets a bad lead byte and no character of the set is found at the
   * start of s; otherwise n is the first position of s at which one is
   * found, at the latest its NUL at l.
   */
  predicate CspnResult(s: seq<Octet>, l: nat, r: seq<Octet>, e: int, n: int)
    requires l < |s| && Walkable(r)
  {
    && (e == 0 || e == 1)
    && (e == 0 <==> !HitsInvalid(r) || AnyMatch(s, l, 0, Tokens(r)))
    && (e == 0 ==> 0 <= n <= l && AnyMatch(s, l, n, Tokens(r)))
    && (e == 0 ==> forall m :: 0 <= m < n ==> !AnyMatch(s, l, m, Tokens(r)))
  }

  /**
   * `utf8_strcspn(s, reject, &n)`: the length n of the longest start of s
   * in which no character of the reject set is found; 1 when the walk over
   * the set meets a byte that leads no character before one is found.
   */
  method Utf8Strcspn(s: array<Octet>, l: nat, reject: array<Octet>, ghost rl: nat) returns (e: int, n: int)
    requires l < s.Length && s[l] == NUL && NUL !in s[..l]
    requires 0 < rl < reject.Length && reject[rl] == NUL && NUL !in reject[..rl] && Walkable(reject[..rl])
    ensures CspnResult(s[..], l, reject[..rl], e, n)
  {
    ghost var r := reject[..rl];
    n := 0;
    e := 0;
    var found := 0;
    var go := true;
    while go
      invariant 0 <= n && (go ==> n <= l && e == 0)
      invariant go ==> forall m :: 0 <= m < n ==> !AnyMatch(s[..], l, m, Tokens(r))
      invariant go && n > 0 ==> !HitsInvalid(r)
      invariant !go ==> CspnResult(s[..], l, r, e, n)
      decreases l + 1 - n, go
    {
      e, found := ScanRejects(s, l, n, reject, r);
      if found <= 0 {
        if e == 0 {
          EndMatches(s[..], l, r);
        }
        n := n + 1;
      }
      go := found <= 0 && e == 0;
    }
  }

  // ---------------------------------------------------------------------
  // e2str

  /** The letter of a nonzero base-27 digit: `'@' + d`, so 1..26 are `A`..`Z`. */
  function Letter(d: int): char
    requires 0 < d < 27
  {
    ('@' as int + d) as char
  }

  /** The letters of a positive code, least significant digit first, zero digits left out. */
  function Letters(e: nat): (r: seq<char>)
    ensures forall k :: 0 <= k < |r| ==> 'A' <= r[k] <= 'Z'
  {
    if e == 0 then [] else (if e % 27 != 0 then [Letter(e % 27)] else []) + Letters(e / 27)
  }

  /** The text `e2str` writes for an error code. */
  function ErrorText(e: int): seq<char>
  {
    if e == 0 then "0" else if e == 1 then "1" else if e < 0 then "< 0" else Letters(e)
  }

  /** The code a text of letters stands for, the first letter the least significant digit. */
  function LettersValue(s: seq<char>): int
  {
    if s == [] then 0 else (s[0] as int - '@' as int) + 27 * LettersValue(s[1..])
  }

  /** Every base-27 digit of e is nonzero. */
  predicate NoZeroDigit(e: nat)
  {
    e == 0 || (e % 27 != 0 && NoZeroDigit(e / 27))
  }

  /** A code none of whose base-27 digits is zero is spelled back exactly. */
  lemma {:induction false} LettersRoundTrip(e: nat)
    requires NoZeroDigit(e)
    ensures LettersValue(Letters(e)) == e
  {
    if e != 0 {
      LettersRoundTrip(e / 27);
      assert Letters(e)[1..] == Letters(e / 27);
    }
  }

  /** Codes with a zero digit share their spelling: 2 and 54 are both `B`. */
  lemma ZeroDigitsCollide()
    ensures ErrorText(2) == ErrorText(54) == "B"
  {
    assert Letters(0) == [];
    assert Letters(2) == ['B'];
    assert Letters(54 / 27) == ['B'];
  }

  /** The code of a failed `ms_open` check spells `WMSOAF`. */
  lemma OpenFailedSpelling()
    ensures ErrorText(0x052e8351) == "WMSOAF"
  {
    var e := 0x052e8351;
    assert Letters(e / 27 / 27 / 27 / 27 / 27 / 27) == [];
    assert Letters(e / 27 / 27 / 27 / 27 / 27) == "F";
    assert Letters(e / 27 / 27 / 27 / 27) == "AF";
    assert Letters(e / 27 / 27 / 27) == "OAF";
    assert Letters(e / 27 / 27) == "SOAF";
    assert Letters(e / 27) == "MSOAF";
  }

  /** `e2str(e, e_str)`: the spelling of the code, the loop taking one base-27 digit per round. */
  method E2Str(e: int) returns (text: seq<char>)
    ensures text == ErrorText(e)
  {
    if e == 0 {
      text := "0";
    } else if e == 1 {
      text := "1";
    } else if e < 0 {
      text := "< 0";
    } else {
      text := [];
      var rest := e;
      while rest != 0
        invariant 0 <= rest && text + Letters(rest) == Letters(e)
      {
        var ch := rest % 27;
        if ch != 0 {
          text := text + [Letter(ch)];
        }
        assert Letters(rest) == (if ch != 0 then [Letter(ch)] else []) + Letters(rest / 27);
        rest := rest / 27;
      }
    }
  }
}
