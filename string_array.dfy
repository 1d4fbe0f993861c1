/**
 * The `StringArray` of memorysurfer.c: `sa_c` strings stored back to back,
 * each followed by its NUL terminator, in one buffer `sa_d` of `sa_n`
 * bytes.  It holds the deck names and the question/answer pair of a card.
 *
 * The strings are specified as a sequence of C strings; `Pack` is the
 * layout they take in the buffer and `Unpack` reads them back.
 */
module StringArrays {
  import opened Wrappers
  import opened CTypes

  /** A C string: no NUL before its terminator. */
  predicate IsCString(s: seq<char>)
  {
    forall k :: 0 <= k < |s| ==> s[k] != NUL
  }

  predicate AllCStrings(ss: seq<seq<char>>)
  {
    forall j :: 0 <= j < |ss| ==> IsCString(ss[j])
  }

  /** The layout of the strings in `sa_d`: every string followed by its NUL terminator. */
  function Pack(ss: seq<seq<char>>): seq<char>
  {
    if ss == [] then [] else ss[0] + [NUL] + Pack(ss[1..])
  }

  /** The number of bytes the strings take: the sum of their lengths plus one terminator each. */
  function TotalLength(ss: seq<seq<char>>): nat
  {
    if ss == [] then 0 else TotalLength(ss[..|ss| - 1]) + |ss[|ss| - 1]| + 1
  }

  /** The number of NUL bytes in a buffer. */
  function CountNul(c: seq<char>): (n: nat)
    ensures n <= |c|
  {
    if c == [] then 0 else CountNul(c[..|c| - 1]) + (if c[|c| - 1] == NUL then 1 else 0)
  }

  /** The offset of the first NUL byte. */
  function FirstNul(c: seq<char>): (k: nat)
    requires NUL in c
    ensures k < |c| && c[k] == NUL && NUL !in c[..k]
  {
    if c[0] == NUL then 0 else 1 + FirstNul(c[1..])
  }

  /** The strings of a buffer: the bytes before each NUL; bytes after the last NUL belong to no string. */
  function Unpack(c: seq<char>): seq<seq<char>>
    decreases |c|
  {
    if NUL !in c then [] else
      var k := FirstNul(c);
      [c[..k]] + Unpack(c[k + 1..])
  }

  /** The buffer holds the C string s at offset p. */
  predicate CStringAt(buf: seq<char>, p: int, s: seq<char>)
  {
    0 <= p && p + |s| < |buf| && buf[p..p + |s|] == s && buf[p + |s|] == NUL
  }

  /**
   * The strings after `sa_set(sa, i, s)`: string i is s, the others are
   * kept, and when i is past the end the strings in between are empty.
   */
  function Assign(ss: seq<seq<char>>, i: nat, s: seq<char>): (r: seq<seq<char>>)
    ensures |r| == if i < |ss| then |ss| else i + 1
    ensures r[i] == s
  {
    if i < |ss| then ss[i := s] else ss + seq(i - |ss|, _ => []) + [s]
  }

  /** Entry j after `sa_set(sa, i, s)`: s at i, the old string below the old count, empty elsewhere. */
  lemma AssignAt(ss: seq<seq<char>>, i: nat, s: seq<char>, j: nat)
    requires j < |Assign(ss, i, s)|
    ensures Assign(ss, i, s)[j] == if j == i then s else if j < |ss| then ss[j] else []
  {
  }

  // ---------------------------------------------------------------------
  // Properties of the layout

  lemma {:induction false} PackConcat(a: seq<seq<char>>, b: seq<seq<char>>)
    ensures Pack(a + b) == Pack(a) + Pack(b)
    decreases |a|
  {
    if a == [] {
      assert a + b == b;
    } else {
      assert (a + b)[0] == a[0];
      assert (a + b)[1..] == a[1..] + b;
      PackConcat(a[1..], b);
    }
  }

  /** Packing one more string appends it and its terminator. */
  lemma PackSnoc(ss: seq<seq<char>>, k: nat)
    requires k < |ss|
    ensures Pack(ss[..k + 1]) == Pack(ss[..k]) + ss[k] + [NUL]
  {
    assert ss[..k + 1] == ss[..k] + [ss[k]];
    PackConcat(ss[..k], [ss[k]]);
    assert Pack([ss[k]]) == ss[k] + [NUL] + Pack([]);
  }

  /** The layout of a prefix of the strings is a prefix of the layout. */
  lemma PackPrefix(ss: seq<seq<char>>, k: nat)
    requires k <= |ss|
    ensures Pack(ss) == Pack(ss[..k]) + Pack(ss[k..])
  {
    assert ss == ss[..k] + ss[k..];
    PackConcat(ss[..k], ss[k..]);
  }

  /** The length of the layout is the sum of the string lengths plus one terminator per string. */
  lemma {:induction false} PackLength(ss: seq<seq<char>>)
    ensures |Pack(ss)| == TotalLength(ss)
    decreases |ss|
  {
    if ss != [] {
      var k := |ss| - 1;
      assert ss[..k + 1] == ss;
      PackSnoc(ss, k);
      PackLength(ss[..k]);
    }
  }

  /**
   * In a buffer that starts with the layout of the strings, string k
   * starts right after the strings before it.
   */
  lemma Located(buf: seq<char>, ss: seq<seq<char>>, k: nat)
    requires |Pack(ss)| <= |buf| && buf[..|Pack(ss)|] == Pack(ss) && k < |ss|
    ensures CStringAt(buf, |Pack(ss[..k])|, ss[k])
    ensures |Pack(ss[..k + 1])| == |Pack(ss[..k])| + |ss[k]| + 1 <= |Pack(ss)|
  {
    PackSnoc(ss, k);
    PackPrefix(ss, k + 1);
    Middle(Pack(ss[..k]), ss[k], NUL, Pack(ss[k + 1..]));
    var p := |Pack(ss[..k])|;
    Slice(buf, Pack(ss), p, p + |ss[k]|);
  }

  /** The middle part of a concatenation (for any element type). */
  lemma Middle<T>(a: seq<T>, x: seq<T>, y: T, b: seq<T>)
    ensures (a + x + [y] + b)[|a|..|a| + |x|] == x && (a + x + [y] + b)[|a| + |x|] == y
  {
  }

  /** A slice of a buffer that starts with p is the slice of p (for any element type). */
  lemma Slice<T>(buf: seq<T>, p: seq<T>, i: nat, j: nat)
    requires |p| <= |buf| && buf[..|p|] == p && i <= j <= |p|
    ensures buf[i..j] == p[i..j]
  {
    forall t | 0 <= t < j - i
      ensures buf[i..j][t] == p[i..j][t]
    {
      assert buf[i + t] == buf[..|p|][i + t];
    }
  }

  lemma {:induction false} CountConcat(a: seq<char>, b: seq<char>)
    ensures CountNul(a + b) == CountNul(a) + CountNul(b)
    decreases |b|
  {
    if b == [] {
      assert a + b == a;
    } else {
      assert (a + b)[..|a + b| - 1] == a + b[..|b| - 1];
      CountConcat(a, b[..|b| - 1]);
    }
  }

  lemma {:induction false} CountNone(s: seq<char>)
    requires NUL !in s
    ensures CountNul(s) == 0
    decreases |s|
  {
    if s != [] {
      assert NUL !in s[..|s| - 1];
      CountNone(s[..|s| - 1]);
    }
  }

  /** The count `sa_load` takes of a buffer holding the layout of C strings is the number of strings. */
  lemma {:induction false} CountPack(ss: seq<seq<char>>)
    requires AllCStrings(ss)
    ensures CountNul(Pack(ss)) == |ss|
    decreases |ss|
  {
    if ss != [] {
      assert NUL !in ss[0];
      CountNone(ss[0]);
      CountConcat(ss[0], [NUL]);
      assert CountNul([NUL]) == CountNul([]) + 1;
      CountConcat(ss[0] + [NUL], Pack(ss[1..]));
      CountPack(ss[1..]);
    }
  }

  /** Reading back the strings of a buffer finds one string per NUL byte. */
  lemma {:induction false} UnpackCount(c: seq<char>)
    ensures |Unpack(c)| == CountNul(c)
    decreases |c|
  {
    if NUL !in c {
      CountNone(c);
    } else {
      var k := FirstNul(c);
      assert c == c[..k] + [NUL] + c[k + 1..];
      CountNone(c[..k]);
      CountConcat(c[..k], [NUL]);
      assert CountNul([NUL]) == CountNul([]) + 1;
      CountConcat(c[..k] + [NUL], c[k + 1..]);
      UnpackCount(c[k + 1..]);
    }
  }

  /** The first NUL is the one with no NUL before it. */
  lemma {:induction false} FirstNulAt(c: seq<char>, n: nat)
    requires n < |c| && c[n] == NUL && NUL !in c[..n]
    ensures NUL in c && FirstNul(c) == n
    decreases n
  {
    assert c[n] in c;
    if n > 0 {
      assert c[0] == c[..n][0];
      assert c[1..][n - 1] == c[n];
      assert c[1..][..n - 1] == c[..n][1..];
      FirstNulAt(c[1..], n - 1);
    }
  }

  /** Reading back the layout of C strings gives the strings. */
  lemma {:induction false} UnpackPack(ss: seq<seq<char>>)
    requires AllCStrings(ss)
    ensures Unpack(Pack(ss)) == ss
    decreases |ss|
  {
    if ss != [] {
      var c := Pack(ss);
      var n := |ss[0]|;
      assert c == ss[0] + [NUL] + Pack(ss[1..]);
      assert c[..n] == ss[0] && c[n] == NUL;
      assert IsCString(ss[0]);
      FirstNulAt(c, n);
      assert c[n + 1..] == Pack(ss[1..]);
      assert Unpack(c) == [ss[0]] + Unpack(Pack(ss[1..]));
      assert AllCStrings(ss[1..]) by {
        forall j | 0 <= j < |ss| - 1
          ensures IsCString(ss[1..][j])
        {
          assert ss[1..][j] == ss[j + 1];
        }
      }
      UnpackPack(ss[1..]);
      assert ss == [ss[0]] + ss[1..];
    }
  }

  /** A buffer that is empty or ends with a NUL byte is exactly the layout of its C strings. */
  lemma {:induction false} PackUnpack(c: seq<char>)
    requires c == [] || c[|c| - 1] == NUL
    ensures AllCStrings(Unpack(c)) && Pack(Unpack(c)) == c
    decreases |c|
  {
    if c != [] {
      assert c[|c| - 1] in c;
      var k := FirstNul(c);
      var rest := c[k + 1..];
      assert rest == [] || rest[|rest| - 1] == c[|c| - 1];
      PackUnpack(rest);
      var u := Unpack(c);
      assert u == [c[..k]] + Unpack(rest);
      assert u[0] == c[..k] && u[1..] == Unpack(rest);
      forall j | 0 <= j < |u|
        ensures IsCString(u[j])
      {
        if j > 0 {
          assert u[j] == Unpack(rest)[j - 1];
        }
      }
      assert Pack(u) == c[..k] + [NUL] + rest;
      assert c == c[..k] + [NUL] + rest;
    }
  }

  /** The size `sa_set` computes for its new buffer is the length of the layout of the new strings. */
  lemma AssignLength(ss: seq<seq<char>>, i: nat, s: seq<char>)
    ensures |Pack(Assign(ss, i, s))| ==
      |s| + 1 + |Pack(ss)| - (if i < |ss| then |ss[i]| + 1 else 0) + (if i < |ss| then 0 else i - |ss|)
  {
    var r := Assign(ss, i, s);
    if i < |ss| {
      assert ss == ss[..i] + [ss[i]] + ss[i + 1..];
      assert r == ss[..i] + [s] + ss[i + 1..];
      PackConcat(ss[..i] + [ss[i]], ss[i + 1..]);
      PackConcat(ss[..i], [ss[i]]);
      PackConcat(ss[..i] + [s], ss[i + 1..]);
      PackConcat(ss[..i], [s]);
      assert Pack([ss[i]]) == ss[i] + [NUL] + Pack([]);
      assert Pack([s]) == s + [NUL] + Pack([]);
    } else {
      var e: seq<seq<char>> := seq(i - |ss|, _ => []);
      assert r == ss + e + [s];
      PackConcat(ss + e, [s]);
      PackConcat(ss, e);
      EmptiesLength(i - |ss|);
      assert Pack([s]) == s + [NUL] + Pack([]);
    }
  }

  lemma {:induction false} EmptiesLength(n: nat)
    ensures |Pack(seq(n, _ => []))| == n
    decreases n
  {
    if n > 0 {
      var e: seq<seq<char>> := seq(n, _ => []);
      assert e[0] == [] && e[1..] == seq(n - 1, _ => []);
      EmptiesLength(n - 1);
    }
  }

  // ---------------------------------------------------------------------
  // The scanning loops shared by the operations

  /** `do ch = sa_d[pos++]; while (ch != '\0');`: step over the C string at offset p. */
  method SkipString(buf: seq<char>, p: int, ghost s: seq<char>) returns (q: int)
    requires CStringAt(buf, p, s) && IsCString(s)
    ensures q == p + |s| + 1
  {
    q := p;
    var go := true;
    while go
      invariant p <= q <= p + |s| + 1
      invariant go ==> q <= p + |s|
      invariant !go ==> q == p + |s| + 1
      decreases p + |s| + 1 - q
    {
      var ch := buf[q];
      q := q + 1;
      go := ch != NUL;
      if q - 1 < p + |s| {
        assert ch == s[q - 1 - p];
      }
    }
  }

  /** `do { ch = src[r++]; dst[w++] = ch; } while (ch != '\0');`: copy the C string at offset r. */
  method CopyString(dst: array<char>, w: int, src: seq<char>, r: int, ghost s: seq<char>) returns (w': int, r': int)
    requires CStringAt(src, r, s) && IsCString(s) && 0 <= w && w + |s| + 1 <= dst.Length
    modifies dst
    ensures w' == w + |s| + 1 && r' == r + |s| + 1
    ensures dst[..w'] == old(dst[..w]) + s + [NUL]
  {
    w', r' := w, r;
    var go := true;
    while go
      invariant r <= r' <= r + |s| + 1 && w' - w == r' - r
      invariant dst[..w'] == old(dst[..w]) + src[r..r']
      invariant go ==> r' <= r + |s|
      invariant !go ==> r' == r + |s| + 1
      decreases r + |s| + 1 - r'
    {
      var ch := src[r'];
      dst[w'] := ch;
      assert dst[..w' + 1] == dst[..w'] + [ch];
      assert src[r..r' + 1] == src[r..r'] + [ch];
      r', w' := r' + 1, w' + 1;
      go := ch != NUL;
      if r' - 1 < r + |s| {
        assert ch == s[r' - 1 - r];
      }
    }
    assert src[r..r + |s| + 1] == s + [NUL];
  }

  /**
   * The inner loop of `sa_cmp`: compare the strings at offset p of two
   * buffers byte by byte until a difference or the end of the left one.
   */
  method CompareString(a: seq<char>, b: seq<char>, p: int, ghost x: seq<char>, ghost y: seq<char>)
    returns (eq: bool, q: int)
    requires CStringAt(a, p, x) && IsCString(x) && CStringAt(b, p, y) && IsCString(y)
    ensures eq <==> x == y
    ensures eq ==> q == p + |x| + 1
  {
    q := p;
    var go := true;
    eq := true;
    while go
      invariant p <= q && (go ==> eq)
      invariant go ==> q <= p + |x| && q <= p + |y| && x[..q - p] == y[..q - p]
      invariant !go ==> (eq <==> x == y) && (eq ==> q == p + |x| + 1)
      decreases p + |x| + 1 - q, go
    {
      var t := q - p;
      var chA, chB := a[q], b[q];
      assert chA == if t < |x| then x[t] else NUL;
      assert chB == if t < |y| then y[t] else NUL;
      eq := chA == chB;
      q := q + 1;
      go := eq && chA != NUL;
      if go {
        assert x[..t + 1] == x[..t] + [x[t]] && y[..t + 1] == y[..t] + [y[t]];
      } else if eq {
        assert x == x[..t] && y == y[..t];
      } else if t < |x| && t < |y| {
        assert x[t] != y[t];
      } else {
        assert |x| != |y|;
      }
    }
  }

  // ---------------------------------------------------------------------

  class StringArray {
    var count: int          // sa_c
    var data: seq<char>     // sa_d; its length is the allocated size sa_n
    ghost var strings: seq<seq<char>>

    /** The buffer starts with the layout of `count` C strings. */
    ghost predicate Valid()
      reads this
    {
      && count == |strings| && AllCStrings(strings)
      && |Pack(strings)| <= |data| && data[..|Pack(strings)|] == Pack(strings)
    }

    /** `sa_init`: no strings and no buffer. */
    constructor ()
      ensures Valid() && strings == [] && data == []
    {
      count := 0;
      data := [];
      strings := [];
    }

    /** `sa_length`: the number of bytes the strings take, terminators included. */
    method Length() returns (n: int)
      requires Valid()
      ensures n == |Pack(strings)|
    {
      n := 0;
      var i := 0;
      while i < count
        invariant 0 <= i <= count && n == |Pack(strings[..i])|
      {
        Located(data, strings, i);
        n := SkipString(data, n, strings[i]);
        i := i + 1;
      }
      assert strings[..count] == strings;
    }

    /**
     * `sa_get`: NULL when i is not below the count, otherwise the offset
     * of string i in the buffer.
     */
    method Get(i: int) returns (r: Option<int>)
      requires Valid() && 0 <= i
      ensures r == None <==> i >= count
      ensures r.Some? ==> i < |strings| && r.value == |Pack(strings[..i])| && CStringAt(data, r.value, strings[i])
    {
      r := None;
      if i < count {
        var p := 0;
        var k := 0;
        while k != i
          invariant 0 <= k <= i && p == |Pack(strings[..k])|
        {
          Located(data, strings, k);
          p := SkipString(data, p, strings[k]);
          k := k + 1;
        }
        Located(data, strings, i);
        r := Some(p);
      }
    }

    /**
     * `sa_set`: string i becomes s.  A new buffer of exactly the needed
     * size is built by copying the other strings, with empty strings
     * filling any gap when i is past the end.
     */
    method Set(i: int, s: seq<char>)
      requires Valid() && 0 <= i && IsCString(s)
      modifies this
      ensures Valid() && strings == Assign(old(strings), i, s) && data == Pack(strings)
    {
      var size, newCount := SetSize(i, s);
      var buf := SetCopy(data, strings, count, i, s, size, newCount);
      data := buf[..];
      count := newCount;
      strings := Assign(strings, i, s);
    }

    /** The first pass of `sa_set`: the size of the new buffer and the new count. */
    method SetSize(i: int, s: seq<char>) returns (size: int, newCount: int)
      requires Valid() && 0 <= i && IsCString(s)
      ensures size == |Pack(Assign(strings, i, s))| && newCount == |Assign(strings, i, s)|
    {
      size := |s| + 1;
      var pos := 0;
      var k := 0;
      while k < count
        invariant 0 <= k <= count && pos == |Pack(strings[..k])|
        invariant size == |s| + 1 + |Pack(strings[..k])| - (if i < k then |strings[i]| + 1 else 0)
      {
        Located(data, strings, k);
        var next := SkipString(data, pos, strings[k]);
        if k != i {
          size := size + (next - pos);
        }
        pos := next;
        k := k + 1;
      }
      assert strings[..count] == strings;
      newCount := count;
      if i >= count {
        size := size + i - count;
        newCount := i + 1;
      }
      AssignLength(strings, i, s);
    }

    /**
     * The second pass of `sa_set`: copy the strings laid out in data, with
     * s at index i, into a new buffer.
     */
    static method SetCopy(data: seq<char>, ghost ss: seq<seq<char>>, count: int, i: int, s: seq<char>,
                          size: int, newCount: int) returns (buf: array<char>)
      requires count == |ss| && AllCStrings(ss) && |Pack(ss)| <= |data| && data[..|Pack(ss)|] == Pack(ss)
      requires 0 <= i && IsCString(s)
      requires size == |Pack(Assign(ss, i, s))| && newCount == |Assign(ss, i, s)|
      ensures fresh(buf) && buf[..] == Pack(Assign(ss, i, s))
    {
      ghost var ns := Assign(ss, i, s);
      buf := new char[size];
      var w, r, n := 0, 0, 0;
      var k := 0;
      while k < newCount
        invariant 0 <= k <= newCount == |ns| && size == |Pack(ns)| == buf.Length
        invariant w == |Pack(ns[..k])| <= size && buf[..w] == Pack(ns[..k])
        invariant k <= count ==> r == |Pack(ss[..k])|
        invariant k >= count ==> r == |Pack(ss)|
        invariant n == if k > i then |s| + 1 else 0
      {
        w, r, n := CopyEntry(buf, w, data, ss, count, r, i, s, n, ns, k);
        k := k + 1;
      }
      assert ns[..newCount] == ns;
      assert buf[..] == buf[..w];
    }

    /**
     * One round of the copy pass: entry k of the new array goes to the
     * buffer at w, read from s when k is i, from data when k is an old
     * index, and empty otherwise.
     */
    static method CopyEntry(buf: array<char>, w: int, data: seq<char>, ghost ss: seq<seq<char>>, count: int,
                            r: int, i: int, s: seq<char>, n: int, ghost ns: seq<seq<char>>, k: int)
      returns (w': int, r': int, n': int)
      requires count == |ss| && AllCStrings(ss) && |Pack(ss)| <= |data| && data[..|Pack(ss)|] == Pack(ss)
      requires 0 <= i && IsCString(s) && ns == Assign(ss, i, s) && 0 <= k < |ns|
      requires k <= count ==> r == |Pack(ss[..k])|
      requires k >= count ==> r == |Pack(ss)|
      requires n == if k > i then |s| + 1 else 0
      requires |Pack(ns)| == buf.Length && w == |Pack(ns[..k])| <= buf.Length && buf[..w] == Pack(ns[..k])
      modifies buf
      ensures w' == |Pack(ns[..k + 1])| <= buf.Length && buf[..w'] == Pack(ns[..k + 1])
      ensures k + 1 <= count ==> r' == |Pack(ss[..k + 1])|
      ensures k + 1 >= count ==> r' == |Pack(ss)|
      ensures n' == if k + 1 > i then |s| + 1 else 0
    {
      AssignAt(ss, i, s, k);
      PackSnoc(ns, k);
      PackPrefix(ns, k + 1);
      r', n' := r, n;
      if k != i {
        if k < count {
          Located(data, ss, k);
          w', r' := CopyString(buf, w, data, r, ss[k]);
          assert ss[..count] == ss;
        } else {
          buf[w] := NUL;
          w' := w + 1;
          assert buf[..w'] == old(buf[..w]) + [NUL];
        }
      } else {
        assert CStringAt(s + [NUL], 0, s);
        w', n' := CopyString(buf, w, s + [NUL], n, s);
        if k < count {
          Located(data, ss, k);
          r' := SkipString(data, r, ss[k]);
          assert ss[..count] == ss;
        }
      }
    }

    /**
     * `sa_load`'s use of the buffer: it grows to the size of the loaded
     * chunk, receives its bytes, and the count becomes the number of NUL
     * bytes among them.
     */
    method Load(content: seq<char>)
      modifies this
      ensures count == CountNul(content) && strings == Unpack(content)
      ensures |data| == (if |old(data)| < |content| then |content| else |old(data)|)
      ensures data[..|content|] == content
      ensures content == [] || content[|content| - 1] == NUL ==> Valid()
    {
      if |data| < |content| {
        // realloc to the chunk size; the new bytes are overwritten next
        data := data + seq(|content| - |data|, _ => NUL);
      }
      data := content + data[|content|..];
      count := 0;
      var pos := 0;
      while pos < |content|
        invariant 0 <= pos <= |content| && count == CountNul(content[..pos])
        modifies this`count
      {
        assert content[..pos + 1][..pos] == content[..pos];
        count := count + if data[pos] == NUL then 1 else 0;
        pos := pos + 1;
      }
      assert content[..pos] == content;
      strings := Unpack(content);
      UnpackCount(content);
      if content == [] || content[|content| - 1] == NUL {
        PackUnpack(content);
      }
    }

    /** `sa_cmp`: true exactly when both arrays hold the same strings. */
    method Equals(other: StringArray) returns (eq: bool)
      requires Valid() && other.Valid()
      ensures eq <==> strings == other.strings
    {
      var n := count;
      eq := n == other.count;
      if eq {
        var i, j := 0, 0;
        while i < n && eq
          invariant 0 <= i <= n == |strings| == |other.strings|
          invariant eq ==> strings[..i] == other.strings[..i] && j == |Pack(strings[..i])|
          invariant !eq ==> strings != other.strings
        {
          Located(data, strings, i);
          Located(other.data, other.strings, i);
          eq, j := CompareString(data, other.data, j, strings[i], other.strings[i]);
          if eq {
            assert strings[..i + 1] == strings[..i] + [strings[i]];
            assert other.strings[..i + 1] == other.strings[..i] + [other.strings[i]];
          }
          i := i + 1;
        }
        if eq {
          assert strings == strings[..n] && other.strings == other.strings[..n];
        }
      }
    }

    /** `sa_move`: this array takes over the buffer and strings of src, which is left empty. */
    method Move(src: StringArray)
      requires src != this && src.Valid()
      modifies this, src
      ensures Valid() && strings == old(src.strings) && data == old(src.data) && count == old(src.count)
      ensures src.Valid() && src.strings == [] && src.data == []
    {
      data := src.data;
      src.data := [];
      count := src.count;
      src.count := 0;
      strings := src.strings;
      src.strings := [];
    }
  }
}
