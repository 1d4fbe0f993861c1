/**
 * The deck tree of memorysurfer.c: the array `cat_t` of `cat_a` decks
 * (`struct Category`), linked by index.  A deck in use points to its next
 * sibling and to its first child, -1 meaning none; `n_first` is the first
 * deck at the top level, and a slot whose `cat_used` is 0 is free.
 *
 * No deck records its parent, so every action that needs the link leading
 * to a deck scans the array for the deck in use whose sibling or child link
 * holds it.  The model names that link (`Link`) and keeps, as ghost state,
 * the link leading to every deck in use and a rank that grows along every
 * link: together they say the decks form a forest, and the rank is what
 * makes the upward walks terminate.
 */
module Decks {

  /** `struct Category`: card list chunk, expanded flag, next sibling, first child, in use, enabled. */
  datatype Deck = Deck(cli: int, expanded: int, sibling: int, child: int, used: int, on: int)

  /** The link that leads to a deck: `n_first`, or the sibling or child link of another deck. */
  datatype Link = Root | SiblingOf(prev: int) | ChildOf(parent: int)

  /** The deck array with `n_first`. */
  datatype Hierarchy = Hierarchy(decks: seq<Deck>, first: int)

  /** Link fields are `int16_t`. */
  const Int16Max: int := 32767

  /** How many slots `A_CREATE_CAT` adds when no slot is free. */
  const Growth: int := 7

  predicate InUse(s: seq<Deck>, i: int)
  {
    0 <= i < |s| && s[i].used != 0
  }

  /** What a link field may hold: no deck, or a deck in use. */
  predicate Target(s: seq<Deck>, v: int)
  {
    v == -1 || InUse(s, v)
  }

  /** Deck i is in use and links to x. */
  predicate Refers(s: seq<Deck>, i: int, x: int)
  {
    InUse(s, i) && (s[i].sibling == x || s[i].child == x)
  }

  /** Every link of a deck in use leads to a deck in use of greater rank, or to none: no link closes a cycle. */
  ghost predicate Ranked(s: seq<Deck>, rank: seq<nat>)
  {
    |rank| == |s| &&
    forall j :: InUse(s, j) ==>
      && Target(s, s[j].sibling) && Target(s, s[j].child)
      && (s[j].sibling != -1 ==> rank[j] < rank[s[j].sibling])
      && (s[j].child != -1 ==> rank[j] < rank[s[j].child])
  }

  /** Link l leads to x. */
  predicate Holds(h: Hierarchy, l: Link, x: int)
  {
    match l
    case Root => h.first == x
    case SiblingOf(j) => InUse(h.decks, j) && h.decks[j].sibling == x
    case ChildOf(j) => InUse(h.decks, j) && h.decks[j].child == x
  }

  /**
   * ref names the one link that leads to each deck in use.  A deck `loose`
   * (-1 for none) is out of the tree: nothing leads to it and its own
   * sibling link does not count, as while a deck is being moved.
   */
  ghost predicate Referred(h: Hierarchy, ref: seq<Link>, loose: int)
  {
    var s := h.decks;
    && |ref| == |s| && Target(s, loose)
    && Target(s, h.first) && (loose == -1 || h.first != loose)
    && (h.first != -1 ==> ref[h.first] == Root)
    && (forall x :: InUse(s, x) && x != loose ==> Holds(h, ref[x], x))
    && (forall j :: InUse(s, j) && j != loose && 0 <= s[j].sibling < |s| ==> ref[s[j].sibling] == SiblingOf(j))
    && (forall j :: InUse(s, j) && 0 <= s[j].child < |s| ==> ref[s[j].child] == ChildOf(j))
    && (loose != -1 ==> forall j :: InUse(s, j) ==> s[j].child != loose && (j == loose || s[j].sibling != loose))
    && (loose != -1 ==> forall x :: InUse(s, x) && x != loose ==> ref[x] != SiblingOf(loose))
  }

  /** The decks in use form a forest whose top level starts at `first`. */
  ghost predicate Forest(h: Hierarchy, ref: seq<Link>, rank: seq<nat>)
  {
    Ranked(h.decks, rank) && Referred(h, ref, -1)
  }

  /** The deck a link starts from, -1 for `n_first`. */
  function Source(l: Link): int
  {
    match l
    case Root => -1
    case SiblingOf(j) => j
    case ChildOf(j) => j
  }

  /** Two deck arrays that agree on every link and every in-use flag. */
  predicate SameLinks(a: seq<Deck>, b: seq<Deck>)
  {
    |a| == |b| &&
    forall i :: 0 <= i < |a| ==> a[i].sibling == b[i].sibling && a[i].child == b[i].child && a[i].used == b[i].used
  }

  /** Changing only the other fields of the decks (card list, expanded, enabled) keeps the forest. */
  lemma SameLinksForest(h: Hierarchy, s': seq<Deck>, ref: seq<Link>, rank: seq<nat>)
    requires Forest(h, ref, rank) && SameLinks(h.decks, s')
    ensures Forest(h.(decks := s'), ref, rank)
  {
    var h' := h.(decks := s');
    forall x | InUse(s', x)
      ensures Holds(h', ref[x], x)
    {
      assert Holds(h, ref[x], x);
    }
  }

  /** The first deck from k on that is in use and links to x, as the scans of the source find it; -1 when none. */
  function FirstRef(s: seq<Deck>, x: int, k: nat): (r: int)
    requires k <= |s|
    ensures r == -1 || (k <= r < |s| && Refers(s, r, x))
    ensures forall i :: k <= i < |s| && (r == -1 || i < r) ==> !Refers(s, i, x)
    decreases |s| - k
  {
    if k == |s| then -1 else if Refers(s, k, x) then k else FirstRef(s, x, k + 1)
  }

  /** The scan finds the link ref names: the deck it starts from, none for the top level. */
  lemma RefFound(h: Hierarchy, ref: seq<Link>, loose: int, x: int)
    requires Referred(h, ref, loose) && InUse(h.decks, x) && x != loose
    requires loose != -1 ==> h.decks[loose].sibling != x
    ensures FirstRef(h.decks, x, 0) == Source(ref[x])
    ensures ref[x] == Root <==> x == h.first
  {
    var s := h.decks;
    var r := FirstRef(s, x, 0);
    if r != -1 {
      if s[r].sibling == x {
        assert ref[x] == SiblingOf(r);
      } else {
        assert ref[x] == ChildOf(r);
      }
    } else {
      match ref[x]
      case Root =>
      case SiblingOf(j) => assert Refers(s, j, x);
      case ChildOf(j) => assert Refers(s, j, x);
    }
  }

  /** The deck a link starts from ranks below the deck it leads to. */
  lemma RefRank(h: Hierarchy, ref: seq<Link>, rank: seq<nat>, loose: int, x: int)
    requires Ranked(h.decks, rank) && Referred(h, ref, loose) && InUse(h.decks, x) && x != loose
    ensures ref[x] != Root ==> InUse(h.decks, Source(ref[x])) && rank[Source(ref[x])] < rank[x]
  {
  }

  /** The deck in use of greatest rank among the first k, -1 when none is. */
  function Deepest(s: seq<Deck>, rank: seq<nat>, k: nat): (d: int)
    requires |rank| == |s| && k <= |s|
    ensures d == -1 || (0 <= d < k && InUse(s, d))
    ensures forall i :: 0 <= i < k && InUse(s, i) ==> d != -1 && rank[i] <= rank[d]
  {
    if k == 0 then -1
    else
      var d := Deepest(s, rank, k - 1);
      if InUse(s, k - 1) && (d == -1 || rank[d] < rank[k - 1]) then k - 1 else d
  }

  /** When some deck is in use, some deck in use has no first child: the scan for a -1 link finds a deck. */
  lemma LeafExists(s: seq<Deck>, rank: seq<nat>, i: int)
    requires Ranked(s, rank) && InUse(s, i)
    ensures FirstRef(s, -1, 0) != -1
  {
    var d := Deepest(s, rank, |s|);
    assert Refers(s, d, -1);
  }

  /** A link starting from a deck names a slot of the array. */
  predicate Fits(h: Hierarchy, l: Link)
  {
    l.Root? || 0 <= Source(l) < |h.decks|
  }

  /** The deck link l leads to, -1 for none. */
  function Follow(h: Hierarchy, l: Link): int
    requires Fits(h, l)
  {
    match l
    case Root => h.first
    case SiblingOf(j) => h.decks[j].sibling
    case ChildOf(j) => h.decks[j].child
  }

  /** The hierarchy with link l set to x; nothing else changes. */
  function Relink(h: Hierarchy, l: Link, x: int): (r: Hierarchy)
    requires Fits(h, l)
    ensures |r.decks| == |h.decks| && Fits(r, l) && Follow(r, l) == x
    ensures forall i :: 0 <= i < |h.decks| ==> r.decks[i].used == h.decks[i].used
  {
    match l
    case Root => h.(first := x)
    case SiblingOf(j) => h.(decks := h.decks[j := h.decks[j].(sibling := x)])
    case ChildOf(j) => h.(decks := h.decks[j := h.decks[j].(child := x)])
  }

  /**
   * Deck n, with fields d, put where link l leads: l now leads to n and n's
   * sibling link to the deck l led to.  `A_CREATE_CAT` does this with a new
   * leaf and `A_MOVE_CAT` with the moved deck.
   */
  function Spliced(h: Hierarchy, l: Link, n: int, d: Deck): (r: Hierarchy)
    requires Fits(h, l) && 0 <= n < |h.decks|
    ensures |r.decks| == |h.decks|
  {
    var r := Relink(h, l, n);
    r.(decks := r.decks[n := d.(sibling := Follow(h, l))])
  }

  /** Link l, which led to deck n, now leads past it to n's next sibling. */
  function Unspliced(h: Hierarchy, l: Link, n: int): (r: Hierarchy)
    requires Fits(h, l) && 0 <= n < |h.decks|
    ensures |r.decks| == |h.decks|
  {
    Relink(h, l, h.decks[n].sibling)
  }

  /** The new deck of `A_CREATE_CAT`: expanded, enabled and in use, with no children yet. */
  function NewDeck(cli: int): (d: Deck)
    ensures d.used != 0 && d.child == -1
  {
    Deck(cli, 1, -1, -1, 1, 1)
  }

  /** `A_DELETE_CAT` on deck x led to by link l: the link is redirected past it and its slot freed. */
  function Deleted(h: Hierarchy, l: Link, x: int): (r: Hierarchy)
    requires Fits(h, l) && 0 <= x < |h.decks|
    ensures |r.decks| == |h.decks| && !InUse(r.decks, x)
  {
    var r := Unspliced(h, l, x);
    r.(decks := r.decks[x := r.decks[x].(used := 0)])
  }

  /** Ranks doubled, plus one: room for a new deck between any two neighbours. */
  function Spread(rank: seq<nat>): (r: seq<nat>)
    ensures |r| == |rank| && forall i :: 0 <= i < |rank| ==> r[i] == 2 * rank[i] + 1
  {
    seq(|rank|, i requires 0 <= i < |rank| => 2 * rank[i] + 1)
  }

  /** The ranks after a new leaf n is put where link l leads. */
  function SplicedRank(rank: seq<nat>, l: Link, n: int): (r: seq<nat>)
    requires 0 <= n < |rank| && (l.Root? || 0 <= Source(l) < |rank|)
  {
    Spread(rank)[n := if l.Root? then 0 else 2 * rank[Source(l)] + 2]
  }

  /** The links after a new deck n is put where link l, leading to y, leads. */
  function SplicedRef(ref: seq<Link>, l: Link, n: int, y: int): (r: seq<Link>)
    requires 0 <= n < |ref| && -1 <= y < |ref|
  {
    if y == -1 then ref[n := l] else ref[n := l][y := SiblingOf(n)]
  }

  /** Spliced, deck by deck: only n, the deck l starts from, and `first` for the top level change. */
  lemma SplicedFields(h: Hierarchy, l: Link, n: int, d: Deck)
    requires Fits(h, l) && 0 <= n < |h.decks| && Source(l) != n
    ensures var r := Spliced(h, l, n, d);
      && r.decks[n] == d.(sibling := Follow(h, l))
      && r.first == (if l.Root? then n else h.first)
      && (forall i :: 0 <= i < |h.decks| && i != n && i != Source(l) ==> r.decks[i] == h.decks[i])
      && (l.SiblingOf? ==> r.decks[l.prev] == h.decks[l.prev].(sibling := n))
      && (l.ChildOf? ==> r.decks[l.parent] == h.decks[l.parent].(child := n))
  {
  }

  /**
   * What splicing needs: n is a deck in use that nothing leads to (loose),
   * and l starts from the top level or from another deck in use and names
   * the link leading to the deck it holds.
   */
  ghost predicate SpliceReady(h: Hierarchy, ref: seq<Link>, l: Link, n: int)
  {
    && Referred(h, ref, n) && 0 <= n < |h.decks| && Fits(h, l) && Source(l) != n
    && (!l.Root? ==> InUse(h.decks, Source(l)))
    && Target(h.decks, Follow(h, l)) && (Follow(h, l) != -1 ==> ref[Follow(h, l)] == l)
  }

  /** After the splice every deck in use is held by the link the new ref names. */
  lemma SpliceHolds(h: Hierarchy, ref: seq<Link>, l: Link, n: int)
    requires SpliceReady(h, ref, l, n)
    ensures var h' := Spliced(h, l, n, h.decks[n]);
      forall x :: InUse(h'.decks, x) ==> Holds(h', SplicedRef(ref, l, n, Follow(h, l))[x], x)
  {
    var y := Follow(h, l);
    var h' := Spliced(h, l, n, h.decks[n]);
    var s, s' := h.decks, h'.decks;
    var ref' := SplicedRef(ref, l, n, y);
    SplicedFields(h, l, n, h.decks[n]);
    forall x | InUse(s', x)
      ensures Holds(h', ref'[x], x)
    {
      if x == n {
        assert ref'[x] == l;
      } else if x == y {
        assert ref'[x] == SiblingOf(n);
      } else {
        assert InUse(s, x) && Holds(h, ref[x], x) && ref'[x] == ref[x];
      }
    }
  }

  /** After the splice the new ref names every sibling link of a deck in use, and `first`. */
  lemma SpliceSiblings(h: Hierarchy, ref: seq<Link>, l: Link, n: int)
    requires SpliceReady(h, ref, l, n)
    ensures var h' := Spliced(h, l, n, h.decks[n]); var s' := h'.decks;
      var ref' := SplicedRef(ref, l, n, Follow(h, l));
      && Target(s', h'.first) && (h'.first != -1 ==> ref'[h'.first] == Root)
      && (forall j :: InUse(s', j) && 0 <= s'[j].sibling < |s'| ==> ref'[s'[j].sibling] == SiblingOf(j))
  {
    var y := Follow(h, l);
    var h' := Spliced(h, l, n, h.decks[n]);
    var s, s' := h.decks, h'.decks;
    var ref' := SplicedRef(ref, l, n, y);
    SplicedFields(h, l, n, h.decks[n]);
    forall j | InUse(s', j) && 0 <= s'[j].sibling < |s'|
      ensures ref'[s'[j].sibling] == SiblingOf(j)
    {
      if j == n {
      } else if l == SiblingOf(j) {
      } else {
        assert s'[j].sibling == s[j].sibling && InUse(s, j);
      }
    }
  }

  /** After the splice the new ref names every child link of a deck in use. */
  lemma SpliceChildren(h: Hierarchy, ref: seq<Link>, l: Link, n: int)
    requires SpliceReady(h, ref, l, n)
    ensures var s' := Spliced(h, l, n, h.decks[n]).decks;
      var ref' := SplicedRef(ref, l, n, Follow(h, l));
      forall j :: InUse(s', j) && 0 <= s'[j].child < |s'| ==> ref'[s'[j].child] == ChildOf(j)
  {
    var y := Follow(h, l);
    var s, s' := h.decks, Spliced(h, l, n, h.decks[n]).decks;
    var ref' := SplicedRef(ref, l, n, y);
    SplicedFields(h, l, n, h.decks[n]);
    forall j | InUse(s', j) && 0 <= s'[j].child < |s'|
      ensures ref'[s'[j].child] == ChildOf(j)
    {
      if j == n {
        assert s'[j].child == s[j].child;
      } else if l == ChildOf(j) {
      } else {
        assert s'[j].child == s[j].child && InUse(s, j);
      }
    }
  }

  /** Putting a loose deck where a link leads puts it back into the tree: one link leads to every deck in use. */
  lemma SpliceReferred(h: Hierarchy, ref: seq<Link>, l: Link, n: int)
    requires SpliceReady(h, ref, l, n)
    ensures Referred(Spliced(h, l, n, h.decks[n]), SplicedRef(ref, l, n, Follow(h, l)), -1)
  {
    SpliceHolds(h, ref, l, n);
    SpliceSiblings(h, ref, l, n);
    SpliceChildren(h, ref, l, n);
  }

  /** The hierarchy with the free slot n taken by a new deck that nothing leads to yet. */
  function Activated(h: Hierarchy, n: int, cli: int): (r: Hierarchy)
    requires 0 <= n < |h.decks|
    ensures InUse(r.decks, n) && r.first == h.first
  {
    h.(decks := h.decks[n := NewDeck(cli)])
  }

  /** What `A_CREATE_CAT` needs: a free slot n, and a link from the top level or from a deck in use. */
  ghost predicate CreateReady(h: Hierarchy, ref: seq<Link>, rank: seq<nat>, l: Link, n: int)
  {
    && Forest(h, ref, rank) && Fits(h, l) && 0 <= n < |h.decks| && !InUse(h.decks, n)
    && (!l.Root? ==> InUse(h.decks, Source(l)))
    && (Follow(h, l) != -1 ==> ref[Follow(h, l)] == l)
  }

  /** Taking a free slot changes neither where a link leads nor the splice at that link. */
  lemma ActivateFollow(h: Hierarchy, ref: seq<Link>, rank: seq<nat>, l: Link, n: int, cli: int)
    requires CreateReady(h, ref, rank, l, n)
    ensures Source(l) != n && Follow(Activated(h, n, cli), l) == Follow(h, l)
    ensures Spliced(Activated(h, n, cli), l, n, NewDeck(cli)) == Spliced(h, l, n, NewDeck(cli))
  {
    var a := Activated(h, n, cli);
    assert forall i :: 0 <= i < |h.decks| && i != n ==> a.decks[i] == h.decks[i];
  }

  /** A new deck in a free slot is a loose deck ready to be spliced, and splicing it is splicing the new deck. */
  lemma ActivateReady(h: Hierarchy, ref: seq<Link>, rank: seq<nat>, l: Link, n: int, cli: int)
    requires CreateReady(h, ref, rank, l, n)
    ensures SpliceReady(Activated(h, n, cli), ref, l, n)
    ensures Spliced(Activated(h, n, cli), l, n, NewDeck(cli)) == Spliced(h, l, n, NewDeck(cli))
  {
    var a := Activated(h, n, cli);
    var s, s' := h.decks, a.decks;
    ActivateFollow(h, ref, rank, l, n, cli);
    forall x | InUse(s', x) && x != n
      ensures Holds(a, ref[x], x) && ref[x] != SiblingOf(n)
    {
      assert Holds(h, ref[x], x);
    }
    forall j | InUse(s', j)
      ensures s'[j].child != n && (j == n || s'[j].sibling != n)
    {
      if j != n {
        assert InUse(s, j);
      }
    }
    assert Referred(a, ref, n);
  }

  /** Putting a new leaf into a free slot, where a link leads, keeps the ranks growing along every link. */
  lemma CreateRanked(h: Hierarchy, ref: seq<Link>, rank: seq<nat>, l: Link, n: int, cli: int)
    requires CreateReady(h, ref, rank, l, n)
    ensures Ranked(Spliced(h, l, n, NewDeck(cli)).decks, SplicedRank(rank, l, n))
  {
    var y := Follow(h, l);
    var s, s' := h.decks, Spliced(h, l, n, NewDeck(cli)).decks;
    var rank' := SplicedRank(rank, l, n);
    var p := Source(l);
    forall j | InUse(s', j)
      ensures Target(s', s'[j].sibling) && Target(s', s'[j].child)
      ensures s'[j].sibling != -1 ==> rank'[j] < rank'[s'[j].sibling]
      ensures s'[j].child != -1 ==> rank'[j] < rank'[s'[j].child]
    {
      if j == n {
        assert s'[j] == NewDeck(cli).(sibling := y);
        if y != -1 {
          assert Holds(h, ref[y], y);
        }
      } else if j == p {
        assert InUse(s, j);
      } else {
        assert s'[j] == s[j];
        assert InUse(s, j);
      }
    }
  }

  /** Putting a new leaf into a free slot, where a link leads, keeps the decks a forest. */
  lemma CreatePreserves(h: Hierarchy, ref: seq<Link>, rank: seq<nat>, l: Link, n: int, cli: int)
    requires CreateReady(h, ref, rank, l, n)
    ensures Forest(Spliced(h, l, n, NewDeck(cli)), SplicedRef(ref, l, n, Follow(h, l)), SplicedRank(rank, l, n))
  {
    CreateRanked(h, ref, rank, l, n, cli);
    ActivateReady(h, ref, rank, l, n, cli);
    SpliceReferred(Activated(h, n, cli), ref, l, n);
  }

  /** Deleted, deck by deck: only x and the deck l starts from change, and `first` for the top level. */
  lemma DeletedFields(h: Hierarchy, l: Link, x: int)
    requires Fits(h, l) && 0 <= x < |h.decks| && Source(l) != x
    ensures var r := Deleted(h, l, x);
      && r.decks[x] == h.decks[x].(used := 0)
      && r.first == (if l.Root? then h.decks[x].sibling else h.first)
      && (forall i :: 0 <= i < |h.decks| && i != x && i != Source(l) ==> r.decks[i] == h.decks[i])
      && (l.SiblingOf? ==> r.decks[l.prev] == h.decks[l.prev].(sibling := h.decks[x].sibling))
      && (l.ChildOf? ==> r.decks[l.parent] == h.decks[l.parent].(child := h.decks[x].sibling))
  {
  }

  /** The precondition the delete lemmas share: x is a deck in use with no children. */
  ghost predicate DeleteReady(h: Hierarchy, ref: seq<Link>, rank: seq<nat>, x: int)
  {
    Forest(h, ref, rank) && InUse(h.decks, x) && h.decks[x].child == -1
  }

  /** The links after deck x, led to by l, is deleted: its next sibling t is now led to by l. */
  function DeletedRef(ref: seq<Link>, x: int, t: int): (r: seq<Link>)
    requires 0 <= x < |ref| && -1 <= t < |ref|
  {
    if t == -1 then ref else ref[t := ref[x]]
  }

  /** Deleting a leaf keeps the ranks growing along every link. */
  lemma DeleteRanked(h: Hierarchy, ref: seq<Link>, rank: seq<nat>, x: int)
    requires DeleteReady(h, ref, rank, x)
    ensures Fits(h, ref[x]) && Ranked(Deleted(h, ref[x], x).decks, rank)
  {
    var l := ref[x];
    var s, s' := h.decks, Deleted(h, l, x).decks;
    var t := s[x].sibling;
    assert Holds(h, l, x);
    RefRank(h, ref, rank, -1, x);
    DeletedFields(h, l, x);
    forall j | InUse(s', j)
      ensures Target(s', s'[j].sibling) && Target(s', s'[j].child)
      ensures s'[j].sibling != -1 ==> rank[j] < rank[s'[j].sibling]
      ensures s'[j].child != -1 ==> rank[j] < rank[s'[j].child]
    {
      assert InUse(s, j);
      if j == Source(l) {
        assert t != x;
      } else {
        assert s'[j] == s[j];
        assert s[j].sibling != x && s[j].child != x;
      }
    }
  }

  /** Deleting a leaf keeps every deck in use held by the link the new ref names. */
  lemma DeleteHolds(h: Hierarchy, ref: seq<Link>, rank: seq<nat>, x: int)
    requires DeleteReady(h, ref, rank, x)
    ensures Fits(h, ref[x])
    ensures var h' := Deleted(h, ref[x], x);
      forall y :: InUse(h'.decks, y) ==> Holds(h', DeletedRef(ref, x, h.decks[x].sibling)[y], y)
  {
    var l := ref[x];
    var h' := Deleted(h, l, x);
    var s, s' := h.decks, h'.decks;
    var t := s[x].sibling;
    var ref' := DeletedRef(ref, x, t);
    assert Holds(h, l, x);
    RefRank(h, ref, rank, -1, x);
    DeletedFields(h, l, x);
    forall y | InUse(s', y)
      ensures Holds(h', ref'[y], y)
    {
      assert InUse(s, y) && Holds(h, ref[y], y);
      if y != t {
        assert ref'[y] == ref[y] != l;
      }
    }
  }

  /** Deleting a leaf keeps the new ref naming every sibling link of a deck in use. */
  lemma DeleteSiblings(h: Hierarchy, ref: seq<Link>, rank: seq<nat>, x: int)
    requires DeleteReady(h, ref, rank, x)
    ensures Fits(h, ref[x])
    ensures var s' := Deleted(h, ref[x], x).decks; var ref' := DeletedRef(ref, x, h.decks[x].sibling);
      forall j :: InUse(s', j) && 0 <= s'[j].sibling < |s'| ==> ref'[s'[j].sibling] == SiblingOf(j)
  {
    var l := ref[x];
    var s, s' := h.decks, Deleted(h, l, x).decks;
    var ref' := DeletedRef(ref, x, s[x].sibling);
    assert Holds(h, l, x);
    RefRank(h, ref, rank, -1, x);
    DeletedFields(h, l, x);
    forall j | InUse(s', j) && 0 <= s'[j].sibling < |s'|
      ensures ref'[s'[j].sibling] == SiblingOf(j)
    {
      assert InUse(s, j);
      if l != SiblingOf(j) {
        assert s'[j].sibling == s[j].sibling;
      }
    }
  }

  /** Deleting a leaf keeps the new ref naming every child link of a deck in use. */
  lemma DeleteChildren(h: Hierarchy, ref: seq<Link>, rank: seq<nat>, x: int)
    requires DeleteReady(h, ref, rank, x)
    ensures Fits(h, ref[x])
    ensures var s' := Deleted(h, ref[x], x).decks; var ref' := DeletedRef(ref, x, h.decks[x].sibling);
      forall j :: InUse(s', j) && 0 <= s'[j].child < |s'| ==> ref'[s'[j].child] == ChildOf(j)
  {
    var l := ref[x];
    var s, s' := h.decks, Deleted(h, l, x).decks;
    var ref' := DeletedRef(ref, x, s[x].sibling);
    assert Holds(h, l, x);
    RefRank(h, ref, rank, -1, x);
    DeletedFields(h, l, x);
    forall j | InUse(s', j) && 0 <= s'[j].child < |s'|
      ensures ref'[s'[j].child] == ChildOf(j)
    {
      assert InUse(s, j);
      if l != ChildOf(j) {
        assert s'[j].child == s[j].child;
      }
    }
  }

  /** Deleting a deck with no children, by redirecting the link that leads to it, keeps the decks a forest. */
  lemma DeletePreserves(h: Hierarchy, ref: seq<Link>, rank: seq<nat>, x: int)
    requires DeleteReady(h, ref, rank, x)
    ensures Fits(h, ref[x])
    ensures Forest(Deleted(h, ref[x], x), DeletedRef(ref, x, h.decks[x].sibling), rank)
  {
    DeleteRanked(h, ref, rank, x);
    DeleteHolds(h, ref, rank, x);
    DeleteSiblings(h, ref, rank, x);
    DeleteChildren(h, ref, rank, x);
    assert Holds(h, ref[x], x);
    RefRank(h, ref, rank, -1, x);
    DeletedFields(h, ref[x], x);
    var h' := Deleted(h, ref[x], x);
    var t := h.decks[x].sibling;
    if ref[x] == Root {
      assert t != x && Target(h.decks, t);
      assert Target(h'.decks, h'.first);
    } else {
      assert h.first != x;
      assert Target(h'.decks, h'.first);
    }
  }

  /** Unspliced, deck by deck: only the deck l starts from changes, and `first` for the top level. */
  lemma UnsplicedFields(h: Hierarchy, l: Link, x: int)
    requires Fits(h, l) && 0 <= x < |h.decks|
    ensures var r := Unspliced(h, l, x);
      && r.first == (if l.Root? then h.decks[x].sibling else h.first)
      && (forall i :: 0 <= i < |h.decks| && i != Source(l) ==> r.decks[i] == h.decks[i])
      && (l.SiblingOf? ==> r.decks[l.prev] == h.decks[l.prev].(sibling := h.decks[x].sibling))
      && (l.ChildOf? ==> r.decks[l.parent] == h.decks[l.parent].(child := h.decks[x].sibling))
  {
  }

  /** Taking deck m out of the tree keeps the ranks growing along every link. */
  lemma UnlinkRanked(h: Hierarchy, ref: seq<Link>, rank: seq<nat>, m: int)
    requires Forest(h, ref, rank) && InUse(h.decks, m)
    ensures Fits(h, ref[m]) && Ranked(Unspliced(h, ref[m], m).decks, rank)
  {
    var l := ref[m];
    var s, s' := h.decks, Unspliced(h, l, m).decks;
    assert Holds(h, l, m);
    RefRank(h, ref, rank, -1, m);
    UnsplicedFields(h, l, m);
    forall j | InUse(s', j)
      ensures Target(s', s'[j].sibling) && Target(s', s'[j].child)
      ensures s'[j].sibling != -1 ==> rank[j] < rank[s'[j].sibling]
      ensures s'[j].child != -1 ==> rank[j] < rank[s'[j].child]
    {
      assert InUse(s, j);
      if j != Source(l) {
        assert s'[j] == s[j];
      }
    }
  }

  /** After taking deck m out, every other deck in use is held by the link the new ref names, none by m's sibling link. */
  lemma UnlinkHolds(h: Hierarchy, ref: seq<Link>, rank: seq<nat>, m: int)
    requires Forest(h, ref, rank) && InUse(h.decks, m)
    ensures Fits(h, ref[m])
    ensures var h' := Unspliced(h, ref[m], m); var ref' := DeletedRef(ref, m, h.decks[m].sibling);
      forall y :: InUse(h'.decks, y) && y != m ==> Holds(h', ref'[y], y) && ref'[y] != SiblingOf(m)
  {
    var l := ref[m];
    var h' := Unspliced(h, l, m);
    var s, s' := h.decks, h'.decks;
    var t := s[m].sibling;
    var ref' := DeletedRef(ref, m, t);
    assert Holds(h, l, m);
    RefRank(h, ref, rank, -1, m);
    UnsplicedFields(h, l, m);
    forall y | InUse(s', y) && y != m
      ensures Holds(h', ref'[y], y) && ref'[y] != SiblingOf(m)
    {
      assert InUse(s, y) && Holds(h, ref[y], y);
      if y != t {
        assert ref'[y] == ref[y] != l;
      }
    }
  }

  /** After taking deck m out, the new ref names the links of every deck in use but m's sibling link, and nothing leads to m. */
  lemma UnlinkLinks(h: Hierarchy, ref: seq<Link>, rank: seq<nat>, m: int)
    requires Forest(h, ref, rank) && InUse(h.decks, m)
    ensures Fits(h, ref[m])
    ensures var s' := Unspliced(h, ref[m], m).decks; var ref' := DeletedRef(ref, m, h.decks[m].sibling);
      && (forall j :: InUse(s', j) && j != m && 0 <= s'[j].sibling < |s'| ==> ref'[s'[j].sibling] == SiblingOf(j))
      && (forall j :: InUse(s', j) && 0 <= s'[j].child < |s'| ==> ref'[s'[j].child] == ChildOf(j))
      && (forall j :: InUse(s', j) ==> s'[j].child != m && (j == m || s'[j].sibling != m))
  {
    var l := ref[m];
    var h' := Unspliced(h, l, m);
    var s, s' := h.decks, h'.decks;
    var t := s[m].sibling;
    var ref' := DeletedRef(ref, m, t);
    assert Holds(h, l, m);
    RefRank(h, ref, rank, -1, m);
    UnsplicedFields(h, l, m);
    forall j | InUse(s', j) && j != m && 0 <= s'[j].sibling < |s'|
      ensures ref'[s'[j].sibling] == SiblingOf(j)
    {
      assert InUse(s, j);
      if l != SiblingOf(j) {
        assert s'[j].sibling == s[j].sibling;
      }
    }
    forall j | InUse(s', j) && 0 <= s'[j].child < |s'|
      ensures ref'[s'[j].child] == ChildOf(j)
    {
      assert InUse(s, j);
      if l != ChildOf(j) {
        assert s'[j].child == s[j].child;
      }
    }
    forall j | InUse(s', j)
      ensures s'[j].child != m && (j == m || s'[j].sibling != m)
    {
      assert InUse(s, j);
    }
  }

  /** Taking deck m out of the tree leaves it loose: the link that led to it leads to its next sibling. */
  lemma UnlinkReferred(h: Hierarchy, ref: seq<Link>, rank: seq<nat>, m: int)
    requires Forest(h, ref, rank) && InUse(h.decks, m)
    ensures Fits(h, ref[m])
    ensures Referred(Unspliced(h, ref[m], m), DeletedRef(ref, m, h.decks[m].sibling), m)
  {
    UnlinkHolds(h, ref, rank, m);
    UnlinkLinks(h, ref, rank, m);
    var l := ref[m];
    var t := h.decks[m].sibling;
    assert Holds(h, l, m);
    RefRank(h, ref, rank, -1, m);
    UnsplicedFields(h, l, m);
    if l == Root {
      assert Target(h.decks, t) && t != m;
    } else {
      assert h.first != m;
    }
  }

  /**
   * Deck y lies in the subtree of deck m: walking up from y, some step
   * comes through m's child link.  This is what the topology check of
   * `A_MOVE_CAT` computes.
   */
  ghost predicate Below(h: Hierarchy, ref: seq<Link>, rank: seq<nat>, y: int, m: int)
    requires Forest(h, ref, rank) && InUse(h.decks, y)
    decreases rank[y]
  {
    assert Holds(h, ref[y], y);
    match ref[y]
    case Root => false
    case SiblingOf(j) => Below(h, ref, rank, j, m)
    case ChildOf(j) => j == m || Below(h, ref, rank, j, m)
  }

  /** A deck in the subtree of m ranks above m. */
  lemma {:induction false} BelowRank(h: Hierarchy, ref: seq<Link>, rank: seq<nat>, y: int, m: int)
    requires Forest(h, ref, rank) && InUse(h.decks, y) && Below(h, ref, rank, y, m)
    ensures InUse(h.decks, m) && rank[m] < rank[y]
    decreases rank[y]
  {
    assert Holds(h, ref[y], y);
    var j := Source(ref[y]);
    if !(ref[y] == ChildOf(m)) {
      BelowRank(h, ref, rank, j, m);
    }
  }

  /** An edge out of a deck of m's subtree leads into it, unless it is m's own sibling link. */
  lemma BelowDown(h: Hierarchy, ref: seq<Link>, rank: seq<nat>, j: int, z: int, m: int)
    requires Forest(h, ref, rank) && InUse(h.decks, j) && (j == m || Below(h, ref, rank, j, m))
    requires z != -1 && (h.decks[j].child == z || (j != m && h.decks[j].sibling == z))
    ensures InUse(h.decks, z) && Below(h, ref, rank, z, m)
  {
    assert Holds(h, ref[z], z);
  }

  /** An edge into m's subtree, other than into m, comes from m or from inside it. */
  lemma BelowUp(h: Hierarchy, ref: seq<Link>, rank: seq<nat>, j: int, z: int, m: int)
    requires Forest(h, ref, rank) && InUse(h.decks, j) && InUse(h.decks, z) && Below(h, ref, rank, z, m)
    requires h.decks[j].child == z || h.decks[j].sibling == z
    ensures j == m || Below(h, ref, rank, j, m)
  {
    assert ref[z] == SiblingOf(j) || ref[z] == ChildOf(j);
  }

  /**
   * The ranks after deck m, with its subtree, is moved to where a link from
   * a deck of rank lo leads (lo is -1 for the top level): m goes just above
   * lo, its subtree is shifted above m, and every other rank doubles so
   * that the gap is there.
   */
  ghost function MovedRank(h: Hierarchy, ref: seq<Link>, rank: seq<nat>, m: int, lo: int): (r: seq<nat>)
    requires Forest(h, ref, rank) && lo >= -1
    ensures |r| == |rank|
  {
    seq(|rank|, i requires 0 <= i < |rank| =>
      if i == m then 2 * lo + 3
      else if InUse(h.decks, i) && Below(h, ref, rank, i, m) then rank[i] + 2 * lo + 4
      else 2 * rank[i] + 2)
  }

  /** The rank of the deck a link starts from, -1 for the top level. */
  function SourceRank(rank: seq<nat>, l: Link): int
    requires l.Root? || 0 <= Source(l) < |rank|
  {
    if l.Root? then -1 else rank[Source(l)]
  }

  /**
   * What moving deck m to where link l leads needs: l, taken after m is out
   * of the tree, starts from the top level or from a deck in use outside m's
   * subtree, and names the link leading to the deck it holds.
   */
  ghost predicate MoveReady(h: Hierarchy, ref: seq<Link>, rank: seq<nat>, m: int, l: Link)
  {
    && Forest(h, ref, rank) && InUse(h.decks, m)
    && Fits(h, l) && Source(l) != m
    && (!l.Root? ==> InUse(h.decks, Source(l)) && !Below(h, ref, rank, Source(l), m))
    && Fits(h, ref[m])
    && var h1 := Unspliced(h, ref[m], m);
    && Target(h1.decks, Follow(h1, l))
    && (Follow(h1, l) != -1 ==> DeletedRef(ref, m, h.decks[m].sibling)[Follow(h1, l)] == l)
  }

  /** The hierarchy after deck m is taken out and put back where link l leads. */
  function Moved(h: Hierarchy, l0: Link, m: int, l: Link): (r: Hierarchy)
    requires Fits(h, l0) && Fits(h, l) && 0 <= m < |h.decks|
    ensures |r.decks| == |h.decks|
  {
    var h1 := Unspliced(h, l0, m);
    Spliced(h1, l, m, h1.decks[m])
  }

  /** Moved, deck by deck, in terms of the hierarchy before the move. */
  lemma MovedFields(h: Hierarchy, ref: seq<Link>, rank: seq<nat>, m: int, l: Link)
    requires MoveReady(h, ref, rank, m, l)
    ensures var s := h.decks; var h1 := Unspliced(h, ref[m], m);
      var h2 := Moved(h, ref[m], m, l); var t0 := s[m].sibling;
      && h2.decks[m] == s[m].(sibling := Follow(h1, l))
      && h2.first == (if l.Root? then m else if ref[m] == Root then t0 else h.first)
      && forall j :: 0 <= j < |s| && j != m ==>
        && h2.decks[j].used == s[j].used
        && h2.decks[j].sibling == (if l == SiblingOf(j) then m else if ref[m] == SiblingOf(j) then t0 else s[j].sibling)
        && h2.decks[j].child == (if l == ChildOf(j) then m else if ref[m] == ChildOf(j) then t0 else s[j].child)
  {
    assert Holds(h, ref[m], m);
    RefRank(h, ref, rank, -1, m);
    UnsplicedFields(h, ref[m], m);
    SplicedFields(Unspliced(h, ref[m], m), l, m, Unspliced(h, ref[m], m).decks[m]);
  }

  /** After the move, the sibling link of the moved deck climbs in the new ranks: it leads out of the subtree, above where the deck now hangs. */
  lemma MoveRankedNextOf(h: Hierarchy, ref: seq<Link>, rank: seq<nat>, m: int, l: Link)
    requires MoveReady(h, ref, rank, m, l)
    ensures var s2 := Moved(h, ref[m], m, l).decks; var rank2 := MovedRank(h, ref, rank, m, SourceRank(rank, l));
      && Target(s2, s2[m].sibling)
      && (s2[m].sibling != -1 ==> rank2[m] < rank2[s2[m].sibling])
  {
    var s := h.decks;
    var h1 := Unspliced(h, ref[m], m);
    var s2 := Moved(h, ref[m], m, l).decks;
    var rank2 := MovedRank(h, ref, rank, m, SourceRank(rank, l));
    var t0 := s[m].sibling;
    var y := Follow(h1, l);
    MovedFields(h, ref, rank, m, l);
    UnlinkRanked(h, ref, rank, m);
    UnlinkReferred(h, ref, rank, m);
    if y != -1 {
      assert InUse(s, y) && y != m;
      assert s2[y].used == s[y].used;
      if y == t0 {
        if Below(h, ref, rank, y, m) {
          BelowRank(h, ref, rank, m, m);
        }
      } else {
        assert ref[y] == l;
      }
      assert !Below(h, ref, rank, y, m);
      if !l.Root? {
        assert h1.decks[Source(l)].sibling == y || h1.decks[Source(l)].child == y;
        assert rank[Source(l)] < rank[y];
      }
      assert rank2[y] == 2 * rank[y] + 2;
    }
  }

  /** After the move, the child link of the moved deck climbs in the new ranks: it leads into the shifted subtree. */
  lemma MoveRankedChildOf(h: Hierarchy, ref: seq<Link>, rank: seq<nat>, m: int, l: Link)
    requires MoveReady(h, ref, rank, m, l)
    ensures var s2 := Moved(h, ref[m], m, l).decks; var rank2 := MovedRank(h, ref, rank, m, SourceRank(rank, l));
      && Target(s2, s2[m].child)
      && (s2[m].child != -1 ==> rank2[m] < rank2[s2[m].child])
  {
    var s := h.decks;
    var s2 := Moved(h, ref[m], m, l).decks;
    MovedFields(h, ref, rank, m, l);
    var c := s[m].child;
    if c != -1 {
      assert InUse(s, c) && ref[c] == ChildOf(m);
      assert s2[c].used == s[c].used;
      assert Below(h, ref, rank, c, m);
      BelowRank(h, ref, rank, c, m);
    }
  }

  /** After the move, the links of a deck in the moved subtree climb in the new ranks. */
  lemma MoveRankedInside(h: Hierarchy, ref: seq<Link>, rank: seq<nat>, m: int, l: Link, j: int)
    requires MoveReady(h, ref, rank, m, l) && InUse(h.decks, j) && Below(h, ref, rank, j, m)
    ensures var s2 := Moved(h, ref[m], m, l).decks; var rank2 := MovedRank(h, ref, rank, m, SourceRank(rank, l));
      && Target(s2, s2[j].sibling) && Target(s2, s2[j].child)
      && (s2[j].sibling != -1 ==> rank2[j] < rank2[s2[j].sibling])
      && (s2[j].child != -1 ==> rank2[j] < rank2[s2[j].child])
  {
    var s := h.decks;
    var s2 := Moved(h, ref[m], m, l).decks;
    var lo := SourceRank(rank, l);
    var rank2 := MovedRank(h, ref, rank, m, lo);
    BelowRank(h, ref, rank, j, m);
    assert Holds(h, ref[m], m);
    RefRank(h, ref, rank, -1, m);
    assert ref[m] != SiblingOf(j) && ref[m] != ChildOf(j);
    assert l != SiblingOf(j) && l != ChildOf(j);
    MovedFields(h, ref, rank, m, l);
    assert s2[j].sibling == s[j].sibling && s2[j].child == s[j].child;
    assert rank2[j] == rank[j] + 2 * lo + 4;
    var z := s[j].sibling;
    if z != -1 {
      BelowDown(h, ref, rank, j, z, m);
      BelowRank(h, ref, rank, z, m);
      assert s2[z].used == s[z].used;
      assert rank2[z] == rank[z] + 2 * lo + 4;
    }
    z := s[j].child;
    if z != -1 {
      BelowDown(h, ref, rank, j, z, m);
      BelowRank(h, ref, rank, z, m);
      assert s2[z].used == s[z].used;
      assert rank2[z] == rank[z] + 2 * lo + 4;
    }
  }

  /** An edge of the hierarchy before the move, from a deck outside the moved subtree, still climbs in the new ranks. */
  lemma MoveRankedEdge(h: Hierarchy, ref: seq<Link>, rank: seq<nat>, m: int, l: Link, j: int, z: int)
    requires MoveReady(h, ref, rank, m, l) && InUse(h.decks, j) && j != m && !Below(h, ref, rank, j, m)
    requires z != -1 && (h.decks[j].sibling == z || h.decks[j].child == z) && z != m
    ensures var rank2 := MovedRank(h, ref, rank, m, SourceRank(rank, l));
      InUse(h.decks, z) && rank2[j] < rank2[z]
  {
    if InUse(h.decks, z) && Below(h, ref, rank, z, m) {
      BelowUp(h, ref, rank, j, z, m);
    }
  }

  /** The old next sibling of the moved deck lies outside its subtree and ranks above the deck that led to it. */
  lemma MoveRankedNext(h: Hierarchy, ref: seq<Link>, rank: seq<nat>, m: int, l: Link)
    requires MoveReady(h, ref, rank, m, l)
    ensures var t0 := h.decks[m].sibling; var rank2 := MovedRank(h, ref, rank, m, SourceRank(rank, l));
      t0 != -1 ==> InUse(h.decks, t0) && t0 != m && rank2[t0] == 2 * rank[t0] + 2 && rank[m] < rank[t0]
  {
    var t0 := h.decks[m].sibling;
    if t0 != -1 {
      assert InUse(h.decks, t0) && ref[t0] == SiblingOf(m);
      if Below(h, ref, rank, t0, m) {
        BelowRank(h, ref, rank, m, m);
      }
    }
  }

  /** After the move, the sibling link of a deck outside the moved subtree climbs in the new ranks. */
  lemma MoveRankedSibling(h: Hierarchy, ref: seq<Link>, rank: seq<nat>, m: int, l: Link, j: int)
    requires MoveReady(h, ref, rank, m, l) && InUse(h.decks, j) && j != m && !Below(h, ref, rank, j, m)
    ensures var s2 := Moved(h, ref[m], m, l).decks; var rank2 := MovedRank(h, ref, rank, m, SourceRank(rank, l));
      && Target(s2, s2[j].sibling)
      && (s2[j].sibling != -1 ==> rank2[j] < rank2[s2[j].sibling])
  {
    var s := h.decks;
    var s2 := Moved(h, ref[m], m, l).decks;
    var lo := SourceRank(rank, l);
    var rank2 := MovedRank(h, ref, rank, m, lo);
    var t0 := s[m].sibling;
    MovedFields(h, ref, rank, m, l);
    assert rank2[j] == 2 * rank[j] + 2;
    if l == SiblingOf(j) {
      assert rank2[m] == 2 * lo + 3 && s2[m].used == s[m].used;
    } else if ref[m] == SiblingOf(j) {
      assert Holds(h, ref[m], m);
      MoveRankedNext(h, ref, rank, m, l);
      if t0 != -1 {
        assert s2[t0].used == s[t0].used;
      }
    } else if s[j].sibling != -1 {
      MoveRankedEdge(h, ref, rank, m, l, j, s[j].sibling);
      assert s2[s[j].sibling].used == s[s[j].sibling].used;
    }
  }

  /** After the move, the child link of a deck outside the moved subtree climbs in the new ranks. */
  lemma MoveRankedChild(h: Hierarchy, ref: seq<Link>, rank: seq<nat>, m: int, l: Link, j: int)
    requires MoveReady(h, ref, rank, m, l) && InUse(h.decks, j) && j != m && !Below(h, ref, rank, j, m)
    ensures var s2 := Moved(h, ref[m], m, l).decks; var rank2 := MovedRank(h, ref, rank, m, SourceRank(rank, l));
      && Target(s2, s2[j].child)
      && (s2[j].child != -1 ==> rank2[j] < rank2[s2[j].child])
  {
    var s := h.decks;
    var s2 := Moved(h, ref[m], m, l).decks;
    var lo := SourceRank(rank, l);
    var rank2 := MovedRank(h, ref, rank, m, lo);
    var t0 := s[m].sibling;
    MovedFields(h, ref, rank, m, l);
    assert rank2[j] == 2 * rank[j] + 2;
    if l == ChildOf(j) {
      assert rank2[m] == 2 * lo + 3 && s2[m].used == s[m].used;
    } else if ref[m] == ChildOf(j) {
      assert Holds(h, ref[m], m);
      MoveRankedNext(h, ref, rank, m, l);
      if t0 != -1 {
        assert s2[t0].used == s[t0].used;
      }
    } else if s[j].child != -1 {
      MoveRankedEdge(h, ref, rank, m, l, j, s[j].child);
      assert s2[s[j].child].used == s[s[j].child].used;
    }
  }

  /** Moving a deck with its subtree to a place outside that subtree keeps the ranks growing along every link. */
  lemma MoveRanked(h: Hierarchy, ref: seq<Link>, rank: seq<nat>, m: int, l: Link)
    requires MoveReady(h, ref, rank, m, l)
    ensures Ranked(Moved(h, ref[m], m, l).decks, MovedRank(h, ref, rank, m, SourceRank(rank, l)))
  {
    var s := h.decks;
    var s2 := Moved(h, ref[m], m, l).decks;
    MovedFields(h, ref, rank, m, l);
    forall j | InUse(s2, j)
      ensures var rank2 := MovedRank(h, ref, rank, m, SourceRank(rank, l));
        && Target(s2, s2[j].sibling) && Target(s2, s2[j].child)
        && (s2[j].sibling != -1 ==> rank2[j] < rank2[s2[j].sibling])
        && (s2[j].child != -1 ==> rank2[j] < rank2[s2[j].child])
    {
      assert InUse(s, j);
      if j == m {
        MoveRankedNextOf(h, ref, rank, m, l);
        MoveRankedChildOf(h, ref, rank, m, l);
      } else if Below(h, ref, rank, j, m) {
        MoveRankedInside(h, ref, rank, m, l, j);
      } else {
        MoveRankedSibling(h, ref, rank, m, l, j);
        MoveRankedChild(h, ref, rank, m, l, j);
      }
    }
  }

  /** The links after deck m is taken out and put back where link l leads. */
  function MovedRef(h: Hierarchy, ref: seq<Link>, m: int, l: Link): (r: seq<Link>)
    requires |ref| == |h.decks| && 0 <= m < |h.decks| && Fits(h, ref[m]) && Fits(h, l)
    requires -1 <= h.decks[m].sibling < |h.decks|
    requires -1 <= Follow(Unspliced(h, ref[m], m), l) < |h.decks|
  {
    SplicedRef(DeletedRef(ref, m, h.decks[m].sibling), l, m, Follow(Unspliced(h, ref[m], m), l))
  }

  /** Moving a deck with its subtree to a place outside that subtree keeps the decks a forest. */
  lemma MovePreserves(h: Hierarchy, ref: seq<Link>, rank: seq<nat>, m: int, l: Link)
    requires MoveReady(h, ref, rank, m, l)
    ensures -1 <= h.decks[m].sibling < |h.decks| && -1 <= Follow(Unspliced(h, ref[m], m), l) < |h.decks|
    ensures Forest(Moved(h, ref[m], m, l), MovedRef(h, ref, m, l), MovedRank(h, ref, rank, m, SourceRank(rank, l)))
  {
    MoveRanked(h, ref, rank, m, l);
    UnlinkReferred(h, ref, rank, m);
    var h1 := Unspliced(h, ref[m], m);
    assert forall i :: 0 <= i < |h.decks| ==> h1.decks[i].used == h.decks[i].used;
    assert SpliceReady(h1, DeletedRef(ref, m, h.decks[m].sibling), l, m);
    SpliceReferred(h1, DeletedRef(ref, m, h.decks[m].sibling), l, m);
  }

  /**
   * The link the scans of `A_DELETE_CAT`, `A_CREATE_CAT` and `A_MOVE_CAT`
   * take as the one leading to x: the first deck in use whose sibling link
   * holds x, otherwise the top level when x is `n_first`, otherwise the
   * first deck whose child link holds it.
   */
  function LinkTo(h: Hierarchy, x: int): (l: Link)
    ensures Fits(h, l)
  {
    var r := FirstRef(h.decks, x, 0);
    if r != -1 && h.decks[r].sibling == x then SiblingOf(r)
    else if h.first == x then Root
    else if r != -1 then ChildOf(r)
    else Root
  }

  /** In a tree with one deck loose, the scans find the link ref names for every other deck the loose one does not lead to. */
  lemma LinkToRef(h: Hierarchy, ref: seq<Link>, loose: int, x: int)
    requires Referred(h, ref, loose) && InUse(h.decks, x) && x != loose
    requires loose != -1 ==> h.decks[loose].sibling != x
    ensures LinkTo(h, x) == ref[x]
  {
    RefFound(h, ref, loose, x);
    var r := FirstRef(h.decks, x, 0);
    if r != -1 && h.decks[r].sibling == x && r != loose {
      assert ref[x] == SiblingOf(r);
    }
  }

  /** The fields realloc leaves undefined in a new slot of `cat_t`, which the model sets to this free deck. */
  const Blank: Deck := Deck(0, 0, -1, -1, 0, 0)

  /** `A_TOGGLE`: the expanded flag flips between 0 and 1. */
  function Toggled(d: Deck): (r: Deck)
    ensures (r.expanded == 0) == (d.expanded != 0)
    ensures r.(expanded := d.expanded) == d
  {
    d.(expanded := if d.expanded == 0 then 1 else 0)
  }

  /** Toggling twice restores a 0/1 expanded flag. */
  lemma ToggleTwice(d: Deck)
    requires d.expanded == 0 || d.expanded == 1
    ensures Toggled(Toggled(d)) == d
  {
  }

  /**
   * Deleting a deck that still has children orphans them: no assignment of
   * links makes the rest a forest.  This is why `A_ASK_DELETE_CAT` only
   * lets leaves through.
   */
  lemma DeleteOrphans(h: Hierarchy, ref: seq<Link>, rank: seq<nat>, x: int, ref': seq<Link>, rank': seq<nat>)
    requires Forest(h, ref, rank) && InUse(h.decks, x) && h.decks[x].child != -1
    ensures !Forest(Deleted(h, LinkTo(h, x), x), ref', rank')
  {
    LinkToRef(h, ref, -1, x);
    var l := ref[x];
    var h' := Deleted(h, l, x);
    var s, s' := h.decks, h'.decks;
    var c := s[x].child;
    var t := s[x].sibling;
    assert Holds(h, l, x);
    RefRank(h, ref, rank, -1, x);
    DeletedFields(h, l, x);
    assert InUse(s, c) && ref[c] == ChildOf(x);
    assert InUse(s', c);
    forall l': Link
      ensures !Holds(h', l', c)
    {
      match l'
      case Root =>
        assert h.first != c && t != c;
      case SiblingOf(j) =>
        assert InUse(s', j) ==> InUse(s, j) && s[j].sibling != c;
      case ChildOf(j) =>
        assert InUse(s', j) ==> InUse(s, j) && s[j].child != c;
    }
  }

  /** The place a deck goes for `arrange` 0 (Before), 1 (Below) and 2 (Behind) relative to deck cat. */
  function Place(h: Hierarchy, cat: int, arrange: int): (l: Link)
    requires 0 <= cat < |h.decks| && 0 <= arrange <= 2
    ensures Fits(h, l)
  {
    if arrange == 0 then LinkTo(h, cat) else if arrange == 1 then ChildOf(cat) else SiblingOf(cat)
  }

  /** The first free slot, the length of the array when every slot is in use. */
  function FirstFree(s: seq<Deck>, k: nat): (r: int)
    requires k <= |s|
    ensures k <= r <= |s| && (r < |s| ==> !InUse(s, r))
    ensures forall i :: k <= i < r ==> InUse(s, i)
    decreases |s| - k
  {
    if k == |s| || !InUse(s, k) then k else FirstFree(s, k + 1)
  }

  /** The hierarchy with `Growth` free slots added at the end. */
  function Grown(h: Hierarchy): (r: Hierarchy)
    ensures |r.decks| == |h.decks| + Growth && r.first == h.first
    ensures forall i :: |h.decks| <= i < |r.decks| ==> !InUse(r.decks, i)
  {
    h.(decks := h.decks + seq(Growth, _ => Blank))
  }

  /** Adding free slots keeps the decks a forest. */
  lemma GrowPreserves(h: Hierarchy, ref: seq<Link>, rank: seq<nat>)
    requires Forest(h, ref, rank)
    ensures Forest(Grown(h), ref + seq(Growth, _ => Root), rank + seq(Growth, _ => 0))
  {
    var s, s' := h.decks, Grown(h).decks;
    assert forall i :: 0 <= i < |s| ==> s'[i] == s[i];
    assert forall i :: InUse(s', i) ==> InUse(s, i);
    var ref' := ref + seq(Growth, _ => Root);
    forall x | InUse(s', x)
      ensures Holds(Grown(h), ref'[x], x)
    {
      assert Holds(h, ref[x], x);
    }
  }

  /** After deck m is taken out, the link that leads to deck cat starts at the top level or at a deck in use outside the subtree of m. */
  lemma PlaceBeforeSource(h: Hierarchy, ref: seq<Link>, rank: seq<nat>, m: int, cat: int)
    requires Forest(h, ref, rank) && InUse(h.decks, m) && InUse(h.decks, cat)
    requires m != cat && !Below(h, ref, rank, cat, m) && h.decks[m].sibling != cat
    ensures Fits(h, ref[m])
    ensures var l := Place(Unspliced(h, ref[m], m), cat, 0);
      && l == DeletedRef(ref, m, h.decks[m].sibling)[cat] && Source(l) != m
      && (!l.Root? ==> InUse(h.decks, Source(l)) && !Below(h, ref, rank, Source(l), m))
  {
    assert Holds(h, ref[m], m);
    RefRank(h, ref, rank, -1, m);
    var h1 := Unspliced(h, ref[m], m);
    var ref1 := DeletedRef(ref, m, h.decks[m].sibling);
    UnlinkReferred(h, ref, rank, m);
    UnsplicedFields(h, ref[m], m);
    var l := Place(h1, cat, 0);
    LinkToRef(h1, ref1, m, cat);
    assert Holds(h1, l, cat);
    assert h.decks[m].child == cat ==> ref[cat] == ChildOf(m);
    if !l.Root? {
      var q := Source(l);
      assert h1.decks[q].used == h.decks[q].used;
      if q == Source(ref[m]) {
        if Below(h, ref, rank, q, m) {
          BelowRank(h, ref, rank, q, m);
        }
      } else if Below(h, ref, rank, q, m) {
        BelowDown(h, ref, rank, q, cat, m);
      }
    }
  }

  /** After deck m is taken out, putting it in front of deck cat, outside its subtree and not its own next sibling, can be spliced. */
  lemma PlaceBeforeReady(h: Hierarchy, ref: seq<Link>, rank: seq<nat>, m: int, cat: int)
    requires Forest(h, ref, rank) && InUse(h.decks, m) && InUse(h.decks, cat)
    requires m != cat && !Below(h, ref, rank, cat, m) && h.decks[m].sibling != cat
    ensures Fits(h, ref[m])
    ensures MoveReady(h, ref, rank, m, Place(Unspliced(h, ref[m], m), cat, 0))
  {
    PlaceBeforeSource(h, ref, rank, m, cat);
    var h1 := Unspliced(h, ref[m], m);
    var ref1 := DeletedRef(ref, m, h.decks[m].sibling);
    UnlinkReferred(h, ref, rank, m);
    var l := Place(h1, cat, 0);
    assert Holds(h1, l, cat);
    assert Follow(h1, l) == cat;
  }

  /** After deck m is taken out, putting it below or behind deck cat, outside its subtree, can be spliced. */
  lemma PlaceBesideReady(h: Hierarchy, ref: seq<Link>, rank: seq<nat>, m: int, cat: int, arrange: int)
    requires Forest(h, ref, rank) && InUse(h.decks, m) && InUse(h.decks, cat) && 1 <= arrange <= 2
    requires m != cat && !Below(h, ref, rank, cat, m)
    ensures Fits(h, ref[m])
    ensures MoveReady(h, ref, rank, m, Place(Unspliced(h, ref[m], m), cat, arrange))
  {
    assert Holds(h, ref[m], m);
    var h1 := Unspliced(h, ref[m], m);
    UnlinkReferred(h, ref, rank, m);
    UnlinkRanked(h, ref, rank, m);
    UnsplicedFields(h, ref[m], m);
    assert h1.decks[cat].used == h.decks[cat].used;
  }

  /** Where `A_CREATE_CAT` puts the new deck: at the top level for arrange -1, otherwise Before, Below or Behind deck cat. */
  function CreateLink(h: Hierarchy, cat: int, arrange: int): (l: Link)
    requires arrange == -1 || (0 <= cat < |h.decks| && 0 <= arrange <= 2)
    ensures Fits(h, l)
  {
    if arrange == -1 then Root else Place(h, cat, arrange)
  }

  /**
   * When `A_CREATE_CAT` succeeds: a name is given; deck cat is in use, or
   * cat is -1 and there are no decks yet (the arrangement is then the top
   * level); a free slot exists or growing stays within `int16_t`; and the
   * arrangement is one of the four.
   */
  predicate CreateAllowed(h: Hierarchy, cat: int, arrange: int, name: seq<char>)
  {
    && |name| > 0
    && (if cat >= 0 then InUse(h.decks, cat) && -1 <= arrange <= 2 else cat == -1 && h.first == -1)
    && (FirstFree(h.decks, 0) == |h.decks| ==> |h.decks| + Growth <= Int16Max)
    && (cat >= 0 && arrange == -1 ==> h.first == -1)
  }

  /** The decks in use and `first` are the same; slots may have been added or changed while free. */
  predicate SameTree(h: Hierarchy, h': Hierarchy)
  {
    && h'.first == h.first && |h'.decks| >= |h.decks|
    && forall i :: 0 <= i < |h'.decks| ==>
      && (InUse(h'.decks, i) <==> InUse(h.decks, i))
      && (InUse(h.decks, i) ==> h'.decks[i] == h.decks[i])
  }

  /** Two arrays whose decks link to x at the same slots give the same scan result. */
  lemma {:induction false} FirstRefSame(s: seq<Deck>, s': seq<Deck>, x: int, k: nat)
    requires |s| == |s'| && k <= |s|
    requires forall i :: 0 <= i < |s| ==> (Refers(s', i, x) <==> Refers(s, i, x))
    ensures FirstRef(s', x, k) == FirstRef(s, x, k)
    decreases |s| - k
  {
    if k < |s| {
      FirstRefSame(s, s', x, k + 1);
    }
  }

  /** The place `A_CREATE_CAT` picks is one a new leaf can be spliced into. */
  lemma CreateLinkReady(h: Hierarchy, ref: seq<Link>, rank: seq<nat>, cat: int, arrange: int, n: int)
    requires Forest(h, ref, rank) && 0 <= n < |h.decks| && !InUse(h.decks, n)
    requires -1 <= arrange <= 2 && (arrange == -1 ==> h.first == -1) && (arrange != -1 ==> InUse(h.decks, cat))
    ensures CreateReady(h, ref, rank, CreateLink(h, cat, arrange), n)
  {
    if arrange == 0 {
      LinkToRef(h, ref, -1, cat);
      assert Holds(h, ref[cat], cat);
    }
  }

  /** What a free slot holds changes neither the place `A_CREATE_CAT` picks nor the result of splicing into it. */
  lemma SlotIrrelevant(h: Hierarchy, x: Deck, n: int, cat: int, arrange: int, d: Deck)
    requires 0 <= n < |h.decks| && !InUse(h.decks, n) && x.used == 0
    requires arrange == -1 || (InUse(h.decks, cat) && 0 <= arrange <= 2)
    ensures var h' := h.(decks := h.decks[n := x]);
      && CreateLink(h', cat, arrange) == CreateLink(h, cat, arrange)
      && (Source(CreateLink(h, cat, arrange)) != n ==>
            Spliced(h', CreateLink(h, cat, arrange), n, d) == Spliced(h, CreateLink(h, cat, arrange), n, d))
  {
    var h' := h.(decks := h.decks[n := x]);
    if arrange == 0 {
      FirstRefSame(h.decks, h'.decks, cat, 0);
    }
    var l := CreateLink(h, cat, arrange);
    if Source(l) != n {
      assert Follow(h', l) == Follow(h, l);
      assert Spliced(h', l, n, d).decks == Spliced(h, l, n, d).decks;
    }
  }

  /** The deck array `cat_t` with `n_first`, and the links and ranks that show it is a forest. */
  class DeckTree {
    var decks: array<Deck>
    var first: int
    ghost var ref: seq<Link>
    ghost var rank: seq<nat>

    function View(): Hierarchy
      reads this, decks
    {
      Hierarchy(decks[..], first)
    }

    ghost predicate Valid()
      reads this, decks
    {
      Forest(View(), ref, rank)
    }

    /** The state before `ms_open`: no decks, `n_first` -1. */
    constructor ()
      ensures Valid() && View() == Hierarchy([], -1)
    {
      decks := new Deck[0];
      first := -1;
      ref := [];
      rank := [];
    }

    /** The scan of `ms_open`: the first deck in use whose sibling or child link holds x. */
    method Referrer(x: int) returns (r: int)
      ensures r == FirstRef(decks[..], x, 0)
    {
      r := -1;
      var i := 0;
      while i < decks.Length && r == -1
        invariant 0 <= i <= decks.Length
        invariant r == -1 ==> FirstRef(decks[..], x, 0) == FirstRef(decks[..], x, i)
        invariant r != -1 ==> r == FirstRef(decks[..], x, 0)
      {
        if decks[i].used != 0 {
          if decks[i].sibling == x || decks[i].child == x {
            r := i;
          }
        }
        i := i + 1;
      }
    }

    /**
     * The scan of `A_DELETE_CAT`, `A_CREATE_CAT` and `A_MOVE_CAT`: it stops
     * at the first deck in use that links to x, and reports it as the
     * predecessor when its sibling link holds x and as the parent when its
     * child link does.
     */
    method FindReferrer(x: int) returns (prev: int, parent: int)
      ensures var r := FirstRef(decks[..], x, 0);
        && prev == (if r != -1 && decks[r].sibling == x then r else -1)
        && parent == (if r != -1 && decks[r].child == x then r else -1)
    {
      prev, parent := -1, -1;
      var i := 0;
      while i < decks.Length && prev == -1 && parent == -1
        invariant 0 <= i <= decks.Length
        invariant prev == -1 && parent == -1 ==> FirstRef(decks[..], x, 0) == FirstRef(decks[..], x, i)
        invariant prev != -1 || parent != -1 ==> var r := FirstRef(decks[..], x, 0);
          && 0 <= r == i - 1
          && prev == (if decks[r].sibling == x then r else -1)
          && parent == (if decks[r].child == x then r else -1)
      {
        if decks[i].used != 0 {
          if decks[i].sibling == x {
            prev := i;
          }
          if decks[i].child == x {
            parent := i;
          }
        }
        i := i + 1;
      }
    }
  
    /**
     * `ms_open`: refused unless no decks are loaded yet; otherwise the
     * stored decks are taken and `n_first`, which the file does not keep,
     * is found by walking up from a deck with an empty link until no deck
     * links to the current one.  The walk ends at the first top-level deck.
     */
    method Open(loaded: seq<Deck>, ghost root: int, ghost lref: seq<Link>, ghost lrank: seq<nat>) returns (e: int)
      requires Forest(Hierarchy(loaded, root), lref, lrank)
      modifies this
      ensures e == (if old(decks.Length == 0 && first == -1) then 0 else 0x052e8351)
      ensures e != 0 ==> View() == old(View()) && ref == old(ref) && rank == old(rank)
      ensures e == 0 ==> View() == Hierarchy(loaded, root) && Valid()
    {
      if decks.Length != 0 || first != -1 {
        e := 0x052e8351;
        return;
      }
      decks := new Deck[|loaded|](i requires 0 <= i < |loaded| => loaded[i]);
      ref, rank := lref, lrank;
      e := 0;
      var go := true;
      while go
        invariant decks[..] == loaded && ref == lref && rank == lrank && e == 0
        invariant first == -1 || InUse(loaded, first)
        invariant !go ==> first == root
        decreases go, first == -1, if first == -1 then 0 else rank[first]
      {
        var prev := Referrer(first);
        if prev != -1 {
          if prev == first {
            e := 0x02d3171a;
          } else {
            if first != -1 {
              RefFound(Hierarchy(loaded, root), lref, -1, first);
              RefRank(Hierarchy(loaded, root), lref, lrank, -1, first);
            }
            first := prev;
          }
        } else if first == -1 {
          if InUse(loaded, root) {
            LeafExists(loaded, lrank, root);
          }
        } else {
          RefFound(Hierarchy(loaded, root), lref, -1, first);
        }
        go := prev != -1 && e == 0;
      }
    }

    /** `A_TOGGLE`: the expanded flag of deck cat flips; nothing else changes. */
    method Toggle(cat: int)
      requires Valid() && InUse(decks[..], cat)
      modifies decks
      ensures Valid() && first == old(first)
      ensures decks[..] == old(decks[..])[cat := Toggled(old(decks[cat]))]
    {
      ghost var g := View();
      decks[cat] := Toggled(decks[cat]);
      SameLinksForest(g, decks[..], ref, rank);
    }

    /**
     * The topology check of `A_MOVE_CAT`: walking up from deck cat, it
     * reports an error when it meets mov through a child link, or when cat
     * is mov itself, that is when cat lies in the subtree of mov.
     */
    method TopologyCheck(cat: int, mov: int) returns (e: bool)
      requires Valid() && InUse(decks[..], cat) && InUse(decks[..], mov)
      ensures e <==> mov == cat || Below(View(), ref, rank, cat, mov)
    {
      var prev, parent := -1, cat;
      var x := cat;
      ghost var answer := mov == cat || Below(View(), ref, rank, cat, mov);
      var go := true;
      e := false;
      while go
        invariant go ==> parent == -1 || InUse(decks[..], parent)
        invariant go ==> parent != -1 || InUse(decks[..], prev)
        invariant go ==> answer == (mov == parent || Below(View(), ref, rank, if parent != -1 then parent else prev, mov))
        invariant !go ==> !e && !answer
        decreases if go then rank[if parent != -1 then parent else prev] + 1 else 0
      {
        if prev != -1 {
          x := prev;
        }
        if parent != -1 {
          x := parent;
        }
        e := mov == parent;
        if e {
          break;
        }
        prev, parent := FindReferrer(x);
        RefFound(View(), ref, -1, x);
        RefRank(View(), ref, rank, -1, x);
        assert Holds(View(), ref[x], x);
        go := parent != -1 || prev != -1;
      }
    }
  
    /**
     * `A_DELETE_CAT` on deck cat, which `A_ASK_DELETE_CAT` only lets
     * through when it has no children: the link that led to it now leads to
     * its next sibling, and its slot is freed.
     */
    method Delete(cat: int)
      requires Valid() && InUse(decks[..], cat) && decks[cat].child == -1
      modifies this, decks
      ensures Valid() && decks == old(decks)
      ensures View() == Deleted(old(View()), LinkTo(old(View()), cat), cat)
    {
      ghost var h := View();
      LinkToRef(h, ref, -1, cat);
      RefFound(h, ref, -1, cat);
      DeletePreserves(h, ref, rank, cat);
      assert Holds(h, ref[cat], cat);
      var prev, parent := FindReferrer(cat);
      var e := false;
      if prev != -1 {
        decks[prev] := decks[prev].(sibling := decks[cat].sibling);
      } else if parent != -1 {
        decks[parent] := decks[parent].(child := decks[cat].sibling);
      } else {
        e := first != cat;
        if !e {
          first := decks[cat].sibling;
        }
      }
      if !e {
        decks[cat] := decks[cat].(used := 0);
      }
      assert View() == Deleted(h, ref[cat], cat);
      ref := DeletedRef(ref, cat, h.decks[cat].sibling);
    }

    /** The first free slot, `cat_a` when every slot is in use. */
    method FreeSlot() returns (slot: int)
      ensures slot == FirstFree(decks[..], 0)
    {
      slot := 0;
      while slot < decks.Length && decks[slot].used != 0
        invariant 0 <= slot <= decks.Length
        invariant FirstFree(decks[..], 0) == FirstFree(decks[..], slot)
      {
        slot := slot + 1;
      }
    }

    /** The realloc of `A_CREATE_CAT`: `Growth` more slots, all free. */
    method Grow()
      requires Valid()
      modifies this
      ensures Valid() && View() == Grown(old(View())) && fresh(decks)
    {
      ghost var g := Grown(View());
      GrowPreserves(View(), ref, rank);
      var a := new Deck[decks.Length + Growth](_ => Blank);
      forall i | 0 <= i < decks.Length {
        a[i] := decks[i];
      }
      assert forall i :: 0 <= i < a.Length ==> a[i] == g.decks[i];
      assert a[..] == g.decks;
      decks := a;
      ref := ref + seq(Growth, _ => Root);
      rank := rank + seq(Growth, _ => 0);
      assert View() == g;
    }
  
    /**
     * `A_CREATE_CAT`: the new deck takes the first free slot, the array
     * growing by `Growth` slots when none is free, and goes Before, Below or
     * Behind deck cat, or at the top level when there are no decks.  cli is
     * the chunk the new card list was stored under.
     */
    method Create(cat: int, arrange: int, name: seq<char>, cli: int) returns (e: bool, created: int)
      requires Valid()
      modifies this, decks
      ensures Valid()
      ensures e <==> !CreateAllowed(old(View()), cat, arrange, name)
      ensures created == (if e then -1 else FirstFree(old(View()).decks, 0))
      ensures e ==> SameTree(old(View()), View())
      ensures !e ==>
        var h := old(View());
        var g := if FirstFree(h.decks, 0) == |h.decks| then Grown(h) else h;
        View() == Spliced(g, CreateLink(g, cat, if cat >= 0 then arrange else -1), created, NewDeck(cli))
    {
      ghost var h := View();
      created := -1;
      e := |name| == 0;
      var arr := arrange;
      if !e {
        if cat >= 0 {
          e := cat >= decks.Length || decks[cat].used == 0;
        } else {
          e := cat != -1 || first != -1;
          if !e {
            arr := -1;
          }
        }
      }
      if e {
        return;
      }
      var slot := FreeSlot();
      if slot == decks.Length {
        e := decks.Length + Growth > Int16Max;
        if e {
          return;
        }
        Grow();
      }
      ghost var g := View();
      assert SameTree(h, g);
      e := Attach(slot, cat, arr, cli);
      if !e {
        created := slot;
      }
    }

    /**
     * The second half of `A_CREATE_CAT`: the free slot gets the card list
     * chunk and the expanded flag, and is linked in where arr says; an
     * arrangement the switch does not know, or the top level when there
     * are decks already, is an error.
     */
    method Attach(slot: int, cat: int, arr: int, cli: int) returns (e: bool)
      requires Valid() && 0 <= slot < decks.Length && !InUse(decks[..], slot)
      requires arr == -1 || InUse(decks[..], cat)
      modifies this, decks
      ensures Valid() && decks == old(decks)
      ensures e <==> !(-1 <= arr <= 2 && (arr == -1 ==> old(first) == -1))
      ensures e ==> SameTree(old(View()), View())
      ensures !e ==> View() == Spliced(old(View()), CreateLink(old(View()), cat, arr), slot, NewDeck(cli))
    {
      ghost var g := View();
      Prepare(slot, cli);
      ghost var g1 := View();
      e := !(arr == 0 || arr == 1 || arr == 2 || (arr == -1 && first == -1));
      if e {
        assert SameTree(g, View());
        return;
      }
      Arrange(slot, cat, arr);
      SlotIrrelevant(g, g1.decks[slot], slot, cat, arr, NewDeck(cli));
    }

    /** The switch of `A_CREATE_CAT` for an arrangement it knows, and the marking of the new deck. */
    method Arrange(slot: int, cat: int, arr: int)
      requires Valid() && 0 <= slot < decks.Length && !InUse(decks[..], slot) && decks[slot].expanded == 1
      requires -1 <= arr <= 2 && (arr == -1 ==> first == -1) && (arr != -1 ==> InUse(decks[..], cat))
      modifies this, decks
      ensures Valid() && decks == old(decks)
      ensures View() == Spliced(old(View()), CreateLink(old(View()), cat, arr), slot, NewDeck(old(decks[slot].cli)))
    {
      ghost var g := View();
      CreateLinkReady(g, ref, rank, cat, arr, slot);
      if arr == 0 {
        LinkToRef(g, ref, -1, cat);
        RefFound(g, ref, -1, cat);
        assert Holds(g, ref[cat], cat);
        SpliceBefore(slot, cat);
        decks[slot] := decks[slot].(child := -1);
      } else if arr == 1 {
        SpliceBelow(slot, cat);
        decks[slot] := decks[slot].(child := -1);
      } else if arr == 2 {
        SpliceBehind(slot, cat);
        decks[slot] := decks[slot].(child := -1);
      } else {
        decks[slot] := decks[slot].(sibling := -1, child := -1);
        first := slot;
      }
      Commit(slot, g, CreateLink(g, cat, arr), g.decks[slot].cli);
    }

    /** The slot gets the card list chunk and the expanded flag; while free, that changes no link. */
    method Prepare(slot: int, cli: int)
      requires Valid() && 0 <= slot < decks.Length && !InUse(decks[..], slot)
      modifies decks
      ensures Valid() && first == old(first) && !InUse(decks[..], slot)
      ensures decks[..] == old(decks[..])[slot := old(decks[slot]).(cli := cli, expanded := 1)]
    {
      ghost var g := View();
      decks[slot] := decks[slot].(cli := cli, expanded := 1);
      SameLinksForest(g, decks[..], ref, rank);
    }

    /** The end of `A_CREATE_CAT`: the spliced slot is marked in use and enabled, and the decks are a forest again. */
    method Commit(slot: int, ghost g: Hierarchy, ghost l: Link, ghost cli: int)
      requires CreateReady(g, ref, rank, l, slot) && g.decks[slot].cli == cli && g.decks[slot].expanded == 1
      requires View() == Spliced(g, l, slot, g.decks[slot].(child := -1))
      modifies this, decks
      ensures Valid() && decks == old(decks)
      ensures View() == Spliced(g, l, slot, NewDeck(cli))
    {
      decks[slot] := decks[slot].(used := 1, on := 1);
      assert View() == Spliced(g, l, slot, NewDeck(cli));
      CreatePreserves(g, ref, rank, l, slot, cli);
      ref := SplicedRef(ref, l, slot, Follow(g, l));
      rank := SplicedRank(rank, l, slot);
    }

    /**
     * Case Before of `A_CREATE_CAT` and `A_MOVE_CAT`: the link the scan
     * finds leading to deck cat now leads to deck n, whose sibling link
     * leads to cat.  The source asserts that a deck other than the first
     * top-level one has a predecessor or a parent.
     */
    method SpliceBefore(n: int, cat: int)
      requires 0 <= n < decks.Length && (FirstRef(decks[..], cat, 0) != -1 || first == cat)
      requires Source(LinkTo(View(), cat)) != n
      modifies this, decks
      ensures decks == old(decks) && ref == old(ref) && rank == old(rank)
      ensures View() == Spliced(old(View()), LinkTo(old(View()), cat), n, old(decks[n]))
    {
      var prev, parent := FindReferrer(cat);
      if prev != -1 {
        decks[prev] := decks[prev].(sibling := n);
      } else if first == cat {
        first := n;
      } else {
        decks[parent] := decks[parent].(child := n);
      }
      decks[n] := decks[n].(sibling := cat);
    }

    /** Case Below: deck n becomes the first child of deck cat, ahead of the old first child. */
    method SpliceBelow(n: int, cat: int)
      requires 0 <= n < decks.Length && 0 <= cat < decks.Length && n != cat
      modifies decks
      ensures View() == Spliced(old(View()), ChildOf(cat), n, old(decks[n]))
    {
      decks[n] := decks[n].(sibling := decks[cat].child);
      decks[cat] := decks[cat].(child := n);
    }

    /** Case Behind: deck n becomes the next sibling of deck cat, ahead of the old one. */
    method SpliceBehind(n: int, cat: int)
      requires 0 <= n < decks.Length && 0 <= cat < decks.Length && n != cat
      modifies decks
      ensures View() == Spliced(old(View()), SiblingOf(cat), n, old(decks[n]))
    {
      decks[n] := decks[n].(sibling := decks[cat].sibling);
      decks[cat] := decks[cat].(sibling := n);
    }

    /**
     * The first half of `A_MOVE_CAT`: the link that led to deck mov, found
     * by the scan unless mov is `n_first`, now leads to its next sibling.
     */
    method Unlink(mov: int)
      requires Valid() && InUse(decks[..], mov)
      modifies this, decks
      ensures decks == old(decks) && ref == old(ref) && rank == old(rank)
      ensures View() == Unspliced(old(View()), LinkTo(old(View()), mov), mov)
    {
      ghost var h := View();
      LinkToRef(h, ref, -1, mov);
      RefFound(h, ref, -1, mov);
      assert Holds(h, ref[mov], mov);
      RefRank(h, ref, rank, -1, mov);
      if first != mov {
        var prev, parent := FindReferrer(mov);
        if prev != -1 {
          decks[prev] := decks[prev].(sibling := decks[mov].sibling);
        }
        if parent != -1 {
          decks[parent] := decks[parent].(child := decks[mov].sibling);
        }
      } else {
        first := decks[mov].sibling;
      }
    }

    /**
     * `A_MOVE_CAT`: deck mov, with its subtree, goes Before, Below or
     * Behind deck cat.  It is refused ("Invalid topology") when cat is mov
     * or lies in the subtree of mov, and moving a deck Before its own next
     * sibling changes nothing.
     */
    method Move(cat: int, mov: int, arrange: int) returns (e: bool)
      requires Valid() && InUse(decks[..], cat) && InUse(decks[..], mov) && 0 <= arrange <= 2
      modifies this, decks
      ensures Valid() && decks == old(decks)
      ensures e <==> mov == cat || old(Below(View(), ref, rank, cat, mov))
      ensures e || (arrange == 0 && old(decks[mov].sibling) == cat) ==> View() == old(View())
      ensures !e && !(arrange == 0 && old(decks[mov].sibling) == cat) ==>
        var h := old(View());
        var l0 := LinkTo(h, mov);
        View() == Moved(h, l0, mov, Place(Unspliced(h, l0, mov), cat, arrange))
    {
      e := TopologyCheck(cat, mov);
      if e || (arrange == 0 && decks[mov].sibling == cat) {
        return;
      }
      Rearrange(cat, mov, arrange);
    }

    /** `A_MOVE_CAT` once the topology check has passed and the move is not a no-op. */
    method Rearrange(cat: int, mov: int, arrange: int)
      requires Valid() && InUse(decks[..], cat) && InUse(decks[..], mov) && 0 <= arrange <= 2
      requires mov != cat && !Below(View(), ref, rank, cat, mov)
      requires arrange == 0 ==> decks[mov].sibling != cat
      modifies this, decks
      ensures Valid() && decks == old(decks)
      ensures var h := old(View());
        var l0 := LinkTo(h, mov);
        View() == Moved(h, l0, mov, Place(Unspliced(h, l0, mov), cat, arrange))
    {
      ghost var h := View();
      LinkToRef(h, ref, -1, mov);
      if arrange == 0 {
        PlaceBeforeReady(h, ref, rank, mov, cat);
      } else {
        PlaceBesideReady(h, ref, rank, mov, cat, arrange);
      }
      ghost var l := Place(Unspliced(h, ref[mov], mov), cat, arrange);
      Unlink(mov);
      Relocate(mov, cat, arrange, h, l);
      MovePreserves(h, ref, rank, mov, l);
      ref, rank := MovedRef(h, ref, mov, l), MovedRank(h, ref, rank, mov, SourceRank(rank, l));
    }

    /** The second half of `A_MOVE_CAT`: the loose deck mov is spliced in where arrange says. */
    method Relocate(mov: int, cat: int, arrange: int, ghost h: Hierarchy, ghost l: Link)
      requires MoveReady(h, ref, rank, mov, l) && InUse(h.decks, cat) && 0 <= arrange <= 2 && cat != mov
      requires arrange == 0 ==> h.decks[mov].sibling != cat
      requires View() == Unspliced(h, ref[mov], mov) && l == Place(View(), cat, arrange)
      modifies this, decks
      ensures decks == old(decks) && ref == old(ref) && rank == old(rank)
      ensures View() == Moved(h, ref[mov], mov, l)
    {
      ghost var h1 := View();
      UnsplicedFields(h, ref[mov], mov);
      assert Holds(h, ref[mov], mov);
      RefRank(h, ref, rank, -1, mov);
      if arrange == 0 {
        UnlinkReferred(h, ref, rank, mov);
        ghost var ref1 := DeletedRef(ref, mov, h.decks[mov].sibling);
        LinkToRef(h1, ref1, mov, cat);
        RefFound(h1, ref1, mov, cat);
        SpliceBefore(mov, cat);
      } else if arrange == 1 {
        SpliceBelow(mov, cat);
      } else {
        SpliceBehind(mov, cat);
      }
    }
  }
}
