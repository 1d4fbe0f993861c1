/**
 * The card list of the selected deck: the array `card_l` of `card_a`
 * cards in `struct MemorySurfer`, the current card `card_i` and the card
 * marked for moving `mov_card_i`, and the actions of `main` that
 * rearrange the list or change the state of a card.
 *
 * Storing the list (`imf_put`, `imf_sync`) and loading card texts
 * (`ms_get_card_sa`) are taken to succeed; the clock (`time(NULL)`) and the
 * slot `imf_seek_unused` finds are parameters.
 */
module Cards {
  import opened Wrappers
  import opened TextRoutines

  /** `struct Card`: time of the last repetition, strength in seconds, the chunk of its text, its state. */
  datatype Card = Card(time: int, strength: int, qai: int, state: int)

  /** The card states. */
  const StateAlarm: int := 0
  const StateScheduled: int := 1
  const StateNew: int := 2
  const StateSuspended: int := 3

  predicate KnownStates(s: seq<Card>)
  {
    forall k :: 0 <= k < |s| ==> StateAlarm <= s[k].state <= StateSuspended
  }

  /** `lvl_s`: the strength in seconds each of the 21 levels gives a card, from a minute to twenty years. */
  const LevelStrength: seq<int> := [60, 120, 300, 900, 1800, 3600, 14400, 43200, 86400, 172800,
    432000, 604800, 1209600, 2592000, 7776000, 15552000, 31104000, 62208000, 155520000,
    311040000, 622080000]

  /** The values of the `arrange` form field a card move accepts. */
  const Before: int := 0
  const Behind: int := 2

  /** The card a new question gets: created now, a minute strong, new. */
  function NewCard(now: int, qai: int): (c: Card)
    ensures c.strength == LevelStrength[0] && c.state == StateNew
  {
    Card(now, 60, qai, StateNew)
  }

  // ---------------------------------------------------------------------
  // The list as a sequence

  /** The list without card i: the cards behind it move down by one. */
  function Removed(s: seq<Card>, i: nat): (r: seq<Card>)
    requires i < |s|
    ensures |r| == |s| - 1
    ensures forall k :: 0 <= k < |r| ==> r[k] == if k < i then s[k] else s[k + 1]
  {
    s[..i] + s[i + 1..]
  }

  /** The list with c at place i: the cards from i on move up by one. */
  function Inserted(s: seq<Card>, i: nat, c: Card): (r: seq<Card>)
    requires i <= |s|
    ensures |r| == |s| + 1 && r[i] == c
    ensures forall k :: 0 <= k < |r| && k != i ==> r[k] == if k < i then s[k] else s[k - 1]
  {
    s[..i] + [c] + s[i..]
  }

  /** Removing a card just inserted gives the list back. */
  lemma RemoveInserted(s: seq<Card>, i: nat, c: Card)
    requires i <= |s|
    ensures Removed(Inserted(s, i, c), i) == s
  {
    var r := Removed(Inserted(s, i, c), i);
    assert forall k :: 0 <= k < |s| ==> r[k] == s[k];
  }

  /** Putting a removed card back at its place gives the list back. */
  lemma InsertRemoved(s: seq<Card>, i: nat)
    requires i < |s|
    ensures Inserted(Removed(s, i), i, s[i]) == s
  {
    var r := Inserted(Removed(s, i), i, s[i]);
    assert forall k :: 0 <= k < |s| ==> r[k] == s[k];
  }

  /** The list with the card at `from` taken out and put back at `to`. */
  function Moved(s: seq<Card>, from: nat, to: nat): (r: seq<Card>)
    requires from < |s| && to < |s|
    ensures |r| == |s| && r[to] == s[from]
  {
    Inserted(Removed(s, from), to, s[from])
  }

  /** A move keeps every card: the list is a permutation of what it was. */
  lemma MovedPermutes(s: seq<Card>, from: nat, to: nat)
    requires from < |s| && to < |s|
    ensures multiset(Moved(s, from, to)) == multiset(s)
  {
    var rest := Removed(s, from);
    calc {
      multiset(Moved(s, from, to));
      { assert Moved(s, from, to) == rest[..to] + [s[from]] + rest[to..]; }
      multiset(rest[..to]) + multiset{s[from]} + multiset(rest[to..]);
      { assert rest == rest[..to] + rest[to..]; }
      multiset(rest) + multiset{s[from]};
      { assert rest == s[..from] + s[from + 1..]; }
      multiset(s[..from]) + multiset(s[from + 1..]) + multiset{s[from]};
      { assert s == s[..from] + [s[from]] + s[from + 1..]; }
      multiset(s);
    }
  }

  /** Moving the card back to where it came from undoes a move. */
  lemma MovedBack(s: seq<Card>, from: nat, to: nat)
    requires from < |s| && to < |s|
    ensures Moved(Moved(s, from, to), to, from) == s
  {
    var r := Moved(s, from, to);
    RemoveInserted(Removed(s, from), to, s[from]);
    InsertRemoved(s, from);
  }

  /**
   * Where `A_MOVE_CARD` puts the moved card, as written: the place of the
   * current card once the moved one is out, one further for Behind.
   */
  function MoveSlot(index: int, moving: int, arrange: int): (slot: int)
    ensures slot - index in {-1, 0, 1}
  {
    (if index > moving then index - 1 else index) + (if arrange == Behind then 1 else 0)
  }

  /**
   * The moves `A_MOVE_CARD` can carry out in a list of n cards: both cards
   * in the list, `arrange` Before or Behind, and not Behind the last card
   * when that card is the moved one, whose slot would be past the end.
   */
  predicate MoveFits(n: int, index: int, moving: int, arrange: int)
  {
    0 <= index < n && 0 <= moving < n && (arrange == Before || arrange == Behind)
    && !(index == moving && index == n - 1 && arrange == Behind)
  }

  /**
   * With both cards in the list, the slot is a place in the list exactly
   * when the move fits; a current card other than the moved one always fits.
   */
  lemma MoveSlotInRange(n: int, index: int, moving: int, arrange: int)
    requires 0 <= index < n && 0 <= moving < n
    requires arrange == Before || arrange == Behind
    ensures 0 <= MoveSlot(index, moving, arrange) < n <==> MoveFits(n, index, moving, arrange)
    ensures index != moving ==> MoveFits(n, index, moving, arrange)
  {
  }

  /**
   * Moving the current card onto itself: Before puts it back in its own
   * place, Behind swaps it with the card behind it.
   */
  lemma {:induction false} MoveOntoItself(s: seq<Card>, i: nat, arrange: int)
    requires MoveFits(|s|, i, i, arrange)
    ensures arrange == Before ==> Moved(s, i, MoveSlot(i, i, arrange)) == s
    ensures arrange == Behind ==> Moved(s, i, MoveSlot(i, i, arrange)) == s[..i] + [s[i + 1], s[i]] + s[i + 2..]
  {
    if arrange == Before {
      InsertRemoved(s, i);
    } else {
      var r := Moved(s, i, i + 1);
      var t := s[..i] + [s[i + 1], s[i]] + s[i + 2..];
      assert forall k :: 0 <= k < |s| ==> r[k] == t[k];
    }
  }

  /**
   * Moving the last card Behind itself computes a slot one past the end of
   * the list, where the card would then be copied.
   */
  lemma MoveBehindItself(n: int)
    requires n >= 1
    ensures MoveSlot(n - 1, n - 1, Behind) == n
  {
  }

  /** After the move the moved card sits right before (Before) or right behind (Behind) the current card. */
  lemma MoveBeside(s: seq<Card>, index: nat, moving: nat, arrange: int)
    requires index < |s| && moving < |s| && index != moving
    requires arrange == Before || arrange == Behind
    ensures 0 <= MoveSlot(index, moving, arrange) < |s|
    ensures arrange == Before ==> Moved(s, moving, MoveSlot(index, moving, arrange))[MoveSlot(index, moving, arrange) + 1] == s[index]
    ensures arrange == Behind ==> Moved(s, moving, MoveSlot(index, moving, arrange))[MoveSlot(index, moving, arrange) - 1] == s[index]
  {
    var slot := MoveSlot(index, moving, arrange);
    var rest := Removed(s, moving);
    var at := if index > moving then index - 1 else index;
    assert rest[at] == s[index];
  }

  // ---------------------------------------------------------------------
  // Stepping through the list

  /** The current card after `A_PREVIOUS` (d = -1) or `A_NEXT` (d = 1) from card i of n. */
  function Stepped(i: int, d: int, n: int): (j: int)
    ensures n > 0 ==> 0 <= j < n
    ensures n <= 0 ==> j == -1
    ensures n > 0 && 0 <= i + d < n ==> j == i + d
  {
    if n > 0 then (if i + d < 0 then 0 else if i + d >= n then n - 1 else i + d) else -1
  }

  /** Previous undoes Next, except on the last card, where Next stays put. */
  lemma StepBack(i: int, n: int)
    requires 0 <= i < n
    ensures i + 1 < n ==> Stepped(Stepped(i, 1, n), -1, n) == i
    ensures i + 1 == n ==> Stepped(i, 1, n) == i && Stepped(Stepped(i, 1, n), -1, n) == i - (if i > 0 then 1 else 0)
  {
  }

  // ---------------------------------------------------------------------
  // Circular search

  /** `strstr`: pat occurs in text. */
  predicate Contains(text: seq<char>, pat: seq<char>)
    decreases |text|
  {
    (|pat| <= |text| && text[..|pat|] == pat) || (text != [] && Contains(text[1..], pat))
  }

  /** A card matches the search text when its question or, failing that, its answer contains it, case folded. */
  predicate CardHit(question: seq<char>, answer: seq<char>, needle: seq<char>)
  {
    Contains(Lowered(question), Lowered(needle)) || Contains(Lowered(answer), Lowered(needle))
  }

  /** Which of the n cards match. */
  function Hits(questions: seq<seq<char>>, answers: seq<seq<char>>, needle: seq<char>, n: nat): (h: seq<bool>)
    requires n <= |questions| && n <= |answers|
    ensures |h| == n && forall k :: 0 <= k < n ==> (h[k] <==> CardHit(questions[k], answers[k], needle))
  {
    seq(n, k requires 0 <= k < n => CardHit(questions[k], answers[k], needle))
  }

  /** One search step from card i in direction d, wrapping around the n cards. */
  function Wrap(i: int, d: int, n: int): (j: int)
    requires 0 <= i < n && -1 <= d <= 1
    ensures 0 <= j < n
  {
    if i + d == n then 0 else if i + d < 0 then n - 1 else i + d
  }

  /** How many steps card i lies before card start along the search direction. */
  function Gap(i: int, start: int, d: int, n: int): (g: int)
    requires 0 <= i < n && 0 <= start < n && (d == 1 || d == -1)
    ensures 0 <= g < n && (g == 0 <==> i == start)
  {
    if d == 1 then (if i <= start then start - i else start + n - i)
    else (if i >= start then i - start else i + n - start)
  }

  /** The card a circular search that began at start ends on, stepping on from card i. */
  function Scan(hits: seq<bool>, start: int, d: int, i: int): (r: int)
    requires 0 <= start < |hits| && 0 <= i < |hits| && -1 <= d <= 1 && (d != 0 || i == start)
    ensures 0 <= r < |hits| && (hits[r] || r == start)
    decreases if d == 0 || i == start then |hits| else Gap(i, start, d, |hits|)
  {
    var p := Wrap(i, d, |hits|);
    if hits[p] || p == start then p
    else
      assert d != 0;
      Scan(hits, start, d, p)
  }

  /** Each step brings the search one card closer to where it began. */
  lemma GapStep(i: int, start: int, d: int, n: int)
    requires 0 <= i < n && 0 <= start < n && (d == 1 || d == -1)
    ensures Gap(Wrap(i, d, n), start, d, n) == (if i == start then n else Gap(i, start, d, n)) - 1
  {
  }

  /** A search that has still to pass a matching card ends on a matching card. */
  lemma {:induction false} ScanReaches(hits: seq<bool>, start: int, d: int, i: int, j: int)
    requires 0 <= start < |hits| && 0 <= i < |hits| && 0 <= j < |hits| && (d == 1 || d == -1)
    requires hits[j] && Gap(j, start, d, |hits|) <= Gap(Wrap(i, d, |hits|), start, d, |hits|)
    ensures hits[Scan(hits, start, d, i)]
    decreases if i == start then |hits| else Gap(i, start, d, |hits|)
  {
    var n := |hits|;
    var p := Wrap(i, d, n);
    GapStep(i, start, d, n);
    if !hits[p] && p != start {
      GapStep(p, start, d, n);
      ScanReaches(hits, start, d, p, j);
    }
  }

  /**
   * A search in either direction visits every card: it ends on the card it
   * began from only when no other card matches.
   */
  lemma ScanFindsAny(hits: seq<bool>, start: int, d: int)
    requires 0 <= start < |hits| && (d == 1 || d == -1)
    ensures var r := Scan(hits, start, d, start);
      hits[r] || (r == start && forall j :: 0 <= j < |hits| ==> !hits[j])
  {
    var n := |hits|;
    GapStep(start, start, d, n);
    forall j | 0 <= j < n && hits[j]
      ensures hits[Scan(hits, start, d, start)]
    {
      ScanReaches(hits, start, d, start, j);
    }
  }

  // ---------------------------------------------------------------------
  // Card states

  /** A card with its state replaced. */
  function WithState(s: seq<Card>, i: nat, state: int): (r: seq<Card>)
    requires i < |s|
    ensures |r| == |s| && r[i].state == state
    ensures forall k :: 0 <= k < |s| ==> r[k].time == s[k].time && r[k].strength == s[k].strength && r[k].qai == s[k].qai
    ensures forall k :: 0 <= k < |s| && k != i ==> r[k] == s[k]
  {
    s[i := s[i].(state := state)]
  }

  /** A card as `A_RESUME` leaves it: suspended becomes scheduled. */
  function ResumedCard(c: Card): (r: Card)
    ensures r.state != StateSuspended
    ensures r.time == c.time && r.strength == c.strength && r.qai == c.qai
  {
    if c.state == StateSuspended then c.(state := StateScheduled) else c
  }

  function Resumed(s: seq<Card>): (r: seq<Card>)
    ensures |r| == |s| && forall k :: 0 <= k < |s| ==> r[k] == ResumedCard(s[k])
  {
    seq(|s|, k requires 0 <= k < |s| => ResumedCard(s[k]))
  }

  /** The number of suspended cards. */
  function SuspendedCount(s: seq<Card>): (n: nat)
    ensures n <= |s|
  {
    if s == [] then 0 else SuspendedCount(s[..|s| - 1]) + (if s[|s| - 1].state == StateSuspended then 1 else 0)
  }

  /** Resuming changes the list exactly when some card is suspended, and leaves none suspended. */
  lemma {:induction false} ResumedChanges(s: seq<Card>)
    ensures Resumed(s) == s <==> SuspendedCount(s) == 0
    ensures SuspendedCount(Resumed(s)) == 0
  {
    if s != [] {
      var t := s[..|s| - 1];
      ResumedChanges(t);
      assert Resumed(s)[..|s| - 1] == Resumed(t);
      if SuspendedCount(t) != 0 {
        assert Resumed(s)[..|s| - 1] != t;
      }
    }
  }

  /** Resuming keeps the known states known. */
  lemma ResumedKnown(s: seq<Card>)
    requires KnownStates(s)
    ensures KnownStates(Resumed(s))
  {
  }

  // ---------------------------------------------------------------------
  // memmove within the card array

  /**
   * The `memmove` that closes the slot of card `at` in a list of `len`
   * cards: the cards behind it move down by one, and the last slot keeps a
   * copy of the last card.
   */
  method CloseGap(a: array<Card>, at: int, len: int)
    requires 0 <= at < len <= a.Length
    modifies a
    ensures a[..len] == Removed(old(a[..len]), at) + [old(a[len - 1])]
    ensures a[len..] == old(a[len..])
  {
    var n := len - at - 1;
    if n > 0 {
      forall k | at <= k < at + n {
        a[k] := a[k + 1];
      }
    }
    assert a[..len] == Removed(old(a[..len]), at) + [old(a[len - 1])];
  }

  /**
   * The `memmove` that opens a slot at `at` in a list of `len` slots: the
   * cards from `at` to the last but one move up by one, and slot `at`
   * keeps a copy of the card that was there.
   */
  method OpenGap(a: array<Card>, at: int, len: int)
    requires 0 <= at < len <= a.Length
    modifies a
    ensures a[..len] == Inserted(old(a[..len - 1]), at, old(a[at]))
    ensures a[len..] == old(a[len..])
  {
    var n := len - at - 1;
    if n > 0 {
      forall k | at <= k < at + n {
        a[k + 1] := a[k];
      }
    }
    assert a[..len] == Inserted(old(a[..len - 1]), at, old(a[at]));
  }

  // ---------------------------------------------------------------------

  class CardList {
    var cards: array<Card>   // card_l, reallocated to card_a cards when the list grows
    var count: int           // card_a
    var index: int           // card_i, -1 when no card is current
    var moving: int          // mov_card_i, -1 when no card is marked

    /** The first `count` slots of `cards` hold the list. */
    ghost predicate Valid()
      reads this
    {
      0 <= count <= cards.Length
    }

    /** The cards of the list. */
    ghost function Contents(): (s: seq<Card>)
      reads this, cards
      requires Valid()
      ensures |s| == count
    {
      cards[..count]
    }

    /** `ms_init` for the card part: no cards, none current, none marked. */
    constructor ()
      ensures Valid() && count == 0 && index == -1 && moving == -1
    {
      cards := new Card[0];
      count := 0;
      index := -1;
      moving := -1;
    }

    /** `realloc` of `card_l` to n cards: the first ones are copied, the rest is left unspecified. */
    method Grow(n: int)
      requires Valid() && count <= n
      modifies this
      ensures Valid() && fresh(cards) && cards.Length == n
      ensures count == old(count) && index == old(index) && moving == old(moving)
      ensures cards[..count] == old(Contents())
    {
      var a := new Card[n];
      forall k | 0 <= k < count {
        a[k] := cards[k];
      }
      cards := a;
    }

    /**
     * `A_INSERT`: the list grows by one, the cards from the current one on
     * move up, and the new card takes the current place.  The clock is
     * read into the current place before it is tested, so when it fails that
     * place holds the card that moved up with time -1.
     */
    method Insert(qai: int, now: int) returns (e: int)
      requires Valid() && 0 <= index < count
      modifies this
      ensures Valid() && fresh(cards) && count == old(count) + 1
      ensures index == old(index) && moving == old(moving)
      ensures e == 0 <==> now != -1
      ensures e == 0 ==> Contents() == Inserted(old(Contents()), index, NewCard(now, qai))
      ensures e != 0 ==> Contents() == Inserted(old(Contents()), index, old(Contents())[index].(time := -1))
    {
      ghost var s := Contents();
      Grow(count + 1);
      count := count + 1;
      OpenGap(cards, index, count);
      cards[index] := cards[index].(time := now);
      if now == -1 {
        e := 1;
        assert Contents() == Inserted(s, index, s[index].(time := -1));
      } else {
        e := 0;
        cards[index] := NewCard(now, qai);
        assert Contents() == Inserted(s, index, NewCard(now, qai));
      }
    }

    /**
     * `A_APPEND`: the new card goes behind the last one and becomes the
     * current card.  The clock is read into the new slot before it is
     * tested, so when it fails that slot holds time -1 and its other fields
     * are whatever the reallocation left there.
     */
    method Append(qai: int, now: int) returns (e: int)
      requires Valid()
      modifies this
      ensures Valid() && fresh(cards) && count == old(count) + 1
      ensures index == old(count) && moving == old(moving)
      ensures e == 0 <==> now != -1
      ensures e == 0 ==> Contents() == old(Contents()) + [NewCard(now, qai)]
      ensures e != 0 ==> Contents()[..old(count)] == old(Contents())
      ensures e != 0 ==> Contents()[old(count)].time == -1
    {
      ghost var s := Contents();
      index := count;
      Grow(count + 1);
      count := count + 1;
      cards[index] := cards[index].(time := now);
      if now == -1 {
        e := 1;
        assert Contents()[..index] == s;
      } else {
        e := 0;
        cards[index] := NewCard(now, qai);
        assert Contents() == s + [NewCard(now, qai)];
      }
    }

    /**
     * `A_DELETE_CARD`: when the current card is a card of the list, it is
     * removed, the cards behind it move down, and the one that took its
     * place becomes current (the new last card when it was the last).
     * The result is the removed card, whose text chunk `imf_delete` frees.
     */
    method DeleteCard() returns (removed: Option<Card>)
      requires Valid()
      modifies this, cards
      ensures Valid() && cards == old(cards) && moving == old(moving)
      ensures removed.Some? <==> old(0 < count && 0 <= index < count)
      ensures removed.Some? ==> removed.value == old(Contents())[old(index)] && count == old(count) - 1
      ensures removed.Some? ==> Contents() == Removed(old(Contents()), old(index))
      ensures removed.Some? ==> index == (if old(index) == count then old(index) - 1 else old(index))
      ensures removed.Some? ==> -1 <= index < count && (count > 0 ==> 0 <= index)
      ensures removed.None? ==> Contents() == old(Contents()) && index == old(index)
    {
      removed := None;
      if count > 0 && 0 <= index && index < count {
        ghost var s := Contents();
        removed := Some(cards[index]);
        CloseGap(cards, index, count);
        count := count - 1;
        assert Contents() == Removed(s, index);
        if index == count {
          index := index - 1;
        }
      }
    }

    /** `A_PREVIOUS` (d = -1) and `A_NEXT` (d = 1): step, staying on the first or the last card. */
    method Step(d: int)
      requires d == -1 || d == 1
      modifies this
      ensures index == Stepped(old(index), d, count)
      ensures count > 0 ==> 0 <= index < count
      ensures cards == old(cards) && count == old(count) && moving == old(moving)
    {
      if count > 0 {
        index := index + d;
        if index < 0 {
          index := 0;
        }
        if index >= count {
          index := count - 1;
        }
      } else {
        index := -1;
      }
    }

    /**
     * `A_SEARCH`: from the current card (the first when none is), step in
     * direction d, wrapping around, until a card matches or the search is
     * back where it began.
     */
    method Search(questions: seq<seq<char>>, answers: seq<seq<char>>, needle: seq<char>, d: int)
      requires Valid() && -1 <= d <= 1 && -1 <= index < count
      requires count <= |questions| && count <= |answers|
      modifies this
      ensures cards == old(cards) && count == old(count) && moving == old(moving)
      ensures count > 0 ==> index == Scan(Hits(questions, answers, needle, count), if old(index) == -1 then 0 else old(index), d, if old(index) == -1 then 0 else old(index))
      ensures count == 0 ==> index == old(index)
    {
      if count > 0 {
        if index == -1 {
          index := 0;
        }
        var start := index;
        ghost var hits := Hits(questions, answers, needle, count);
        var go := true;
        while go
          invariant 0 <= index < count && 0 <= start < count && |hits| == count
          invariant go ==> (d != 0 || index == start) && Scan(hits, start, d, start) == Scan(hits, start, d, index)
          invariant !go ==> index == Scan(hits, start, d, start)
          invariant cards == old(cards) && count == old(count) && moving == old(moving)
          decreases if !go then 0 else if d == 0 || index == start then count + 1 else Gap(index, start, d, count), go
        {
          ghost var prev := index;
          index := index + d;
          if index == count {
            index := 0;
          }
          if index < 0 {
            index := count - 1;
          }
          assert index == Wrap(prev, d, count);
          var found := CardHit(questions[index], answers[index], needle);
          assert found == hits[index];
          go := !found && index != start;
          if go {
            GapStep(prev, start, d, count);
          }
        }
      }
    }

    /** `A_SCHEDULE`: a new or suspended current card becomes scheduled; a scheduled or alarmed one is refused. */
    method Schedule() returns (e: bool)
      requires Valid() && 0 <= index < count
      modifies cards
      ensures e <==> old(cards[index].state) < StateNew
      ensures !e ==> Contents() == WithState(old(Contents()), index, StateScheduled)
      ensures e ==> Contents() == old(Contents())
    {
      e := cards[index].state < StateNew;
      if !e {
        ghost var s := Contents();
        cards[index] := cards[index].(state := StateScheduled);
        assert Contents() == WithState(s, index, StateScheduled);
      }
    }

    /**
     * `A_PROCEED` with level lvl: a new or suspended card becomes scheduled,
     * and the card takes the strength of the level and the current time;
     * the action fails when the clock does.
     */
    method Proceed(lvl: int, now: int) returns (e: bool)
      requires Valid() && 0 <= index < count && 0 <= lvl < |LevelStrength|
      requires cards[index].state in {StateScheduled, StateNew, StateSuspended}
      modifies cards
      ensures e <==> now == -1
      ensures Contents() == old(Contents())[index := Card(now, LevelStrength[lvl], old(cards[index].qai), StateScheduled)]
    {
      if cards[index].state == StateNew || cards[index].state == StateSuspended {
        cards[index] := cards[index].(state := StateScheduled);
      }
      cards[index] := cards[index].(strength := LevelStrength[lvl]);
      cards[index] := cards[index].(time := now);
      e := now == -1;
    }

    /** `A_SUSPEND`: the current card, scheduled or new, becomes suspended; an out-of-range current card is refused. */
    method Suspend() returns (e: bool)
      requires Valid() && count > 0
      requires 0 <= index < count ==> cards[index].state in {StateScheduled, StateNew}
      modifies cards
      ensures e <==> !(0 <= index < count)
      ensures !e ==> Contents() == WithState(old(Contents()), index, StateSuspended)
      ensures e ==> Contents() == old(Contents())
    {
      e := index < 0 || index >= count;
      if !e {
        ghost var s := Contents();
        cards[index] := cards[index].(state := StateSuspended);
        assert Contents() == WithState(s, index, StateSuspended);
      }
    }

    /**
     * `A_RESUME`: every suspended card becomes scheduled; the action fails
     * on an empty list and when no card was suspended.
     */
    method Resume() returns (e: bool, n: int)
      requires Valid()
      modifies cards
      ensures count > 0 ==> n == SuspendedCount(old(Contents()))
      ensures e <==> count <= 0 || SuspendedCount(old(Contents())) == 0
      ensures Contents() == Resumed(old(Contents()))
    {
      ghost var s := Contents();
      e := count <= 0;
      n := 0;
      if !e {
        var k := 0;
        while k < count
          invariant 0 <= k <= count
          invariant forall j :: 0 <= j < k ==> cards[j] == ResumedCard(s[j])
          invariant forall j :: k <= j < count ==> cards[j] == s[j]
          invariant n == SuspendedCount(s[..k])
        {
          assert s[..k + 1][..k] == s[..k];
          if cards[k].state == StateSuspended {
            cards[k] := cards[k].(state := StateScheduled);
            n := n + 1;
          }
          k := k + 1;
        }
        assert s[..count] == s;
        e := n == 0;
      }
      assert Contents() == Resumed(s);
    }

    /**
     * `A_MOVE_CARD` with `arrange` Before or Behind: the marked card is taken
     * out and put back right before or behind the current card, which it
     * then becomes.  The marked card and the current card must be cards of
     * the list, and `arrange` one of the two; the current card may be the
     * marked one, except Behind the last card.  Otherwise the action is
     * refused, and when only the marked card was valid the list is left with
     * it taken out and the last card doubled.
     */
    method MoveCard(arrange: int) returns (e: bool)
      requires Valid()
      modifies this, cards
      ensures Valid() && cards == old(cards) && count == old(count)
      ensures !e <==> MoveFits(count, old(index), old(moving), arrange)
      ensures !e ==> index == MoveSlot(old(index), old(moving), arrange) && moving == -1
      ensures !e ==> Contents() == Moved(old(Contents()), old(moving), index)
      ensures e ==> index == old(index) && moving == old(moving)
      ensures e && 0 <= moving < count ==> Contents() == Removed(old(Contents()), moving) + [old(Contents())[count - 1]]
      ensures e && !(0 <= moving < count) ==> Contents() == old(Contents())
    {
      e := moving < 0 || moving >= count;
      if !e {
        ghost var s := Contents();
        var card := cards[moving];
        CloseGap(cards, moving, count);
        ghost var rest := Removed(s, moving);
        var slot;
        e, slot := Destination(arrange);
        if !e {
          assert cards[..count - 1] == rest;
          OpenGap(cards, slot, count);
          cards[slot] := card;
          assert Contents() == Inserted(rest, slot, card);
          index := slot;
          moving := -1;
        }
      }
    }

    /**
     * The second check of `A_MOVE_CARD` and the place it computes: refused
     * unless the current card is a card of the list and `arrange` is Before
     * or Behind, and refused when the place is past the end of the list.
     */
    method Destination(arrange: int) returns (e: bool, slot: int)
      requires 0 <= moving < count
      ensures !e <==> MoveFits(count, index, moving, arrange)
      ensures !e ==> slot == MoveSlot(index, moving, arrange) && 0 <= slot < count
    {
      e := index < 0 || index >= count;
      slot := 0;
      if !e {
        slot := index;
        if slot > moving {
          slot := slot - 1;
        }
        if arrange == Behind {
          slot := slot + 1;
        } else {
          e := arrange != Before;
        }
      }
      if !e {
        // Behind the last card, when it is the marked one, is past the end.
        MoveSlotInRange(count, index, moving, arrange);
        e := slot >= count;
      }
    }
  }
}
