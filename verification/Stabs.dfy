/** Searching the debugging symbols for the entry that contains an address (stab_binsearch in kern/kdebug.c). */
module Stabs {
  import opened Mmu

  datatype Stab = Stab(kind: nat, value: nat)

  /** Where the search stands: *region_left, *region_right and any_matches. */
  datatype Region = Region(left: int, right: int, matched: bool)

  predicate OfKind(stabs: seq<Stab>, kind: nat, i: int) {
    0 <= i < |stabs| && stabs[i].kind == kind
  }

  /** The last entry of the kind in [l, m], or l - 1. */
  function Latest(stabs: seq<Stab>, kind: nat, l: int, m: int): (r: int)
    requires 0 <= l && l - 1 <= m < |stabs|
    ensures l - 1 <= r <= m && (r >= l ==> OfKind(stabs, kind, r))
    ensures forall i :: r < i <= m ==> !OfKind(stabs, kind, i)
    decreases m - l
  {
    if m < l || stabs[m].kind == kind then m else Latest(stabs, kind, l, m - 1)
  }

  /** No entry of the kind is at the last address, so that addr++ does not wrap around. */
  ghost predicate NoneAtEnd(stabs: seq<Stab>, kind: nat) {
    forall i :: OfKind(stabs, kind, i) ==> stabs[i].value < ADDR_LIMIT - 1
  }

  /** The variables of the main loop. */
  datatype Loop = Loop(l: int, r: int, addr: nat, g: Region)

  ghost predicate InTable(stabs: seq<Stab>, s: Loop) {
    0 <= s.l && s.r < |stabs| && s.addr < ADDR_LIMIT && 0 <= s.g.left && s.g.right < |stabs|
  }

  /** What is left to do. An exact match need not shrink [l, r], but the next one is not at l again. */
  function Work(stabs: seq<Stab>, kind: nat, s: Loop): nat {
    if s.l > s.r then 0
    else 2 * (s.r - s.l + 1) - if OfKind(stabs, kind, s.l) && (stabs[s.l].value + 1) % ADDR_LIMIT == s.addr then 1 else 0
  }

  /** One iteration. */
  ghost function Next(stabs: seq<Stab>, kind: nat, s: Loop): (t: Loop)
    requires InTable(stabs, s) && s.l <= s.r
    ensures InTable(stabs, t) && Work(stabs, kind, t) < Work(stabs, kind, s)
  {
    var trueM := (s.l + s.r) / 2;
    var m := Latest(stabs, kind, s.l, trueM);
    if m < s.l then s.(l := trueM + 1)
    else if stabs[m].value < s.addr then s.(l := trueM + 1, g := Region(m, s.g.right, true))
    else if stabs[m].value > s.addr then s.(r := m - 1, g := Region(s.g.left, m - 1, true))
    else s.(l := m, addr := (s.addr + 1) % ADDR_LIMIT, g := Region(m, s.g.right, true))
  }

  /** The main loop. */
  ghost function Search(stabs: seq<Stab>, kind: nat, s: Loop): (t: Loop)
    requires InTable(stabs, s)
    ensures InTable(stabs, t) && t.l > t.r
    decreases Work(stabs, kind, s)
  {
    if s.l > s.r then s else Search(stabs, kind, Next(stabs, kind, s))
  }

  lemma SearchStep(stabs: seq<Stab>, kind: nat, s: Loop)
    requires InTable(stabs, s) && s.l <= s.r
    ensures Search(stabs, kind, s) == Search(stabs, kind, Next(stabs, kind, s))
  {
    hide Next;
  }

  lemma SearchEnds(stabs: seq<Stab>, kind: nat, s: Loop)
    requires InTable(stabs, s) && s.l > s.r
    ensures Search(stabs, kind, s) == s
  {}

  /** What follows the loop. */
  function Closed(stabs: seq<Stab>, kind: nat, g: Region): (int, int)
    requires 0 <= g.left && g.right < |stabs|
  {
    if !g.matched then (g.left, g.left - 1)
    else if g.right > g.left then (Latest(stabs, kind, g.left + 1, g.right), g.right)
    else (g.right, g.right)
  }

  function Start(left: int, right: int, addr: nat): Loop { Loop(left, right, addr, Region(left, right, false)) }

  /** stab_binsearch. It ends on every table, for every address. */
  method StabBinsearch(stabs: seq<Stab>, regionLeft: int, regionRight: int, kind: nat, address: nat)
    returns (left: int, right: int)
    requires 0 <= regionLeft && regionRight < |stabs| && address < ADDR_LIMIT
    ensures (left, right) == Closed(stabs, kind, Search(stabs, kind, Start(regionLeft, regionRight, address)).g)
  {
    hide Search, Latest, OfKind, Work;
    left, right := regionLeft, regionRight;
    var l, r, anyMatches := left, right, false;
    var addr: nat := address;
    ghost var end := Search(stabs, kind, Start(left, right, address));
    while l <= r
      invariant InTable(stabs, Loop(l, r, addr, Region(left, right, anyMatches)))
      invariant Search(stabs, kind, Loop(l, r, addr, Region(left, right, anyMatches))) == end
      decreases Work(stabs, kind, Loop(l, r, addr, Region(left, right, anyMatches)))
    {
      ghost var s := Loop(l, r, addr, Region(left, right, anyMatches));
      var trueM := (l + r) / 2;
      var m := FindLatest(stabs, kind, l, trueM);
      if m < l {
        l := trueM + 1;
      } else {
        anyMatches := true;
        if stabs[m].value < addr {
          left := m;
          l := trueM + 1;
        } else if stabs[m].value > addr {
          right := m - 1;
          r := m - 1;
        } else {
          left := m;
          l := m;
          addr := (addr + 1) % ADDR_LIMIT;
        }
      }
      assert Next(stabs, kind, s) == Loop(l, r, addr, Region(left, right, anyMatches));
      SearchStep(stabs, kind, s);
    }
    SearchEnds(stabs, kind, Loop(l, r, addr, Region(left, right, anyMatches)));
    if !anyMatches {
      right := left - 1;
    } else if right > left {
      left := FindLatest(stabs, kind, left + 1, right);
    } else {
      left := right;
    }
  }

  /** The two inner loops, which walk m down from where it is to an entry of the kind, or to below l. */
  method FindLatest(stabs: seq<Stab>, kind: nat, l: int, from: int) returns (m: int)
    requires 0 <= l && l - 1 <= from < |stabs|
    ensures m == Latest(stabs, kind, l, from)
  {
    m := from;
    while m >= l && stabs[m].kind != kind
      invariant l - 1 <= m <= from && Latest(stabs, kind, l, m) == Latest(stabs, kind, l, from)
    {
      m := m - 1;
    }
  }

  // ---------------------------------------------------------------- what it finds

  /** Entries of the kind in [left, right] are sorted by value. */
  ghost predicate SortedKind(stabs: seq<Stab>, kind: nat, left: int, right: int) {
    forall i, j :: left <= i < j <= right && OfKind(stabs, kind, i) && OfKind(stabs, kind, j) ==>
      stabs[i].value <= stabs[j].value
  }

  /** Not both an entry at address a and one at the address after it. */
  ghost predicate NoNeighbour(stabs: seq<Stab>, kind: nat, left: int, right: int, a: nat) {
    forall i, j ::
      (left <= i <= right && left <= j <= right && OfKind(stabs, kind, i) && OfKind(stabs, kind, j) && stabs[i].value == a) ==>
        stabs[j].value != a + 1
  }

  /** When the search for address a has hit an entry at a, is an entry at the next address still in its range? */
  ghost predicate Misled(stabs: seq<Stab>, kind: nat, a: nat, s: Loop)
    requires InTable(stabs, s)
    decreases Work(stabs, kind, s)
  {
    if s.addr != a then exists i :: s.l <= i <= s.r && OfKind(stabs, kind, i) && stabs[i].value == a + 1
    else s.l <= s.r && Misled(stabs, kind, a, Next(stabs, kind, s))
  }

  ghost predicate None(stabs: seq<Stab>, kind: nat, from: int, to: int) {
    forall i :: from <= i <= to ==> !OfKind(stabs, kind, i)
  }

  /** The loop, started for address a: entries after r are above a and the region ends at r, just before one of
      them or where it did; the region begins at the last entry before l (or at an exact match, at l). */
  ghost predicate Bracketing(stabs: seq<Stab>, kind: nat, left: int, right: int, a: nat, s: Loop, found: bool) {
    && 0 <= left <= s.l && s.r <= right < |stabs| && s.g.right == s.r && left - 1 <= s.r
    && (s.addr == a || (s.addr == a + 1 && exists i :: left <= i <= right && OfKind(stabs, kind, i) && stabs[i].value == a))
    && (forall i :: s.r < i <= right && OfKind(stabs, kind, i) ==> stabs[i].value > a)
    && (s.r < right ==> OfKind(stabs, kind, s.r + 1))
    && (s.g.matched <==> found || s.r < right)
    && if found then
         left <= s.g.left <= s.l && s.g.left <= s.r && OfKind(stabs, kind, s.g.left) && stabs[s.g.left].value <= a
         && None(stabs, kind, s.g.left + 1, s.l - 1)
       else s.g.left == left && None(stabs, kind, left, s.l - 1)
  }

  /** The answer for address a in a region [left, right]. */
  ghost predicate Answer(stabs: seq<Stab>, kind: nat, left: int, right: int, a: nat, l: int, r: int) {
    // the last entry at or below a, and the index just before the next entry
    if exists i :: left <= i <= right && OfKind(stabs, kind, i) && stabs[i].value <= a then
      && left <= l <= r <= right && OfKind(stabs, kind, l) && stabs[l].value <= a
      && (forall i :: l < i <= right && OfKind(stabs, kind, i) ==> stabs[i].value > a)
      && None(stabs, kind, l + 1, r) && (r == right || OfKind(stabs, kind, r + 1))
    // all entries are above a: an empty region, unless the first entry is further on, or the very first
    else if exists i :: left <= i <= right && OfKind(stabs, kind, i) then
      r < right && OfKind(stabs, kind, r + 1) && None(stabs, kind, left, r) && l == if r < left then r else left
    // no entries
    else l == left && r == left - 1
  }

  /** Has this iteration found an entry at or below the address? */
  ghost predicate Finds(stabs: seq<Stab>, kind: nat, s: Loop)
    requires InTable(stabs, s) && s.l <= s.r
  {
    var m := Latest(stabs, kind, s.l, (s.l + s.r) / 2);
    m >= s.l && stabs[m].value <= s.addr
  }

  /** Has it found one at a + 1? */
  ghost predicate HitsNext(stabs: seq<Stab>, kind: nat, a: nat, s: Loop)
    requires InTable(stabs, s) && s.l <= s.r
  {
    var m := Latest(stabs, kind, s.l, (s.l + s.r) / 2);
    m >= s.l && stabs[m].value == a + 1
  }

  lemma NextBrackets(stabs: seq<Stab>, kind: nat, left: int, right: int, a: nat, s: Loop, found: bool)
    requires a < ADDR_LIMIT - 1 && InTable(stabs, s) && s.l <= s.r
    requires SortedKind(stabs, kind, left, right) && (s.addr == a || !HitsNext(stabs, kind, a, s))
    requires Bracketing(stabs, kind, left, right, a, s, found)
    ensures Bracketing(stabs, kind, left, right, a, Next(stabs, kind, s), found || Finds(stabs, kind, s))
  {
    hide OfKind, SortedKind, Bracketing, None, Work;
    AddrIs(stabs, kind, left, right, a, s, found);
    var trueM := (s.l + s.r) / 2;
    var m := Latest(stabs, kind, s.l, trueM);
    if m < s.l {
      SkipAll(stabs, kind, left, right, a, s, found, trueM);
    } else if stabs[m].value > s.addr {
      CutRight(stabs, kind, left, right, a, s, found, m);
    } else {
      TakeLeft(stabs, kind, left, right, a, s, found, m, trueM);
      assert stabs[m].value == s.addr ==> (s.addr + 1) % ADDR_LIMIT == s.addr + 1;
    }
  }

  /** An iteration that does not hit an entry at a settles nothing. */
  lemma MisledNext(stabs: seq<Stab>, kind: nat, a: nat, s: Loop)
    requires InTable(stabs, s) && s.l <= s.r
    ensures s.addr == a ==> Misled(stabs, kind, a, s) == Misled(stabs, kind, a, Next(stabs, kind, s))
    ensures s.addr != a && !Misled(stabs, kind, a, s) ==>
              && (Next(stabs, kind, s).addr != a ==> !Misled(stabs, kind, a, Next(stabs, kind, s)))
              && !HitsNext(stabs, kind, a, s)
  {}

  lemma NotLast(stabs: seq<Stab>, kind: nat, m: int)
    requires NoneAtEnd(stabs, kind) && OfKind(stabs, kind, m)
    ensures 0 <= m < |stabs| && stabs[m].value < ADDR_LIMIT - 1
  {}

  /** There is no entry in the left half. */
  lemma SkipAll(stabs: seq<Stab>, kind: nat, left: int, right: int, a: nat, s: Loop, found: bool, trueM: int)
    requires InTable(stabs, s) && s.l <= trueM <= s.r && Bracketing(stabs, kind, left, right, a, s, found)
    requires forall i :: s.l - 1 < i <= trueM ==> !OfKind(stabs, kind, i)
    ensures Bracketing(stabs, kind, left, right, a, s.(l := trueM + 1), found)
  {
    hide OfKind;
  }

  /** An entry above the address ends the region. */
  lemma CutRight(stabs: seq<Stab>, kind: nat, left: int, right: int, a: nat, s: Loop, found: bool, m: int)
    requires InTable(stabs, s) && s.l <= m <= s.r && OfKind(stabs, kind, m) && stabs[m].value > s.addr
    requires SortedKind(stabs, kind, left, right) && Bracketing(stabs, kind, left, right, a, s, found)
    ensures Bracketing(stabs, kind, left, right, a, s.(r := m - 1, g := Region(s.g.left, m - 1, true)), found)
  {
    assert found ==> s.g.left != m;
    hide OfKind;
  }

  /** An entry at or below the address begins it. */
  lemma TakeLeft(stabs: seq<Stab>, kind: nat, left: int, right: int, a: nat, s: Loop, found: bool, m: int, trueM: int)
    requires InTable(stabs, s) && s.l <= m <= trueM <= s.r && OfKind(stabs, kind, m) && stabs[m].value <= s.addr
    requires forall i :: m < i <= trueM ==> !OfKind(stabs, kind, i)
    requires (s.addr == a || stabs[m].value != a + 1) && Bracketing(stabs, kind, left, right, a, s, found)
    ensures stabs[m].value == s.addr ==>
              Bracketing(stabs, kind, left, right, a, s.(l := m, addr := s.addr + 1, g := Region(m, s.g.right, true)), true)
    ensures Bracketing(stabs, kind, left, right, a, s.(l := trueM + 1, g := Region(m, s.g.right, true)), true)
  {
    hide OfKind;
  }

  lemma {:induction false} SearchBrackets(stabs: seq<Stab>, kind: nat, left: int, right: int, a: nat, s: Loop, found: bool)
    returns (found': bool)
    requires a < ADDR_LIMIT - 1 && InTable(stabs, s)
    requires SortedKind(stabs, kind, left, right) && !Misled(stabs, kind, a, s)
    requires Bracketing(stabs, kind, left, right, a, s, found)
    ensures Bracketing(stabs, kind, left, right, a, Search(stabs, kind, s), found')
    decreases Work(stabs, kind, s)
  {
    AddrIs(stabs, kind, left, right, a, s, found);
    hide Bracketing, SortedKind, Finds;
    if s.l <= s.r {
      MisledNext(stabs, kind, a, s);
      hide Misled;
      NextBrackets(stabs, kind, left, right, a, s, found);
      found' := SearchBrackets(stabs, kind, left, right, a, Next(stabs, kind, s), found || Finds(stabs, kind, s));
    } else {
      found' := found;
    }
  }

  lemma AddrIs(stabs: seq<Stab>, kind: nat, left: int, right: int, a: nat, s: Loop, found: bool)
    requires InTable(stabs, s) && Bracketing(stabs, kind, left, right, a, s, found)
    ensures s.addr == a || s.addr == a + 1
  {}

  /** On a sorted kind the search gives the right answer, whatever other entries the table has, unless it hits
      an entry at the address while one at the next address is still in its range. */
  lemma SearchAnswers(stabs: seq<Stab>, kind: nat, left: int, right: int, a: nat)
    requires a < ADDR_LIMIT - 1 && 0 <= left <= right < |stabs| && SortedKind(stabs, kind, left, right)
    requires !Misled(stabs, kind, a, Start(left, right, a))
    ensures var (l, r) := Closed(stabs, kind, Search(stabs, kind, Start(left, right, a)).g);
            Answer(stabs, kind, left, right, a, l, r)
  {
    var s := Start(left, right, a);
    assert Bracketing(stabs, kind, left, right, a, s, false) by { hide OfKind; }
    hide Search, Start, SortedKind, Misled, Answer, Bracketing;
    var found := SearchBrackets(stabs, kind, left, right, a, s, false);
    EndAnswers(stabs, kind, left, right, a, Search(stabs, kind, s), found);
  }

  /** And then it never does, as long as addresses do not wrap around. Whether the search is misled depends on how
      it halves the region; that there are not entries at both a and a + 1, as seen in the table alone, is enough
      for it not to be (NoNeighbourNotMisled). */
  lemma SearchAnswersIff(stabs: seq<Stab>, kind: nat, left: int, right: int, a: nat)
    requires NoneAtEnd(stabs, kind) && a < ADDR_LIMIT - 1 && 0 <= left <= right < |stabs|
    requires SortedKind(stabs, kind, left, right)
    ensures var (l, r) := Closed(stabs, kind, Search(stabs, kind, Start(left, right, a)).g);
            Answer(stabs, kind, left, right, a, l, r) <==> !Misled(stabs, kind, a, Start(left, right, a))
  {
    var s := Start(left, right, a);
    assert Bracketing(stabs, kind, left, right, a, s, false) by { hide OfKind; }
    hide Search, Start, SortedKind, NoneAtEnd, Misled, Answer, Bracketing;
    if Misled(stabs, kind, a, s) {
      MisledFails(stabs, kind, left, right, a, s, false);
    } else {
      SearchAnswers(stabs, kind, left, right, a);
    }
  }

  /** An address whose next one has no entry, or which has none itself, never misleads. */
  lemma {:induction false} NoNeighbourNotMisled(stabs: seq<Stab>, kind: nat, left: int, right: int, a: nat, s: Loop)
    requires a < ADDR_LIMIT - 1 && InTable(stabs, s) && left <= s.l && s.r <= right < |stabs|
    requires NoNeighbour(stabs, kind, left, right, a) && s.addr == a
    ensures !Misled(stabs, kind, a, s)
    decreases s.r - s.l + 1
  {
    if s.l <= s.r {
      var t := Next(stabs, kind, s);
      if t.addr == a {
        NoNeighbourNotMisled(stabs, kind, left, right, a, t);
      } else {
        assert OfKind(stabs, kind, t.l) && stabs[t.l].value == a;
      }
    }
  }

  /** The search for a misses its answer once it is after an entry x above a. */
  lemma {:induction false} StaysBeyond(stabs: seq<Stab>, kind: nat, s: Loop, x: int)
    requires NoneAtEnd(stabs, kind) && InTable(stabs, s) && OfKind(stabs, kind, x) && stabs[x].value < s.addr
    requires x <= s.l && x <= s.g.left && x <= s.g.right && s.g.matched
    ensures var g := Search(stabs, kind, s).g; g.matched && x <= g.left && x <= g.right
    decreases Work(stabs, kind, s)
  {
    if s.l <= s.r {
      StaysBeyond(stabs, kind, Next(stabs, kind, s), x);
    }
  }

  /** The entry n at the address stays in the range until an entry x there is hit. */
  lemma NeighbourStays(stabs: seq<Stab>, kind: nat, left: int, right: int, s: Loop, n: int) returns (x: int)
    requires NoneAtEnd(stabs, kind) && InTable(stabs, s) && SortedKind(stabs, kind, left, right)
    requires left <= s.l <= n <= s.r <= right < |stabs| && OfKind(stabs, kind, n) && stabs[n].value == s.addr
    requires s.r <= s.g.right
    ensures var t := Next(stabs, kind, s);
            && t.r <= right && t.r <= t.g.right
            && if t.addr == s.addr then s.l <= t.l <= n <= t.r
               else && left <= x <= right && OfKind(stabs, kind, x) && stabs[x].value == s.addr < t.addr
                    && t.g.matched && x <= t.l && x <= t.g.left && x <= t.g.right
  {
    x := Latest(stabs, kind, s.l, (s.l + s.r) / 2);
    NotLast(stabs, kind, n);
    hide NoneAtEnd, Latest;
  }

  /** The search for a + 1 hits the entry at a + 1 in its range. */
  lemma {:induction false} HitsNeighbour(stabs: seq<Stab>, kind: nat, left: int, right: int, a: nat, s: Loop, n: int) returns (x: int)
    requires NoneAtEnd(stabs, kind) && InTable(stabs, s) && SortedKind(stabs, kind, left, right)
    requires left <= s.l <= n <= s.r <= right < |stabs| && OfKind(stabs, kind, n) && stabs[n].value == a + 1 == s.addr
    requires s.r <= s.g.right
    ensures left <= x <= right && OfKind(stabs, kind, x) && stabs[x].value == a + 1
    ensures var g := Search(stabs, kind, s).g; g.matched && x <= g.left && x <= g.right
    decreases Work(stabs, kind, s)
  {
    hide SortedKind, NoneAtEnd, Latest, OfKind, Next;
    var t := Next(stabs, kind, s);
    x := NeighbourStays(stabs, kind, left, right, s, n);
    if t.addr == s.addr {
      x := HitsNeighbour(stabs, kind, left, right, a, t, n);
    } else {
      StaysBeyond(stabs, kind, t, x);
    }
  }

  lemma {:induction false} MisledFails(stabs: seq<Stab>, kind: nat, left: int, right: int, a: nat, s: Loop, found: bool)
    requires NoneAtEnd(stabs, kind) && a < ADDR_LIMIT - 1 && InTable(stabs, s) && SortedKind(stabs, kind, left, right)
    requires Bracketing(stabs, kind, left, right, a, s, found) && s.addr == a && Misled(stabs, kind, a, s)
    ensures var (l, r) := Closed(stabs, kind, Search(stabs, kind, s).g); !Answer(stabs, kind, left, right, a, l, r)
    decreases s.r - s.l + 1
  {
    var t := Next(stabs, kind, s);
    NextBrackets(stabs, kind, left, right, a, s, found);
    hide Answer, SortedKind;
    if t.addr == a {
      MisledFails(stabs, kind, left, right, a, t, found || Finds(stabs, kind, s));
    } else {
      var n :| t.l <= n <= t.r && OfKind(stabs, kind, n) && stabs[n].value == a + 1;
      var x := HitsNeighbour(stabs, kind, left, right, a, t, n);
      BeyondIsWrong(stabs, kind, left, right, a, Search(stabs, kind, t).g, x);
    }
  }

  lemma BeyondIsWrong(stabs: seq<Stab>, kind: nat, left: int, right: int, a: nat, g: Region, x: int)
    requires SortedKind(stabs, kind, left, right) && 0 <= g.left && g.right < |stabs|
    requires left <= x <= right && OfKind(stabs, kind, x) && stabs[x].value > a && g.matched && x <= g.left && x <= g.right
    requires exists i :: left <= i <= right && OfKind(stabs, kind, i) && stabs[i].value <= a
    ensures var (l, r) := Closed(stabs, kind, g); !Answer(stabs, kind, left, right, a, l, r)
  {}

  lemma EndAnswers(stabs: seq<Stab>, kind: nat, left: int, right: int, a: nat, s: Loop, found: bool)
    requires InTable(stabs, s) && s.l > s.r && Bracketing(stabs, kind, left, right, a, s, found)
    ensures var (l, r) := Closed(stabs, kind, s.g); Answer(stabs, kind, left, right, a, l, r)
  {
    hide OfKind;
    if found {
      assert OfKind(stabs, kind, s.g.left);
    } else if s.r < right {
      assert OfKind(stabs, kind, s.r + 1);
    }
  }

  /** With just an entry at a and one at a + 1 the answer for a is the second, which is wrong. */
  lemma NeighbourMisleads(a: nat)
    requires a < ADDR_LIMIT - 2
    ensures var stabs := [Stab(0, a), Stab(0, a + 1)];
            && NoneAtEnd(stabs, 0) && SortedKind(stabs, 0, 0, 1) && Misled(stabs, 0, a, Start(0, 1, a))
            && Closed(stabs, 0, Search(stabs, 0, Start(0, 1, a)).g) == (1, 1)
            && !Answer(stabs, 0, 0, 1, a, 1, 1)
  {
    var stabs := [Stab(0, a), Stab(0, a + 1)];
    assert OfKind(stabs, 0, 0) && OfKind(stabs, 0, 1);
    assert Misled(stabs, 0, a, Start(0, 1, a)) by {
      assert Next(stabs, 0, Start(0, 1, a)) == Loop(0, 1, a + 1, Region(0, 1, true));
      hide Next;
    }
    hide Misled, Answer, SortedKind;
    SearchAnswersIff(stabs, 0, 0, 1, a);
    assert Search(stabs, 0, Start(0, 1, a)).g == Region(1, 1, true) by { PairSearch(a); }
    hide Search;
  }

  lemma PairSearch(a: nat)
    requires a < ADDR_LIMIT - 2
    ensures Search([Stab(0, a), Stab(0, a + 1)], 0, Start(0, 1, a)).g == Region(1, 1, true)
  {
    var stabs := [Stab(0, a), Stab(0, a + 1)];
    assert Next(stabs, 0, Start(0, 1, a)) == Loop(0, 1, a + 1, Region(0, 1, true));
    assert Next(stabs, 0, Loop(0, 1, a + 1, Region(0, 1, true))) == Loop(1, 1, a + 1, Region(0, 1, true));
    assert Next(stabs, 0, Loop(1, 1, a + 1, Region(0, 1, true))) == Loop(1, 1, a + 2, Region(1, 1, true));
    assert Next(stabs, 0, Loop(1, 1, a + 2, Region(1, 1, true))) == Loop(2, 1, a + 2, Region(1, 1, true));
    hide Search, Next, Work;
    SearchStep(stabs, 0, Start(0, 1, a));
    SearchStep(stabs, 0, Loop(0, 1, a + 1, Region(0, 1, true)));
    SearchStep(stabs, 0, Loop(1, 1, a + 1, Region(0, 1, true)));
    SearchStep(stabs, 0, Loop(1, 1, a + 2, Region(1, 1, true)));
    SearchEnds(stabs, 0, Loop(2, 1, a + 2, Region(1, 1, true)));
  }
}
