/** The sieve as processes joined by pipes, run in any order (TP fork/primes.c). */
module Pipeline {
  import opened Options
  import opened Primes

  /** A pipe: everything ever written to it, how much of it has been read, and whether its write end is closed. */
  datatype Pipe = Pipe(log: seq<nat>, read: nat, closed: bool)

  /** The process that reads a pipe. */
  datatype Stage =
    | First                 // in primes, before its first read
    | Announcing(base: nat) // has read its base, has not printed it
    | Forking(base: nat)    // has printed it, has no pipe and no child yet
    | Filtering(base: nat, held: Option<nat>) // in filtro; a number read that is still to be written
    | Ended(was: Option<nat>)

  /** The first process with the next number it writes, the stages with the pipes they read, and what was printed. */
  datatype System = System(n: nat, next: nat, pipes: seq<Pipe>, stages: seq<Stage>, out: seq<nat>)

  datatype Event = ParentWrites | ParentCloses | ReadsFirst(k: nat) | Prints(k: nat) | Forks(k: nat)
                 | Reads(k: nat) | Writes(k: nat) | Closes(k: nat) | Stops(k: nat)

  predicate Shaped(s: System) { |s.pipes| == |s.stages| > 0 }

  /** There is something to read. */
  predicate Ready(p: Pipe) { p.read < |p.log| }

  /** A read would return 0. */
  predicate AtEnd(p: Pipe) { p.read >= |p.log| && p.closed }

  predicate Enabled(s: System, ev: Event)
    requires Shaped(s)
  {
    match ev
    case ParentWrites => s.next <= s.n
    case ParentCloses => s.next > s.n && !s.pipes[0].closed
    case ReadsFirst(k) => k < |s.stages| && s.stages[k].First? && Ready(s.pipes[k])
    case Prints(k) => k < |s.stages| && s.stages[k].Announcing?
    case Forks(k) => k < |s.stages| && s.stages[k].Forking?
    case Reads(k) => k < |s.stages| && s.stages[k].Filtering? && s.stages[k].held == None && Ready(s.pipes[k])
    case Writes(k) => k + 1 < |s.stages| && s.stages[k].Filtering? && s.stages[k].held.Some?
    case Closes(k) => k + 1 < |s.stages| && s.stages[k].Filtering? && s.stages[k].held == None && AtEnd(s.pipes[k])
    case Stops(k) => k < |s.stages| && s.stages[k].First? && AtEnd(s.pipes[k])
  }

  function SetStage(s: System, k: nat, x: Stage): System
    requires k < |s.stages|
  {
    s.(stages := s.stages[k := x])
  }

  function Put(s: System, k: nat, x: nat): System
    requires k < |s.pipes|
  {
    s.(pipes := s.pipes[k := s.pipes[k].(log := s.pipes[k].log + [x])])
  }

  function Took(s: System, k: nat): System
    requires k < |s.pipes|
  {
    s.(pipes := s.pipes[k := s.pipes[k].(read := s.pipes[k].read + 1)])
  }

  function Shut(s: System, k: nat): System
    requires k < |s.pipes|
  {
    s.(pipes := s.pipes[k := s.pipes[k].(closed := true)])
  }

  function Step(s: System, ev: Event): System
    requires Shaped(s) && Enabled(s, ev)
  {
    match ev
    case ParentWrites => Put(s, 0, s.next).(next := s.next + 1)
    case ParentCloses => Shut(s, 0)
    case ReadsFirst(k) => SetStage(Took(s, k), k, Announcing(s.pipes[k].log[s.pipes[k].read]))
    case Prints(k) => SetStage(s, k, Forking(s.stages[k].base)).(out := s.out + [s.stages[k].base])
    case Forks(k) =>
      var t := SetStage(s, k, Filtering(s.stages[k].base, None));
      t.(pipes := t.pipes + [Pipe([], 0, false)], stages := t.stages + [First])
    case Reads(k) =>
      var x, base := s.pipes[k].log[s.pipes[k].read], s.stages[k].base;
      SetStage(Took(s, k), k, Filtering(base, if base > 0 && Divides(base, x) then None else Some(x)))
    case Writes(k) => SetStage(Put(s, k + 1, s.stages[k].held.value), k, Filtering(s.stages[k].base, None))
    case Closes(k) => SetStage(Shut(s, k + 1), k, Ended(Some(s.stages[k].base)))
    case Stops(k) => SetStage(s, k, Ended(None))
  }

  function Initial(n: nat): System { System(n, 2, [Pipe([], 0, false)], [First], []) }

  // ---------------------------------------------------------------- the invariant

  /** The base of a stage that has one. */
  function BaseOf(x: Stage): Option<nat> {
    match x
    case First => None
    case Ended(b) => b
    case _ => Some(x.base)
  }

  /** What a stage has passed on, or decided to drop, of what it read. */
  function Handled(p: Pipe, x: Stage): nat {
    if x.Filtering? && x.held.Some? && p.read > 0 then p.read - 1 else p.read
  }

  /** A stage and the pipe it reads. */
  ghost predicate StageOk(p: Pipe, x: Stage) {
    && p.read <= |p.log| && Increasing(p.log) && (forall v :: v in p.log ==> v >= 2)
    && (BaseOf(x) == None <==> p.read == 0)
    && (BaseOf(x).Some? ==> p.log[0] == BaseOf(x).value)
    && (x.Announcing? || x.Forking? ==> p.read == 1)
    && (x.Filtering? && x.held.Some? ==> p.read > 1 && x.held.value == p.log[p.read - 1] && !Divides(x.base, x.held.value))
    && (x.Ended? ==> AtEnd(p))
  }

  /** A stage's output pipe holds what it let through of what it has handled. */
  ghost predicate LinkOk(p: Pipe, x: Stage, q: Pipe) {
    && BaseOf(x).Some? && BaseOf(x).value > 0 && Handled(p, x) <= |p.log|
    && q.log == Sifted(p.log[..Handled(p, x)], BaseOf(x).value)
    && (q.closed <==> x.Ended?) && (x.Filtering? || x.Ended?)
  }

  ghost predicate Printed(s: System)
    requires Shaped(s)
  {
    var last := |s.stages| - 1;
    && |s.out| == last + (if s.stages[last].Forking? then 1 else 0)
    && forall k :: 0 <= k < |s.out| ==> BaseOf(s.stages[k]) == Some(s.out[k])
  }

  ghost predicate Inv(s: System) {
    && Shaped(s) && s.n >= 2 && 2 <= s.next <= s.n + 1
    && s.pipes[0].log == Range(2, s.next - 1) && (s.pipes[0].closed ==> s.next > s.n)
    && (forall k :: 0 <= k < |s.stages| ==> StageOk(s.pipes[k], s.stages[k]))
    && (forall k :: 0 <= k < |s.stages| - 1 ==> LinkOk(s.pipes[k], s.stages[k], s.pipes[k + 1]))
    && (BaseOf(s.stages[|s.stages| - 1]).Some? ==>
          s.stages[|s.stages| - 1].Announcing? || s.stages[|s.stages| - 1].Forking?)
    && Printed(s)
  }

  lemma InitialInv(n: nat)
    requires n >= 2
    ensures Inv(Initial(n))
  {}

  lemma {:induction false} RangeAppend(lo: nat, hi: nat)
    requires lo <= hi + 1
    ensures Range(lo, hi + 1) == Range(lo, hi) + [hi + 1]
    decreases hi + 1 - lo
  {
    if lo <= hi {
      RangeAppend(lo + 1, hi);
    }
  }

  /** Writing a larger number leaves a stage as it was. */
  lemma StageMore(p: Pipe, x: Stage, v: nat)
    requires StageOk(p, x) && !p.closed && v >= 2 && forall u :: u in p.log ==> u < v
    ensures StageOk(p.(log := p.log + [v]), x)
  {
    var t := p.log + [v];
    forall i, j | 0 <= i < j < |t| ensures t[i] < t[j] {
      assert t[i] in p.log;
    }
  }

  lemma LinkMore(p: Pipe, x: Stage, q: Pipe, v: nat)
    requires StageOk(p, x) && LinkOk(p, x, q)
    ensures LinkOk(p.(log := p.log + [v]), x, q)
  {
    assert (p.log + [v])[..Handled(p, x)] == p.log[..Handled(p, x)];
  }

  lemma ParentWritesKeeps(s: System)
    requires Inv(s) && Enabled(s, ParentWrites)
    ensures Inv(Step(s, ParentWrites))
  {
    RangeAppend(2, s.next - 1);
    RangeMembers(2, s.next - 1);
    StageMore(s.pipes[0], s.stages[0], s.next);
    if |s.stages| > 1 {
      LinkMore(s.pipes[0], s.stages[0], s.pipes[1], s.next);
    }
    hide StageOk, LinkOk;
  }

  lemma ParentClosesKeeps(s: System)
    requires Inv(s) && Enabled(s, ParentCloses)
    ensures Inv(Step(s, ParentCloses))
  {
    hide StageOk, LinkOk;
    StageShut(s.pipes[0], s.stages[0]);
    if |s.stages| > 1 {
      LinkShut(s.pipes[0], s.stages[0], s.pipes[1]);
    }
  }

  lemma StageShut(p: Pipe, x: Stage)
    requires StageOk(p, x)
    ensures StageOk(p.(closed := true), x)
  {
    hide Divides;
  }

  lemma LastIs(s: System, k: nat)
    requires Inv(s) && k < |s.stages| && (s.stages[k].First? || s.stages[k].Announcing? || s.stages[k].Forking? || s.stages[k] == Ended(None))
    ensures k == |s.stages| - 1
  {
    assert k < |s.stages| - 1 ==> LinkOk(s.pipes[k], s.stages[k], s.pipes[k + 1]);
  }

  lemma ReadsFirstKeeps(s: System, k: nat)
    requires Inv(s) && Enabled(s, ReadsFirst(k))
    ensures Inv(Step(s, ReadsFirst(k)))
  {
    LastIs(s, k);
    assert StageOk(s.pipes[k], s.stages[k]);
    var s' := Step(s, ReadsFirst(k));
    assert StageOk(s'.pipes[k], s'.stages[k]);
    if k > 0 {
      assert LinkOk(s.pipes[k - 1], s.stages[k - 1], s.pipes[k]);
      assert LinkOk(s'.pipes[k - 1], s'.stages[k - 1], s'.pipes[k]);
    }
    hide StageOk, LinkOk;
  }

  lemma PrintsKeeps(s: System, k: nat)
    requires Inv(s) && Enabled(s, Prints(k))
    ensures Inv(Step(s, Prints(k)))
  {
    LastIs(s, k);
    assert StageOk(s.pipes[k], s.stages[k]);
    var s' := Step(s, Prints(k));
    assert StageOk(s'.pipes[k], s'.stages[k]);
    hide StageOk, LinkOk;
  }

  lemma ForksKeeps(s: System, k: nat)
    requires Inv(s) && Enabled(s, Forks(k))
    ensures Inv(Step(s, Forks(k)))
  {
    LastIs(s, k);
    var p, x := s.pipes[k], s.stages[k];
    assert StageOk(p, x);
    var s' := Step(s, Forks(k));
    assert StageOk(s'.pipes[k], s'.stages[k]);
    assert p.log[0] in p.log;
    assert p.log[..1] == [p.log[0]] && Divides(x.base, x.base) by { MultipleMod(x.base, 1); }
    assert p.log[..1][1..] == [];
    assert LinkOk(s'.pipes[k], s'.stages[k], s'.pipes[k + 1]);
    assert StageOk(s'.pipes[k + 1], s'.stages[k + 1]);
    hide StageOk, LinkOk;
  }

  /** Stage k and pipes k, k + 1 change; what lies further up and down is as before. */
  lemma OneStage(s: System, s': System, k: nat)
    requires Inv(s) && k + 1 < |s.stages| && Shaped(s') && |s'.stages| == |s.stages| && s'.n == s.n && s'.next == s.next && s'.out == s.out
    requires s'.pipes == s.pipes[k := s'.pipes[k]][k + 1 := s'.pipes[k + 1]] && s'.stages == s.stages[k := s'.stages[k]]
    requires s'.pipes[k].log == s.pipes[k].log && s'.pipes[k].closed == s.pipes[k].closed
    requires StageOk(s'.pipes[k], s'.stages[k]) && LinkOk(s'.pipes[k], s'.stages[k], s'.pipes[k + 1])
    requires BaseOf(s'.stages[k]) == BaseOf(s.stages[k]) && !s'.stages[k].Forking?
    requires StageOk(s'.pipes[k + 1], s.stages[k + 1])
    requires k + 2 < |s.stages| ==> LinkOk(s'.pipes[k + 1], s.stages[k + 1], s.pipes[k + 2])
    ensures Inv(s')
  {
    hide StageOk, LinkOk;
    if k > 0 {
      SameLink(s.pipes[k - 1], s.stages[k - 1], s.pipes[k], s'.pipes[k]);
    }
    forall i | 0 <= i < |s.stages| ensures StageOk(s'.pipes[i], s'.stages[i]) {}
    forall i | 0 <= i < |s.stages| - 1 ensures LinkOk(s'.pipes[i], s'.stages[i], s'.pipes[i + 1]) {}
  }

  lemma SameLink(p: Pipe, x: Stage, q: Pipe, q': Pipe)
    requires LinkOk(p, x, q) && q'.log == q.log && q'.closed == q.closed
    ensures LinkOk(p, x, q')
  {}

  /** One number read, and dropped or kept. */
  lemma ReadsPair(p: Pipe, x: Stage, q: Pipe)
    requires StageOk(p, x) && LinkOk(p, x, q) && x.Filtering? && x.held == None && Ready(p)
    ensures var v := p.log[p.read];
            var p', x' := p.(read := p.read + 1), Filtering(x.base, if x.base > 0 && Divides(x.base, v) then None else Some(v));
            StageOk(p', x') && LinkOk(p', x', q)
  {
    var v := p.log[p.read];
    var p', x' := p.(read := p.read + 1), Filtering(x.base, if x.base > 0 && Divides(x.base, v) then None else Some(v));
    hide Divides, Sifted;
    assert StageOk(p', x');
    ReadsLink(p, x, q, v);
    hide StageOk;
  }

  lemma ReadsLink(p: Pipe, x: Stage, q: Pipe, v: nat)
    requires LinkOk(p, x, q) && x.Filtering? && x.held == None && Ready(p) && v == p.log[p.read]
    ensures LinkOk(p.(read := p.read + 1), Filtering(x.base, if x.base > 0 && Divides(x.base, v) then None else Some(v)), q)
  {
    assert p.log[..p.read + 1] == p.log[..p.read] + [v];
    assert p.log[..p.read + 1][..p.read] == p.log[..p.read];
    SiftedAppend(p.log[..p.read], v, x.base);
    hide Divides, Sifted;
  }

  /** The number kept is passed on. */
  lemma WritesPair(p: Pipe, x: Stage, q: Pipe)
    requires StageOk(p, x) && LinkOk(p, x, q) && x.Filtering? && x.held.Some?
    ensures var q', x' := q.(log := q.log + [x.held.value]), Filtering(x.base, None); StageOk(p, x') && LinkOk(p, x', q')
    ensures !q.closed && x.held.value >= 2 && forall u :: u in q.log ==> u < x.held.value
  {
    var v := x.held.value;
    assert p.log[..p.read] == p.log[..p.read - 1] + [v];
    SiftedAppend(p.log[..p.read - 1], v, x.base);
    forall u | u in q.log ensures u < v {
      assert u in p.log[..p.read - 1];
    }
    assert v in p.log;
    hide Divides, Sifted;
  }

  lemma Pairs(s: System, k: nat)
    requires Inv(s) && k < |s.stages| && s.stages[k].Filtering?
    ensures k + 1 < |s.stages| && StageOk(s.pipes[k], s.stages[k]) && LinkOk(s.pipes[k], s.stages[k], s.pipes[k + 1])
    ensures StageOk(s.pipes[k + 1], s.stages[k + 1])
    ensures k + 2 < |s.stages| ==> LinkOk(s.pipes[k + 1], s.stages[k + 1], s.pipes[k + 2])
  {
    hide StageOk, LinkOk;
  }

  lemma ReadsKeeps(s: System, k: nat)
    requires Inv(s) && Enabled(s, Reads(k))
    ensures Inv(Step(s, Reads(k)))
  {
    hide StageOk, LinkOk;
    Pairs(s, k);
    ReadsPair(s.pipes[k], s.stages[k], s.pipes[k + 1]);
    OneStage(s, Step(s, Reads(k)), k);
  }

  lemma WritesKeeps(s: System, k: nat)
    requires Inv(s) && Enabled(s, Writes(k))
    ensures Inv(Step(s, Writes(k)))
  {
    hide StageOk, LinkOk;
    Pairs(s, k);
    var x, q := s.stages[k], s.pipes[k + 1];
    WritesPair(s.pipes[k], x, q);
    StageMore(q, s.stages[k + 1], x.held.value);
    if k + 2 < |s.stages| {
      LinkMore(q, s.stages[k + 1], s.pipes[k + 2], x.held.value);
    }
    OneStage(s, Step(s, Writes(k)), k);
  }

  lemma ClosesKeeps(s: System, k: nat)
    requires Inv(s) && Enabled(s, Closes(k))
    ensures Inv(Step(s, Closes(k)))
  {
    hide StageOk, LinkOk;
    Pairs(s, k);
    ClosesPair(s.pipes[k], s.stages[k], s.pipes[k + 1], s.stages[k + 1]);
    if k + 2 < |s.stages| {
      LinkShut(s.pipes[k + 1], s.stages[k + 1], s.pipes[k + 2]);
    }
    OneStage(s, Step(s, Closes(k)), k);
  }

  lemma ClosesPair(p: Pipe, x: Stage, q: Pipe, y: Stage)
    requires StageOk(p, x) && LinkOk(p, x, q) && StageOk(q, y) && x.Filtering? && x.held == None && AtEnd(p)
    ensures var x', q' := Ended(Some(x.base)), q.(closed := true); StageOk(p, x') && LinkOk(p, x', q') && StageOk(q', y)
  {}

  lemma LinkShut(p: Pipe, x: Stage, q: Pipe)
    requires LinkOk(p, x, q)
    ensures LinkOk(p.(closed := true), x, q)
  {}

  lemma StopsKeeps(s: System, k: nat)
    requires Inv(s) && Enabled(s, Stops(k))
    ensures Inv(Step(s, Stops(k)))
  {
    LastIs(s, k);
    assert StageOk(s.pipes[k], s.stages[k]);
    var s' := Step(s, Stops(k));
    assert StageOk(s'.pipes[k], s'.stages[k]);
    hide StageOk, LinkOk;
  }

  lemma StepKeeps(s: System, ev: Event)
    requires Inv(s) && Enabled(s, ev)
    ensures Inv(Step(s, ev))
  {
    hide Inv, Step;
    match ev
    case ParentWrites => ParentWritesKeeps(s);
    case ParentCloses => ParentClosesKeeps(s);
    case ReadsFirst(k) => ReadsFirstKeeps(s, k);
    case Prints(k) => PrintsKeeps(s, k);
    case Forks(k) => ForksKeeps(s, k);
    case Reads(k) => ReadsKeeps(s, k);
    case Writes(k) => WritesKeeps(s, k);
    case Closes(k) => ClosesKeeps(s, k);
    case Stops(k) => StopsKeeps(s, k);
  }

  // ---------------------------------------------------------------- streams

  /** Everything stage k will ever be given. */
  function Stream(n: nat, k: nat): (t: seq<nat>)
    ensures forall x :: x in t ==> x >= 2
  {
    if k == 0 then (RangeMembers(2, n); Range(2, n))
    else
      var t := Stream(n, k - 1);
      if t == [] then [] else assert t[0] in t; Sifted(t, t[0])
  }

  lemma {:induction false} SiftedPrefix(s: seq<nat>, t: seq<nat>, base: nat)
    requires base > 0 && s <= t
    ensures Sifted(s, base) <= Sifted(t, base)
  {
    if s != [] {
      SiftedPrefix(s[1..], t[1..], base);
    }
  }

  lemma {:induction false} RangePrefix(lo: nat, mid: nat, hi: nat)
    requires lo <= mid + 1 && mid <= hi
    ensures Range(lo, mid) <= Range(lo, hi)
    decreases mid + 1 - lo
  {
    if lo <= mid {
      RangePrefix(lo + 1, mid, hi);
    }
  }

  /** What has gone through a pipe so far is the beginning of its stream. */
  lemma {:induction false} LogPrefix(s: System, k: nat)
    requires Inv(s) && k < |s.stages|
    ensures s.pipes[k].log <= Stream(s.n, k)
  {
    if k == 0 {
      RangePrefix(2, s.next - 1, s.n);
    } else {
      LogPrefix(s, k - 1);
      var p, x, t := s.pipes[k - 1], s.stages[k - 1], Stream(s.n, k - 1);
      assert LinkOk(p, x, s.pipes[k]) && StageOk(p, x);
      assert p.log[..Handled(p, x)] <= t && t[0] == BaseOf(x).value;
      SiftedPrefix(p.log[..Handled(p, x)], t, t[0]);
    }
  }

  /** Streams get shorter from stage to stage. */
  lemma {:induction false} StreamLength(n: nat, k: nat)
    requires n >= 2 && (k > 0 ==> Stream(n, k - 1) != [])
    ensures |Stream(n, k)| + k <= n - 1
  {
    if k == 0 {
      RangeLength(2, n);
    } else {
      var t := Stream(n, k - 1);
      if k > 1 {
        assert Stream(n, k - 2) != [];
      }
      StreamLength(n, k - 1);
      assert t[0] in t;
      SiftedShorter(t);
    }
  }

  lemma {:induction false} RangeLength(lo: nat, hi: nat)
    ensures |Range(lo, hi)| == if lo > hi then 0 else hi + 1 - lo
    decreases hi + 1 - lo
  {
    if lo <= hi {
      RangeLength(lo + 1, hi);
    }
  }

  lemma HeadsStep(t: seq<nat>)
    requires t != [] && forall x :: x in t ==> x > 0
    ensures t[0] > 0 && Heads(t) == [t[0]] + Heads(Sifted(t, t[0]))
  {
    assert t[0] in t;
  }

  /** The k-th prime heads the k-th stream, and the stream after the last prime's is the first empty one. */
  lemma {:induction false} StreamHeads(n: nat, k: nat)
    requires forall j: nat :: j < k ==> Stream(n, j) != []
    ensures |PrimesFrom(2, n)| >= k && PrimesFrom(2, n)[k..] == Heads(Stream(n, k))
    ensures forall j: nat :: j < k ==> PrimesFrom(2, n)[j] == Stream(n, j)[0]
  {
    hide Stream, Heads, PrimesFrom;
    if k == 0 {
      SieveOfRange(n);
      StreamStart(n, 0);
    } else {
      StreamHeads(n, k - 1);
      HeadsStep(Stream(n, k - 1));
      StreamStep(n, k);
      SplitFirst(PrimesFrom(2, n), k, Stream(n, k - 1)[0], Heads(Stream(n, k)));
    }
  }

  lemma SplitFirst(s: seq<nat>, k: nat, head: nat, tail: seq<nat>)
    requires 0 < k <= |s| + 1 && s[k - 1..] == [head] + tail
    ensures k <= |s| && s[k - 1] == head && s[k..] == tail
  {
    assert s[k - 1] == s[k - 1..][0] && s[k..] == s[k - 1..][1..];
  }

  /** Does the prime of none of the first k stages divide x? */
  ghost predicate Undivided(n: nat, k: nat, x: nat) {
    forall j: nat :: j < k && Stream(n, j) != [] ==> !Divides(Stream(n, j)[0], x)
  }

  /** Stage k is given exactly the numbers up to n that none of the k primes before it divides. */
  lemma {:induction false} StreamMeans(n: nat, k: nat, x: nat)
    requires forall j: nat :: j < k ==> Stream(n, j) != []
    ensures x in Stream(n, k) <==> 2 <= x <= n && Undivided(n, k, x)
  {
    hide Stream, Undivided;
    if k == 0 {
      RangeMembers(2, n);
      StreamStart(n, x);
    } else {
      StreamMeans(n, k - 1, x);
      StreamStep(n, k);
      UndividedStep(n, k, x);
    }
  }

  lemma StreamStart(n: nat, x: nat)
    ensures Stream(n, 0) == Range(2, n) && Undivided(n, 0, x)
  {}

  lemma UndividedStep(n: nat, k: nat, x: nat)
    requires k > 0 && Stream(n, k - 1) != []
    ensures Undivided(n, k, x) <==> Undivided(n, k - 1, x) && !Divides(Stream(n, k - 1)[0], x)
  {
    hide Stream, Divides;
  }

  lemma StreamStep(n: nat, k: nat)
    requires k > 0 && Stream(n, k - 1) != []
    ensures Stream(n, k - 1)[0] > 0 && Stream(n, k) == Sifted(Stream(n, k - 1), Stream(n, k - 1)[0])
    ensures forall x: nat :: x in Stream(n, k) <==> x in Stream(n, k - 1) && !Divides(Stream(n, k - 1)[0], x)
  {
    assert Stream(n, k - 1)[0] in Stream(n, k - 1);
    hide Divides;
  }

  lemma {:induction false} NonEmptyBefore(s: System, k: nat)
    requires Inv(s) && k < |s.stages|
    ensures forall j: nat :: j < k ==> Stream(s.n, j) != []
  {
    forall j: nat | j < k ensures Stream(s.n, j) != [] {
      LogPrefix(s, j);
      assert LinkOk(s.pipes[j], s.stages[j], s.pipes[j + 1]) && StageOk(s.pipes[j], s.stages[j]);
    }
  }

  // ---------------------------------------------------------------- what every schedule prints

  /** Whatever has been printed is the beginning of the primes in order. */
  lemma OutIsPrefix(s: System)
    requires Inv(s)
    ensures s.out <= PrimesFrom(2, s.n)
  {
    var last := |s.stages| - 1;
    NonEmptyBefore(s, last);
    StreamHeads(s.n, last);
    forall k | 0 <= k < |s.out| ensures k < |PrimesFrom(2, s.n)| && s.out[k] == PrimesFrom(2, s.n)[k] {
      LogPrefix(s, k);
      assert StageOk(s.pipes[k], s.stages[k]);
      assert Stream(s.n, k) != [] && s.out[k] == Stream(s.n, k)[0];
      if k == last {
        HeadsStep(Stream(s.n, k));
        assert PrimesFrom(2, s.n)[k] == PrimesFrom(2, s.n)[k..][0];
      }
    }
  }

  ghost predicate Quiet(s: System)
    requires Shaped(s)
  {
    forall ev :: !Enabled(s, ev)
  }

  lemma {:induction false} QuietStage(s: System, k: nat)
    requires Inv(s) && Quiet(s) && k < |s.stages|
    ensures s.pipes[k].closed && s.stages[k].Ended?
  {
    assert Shaped(s);
    hide Inv, Quiet, Enabled;
    Around(s, k);
    if k == 0 {
      ParentDone(s);
    } else {
      QuietStage(s, k - 1);
    }
    if !s.stages[k].Ended? {
      var ev := Moves(s, k);
      QuietAt(s, ev);
    }
  }

  /** A stage whose input is complete has something to do until it has ended. */
  lemma Moves(s: System, k: nat) returns (ev: Event)
    requires Shaped(s) && k < |s.stages| && s.pipes[k].closed && !s.stages[k].Ended?
    requires s.stages[k].Filtering? ==> k + 1 < |s.stages|
    ensures Enabled(s, ev)
  {
    match s.stages[k]
    case First => ev := if Ready(s.pipes[k]) then ReadsFirst(k) else Stops(k);
    case Announcing(_) => ev := Prints(k);
    case Forking(_) => ev := Forks(k);
    case Filtering(_, held) => ev := if held.Some? then Writes(k) else if Ready(s.pipes[k]) then Reads(k) else Closes(k);
  }

  lemma ParentDone(s: System)
    requires Shaped(s) && Quiet(s)
    ensures s.next > s.n && s.pipes[0].closed
  {
    hide Quiet;
    QuietAt(s, ParentWrites);
    QuietAt(s, ParentCloses);
  }

  lemma QuietAt(s: System, ev: Event)
    requires Shaped(s) && Quiet(s)
    ensures !Enabled(s, ev)
  {
    hide Enabled;
  }

  lemma Around(s: System, k: nat)
    requires Inv(s) && k < |s.stages|
    ensures s.stages[k].Filtering? ==> k + 1 < |s.stages|
    ensures k > 0 ==> (s.pipes[k].closed <==> s.stages[k - 1].Ended?)
  {
    if k > 0 {
      assert LinkOk(s.pipes[k - 1], s.stages[k - 1], s.pipes[k]);
    }
    hide StageOk, LinkOk;
  }

  lemma {:induction false} QuietLog(s: System, k: nat)
    requires Inv(s) && Quiet(s) && k < |s.stages|
    ensures s.pipes[k].log == Stream(s.n, k)
  {
    if k == 0 {
      assert !Enabled(s, ParentWrites);
    } else {
      QuietLog(s, k - 1);
      QuietStage(s, k - 1);
      var p, x := s.pipes[k - 1], s.stages[k - 1];
      assert LinkOk(p, x, s.pipes[k]) && StageOk(p, x);
      assert p.log[..Handled(p, x)] == p.log;
    }
  }

  /** When nothing can happen any more, exactly the primes have been printed, in order, by one stage each, and
      there is one more stage, which found nothing to read; all have ended. */
  lemma QuietPrinted(s: System)
    requires Inv(s) && Quiet(s)
    ensures s.out == PrimesFrom(2, s.n) && |s.stages| == |s.out| + 1
    ensures forall k :: 0 <= k < |s.stages| ==> s.stages[k].Ended?
  {
    var last := |s.stages| - 1;
    forall k | 0 <= k < |s.stages| ensures s.stages[k].Ended? {
      QuietStage(s, k);
    }
    assert StageOk(s.pipes[last], s.stages[last]);
    QuietLog(s, last);
    NonEmptyBefore(s, last);
    StreamHeads(s.n, last);
    OutIsPrefix(s);
  }

  // ---------------------------------------------------------------- every schedule ends

  function Phase(x: Stage): nat {
    match x
    case First => 0
    case Announcing(_) => 1
    case Forking(_) => 2
    case Filtering(_, _) => 3
    case Ended(_) => 4
  }

  function Score(p: Pipe, x: Stage): nat { p.read + |p.log| + Phase(x) }

  function Total(pipes: seq<Pipe>, stages: seq<Stage>): nat
    requires |pipes| == |stages|
  {
    if pipes == [] then 0 else Score(pipes[0], stages[0]) + Total(pipes[1..], stages[1..])
  }

  /** How far a run has come. */
  function Progress(s: System): nat
    requires Shaped(s)
  {
    s.next + (if s.pipes[0].closed then 1 else 0) + Total(s.pipes, s.stages)
  }

  lemma {:induction false} TotalUpdate(pipes: seq<Pipe>, stages: seq<Stage>, k: nat, p: Pipe, x: Stage)
    requires |pipes| == |stages| && k < |pipes|
    ensures Total(pipes[k := p], stages[k := x]) == Total(pipes, stages) - Score(pipes[k], stages[k]) + Score(p, x)
  {
    if k > 0 {
      TotalUpdate(pipes[1..], stages[1..], k - 1, p, x);
      assert pipes[k := p][1..] == pipes[1..][k - 1 := p] && stages[k := x][1..] == stages[1..][k - 1 := x];
    } else {
      assert pipes[k := p][1..] == pipes[1..] && stages[k := x][1..] == stages[1..];
    }
  }

  lemma {:induction false} TotalAppend(pipes: seq<Pipe>, stages: seq<Stage>, p: Pipe, x: Stage)
    requires |pipes| == |stages|
    ensures Total(pipes + [p], stages + [x]) == Total(pipes, stages) + Score(p, x)
  {
    if pipes == [] {
      assert pipes + [p] == [p] && stages + [x] == [x];
    } else {
      TotalAppend(pipes[1..], stages[1..], p, x);
      assert (pipes + [p])[1..] == pipes[1..] + [p] && (stages + [x])[1..] == stages[1..] + [x];
    }
  }

  lemma {:induction false} TotalBound(pipes: seq<Pipe>, stages: seq<Stage>, bound: nat)
    requires |pipes| == |stages| && forall k :: 0 <= k < |pipes| ==> Score(pipes[k], stages[k]) <= bound
    ensures Total(pipes, stages) <= |pipes| * bound
  {
    if pipes != [] {
      TotalBound(pipes[1..], stages[1..], bound);
      assert |pipes| * bound == bound + (|pipes| - 1) * bound;
    }
  }

  lemma OneProgresses(s: System, s': System, k: nat, p: Pipe, x: Stage)
    requires Shaped(s) && k < |s.pipes| && s'.pipes == s.pipes[k := p] && s'.stages == s.stages[k := x]
    requires s'.next >= s.next && (s.pipes[0].closed ==> s'.pipes[0].closed) && Score(p, x) >= Score(s.pipes[k], s.stages[k])
    requires Score(p, x) > Score(s.pipes[k], s.stages[k]) || (s'.pipes[0].closed && !s.pipes[0].closed)
    ensures Shaped(s') && Progress(s') > Progress(s)
  {
    TotalUpdate(s.pipes, s.stages, k, p, x);
  }

  /** A stage and its output pipe. */
  lemma TwoProgress(s: System, s': System, k: nat, x: Stage, q: Pipe)
    requires Shaped(s) && k + 1 < |s.pipes| && s'.pipes == s.pipes[k + 1 := q] && s'.stages == s.stages[k := x]
    requires s'.next == s.next && Phase(x) >= Phase(s.stages[k]) && q.read == s.pipes[k + 1].read && |q.log| >= |s.pipes[k + 1].log|
    requires Phase(x) > Phase(s.stages[k]) || |q.log| > |s.pipes[k + 1].log|
    ensures Shaped(s') && Progress(s') > Progress(s)
  {
    TotalUpdate(s.pipes, s.stages, k, s.pipes[k], x);
    assert s.pipes[k := s.pipes[k]] == s.pipes;
    TotalUpdate(s.pipes, s'.stages, k + 1, q, s'.stages[k + 1]);
    assert s'.stages[k + 1 := s'.stages[k + 1]] == s'.stages;
    hide Total;
  }

  lemma ForkProgresses(s: System, k: nat)
    requires Shaped(s) && Enabled(s, Forks(k))
    ensures Shaped(Step(s, Forks(k))) && Progress(Step(s, Forks(k))) > Progress(s)
  {
    var x := Filtering(s.stages[k].base, None);
    TotalUpdate(s.pipes, s.stages, k, s.pipes[k], x);
    assert s.pipes[k := s.pipes[k]] == s.pipes;
    TotalAppend(s.pipes, s.stages[k := x], Pipe([], 0, false), First);
    hide Total;
  }

  lemma StepProgresses(s: System, ev: Event)
    requires Shaped(s) && Enabled(s, ev)
    ensures Shaped(Step(s, ev)) && Progress(Step(s, ev)) > Progress(s)
  {
    hide Progress, Divides;
    var s' := Step(s, ev);
    match ev
    case ParentWrites => OneProgresses(s, s', 0, s'.pipes[0], s.stages[0]);
    case ParentCloses => OneProgresses(s, s', 0, s'.pipes[0], s.stages[0]);
    case Forks(k) => ForkProgresses(s, k);
    case Writes(k) => TwoProgress(s, s', k, s'.stages[k], s'.pipes[k + 1]);
    case Closes(k) => TwoProgress(s, s', k, s'.stages[k], s'.pipes[k + 1]);
    case _ => OneProgresses(s, s', ev.k, s'.pipes[ev.k], s'.stages[ev.k]);
  }

  lemma ProgressBound(s: System)
    requires Inv(s)
    ensures Progress(s) <= s.n + 2 + s.n * (2 * s.n + 2)
  {
    var last := |s.stages| - 1;
    NonEmptyBefore(s, last);
    StreamLength(s.n, last);
    forall k: nat | k < |s.stages| ensures Score(s.pipes[k], s.stages[k]) <= 2 * s.n + 2 {
      ScoreBound(s, k);
    }
    TotalBound(s.pipes, s.stages, 2 * s.n + 2);
    MulLe(|s.pipes|, s.n, 2 * s.n + 2);
    hide StageOk, LinkOk, Stream, Total, Score;
  }

  lemma MulLe(a: nat, b: nat, c: nat)
    requires a <= b
    ensures a * c <= b * c
  {}

  lemma ScoreBound(s: System, k: nat)
    requires Inv(s) && k < |s.stages| && forall j: nat :: j < |s.stages| - 1 ==> Stream(s.n, j) != []
    ensures Score(s.pipes[k], s.stages[k]) <= 2 * s.n + 2
  {
    LogPrefix(s, k);
    StreamLength(s.n, k);
    assert StageOk(s.pipes[k], s.stages[k]);
    hide LinkOk, Stream;
  }

  // ---------------------------------------------------------------- whole runs

  ghost predicate Run(states: seq<System>, events: seq<Event>) {
    && |states| == |events| + 1
    && forall i :: 0 <= i < |events| ==>
         Shaped(states[i]) && Enabled(states[i], events[i]) && states[i + 1] == Step(states[i], events[i])
  }

  lemma {:induction false} RunKeeps(states: seq<System>, events: seq<Event>, n: nat, i: nat)
    requires n >= 2 && Run(states, events) && states[0] == Initial(n) && i < |states|
    ensures Inv(states[i]) && states[i].n == n && Shaped(states[i]) && Progress(states[i]) >= i
  {
    hide Inv, Progress, Step;
    if i == 0 {
      InitialInv(n);
    } else {
      RunKeeps(states, events, n, i - 1);
      StepKeeps(states[i - 1], events[i - 1]);
      StepProgresses(states[i - 1], events[i - 1]);
      SameN(states[i - 1], events[i - 1]);
    }
  }

  lemma SameN(s: System, ev: Event)
    requires Shaped(s) && Enabled(s, ev)
    ensures Step(s, ev).n == s.n
  {}

  /** For every n >= 2 and every order in which the processes run: at any time the output is a beginning of the
      primes up to n in increasing order; no run takes more than a quadratic number of steps; and a run that
      cannot go on has printed all of them, with one stage for each and one more that is empty. */
  lemma EverySchedule(states: seq<System>, events: seq<Event>, n: nat)
    requires n >= 2 && Run(states, events) && states[0] == Initial(n)
    ensures var s := states[|events|];
            && s.out <= PrimesFrom(2, n)
            && |events| <= n + 2 + n * (2 * n + 2)
            && Shaped(s)
            && (Quiet(s) ==> s.out == PrimesFrom(2, n) && |s.stages| == |s.out| + 1
                             && forall k :: 0 <= k < |s.stages| ==> s.stages[k].Ended?)
  {
    var s := states[|events|];
    RunKeeps(states, events, n, |events|);
    OutIsPrefix(s);
    ProgressBound(s);
    if Quiet(s) {
      QuietPrinted(s);
    }
  }
}
