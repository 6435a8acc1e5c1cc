/** Translation caches and the page tables they were filled from (tlb_invalidate and its callers in kern/pmap.c,
    the lcr3 calls of kern/env.c and kern/sched.c). */
module Tlbs {
  import opened Options
  import opened Mmu

  /** A processor: the directory in cr3, that of curenv, and the cached translations by virtual page. */
  datatype Cpu = Cpu(cr3: nat, cur: Option<nat>, tlb: map<nat, Entry>)

  /** The mappings of each directory by virtual page; `kern` is kern_pgdir. */
  datatype System = System(kern: nat, tables: map<nat, map<nat, Entry>>, cpus: seq<Cpu>)

  datatype Event =
    | Fill(c: nat, q: nat)                          // the processor walks the tables for virtual page q
    | Remove(c: nat, d: nat, q: nat)                // page_remove
    | Insert(c: nat, d: nat, q: nat, x: Entry)      // page_insert
    | Run(c: nat, d: nat)                           // env_run
    | Halt(c: nat)                                  // sched_halt
    | LeaveSpace(c: nat)                            // env_free of the current environment, at its start
    | Exit(c: nat)                                  // curenv = NULL after that
    | NewSpace(c: nat, d: nat)                      // env_setup_vm
    | DropSpace(c: nat, d: nat)                     // env_free, at its end

  predicate Has(s: System, d: nat, q: nat) { d in s.tables && q in s.tables[d] }

  predicate Enabled(s: System, ev: Event) {
    && ev.c < |s.cpus| && s.kern in s.tables
    && match ev
       case Fill(c, q) => Has(s, s.cpus[c].cr3, q)
       case Remove(_, d, _) => d in s.tables && d != s.kern
       case Insert(_, d, _, _) => d in s.tables && d != s.kern
       case Run(_, d) => d in s.tables
       case LeaveSpace(c) => s.cpus[c].cur.Some?
       case Exit(c) => s.cpus[c].cr3 == s.kern
       case NewSpace(_, d) => d !in s.tables
       case DropSpace(_, d) => d != s.kern && forall x :: x in s.cpus ==> x.cr3 != d
       case Halt(_) => true
  }

  /** tlb_invalidate: invlpg if there is no curenv or the edited directory is its. */
  function Invalidated(x: Cpu, d: nat, q: nat): Cpu {
    if x.cur == None || x.cur == Some(d) then x.(tlb := x.tlb - {q}) else x
  }

  function With(m: map<nat, Entry>, q: nat, e: Entry): map<nat, Entry> { m[q := e] }

  function Step(s: System, ev: Event): System
    requires Enabled(s, ev)
  {
    var x := s.cpus[ev.c];
    match ev
    case Fill(c, q) => s.(cpus := s.cpus[c := x.(tlb := With(x.tlb, q, s.tables[x.cr3][q]))])
    case Remove(c, d, q) =>
      if q !in s.tables[d] then s
      else s.(tables := s.tables[d := s.tables[d] - {q}], cpus := s.cpus[c := Invalidated(x, d, q)])
    case Insert(c, d, q, e) =>
      s.(tables := s.tables[d := With(s.tables[d], q, e)],
         cpus := if q in s.tables[d] then s.cpus[c := Invalidated(x, d, q)] else s.cpus)
    case Run(c, d) => s.(cpus := s.cpus[c := Cpu(d, Some(d), map[])])
    case Halt(c) => s.(cpus := s.cpus[c := Cpu(s.kern, None, map[])])
    case LeaveSpace(c) => s.(cpus := s.cpus[c := x.(cr3 := s.kern, tlb := map[])])
    case Exit(c) => s.(cpus := s.cpus[c := x.(cur := None)])
    case NewSpace(_, d) => s.(tables := s.tables[d := map[]])
    case DropSpace(_, d) => s.(tables := s.tables - {d})
  }

  /** Every cached translation is that of the directory in cr3, and cr3 is kern_pgdir or curenv's directory. */
  ghost predicate Agrees(s: System, x: Cpu) {
    && (x.cr3 == s.kern || x.cur == Some(x.cr3))
    && forall q :: q in x.tlb ==> Has(s, x.cr3, q) && x.tlb[q] == s.tables[x.cr3][q]
  }

  /** The processor that acts always agrees afterwards, whichever directory it edits. */
  lemma ActorAgrees(s: System, ev: Event)
    requires Enabled(s, ev) && Agrees(s, s.cpus[ev.c])
    ensures Agrees(Step(s, ev), Step(s, ev).cpus[ev.c])
  {}

  /** Does this step change what directory d says of virtual page q, if it said anything? */
  predicate Edits(s: System, ev: Event, d: nat, q: nat)
    requires Enabled(s, ev)
  {
    Has(s, d, q) && !(Has(Step(s, ev), d, q) && Step(s, ev).tables[d][q] == s.tables[d][q])
  }

  /** Another processor still agrees exactly when the step has not changed a translation it has cached:
      nothing invalidates the caches of other processors. */
  lemma BystanderAgreesIff(s: System, ev: Event, c: nat)
    requires Enabled(s, ev) && c < |s.cpus| && c != ev.c && Agrees(s, s.cpus[c])
    ensures Agrees(Step(s, ev), Step(s, ev).cpus[c]) <==> forall q :: q in s.cpus[c].tlb ==> !Edits(s, ev, s.cpus[c].cr3, q)
  {
    var x := s.cpus[c];
    assert Step(s, ev).cpus[c] == x;
  }

  ghost predicate RunOf(states: seq<System>, events: seq<Event>) {
    && |states| == |events| + 1
    && forall k :: 0 <= k < |events| ==>
         Enabled(states[k], events[k]) && states[k + 1] == Step(states[k], events[k])
  }

  /** On one processor the cache agrees with the page tables at every moment of every run, in the kernel too. */
  lemma {:induction false} OneProcessorAgrees(states: seq<System>, events: seq<Event>, k: nat)
    requires RunOf(states, events) && k < |states| && |states[0].cpus| == 1 && Agrees(states[0], states[0].cpus[0])
    ensures |states[k].cpus| == 1 && Agrees(states[k], states[k].cpus[0])
  {
    if k > 0 {
      OneProcessorAgrees(states, events, k - 1);
      ActorAgrees(states[k - 1], events[k - 1]);
      hide Agrees;
    }
  }

  /** On any number of processors a cache agrees from env_run until another processor edits a cached translation
      of the directory it runs on. */
  lemma {:induction false} AgreesUntilEdited(states: seq<System>, events: seq<Event>, c: nat, k: nat)
    requires RunOf(states, events) && k < |states| && c < |states[0].cpus| && Agrees(states[0], states[0].cpus[c])
    requires forall i :: 0 <= i < k ==>
               c < |states[i].cpus| && (events[i].c == c ||
                 forall q :: q in states[i].cpus[c].tlb ==> !Edits(states[i], events[i], states[i].cpus[c].cr3, q))
    ensures c < |states[k].cpus| && Agrees(states[k], states[k].cpus[c])
  {
    if k > 0 {
      AgreesUntilEdited(states, events, c, k - 1);
      hide Agrees;
      if events[k - 1].c == c {
        ActorAgrees(states[k - 1], events[k - 1]);
      } else {
        BystanderAgreesIff(states[k - 1], events[k - 1], c);
      }
    }
  }
}
