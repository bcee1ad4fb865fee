/** Which pages tasks share: over every run of task creations exactly those that their creators
    listed for both of them. */
module Sharing {
  import opened Words
  import opened Options
  import opened PageRuns
  import opened PageTables
  import opened AddressSpaces
  import opened Paging

  // ----- two tasks with one page -----

  lemma RunCons(w: World, op: Op, rest: seq<Op>)
    requires Inv(w) && Enabled(w, op) && Step(w, op).Some?
    ensures Inv(Step(w, op).value) && Run(w, [op] + rest) == Run(Step(w, op).value, rest)
  {
    StepKeepsInv(w, op);
    assert ([op] + rest)[1..] == rest;
  }

  lemma CloneWorks(w: World, p: Page)
    requires Inv(w) && KernelFree(w.used) > 0 && p.Ok() && TakenUserFrame(w.used, p.Number())
    ensures var w1 := CloneStep(w);
            && Inv(w1) && KernelFree(w1.used) == KernelFree(w.used) - 1 && TakenUserFrame(w1.used, p.Number())
            && |w1.spaces| == |w.spaces| + 1 && w1.spaces[..|w.spaces|] == w.spaces
  {
    KernelPageSupply(w.used);
    CloneKeepsInv(w);
    hide Answer, KernelFree, Inv;
  }

  ghost predicate MarkDone(w: World, r: Option<World>, t: nat, p: Page)
    requires t < |w.spaces|
  {
    && r.Some? && Inv(r.value) && KernelFree(r.value.used) >= KernelFree(w.used) - 1
    && TakenUserFrame(r.value.used, p.Number())
    && r.value.spaces == w.spaces[t := Space(w.spaces[t].pd, w.spaces[t].pages + {p})]
  }

  lemma MarkWorks(w: World, t: nat, p: Page)
    requires Inv(w) && Enabled(w, MarkPage(t, p)) && KernelFree(w.used) > 0
    ensures MarkDone(w, MarkStep(w, t, p), t, p)
  {
    hide MarkStep, Inv, Answer, KernelFree;
    KernelPageSupply(w.used);
    MarkGives(w, t, p);
    MarkKeepsInv(w, t, p);
  }

  /** `run_exec` passes the same code page to every task it starts.  Two such tasks share the page:
      what one of them stores there, the other one reads. */
  lemma OnePageTwice(w: World, p: Page, j: nat, e: Word)
    requires Inv(w) && w.spaces == [] && KernelFree(w.used) >= 4
    requires p.Ok() && TakenUserFrame(w.used, p.Number()) && j < ENTRIES
    ensures var r := Run(w, [Clone, Clone, MarkPage(0, p), MarkPage(1, p)]);
            r.Some? && BothSee(r.value, p, j, e)
  {
    hide Inv, KernelFree, MarkStep, CloneStep, Run, Walk, Step;
    var w2 := TwoClones(w, p, [MarkPage(0, p), MarkPage(1, p)]);
    assert [Clone, Clone] + [MarkPage(0, p), MarkPage(1, p)] == [Clone, Clone, MarkPage(0, p), MarkPage(1, p)];
    var w4 := TwoMarks(w2, p);
    StoreShows(w4, p, j, e);
  }

  /** Two tasks hold page p, and a store of the first one is there for the second one to read. */
  ghost predicate BothSee(w: World, p: Page, j: nat, e: Word)
    requires Inv(w) && p.Ok() && j < ENTRIES
  {
    && |w.spaces| == 2 && p in w.spaces[0].pages && p in w.spaces[1].pages
    && var s := Step(w, UserStore(0, p, j, e));
       && s.Some? && p.Number() < |s.value.m| && s.value.m[p.Number()][j] == e
       && Walk(s.value.m, w.spaces[1].pd, p) == Some(Mapping(p.Number(), true, true))
  }

  lemma TwoClones(w: World, p: Page, rest: seq<Op>) returns (w2: World)
    requires Inv(w) && w.spaces == [] && KernelFree(w.used) >= 4 && p.Ok() && TakenUserFrame(w.used, p.Number())
    ensures Inv(w2) && |w2.spaces| == 2 && KernelFree(w2.used) >= 2 && TakenUserFrame(w2.used, p.Number())
    ensures Run(w, [Clone, Clone] + rest) == Run(w2, rest)
  {
    hide Inv, KernelFree, CloneStep, Run;
    var w1 := CloneStep(w);
    CloneWorks(w, p);
    w2 := CloneStep(w1);
    CloneWorks(w1, p);
    RunCons(w1, Clone, rest);
    RunCons(w, Clone, [Clone] + rest);
    assert [Clone] + ([Clone] + rest) == [Clone, Clone] + rest;
  }

  lemma TwoMarks(w: World, p: Page) returns (w2: World)
    requires Inv(w) && |w.spaces| == 2 && KernelFree(w.used) >= 2 && p.Ok() && TakenUserFrame(w.used, p.Number())
    ensures Run(w, [MarkPage(0, p), MarkPage(1, p)]) == Some(w2)
    ensures Inv(w2) && |w2.spaces| == 2 && p in w2.spaces[0].pages && p in w2.spaces[1].pages
  {
    hide Inv, KernelFree, MarkStep, Run;
    MarkWorks(w, 0, p);
    var w1 := MarkStep(w, 0, p).value;
    MarkWorks(w1, 1, p);
    w2 := MarkStep(w1, 1, p).value;
    RunNothing(w2);
    RunCons(w1, MarkPage(1, p), []);
    RunCons(w, MarkPage(0, p), [MarkPage(1, p)]);
    assert [MarkPage(0, p)] + [MarkPage(1, p)] == [MarkPage(0, p), MarkPage(1, p)];
    assert [MarkPage(1, p)] + [] == [MarkPage(1, p)];
  }

  lemma RunNothing(w: World)
    requires Inv(w)
    ensures Run(w, []) == Some(w)
  {
  }

  lemma StoreShows(w: World, p: Page, j: nat, e: Word)
    requires Inv(w) && |w.spaces| == 2 && p in w.spaces[0].pages && p in w.spaces[1].pages && p.Ok() && j < ENTRIES
    ensures BothSee(w, p, j, e)
  {
    Isolation(w, 0, p);
    PageInRegion(w, 0, p);
    assert p.Number() < |w.m| by { assert TaskOk(w, 0); }
    StepKeepsInv(w, UserStore(0, p, j, e));
    hide Inv;
    Isolation(Step(w, UserStore(0, p, j, e)).value, 1, p);
  }

  // ----- creations and what they list -----

  function PageOf(frame: nat): (p: Page)
    ensures p.Number() == frame && (frame < ENTRIES * ENTRIES ==> p.Ok())
  {
    Page(frame / ENTRIES, frame % ENTRIES)
  }

  /** The user pages that have been granted between two states of the bitmap. */
  ghost function Granted(used: seq<bool>, used': seq<bool>): set<Page> {
    set f | USER_FRAME <= f < FIRST_FRAME + |used'| && |used| == |used'| && !used[f - FIRST_FRAME] && used'[f - FIRST_FRAME] :: PageOf(f)
  }

  lemma GrantedPage(used: seq<bool>, used': seq<bool>, p: Page)
    requires |used| == |used'| && p in Granted(used, used')
    ensures TakenUserFrame(used', p.Number()) && !TakenUserFrame(used, p.Number())
  {
  }

  /** The machine's address spaces; `pool` are the user pages that programs registered for any
      number of tasks own; listed[t] are the pages of the pool that task t's creator listed. */
  datatype System = System(w: World, pool: set<Page>, listed: seq<set<Page>>)

  datatype Event =
    // kmain allocates pages for a program and registers it
    | Register(q: Request)
    // task_create_user_with_pages: `before` are the allocations of its caller for this task alone
    // (the image and the stack of `elf_load` and `elf_setup_user_stack`), `after` its own stack page
    | Create(before: seq<Request>, after: seq<Request>, marks: seq<Page>)
    // everything else: allocations, kernel stores, user stores
    | Other(op: Op)

  lemma {:induction false} AllGrow(used: seq<bool>, qs: seq<Request>)
    ensures KeepsUsed(used, AfterAll(used, qs))
    decreases |qs|
  {
    if qs != [] {
      TakeGrows(used, qs[0]);
      AllGrow(After(used, qs[0]), qs[1..]);
    }
  }

  /** w after some allocations */
  ghost function Taken(w: World, qs: seq<Request>): World {
    w.(used := AfterAll(w.used, qs))
  }

  lemma TakenOk(w: World, qs: seq<Request>)
    requires Inv(w)
    ensures Inv(Taken(w, qs)) && KeepsUsed(w.used, Taken(w, qs).used)
  {
    AllGrow(w.used, qs);
    OutsideTables(w, w.m, AfterAll(w.used, qs));
  }

  /** The state in which the marking loop of a creation starts; None if there is no frame for the
      directory. */
  ghost function Prepared(w: World, before: seq<Request>, after: seq<Request>): Option<World>
    requires Inv(w)
  {
    TakenOk(w, before + [KernelRun(2)]);
    var w1 := Taken(w, before + [KernelRun(2)]);
    if FreshFrame(w1.used) == -1 then None else Some(Taken(CloneStep(w1), after))
  }

  lemma PreparedOk(w: World, before: seq<Request>, after: seq<Request>)
    requires Inv(w) && Prepared(w, before, after).Some?
    ensures var w3 := Prepared(w, before, after).value;
            && Inv(w3) && KeepsUsed(w.used, w3.used)
            && |w3.spaces| == |w.spaces| + 1 && w3.spaces[..|w.spaces|] == w.spaces && w3.spaces[|w.spaces|].pages == {}
  {
    hide Inv;
    TakenOk(w, before + [KernelRun(2)]);
    var w1 := Taken(w, before + [KernelRun(2)]);
    CloneKeepsInv(w1);
    TakeGrows(w1.used, KernelPage);
    TakenOk(CloneStep(w1), after);
  }

  function Elements(marks: seq<Page>): set<Page> {
    set p | p in marks
  }

  ghost predicate Markable(w: World, t: nat, marks: seq<Page>) {
    t < |w.spaces| && forall p | p in marks :: p.Ok() && TakenUserFrame(w.used, p.Number())
  }

  ghost predicate Added(w: World, w': World, t: nat, pages: set<Page>)
    requires t < |w.spaces|
  {
    && Inv(w') && KeepsUsed(w.used, w'.used)
    && w'.spaces == w.spaces[t := Space(w.spaces[t].pd, w.spaces[t].pages + pages)]
  }

  lemma MarkOne(w: World, t: nat, marks: seq<Page>)
    requires Inv(w) && Markable(w, t, marks) && marks != [] && MarkStep(w, t, marks[0]).Some?
    ensures Added(w, MarkStep(w, t, marks[0]).value, t, {marks[0]})
    ensures Markable(MarkStep(w, t, marks[0]).value, t, marks[1..])
  {
    hide Inv, MarkStep;
    MarkGives(w, t, marks[0]);
    TakeGrows(w.used, KernelPage);
    MarkKeepsInv(w, t, marks[0]);
  }

  /** The marking loop; None if it faults. */
  ghost function MarkPages(w: World, t: nat, marks: seq<Page>): Option<World>
    requires Inv(w) && Markable(w, t, marks)
    decreases |marks|
  {
    hide Inv, MarkStep;
    if marks == [] then Some(w)
    else if MarkStep(w, t, marks[0]).None? then None
    else
      MarkOne(w, t, marks);
      MarkPages(MarkStep(w, t, marks[0]).value, t, marks[1..])
  }

  lemma {:induction false} MarkPagesOk(w: World, t: nat, marks: seq<Page>)
    requires Inv(w) && Markable(w, t, marks) && MarkPages(w, t, marks).Some?
    ensures Added(w, MarkPages(w, t, marks).value, t, Elements(marks))
    decreases |marks|
  {
    hide Inv, MarkStep;
    if marks != [] {
      MarkOne(w, t, marks);
      MarkPagesOk(MarkStep(w, t, marks[0]).value, t, marks[1..]);
      assert Elements(marks) == {marks[0]} + Elements(marks[1..]);
      assert w.spaces[t].pages + Elements(marks) == w.spaces[t].pages + {marks[0]} + Elements(marks[1..]);
    } else {
      assert w.spaces[t].pages + Elements(marks) == w.spaces[t].pages;
      assert w.spaces[t := w.spaces[t]] == w.spaces;
    }
  }

  // ----- every run -----

  /** The pages of task t that its creator did not list from the pool. */
  ghost function Own(s: System, t: nat): set<Page>
    requires t < |s.w.spaces| && t < |s.listed|
  {
    s.w.spaces[t].pages - s.listed[t]
  }

  ghost predicate SystemOk(s: System) {
    && Inv(s.w) && |s.listed| == |s.w.spaces|
    && (forall p | p in s.pool :: TakenUserFrame(s.w.used, p.Number()))
    && (forall t | 0 <= t < |s.listed| :: s.listed[t] <= s.w.spaces[t].pages && s.listed[t] <= s.pool && Own(s, t) !! s.pool)
    && (forall t, u | 0 <= t < |s.listed| && 0 <= u < |s.listed| && t != u :: Own(s, t) !! s.w.spaces[u].pages)
  }

  /** One event.  A creation lists pages of the pool and pages granted for it alone. */
  ghost predicate Next(s: System, e: Event, s': System)
    requires SystemOk(s)
  {
    match e
    case Register(q) =>
      s' == s.(w := Taken(s.w, [q]), pool := s.pool + Granted(s.w.used, AfterAll(s.w.used, [q])))
    case Create(before, after, marks) =>
      var w3 := Prepared(s.w, before, after);
      && w3.Some?
      && (PreparedOk(s.w, before, after);
          var t := |s.w.spaces|;
          && Markable(w3.value, t, marks)
          && (forall p | p in marks :: p in s.pool || p in Granted(s.w.used, w3.value.used))
          && var w4 := MarkPages(w3.value, t, marks);
             w4.Some? && s' == System(w4.value, s.pool, s.listed + [Elements(marks) * s.pool]))
    case Other(op) =>
      !op.Clone? && !op.MarkPage? && Enabled(s.w, op) && Step(s.w, op).Some? && s' == s.(w := Step(s.w, op).value)
  }

  lemma RegisterOk(s: System, q: Request, s': System)
    requires SystemOk(s) && Next(s, Register(q), s')
    ensures SystemOk(s')
  {
    hide Inv;
    TakenOk(s.w, [q]);
    forall p | p in Granted(s.w.used, s'.w.used) ensures TakenUserFrame(s'.w.used, p.Number()) && !TakenUserFrame(s.w.used, p.Number()) {
      GrantedPage(s.w.used, s'.w.used, p);
    }
    forall t | 0 <= t < |s.listed| ensures Own(s', t) !! s'.pool {
      forall p | p in Own(s, t) ensures p !in s'.pool { PageIsUsed(s.w, t, p); }
    }
  }

  lemma PageIsUsed(w: World, t: nat, p: Page)
    requires Inv(w) && t < |w.spaces| && p in w.spaces[t].pages
    ensures TakenUserFrame(w.used, p.Number())
  {
    assert TaskOk(w, t);
  }

  lemma CreateOk(s: System, before: seq<Request>, after: seq<Request>, marks: seq<Page>, s': System)
    requires SystemOk(s) && Next(s, Create(before, after, marks), s')
    ensures SystemOk(s')
  {
    hide Inv, Prepared;
    PreparedOk(s.w, before, after);
    var w3 := Prepared(s.w, before, after).value;
    var n := |s.w.spaces|;
    MarkPagesOk(w3, n, marks);
    assert s'.w.spaces[n].pages == Elements(marks);
    assert forall t | 0 <= t < n :: s'.w.spaces[t] == s.w.spaces[t] && s'.listed[t] == s.listed[t];
    forall p | p in Own(s', n) ensures !TakenUserFrame(s.w.used, p.Number()) && p !in s.pool {
      GrantedPage(s.w.used, w3.used, p);
    }
    forall t | 0 <= t < n ensures Own(s', n) !! s'.w.spaces[t].pages && Own(s', t) !! s'.w.spaces[n].pages {
      forall p | p in s.w.spaces[t].pages ensures p !in Own(s', n) && (p in Own(s, t) ==> p !in Elements(marks)) {
        PageIsUsed(s.w, t, p);
        if p in Elements(marks) && p !in s.pool { GrantedPage(s.w.used, w3.used, p); }
      }
    }
  }

  lemma OtherOk(s: System, op: Op, s': System)
    requires SystemOk(s) && Next(s, Other(op), s')
    ensures SystemOk(s')
  {
    hide Inv, Step, Enabled;
    OtherKeeps(s.w, op);
  }

  lemma OtherKeeps(w: World, op: Op)
    requires Inv(w) && Enabled(w, op) && Step(w, op).Some? && !op.Clone? && !op.MarkPage?
    ensures var w' := Step(w, op).value; Inv(w') && w'.spaces == w.spaces && KeepsUsed(w.used, w'.used)
  {
    StepKeepsInv(w, op);
    TakeGrows(w.used, if op.Take? then op.q else KernelPage);
    hide Inv;
  }

  lemma NextOk(s: System, e: Event, s': System)
    requires SystemOk(s) && Next(s, e, s')
    ensures SystemOk(s')
  {
    hide SystemOk, Next;
    match e
    case Register(q) => RegisterOk(s, q, s');
    case Create(before, after, marks) => CreateOk(s, before, after, marks, s');
    case Other(op) => OtherOk(s, op, s');
  }

  /** The events lead from s to s', one after the other. */
  ghost predicate Reaches(s: System, es: seq<Event>, s': System)
    requires SystemOk(s)
    decreases |es|
  {
    if es == [] then s' == s
    else exists s1 {:trigger Next(s, es[0], s1)} :: Next(s, es[0], s1) && (NextOk(s, es[0], s1); Reaches(s1, es[1..], s'))
  }

  /** From here every run starts. */
  lemma NobodyYet(w: World)
    requires Inv(w) && w.spaces == []
    ensures SystemOk(System(w, {}, []))
  {
    hide Inv;
  }

  /** Over every run of registrations, creations, allocations and stores, two tasks share exactly the
      registered pages that were listed for both.  A page granted for one creation, such as its stack
      or the pages of its image, is never in another task's address space. */
  lemma {:induction false} SharedExactlyAsListed(s: System, es: seq<Event>, s': System, t: nat, u: nat)
    requires SystemOk(s) && Reaches(s, es, s')
    requires t < |s'.w.spaces| && u < |s'.w.spaces| && t != u
    ensures SystemOk(s')
    ensures s'.w.spaces[t].pages * s'.w.spaces[u].pages == s'.listed[t] * s'.listed[u]
    ensures Own(s', t) !! s'.w.spaces[u].pages
    decreases |es|
  {
    if es == [] {
      Intersection(s, t, u);
    } else {
      hide Next, Inv, SystemOk;
      var s1 :| Next(s, es[0], s1) && (NextOk(s, es[0], s1); Reaches(s1, es[1..], s'));
      NextOk(s, es[0], s1);
      SharedExactlyAsListed(s1, es[1..], s', t, u);
    }
  }

  lemma Intersection(s: System, t: nat, u: nat)
    requires SystemOk(s) && t < |s.w.spaces| && u < |s.w.spaces| && t != u
    ensures |s.listed| == |s.w.spaces| && s.w.spaces[t].pages * s.w.spaces[u].pages == s.listed[t] * s.listed[u]
    ensures Own(s, t) !! s.w.spaces[u].pages
  {
    hide Inv;
  }
}
