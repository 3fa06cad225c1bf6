/**
 Competing processes that take DDS domains. Every bind, every close and every decision of a process
 is a step of its own, in any interleaving, and a process may be killed at any point. The kernel's
 table of bound lock ports is a state of its own: a bind enters a port, and only a close, a kill or
 the end of a foreign socket removes one.
 */
module DomainProcesses {
  import opened Basics
  import opened DomainLocks
  import BandText

  /** What a process asks for. */
  datatype Request = Request(count: nat, band: seq<int>)

  predicate Askable(r: Request) {
    r.count >= 1 && r.band != [] && Distinct(r.band)
  }

  /** Where a process is; `held` is its own list of the locks it has to give back. */
  datatype Proc =
    | Idle
    | Trying(cursor: nat, tries: nat, held: seq<int>)
    | Releasing(held: seq<int>, finished: bool)
    | Sleeping
    | Running(held: seq<int>)
    | Failed
    | Done
    | Killed

  datatype Move = Begin(start: nat) | Bind | Settle | GiveUp | Close | EndRelease | Timeout | Stop | Kill

  /** Whose socket a lock port is bound to. */
  datatype Owner = Process(p: nat) | Foreign

  /** `ports` is the kernel's table, by domain. */
  datatype System = System(procs: map<nat, Proc>, ports: map<int, Owner>)

  datatype Step = Own(p: nat, move: Move) | ForeignBind(domain: int) | ForeignClose(domain: int)

  // ---------------------------------------------------------------- steps

  /** The locks a process knows it has, in the order it took them. */
  function HeldBy(proc: Proc): seq<int> {
    match proc
    case Trying(_, _, held) => held
    case Releasing(held, _) => held
    case Running(held) => held
    case _ => []
  }

  /** A move of a process while `bound` ports are bound; a move not possible there changes nothing. */
  function Moved(r: Request, bound: set<int>, proc: Proc, move: Move): Proc {
    match move
    case Begin(start) =>
      if (proc.Idle? || proc.Sleeping?) && r.band != [] then Trying(start % |r.band|, 0, []) else proc
    case Bind =>
      if CanBind(r, proc) then
        var d, next := r.band[proc.cursor], NextIndex(proc.cursor, |r.band|);
        if d in bound then Trying(next, proc.tries + 1, proc.held) else Trying(next, 0, proc.held + [d])
      else proc
    case Settle => if proc.Trying? && |proc.held| == r.count then Running(proc.held) else proc
    case GiveUp =>
      if proc.Trying? && |proc.held| < r.count && proc.tries == MAX_TRIES then Releasing(proc.held, false) else proc
    case Close => if proc.Releasing? && proc.held != [] then proc.(held := proc.held[..|proc.held| - 1]) else proc
    case EndRelease =>
      if proc.Releasing? && proc.held == [] then (if proc.finished then Done else Sleeping) else proc
    case Timeout => if proc.Sleeping? then Failed else proc
    case Stop => if proc.Running? then Releasing(proc.held, true) else proc
    case Kill => Killed
  }

  predicate CanBind(r: Request, proc: Proc) {
    proc.Trying? && proc.cursor < |r.band| && |proc.held| < r.count && proc.tries < MAX_TRIES
  }

  function WithoutOwner(ports: map<int, Owner>, owner: Owner): map<int, Owner> {
    map d | d in ports && ports[d] != owner :: ports[d]
  }

  /** What a move does to the kernel's table: a bind takes a free port, a close frees one, a kill frees all. */
  function PortsAfter(r: Request, ports: map<int, Owner>, p: nat, proc: Proc, move: Move): map<int, Owner> {
    match move
    case Bind =>
      if CanBind(r, proc) && r.band[proc.cursor] !in ports then ports[r.band[proc.cursor] := Process(p)] else ports
    case Close => if proc.Releasing? && proc.held != [] then ports - {proc.held[|proc.held| - 1]} else ports
    case Kill => WithoutOwner(ports, Process(p))
    case _ => ports
  }

  ghost predicate Sound(requests: map<nat, Request>) {
    forall p :: p in requests ==> Askable(requests[p])
  }

  function After(requests: map<nat, Request>, s: System, step: Step): System {
    match step
    case Own(p, move) =>
      if p in s.procs && p in requests then
        System(s.procs[p := Moved(requests[p], s.ports.Keys, s.procs[p], move)],
               PortsAfter(requests[p], s.ports, p, s.procs[p], move))
      else s
    case ForeignBind(d) => if d in s.ports then s else s.(ports := s.ports[d := Foreign])
    case ForeignClose(d) => if d in s.ports && s.ports[d] == Foreign then s.(ports := s.ports - {d}) else s
  }

  function Started(requests: map<nat, Request>): System {
    System(map p | p in requests :: Idle, map[])
  }

  function Run(requests: map<nat, Request>, s: System, steps: seq<Step>): System {
    if steps == [] then s else After(requests, Run(requests, s, steps[..|steps| - 1]), steps[|steps| - 1])
  }

  // ---------------------------------------------------------------- safety of every run

  /** A process lists distinct domains of its band: a running one exactly its count. */
  predicate ProcOk(r: Request, proc: Proc) {
    && Distinct(HeldBy(proc))
    && (forall d :: d in HeldBy(proc) ==> d in r.band)
    && |HeldBy(proc)| <= r.count
    && (proc.Running? ==> |proc.held| == r.count)
    && (proc.Trying? ==> proc.cursor < |r.band| && proc.tries <= MAX_TRIES)
  }

  predicate Owns(ports: map<int, Owner>, p: nat, d: int) {
    d in ports && ports[d] == Process(p)
  }

  /** What a process lists is exactly what the kernel has bound to it. */
  ghost predicate ListMatches(ports: map<int, Owner>, p: nat, proc: Proc) {
    forall d :: Owns(ports, p, d) <==> d in HeldBy(proc)
  }

  ghost predicate Inv(requests: map<nat, Request>, s: System) {
    && s.procs.Keys == requests.Keys
    && (forall p :: p in s.procs ==> ProcOk(requests[p], s.procs[p]) && ListMatches(s.ports, p, s.procs[p]))
    && (forall p, d :: Owns(s.ports, p, d) ==> p in s.procs)
  }

  lemma MovedOk(r: Request, ports: map<int, Owner>, p: nat, proc: Proc, move: Move)
    requires Askable(r) && ProcOk(r, proc) && ListMatches(ports, p, proc)
    ensures ProcOk(r, Moved(r, ports.Keys, proc, move))
    ensures ListMatches(PortsAfter(r, ports, p, proc, move), p, Moved(r, ports.Keys, proc, move))
  {
    if move == Bind && CanBind(r, proc) {
      var d := r.band[proc.cursor];
      assert d in HeldBy(proc) ==> Owns(ports, p, d);
    } else if move == Close && proc.Releasing? && proc.held != [] {
      CloseFrees(ports, p, proc.held);
    }
  }

  lemma CloseFrees(ports: map<int, Owner>, p: nat, held: seq<int>)
    requires held != [] && Distinct(held) && forall d :: Owns(ports, p, d) <==> d in held
    ensures var init, last := held[..|held| - 1], held[|held| - 1];
            forall d :: Owns(ports - {last}, p, d) <==> d in init
  {
    var init, last := held[..|held| - 1], held[|held| - 1];
    assert held == init + [last] && last !in init;
    forall d ensures Owns(ports - {last}, p, d) <==> d in init {
      assert Owns(ports, p, d) <==> d in held;
    }
  }

  /** The ports of other processes are never touched. */
  lemma OthersKeepPorts(r: Request, ports: map<int, Owner>, p: nat, proc: Proc, move: Move, q: nat, d: int)
    requires q != p && ListMatches(ports, p, proc)
    ensures Owns(PortsAfter(r, ports, p, proc, move), q, d) <==> Owns(ports, q, d)
  {
    if move == Close && proc.Releasing? && proc.held != [] {
      assert Owns(ports, p, proc.held[|proc.held| - 1]);
    }
  }

  lemma OwnStepSafe(requests: map<nat, Request>, s: System, p: nat, move: Move)
    requires Sound(requests) && Inv(requests, s) && p in s.procs
    ensures Inv(requests, After(requests, s, Own(p, move)))
  {
    var r, proc := requests[p], s.procs[p];
    var after := After(requests, s, Own(p, move));
    MovedOk(r, s.ports, p, proc, move);
    forall q, d | q != p ensures Owns(after.ports, q, d) <==> Owns(s.ports, q, d) {
      OthersKeepPorts(r, s.ports, p, proc, move, q, d);
    }
    forall q | q in s.procs && q != p ensures ListMatches(after.ports, q, after.procs[q]) {
      assert ListMatches(s.ports, q, s.procs[q]);
    }
  }

  lemma ForeignStepSafe(requests: map<nat, Request>, s: System, step: Step)
    requires Inv(requests, s) && !step.Own?
    ensures Inv(requests, After(requests, s, step))
  {
    var after := After(requests, s, step);
    assert forall p, d :: Owns(after.ports, p, d) <==> Owns(s.ports, p, d);
    forall p | p in s.procs ensures ListMatches(after.ports, p, after.procs[p]) {
      assert ListMatches(s.ports, p, s.procs[p]);
    }
  }

  lemma {:induction false} RunsKeepTable(requests: map<nat, Request>, steps: seq<Step>)
    requires Sound(requests)
    ensures Inv(requests, Run(requests, Started(requests), steps))
  {
    if steps == [] {
    } else {
      RunsKeepTable(requests, steps[..|steps| - 1]);
      var s := Run(requests, Started(requests), steps[..|steps| - 1]);
      match steps[|steps| - 1] {
        case Own(p, move) =>
          if p in s.procs {
            OwnStepSafe(requests, s, p, move);
          }
        case ForeignBind(_) => ForeignStepSafe(requests, s, steps[|steps| - 1]);
        case ForeignClose(_) => ForeignStepSafe(requests, s, steps[|steps| - 1]);
      }
    }
  }

  function OwnedBy(ports: map<int, Owner>, p: nat): set<int> {
    set d | d in ports && ports[d] == Process(p)
  }

  /** Nothing to give back: waiting between attempts, or over. */
  predicate AtRest(proc: Proc) {
    proc.Idle? || proc.Sleeping? || proc.Failed? || proc.Done? || proc.Killed?
  }

  /**
   In every run, in the kernel's own table: a port has one owner, a running process owns exactly its count
   of domains, all of its band, and a process that waits, failed, finished or was killed owns none.
   */
  lemma RunsExclusive(requests: map<nat, Request>, steps: seq<Step>, p: nat)
    requires Sound(requests) && p in requests
    ensures var s := Run(requests, Started(requests), steps);
            && p in s.procs
            && (s.procs[p].Running? ==> |OwnedBy(s.ports, p)| == requests[p].count)
            && (AtRest(s.procs[p]) ==> OwnedBy(s.ports, p) == {})
            && OwnedBy(s.ports, p) == ToSet(HeldBy(s.procs[p]))
            && OwnedBy(s.ports, p) <= ToSet(requests[p].band)
  {
    var s := Run(requests, Started(requests), steps);
    RunsKeepTable(requests, steps);
    var owned, held := OwnedBy(s.ports, p), HeldBy(s.procs[p]);
    forall d ensures d in owned <==> d in held {
      assert d in owned <==> Owns(s.ports, p, d);
    }
    SizeOfTail(held, owned);
  }

  // ---------------------------------------------------------------- nobody waits while holding

  /** The move a process that is taking or giving back domains makes next. */
  function NextMove(r: Request, proc: Proc): Move {
    if proc.Trying? then
      if |proc.held| == r.count then Settle else if proc.tries == MAX_TRIES then GiveUp else Bind
    else if HeldBy(proc) != [] then Close
    else EndRelease
  }

  /** An upper bound on the own moves until a process runs or holds nothing. */
  function MovesLeft(r: Request, proc: Proc): int {
    match proc
    case Trying(_, tries, held) => 101 * (r.count - |held|) + (MAX_TRIES - tries) + r.count + 2
    case Releasing(held, _) => |held| + 1
    case _ => 0
  }

  /**
   A process that holds domains without running is never blocked: whatever is bound, its next move is
   possible and brings it strictly closer to running or to holding nothing.
   */
  lemma HoldersNeverWait(r: Request, bound: set<int>, proc: Proc)
    requires Askable(r) && ProcOk(r, proc) && (proc.Trying? || proc.Releasing?)
    ensures var next := Moved(r, bound, proc, NextMove(r, proc));
            && next != proc
            && 0 <= MovesLeft(r, next) < MovesLeft(r, proc)
            && (next.Trying? || next.Releasing? || next.Running? || AtRest(next))
  {
  }

  /** The moves of the others leave a process, and so what is left for it to do, untouched. */
  lemma OthersLeaveAlone(requests: map<nat, Request>, s: System, p: nat, step: Step)
    requires p in s.procs && (step.Own? ==> step.p != p)
    ensures p in After(requests, s, step).procs && After(requests, s, step).procs[p] == s.procs[p]
  {
  }

  /** In every step of its own, process `p` does what its program does next, or is killed. */
  ghost predicate Follows(requests: map<nat, Request>, s: System, p: nat, steps: seq<Step>)
    requires p in requests
  {
    steps != [] ==>
      var init, last := steps[..|steps| - 1], steps[|steps| - 1];
      var before := Run(requests, s, init);
      && Follows(requests, s, p, init)
      && (last.Own? && last.p == p && p in before.procs ==>
            last.move == Kill || last.move == NextMove(requests[p], before.procs[p]))
  }

  function OwnMoves(steps: seq<Step>, p: nat): nat {
    if steps == [] then 0
    else OwnMoves(steps[..|steps| - 1], p) + (if steps[|steps| - 1].Own? && steps[|steps| - 1].p == p then 1 else 0)
  }

  /** At some point of the run, its end included, the process runs or owns no port. */
  ghost predicate Settles(requests: map<nat, Request>, s: System, p: nat, steps: seq<Step>) {
    exists k :: 0 <= k <= |steps| && SettledAt(Run(requests, s, steps[..k]), p)
  }

  predicate SettledAt(s: System, p: nat) {
    p in s.procs && (s.procs[p].Running? || AtRest(s.procs[p]))
  }

  lemma {:induction false} SettlesOrCountsDown(requests: map<nat, Request>, s: System, p: nat, steps: seq<Step>)
    requires Sound(requests) && Inv(requests, s) && p in requests && Follows(requests, s, p, steps)
    ensures Inv(requests, Run(requests, s, steps))
    ensures Settles(requests, s, p, steps) ||
            OwnMoves(steps, p) + MovesLeft(requests[p], Run(requests, s, steps).procs[p]) <=
            MovesLeft(requests[p], s.procs[p])
  {
    if steps == [] {
    } else {
      var init, last := steps[..|steps| - 1], steps[|steps| - 1];
      SettlesOrCountsDown(requests, s, p, init);
      var before := Run(requests, s, init);
      StepSafe(requests, before, last);
      if Settles(requests, s, p, init) {
        var k :| 0 <= k <= |init| && SettledAt(Run(requests, s, init[..k]), p);
        assert init[..k] == steps[..k];
      } else {
        assert init[..|init|] == init;
        assert !SettledAt(before, p);
        if last.Own? && last.p == p {
          OwnMoveCountsDown(requests, before, p, last.move);
          assert steps[..|steps|] == steps;
        } else {
          OthersLeaveAlone(requests, before, p, last);
        }
      }
    }
  }

  lemma StepSafe(requests: map<nat, Request>, s: System, step: Step)
    requires Sound(requests) && Inv(requests, s)
    ensures Inv(requests, After(requests, s, step))
  {
    if step.Own? {
      if step.p in s.procs {
        OwnStepSafe(requests, s, step.p, step.move);
      }
    } else {
      ForeignStepSafe(requests, s, step);
    }
  }

  lemma OwnMoveCountsDown(requests: map<nat, Request>, s: System, p: nat, move: Move)
    requires Sound(requests) && Inv(requests, s) && p in requests && !SettledAt(s, p)
    requires move == Kill || move == NextMove(requests[p], s.procs[p])
    ensures var after := After(requests, s, Own(p, move));
            SettledAt(after, p) || MovesLeft(requests[p], after.procs[p]) < MovesLeft(requests[p], s.procs[p])
  {
    HoldersNeverWait(requests[p], s.ports.Keys, s.procs[p]);
  }

  /**
   From any state of any run, whatever the others do in between: once a process has made as many moves as
   it had left, it has been running or without any port at some point. Nobody waits while holding.
   */
  lemma HoldersSettle(requests: map<nat, Request>, past: seq<Step>, p: nat, steps: seq<Step>)
    requires Sound(requests) && p in requests
    requires var s := Run(requests, Started(requests), past);
             && p in s.procs
             && Follows(requests, s, p, steps)
             && OwnMoves(steps, p) >= MovesLeft(requests[p], s.procs[p])
    ensures Settles(requests, Run(requests, Started(requests), past), p, steps)
  {
    var s := Run(requests, Started(requests), past);
    RunsKeepTable(requests, past);
    SettlesOrCountsDown(requests, s, p, steps);
    var last := Run(requests, s, steps);
    if !SettledAt(last, p) {
      HoldersNeverWait(requests[p], last.ports.Keys, last.procs[p]);
    }
    assert steps[..|steps|] == steps;
  }

  // ---------------------------------------------------------------- an undisturbed attempt

  function IterateSystem(f: System -> System, s: System, n: nat): System {
    if n == 0 then s else f(IterateSystem(f, s, n - 1))
  }

  function IterateProc(f: Proc -> Proc, proc: Proc, n: nat): Proc {
    if n == 0 then proc else f(IterateProc(f, proc, n - 1))
  }

  lemma {:induction false} IterateCompose(f: Proc -> Proc, proc: Proc, a: nat, b: nat)
    ensures IterateProc(f, IterateProc(f, proc, a), b) == IterateProc(f, proc, a + b)
  {
    if b == 0 {
    } else {
      IterateCompose(f, proc, a, b - 1);
    }
  }

  lemma {:induction false} IterateSimulates(
    f: System -> System, g: Proc -> Proc, embed: Proc -> System, proc: Proc, n: nat)
    requires forall q :: f(embed(q)) == embed(g(q))
    ensures IterateSystem(f, embed(proc), n) == embed(IterateProc(g, proc, n))
  {
    if n == 0 {
    } else {
      IterateSimulates(f, g, embed, proc, n - 1);
    }
  }

  function BindOf(requests: map<nat, Request>, p: nat): System -> System {
    s => After(requests, s, Own(p, Bind))
  }

  /** `n` turns of process `p` in a row. */
  function Binds(requests: map<nat, Request>, s: System, p: nat, n: nat): System {
    IterateSystem(BindOf(requests, p), s, n)
  }

  /** The table with the ports of process `p` replaced by those of a list. */
  function Relisted(ports: map<int, Owner>, p: nat, held: seq<int>): map<int, Owner> {
    map d | d in ports.Keys + ToSet(held) && (d in held || ports[d] != Process(p)) ::
      if d in held then Process(p) else ports[d]
  }

  /** `s` with process `p` put into another local state and its ports into the matching one. */
  function With(s: System, p: nat, proc: Proc): System {
    System(s.procs[p := proc], Relisted(s.ports, p, HeldBy(proc)))
  }

  /** The ports bound by anybody but `p`. */
  function BoundByOthers(s: System, p: nat): set<int> {
    set d | d in s.ports && s.ports[d] != Process(p)
  }

  lemma RelistedKeys(s: System, p: nat, held: seq<int>)
    ensures Relisted(s.ports, p, held).Keys == BoundByOthers(s, p) + ToSet(held)
  {
  }

  lemma RelistedOneMore(ports: map<int, Owner>, p: nat, held: seq<int>, d: int)
    ensures Relisted(ports, p, held + [d]) == Relisted(ports, p, held)[d := Process(p)]
  {
    var a, b := Relisted(ports, p, held + [d]), Relisted(ports, p, held)[d := Process(p)];
    forall x ensures x in a <==> x in b {
      assert x in held + [d] <==> x in held || x == d;
    }
    forall x | x in a ensures a[x] == b[x] {
      assert x in held + [d] <==> x in held || x == d;
    }
  }

  lemma WithItself(s: System, p: nat)
    requires p in s.procs && ListMatches(s.ports, p, s.procs[p])
    ensures With(s, p, s.procs[p]) == s
  {
    var held := HeldBy(s.procs[p]);
    forall d ensures d in Relisted(s.ports, p, held) <==> d in s.ports {
      assert Owns(s.ports, p, d) <==> d in held;
    }
    forall d | d in s.ports ensures Relisted(s.ports, p, held)[d] == s.ports[d] {
      assert Owns(s.ports, p, d) <==> d in held;
    }
  }

  /** One bind of a process while the others keep their ports `taken`. */
  function Turn(r: Request, taken: set<int>, q: Proc): Proc {
    Moved(r, taken + ToSet(HeldBy(q)), q, Bind)
  }

  function TurnOf(r: Request, taken: set<int>): Proc -> Proc {
    q => Turn(r, taken, q)
  }

  function LocalBinds(r: Request, taken: set<int>, proc: Proc, n: nat): Proc {
    IterateProc(TurnOf(r, taken), proc, n)
  }

  lemma OneBindIsLocal(requests: map<nat, Request>, s: System, p: nat, q: Proc)
    requires p in s.procs && p in requests
    ensures After(requests, With(s, p, q), Own(p, Bind)) == With(s, p, Turn(requests[p], BoundByOthers(s, p), q))
  {
    var r, w := requests[p], With(s, p, q);
    RelistedKeys(s, p, HeldBy(q));
    if CanBind(r, q) {
      RelistedOneMore(s.ports, p, q.held, r.band[q.cursor]);
    }
    assert s.procs[p := q][p := Turn(r, BoundByOthers(s, p), q)] == s.procs[p := Turn(r, BoundByOthers(s, p), q)];
  }

  lemma BindsAreLocal(requests: map<nat, Request>, s: System, p: nat, n: nat)
    requires p in s.procs && p in requests && ListMatches(s.ports, p, s.procs[p])
    ensures Binds(requests, s, p, n) == With(s, p, LocalBinds(requests[p], BoundByOthers(s, p), s.procs[p], n))
  {
    var f, g := BindOf(requests, p), TurnOf(requests[p], BoundByOthers(s, p));
    var h := (q: Proc) => With(s, p, q);
    forall q ensures f(h(q)) == h(g(q)) {
      OneBindIsLocal(requests, s, p, q);
    }
    WithItself(s, p);
    IterateSimulates(f, g, h, s.procs[p], n);
  }

  /** `b` comes after some turns of `a`. */
  ghost predicate Reaches(r: Request, taken: set<int>, a: Proc, b: Proc) {
    exists n: nat :: LocalBinds(r, taken, a, n) == b
  }

  lemma ReachesOn(r: Request, taken: set<int>, a: Proc, b: Proc, c: Proc)
    requires Reaches(r, taken, a, b) && Reaches(r, taken, b, c)
    ensures Reaches(r, taken, a, c)
  {
    var m: nat :| LocalBinds(r, taken, a, m) == b;
    var n: nat :| LocalBinds(r, taken, b, n) == c;
    IterateCompose(TurnOf(r, taken), a, m, n);
    assert LocalBinds(r, taken, a, m + n) == c;
  }

  lemma TurnAfter(r: Request, taken: set<int>, proc: Proc, n: nat)
    requires n > 0
    ensures LocalBinds(r, taken, proc, n) == Turn(r, taken, LocalBinds(r, taken, proc, n - 1))
  {
  }

  /** `k` candidates in a row that are bound cost `k` tries and change nothing else. */
  lemma {:induction false} LocalMisses(r: Request, taken: set<int>, cursor: nat, held: seq<int>, k: nat)
    requires cursor < |r.band| && |held| < r.count && k <= MAX_TRIES
    requires forall j :: 0 <= j < k ==> r.band[Advanced(cursor, j, |r.band|)] in taken + ToSet(held)
    ensures LocalBinds(r, taken, Trying(cursor, 0, held), k) == Trying(Advanced(cursor, k, |r.band|), k, held)
  {
    if k == 0 {
    } else {
      LocalMisses(r, taken, cursor, held, k - 1);
      TurnAfter(r, taken, Trying(cursor, 0, held), k);
      assert r.band[Advanced(cursor, k - 1, |r.band|)] in taken + ToSet(held);
    }
  }

  lemma LocalHit(r: Request, taken: set<int>, cursor: nat, held: seq<int>, k: nat)
    requires cursor < |r.band| && |held| < r.count
    requires FirstFree(r.band, cursor, taken + ToSet(held), MAX_TRIES) == Some(k)
    ensures Reaches(r, taken, Trying(cursor, 0, held),
                    Trying(Advanced(cursor, k + 1, |r.band|), 0, held + [r.band[Advanced(cursor, k, |r.band|)]]))
  {
    LocalMisses(r, taken, cursor, held, k);
    TurnAfter(r, taken, Trying(cursor, 0, held), k + 1);
    assert Reaches(r, taken, Trying(cursor, 0, held), LocalBinds(r, taken, Trying(cursor, 0, held), k + 1));
  }

  lemma ReachesItself(r: Request, taken: set<int>, a: Proc)
    ensures Reaches(r, taken, a, a)
  {
    assert LocalBinds(r, taken, a, 0) == a;
  }

  lemma HeadThenTail(held: seq<int>, got: seq<int>)
    requires got != []
    ensures (held + [got[0]]) + got[1..] == held + got
  {
  }

  lemma TakenAfter(taken: set<int>, held: seq<int>, d: int)
    ensures taken + ToSet(held + [d]) == taken + ToSet(held) + {d}
  {
    forall x ensures x in taken + ToSet(held + [d]) <==> x in taken + ToSet(held) + {d} {
    }
  }

  /** While nobody else moves, a process acquires what the attempt on values acquires. */
  lemma {:induction false} LocalAttempt(
    r: Request, taken: set<int>, cursor: nat, held: seq<int>, left: nat, got: seq<int>)
    returns (last: nat)
    requires cursor < |r.band| && |held| + left == r.count
    requires Attempt(r.band, cursor, taken + ToSet(held), left) == Some(got)
    ensures Reaches(r, taken, Trying(cursor, 0, held), Trying(last, 0, held + got))
    decreases left
  {
    if left == 0 {
      last := cursor;
      assert held + got == held;
      ReachesItself(r, taken, Trying(cursor, 0, held));
    } else {
      var k := AttemptStep(r.band, cursor, taken + ToSet(held), left, got);
      LocalHit(r, taken, cursor, held, k);
      last := LocalAttemptRest(r, taken, Advanced(cursor, k + 1, |r.band|), held, left, got);
      ReachesOn(r, taken, Trying(cursor, 0, held), Trying(Advanced(cursor, k + 1, |r.band|), 0, held + [got[0]]),
                Trying(last, 0, held + got));
    }
  }

  lemma {:induction false} LocalAttemptRest(
    r: Request, taken: set<int>, cursor: nat, held: seq<int>, left: nat, got: seq<int>)
    returns (last: nat)
    requires cursor < |r.band| && left > 0 && |held| + left == r.count && got != []
    requires Attempt(r.band, cursor, taken + ToSet(held) + {got[0]}, left - 1) == Some(got[1..])
    ensures Reaches(r, taken, Trying(cursor, 0, held + [got[0]]), Trying(last, 0, held + got))
    decreases left, 0
  {
    TakenAfter(taken, held, got[0]);
    HeadThenTail(held, got);
    last := LocalAttempt(r, taken, cursor, held + [got[0]], left - 1, got[1..]);
  }

  lemma AloneAcquires(r: Request, start: nat) returns (n: nat, last: nat, got: seq<int>)
    requires Askable(r) && r.count <= |r.band|
    ensures LocalBinds(r, {}, Trying(start % |r.band|, 0, []), n) == Trying(last, 0, got) && |got| == r.count
  {
    AloneSucceedsIff(r.band, start, r.count);
    AttemptIsFresh(r.band, start % |r.band|, {}, r.count);
    got := Attempt(r.band, start % |r.band|, {}, r.count).value;
    assert {} + ToSet([]) == {};
    last := LocalAttempt(r, {}, start % |r.band|, [], r.count, got);
    assert [] + got == got;
    var m: nat :| LocalBinds(r, {}, Trying(start % |r.band|, 0, []), m) == Trying(last, 0, got);
    n := m;
  }

  /**
   A process that asks for no more than its band holds and attempts while nobody holds anything gets
   to run with that very attempt.
   */
  lemma AloneGetsToRun(requests: map<nat, Request>, s: System, p: nat, start: nat) returns (n: nat)
    requires Sound(requests) && p in s.procs && p in requests && requests[p].count <= |requests[p].band|
    requires (s.procs[p].Idle? || s.procs[p].Sleeping?) && s.ports == map[]
    ensures var begun := After(requests, s, Own(p, Begin(start)));
            var settled := After(requests, Binds(requests, begun, p, n), Own(p, Settle));
            && p in settled.procs && settled.procs[p].Running?
            && |settled.procs[p].held| == requests[p].count && settled.ports.Keys == ToSet(settled.procs[p].held)
  {
    var r := requests[p];
    var trying := Trying(start % |r.band|, 0, []);
    var begun := System(s.procs[p := trying], s.ports);
    assert After(requests, s, Own(p, Begin(start))) == begun;
    assert BoundByOthers(begun, p) == {};
    assert ListMatches(begun.ports, p, begun.procs[p]);
    var last, got;
    n, last, got := AloneAcquires(r, start);
    BindsAreLocal(requests, begun, p, n);
    var bound := Binds(requests, begun, p, n);
    assert bound.procs[p] == Trying(last, 0, got) && bound.ports == Relisted(begun.ports, p, got);
    RelistedKeys(begun, p, got);
  }

  // ---------------------------------------------------------------- what an end state tells

  /** Every band the parser accepts, with a positive count, is one a process may ask for. */
  lemma ParsedBandIsAskable(spec: string, count: nat)
    requires BandText.Parsed(spec).Good? && count >= 1
    ensures Askable(Request(count, BandText.Parsed(spec).value))
  {
    BandText.ParsedBandIsUsable(spec);
  }

  predicate Finishing(proc: Proc) {
    proc.Running? || (proc.Releasing? && proc.finished) || proc.Done? || proc.Killed?
  }

  lemma FinishingStays(requests: map<nat, Request>, s: System, step: Step, p: nat)
    requires p in s.procs && Finishing(s.procs[p])
    ensures p in After(requests, s, step).procs && Finishing(After(requests, s, step).procs[p])
  {
  }

  /** A process that got to run never starts over: it runs, gives its domains back, is done, or was killed. */
  lemma {:induction false} RunningIsFinal(requests: map<nat, Request>, past: seq<Step>, steps: seq<Step>, p: nat)
    requires var s := Run(requests, Started(requests), past); p in s.procs && s.procs[p].Running?
    ensures var t := Run(requests, Run(requests, Started(requests), past), steps);
            p in t.procs && Finishing(t.procs[p])
  {
    if steps == [] {
    } else {
      RunningIsFinal(requests, past, steps[..|steps| - 1], p);
      FinishingStays(requests, Run(requests, Run(requests, Started(requests), past), steps[..|steps| - 1]),
                     steps[|steps| - 1], p);
    }
  }

  ghost predicate RanIn(requests: map<nat, Request>, steps: seq<Step>, p: nat) {
    exists k :: 0 <= k <= |steps| && RunsAt(requests, steps[..k], p)
  }

  predicate RunsAt(requests: map<nat, Request>, steps: seq<Step>, p: nat) {
    var s := Run(requests, Started(requests), steps);
    p in s.procs && s.procs[p].Running?
  }

  /** A process that is done, or releases to be done, has been running; one that failed or sleeps has not. */
  lemma {:induction false} DoneMeansRan(requests: map<nat, Request>, steps: seq<Step>, p: nat)
    requires p in requests
    ensures p in Run(requests, Started(requests), steps).procs
    ensures var proc := Run(requests, Started(requests), steps).procs[p];
            && (proc.Done? || (proc.Releasing? && proc.finished) ==> RanIn(requests, steps, p))
            && (proc.Failed? || proc.Sleeping? || proc.Idle? || proc.Trying? || (proc.Releasing? && !proc.finished) ==>
                  !RanIn(requests, steps, p))
  {
    var s := Run(requests, Started(requests), steps);
    if steps == [] {
    } else {
      var init := steps[..|steps| - 1];
      DoneMeansRan(requests, init, p);
      var before := Run(requests, Started(requests), init);
      if RunsAt(requests, init, p) {
        assert steps[..|init|] == init;
      }
      if RanIn(requests, init, p) {
        var k :| 0 <= k <= |init| && RunsAt(requests, init[..k], p);
        assert steps[..k] == init[..k];
      }
    }
    if RanIn(requests, steps, p) {
      var k :| 0 <= k <= |steps| && RunsAt(requests, steps[..k], p);
      RunConcat(requests, steps, k);
      RunningIsFinal(requests, steps[..k], steps[k..], p);
    }
  }

  lemma {:induction false} RunConcat(requests: map<nat, Request>, steps: seq<Step>, k: nat)
    requires k <= |steps|
    ensures Run(requests, Run(requests, Started(requests), steps[..k]), steps[k..]) ==
            Run(requests, Started(requests), steps)
    decreases |steps|
  {
    if k == |steps| {
      assert steps[..k] == steps && steps[k..] == [];
    } else {
      var init := steps[..|steps| - 1];
      RunConcat(requests, init, k);
      assert init[..k] == steps[..k] && steps[k..][..|steps| - k - 1] == init[k..];
    }
  }

  // ---------------------------------------------------------------- foreign sockets, and how a process ends

  /** A foreign bind leaves the port bound, whoever owns it; a foreign close does only if a process owns it. */
  lemma ForeignSteps(requests: map<nat, Request>, s: System, d: int)
    ensures d in After(requests, s, ForeignBind(d)).ports
    ensures d !in s.ports ==> After(requests, s, ForeignBind(d)).ports[d] == Foreign
    ensures var after := After(requests, s, ForeignClose(d)).ports;
            d in after <==> d in s.ports && s.ports[d].Process?
  {
  }

  /** A process that sleeps at its deadline fails. */
  lemma SleeperTimesOut(requests: map<nat, Request>, s: System, p: nat)
    requires p in s.procs && p in requests && s.procs[p].Sleeping?
    ensures After(requests, s, Own(p, Timeout)).procs[p] == Failed
  {
  }

  lemma {:induction false} ReleaseEnds(requests: map<nat, Request>, s: System, p: nat, held: seq<int>)
    returns (steps: seq<Step>)
    requires p in s.procs && p in requests && s.procs[p] == Releasing(held, true)
    ensures var t := Run(requests, s, steps); p in t.procs && t.procs[p].Done?
    ensures forall i :: 0 <= i < |steps| ==> steps[i] == Own(p, Close) || steps[i] == Own(p, EndRelease)
    decreases |held|
  {
    if held == [] {
      steps := [Own(p, EndRelease)];
      assert steps[..0] == [];
    } else {
      var first := Own(p, Close);
      var rest := ReleaseEnds(requests, After(requests, s, first), p, held[..|held| - 1]);
      steps := [first] + rest;
      RunFirst(requests, s, first, rest);
    }
  }

  lemma {:induction false} RunFirst(requests: map<nat, Request>, s: System, first: Step, rest: seq<Step>)
    ensures Run(requests, s, [first] + rest) == Run(requests, After(requests, s, first), rest)
  {
    if rest == [] {
      assert [first] + rest == [first] && [first][..0] == [];
    } else {
      RunFirst(requests, s, first, rest[..|rest| - 1]);
      assert ([first] + rest)[..|rest|] == [first] + rest[..|rest| - 1];
    }
  }

  /** A running process that stops gets to be done by closing what it holds. */
  lemma StoppedGetsDone(requests: map<nat, Request>, s: System, p: nat) returns (steps: seq<Step>)
    requires p in s.procs && p in requests && s.procs[p].Running?
    ensures var t := Run(requests, After(requests, s, Own(p, Stop)), steps); p in t.procs && t.procs[p].Done?
  {
    steps := ReleaseEnds(requests, After(requests, s, Own(p, Stop)), p, s.procs[p].held);
  }
}
