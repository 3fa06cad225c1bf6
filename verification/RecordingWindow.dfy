/**
 The black-box recording window. Confirmations run on a worker and are serialised against each other; the
 finalise, clears and evictions come in between their steps. A step of a confirmation, and the take of a
 finalise, is what one lock makes atomic. A clear and the store of a finalise span several locks; they
 are single steps because both run on the node's single-threaded executor, so neither sees the other
 half done. With a post-roll a confirmation in between touches neither the rows nor a recording taken out
 of the window. Without one its worker may store a row inside a clear; such a store reads nothing of what
 the clear writes, so it has the effect of coming before the clear or after it.
 */
module RecordingWindow {
  import opened Basics
  import opened BurstStore
  import opened RosbagTrim
  import Rows = RosbagRows

  const MAX_ATTACHED := 32

  /** `cap` is how many recordings a fault keeps, zero for all of them. */
  datatype Config = Config(autoCleanup: bool, cap: nat, entityMode: bool, postRoll: bool)

  predicate KeepsHistory(c: Config) { c.cap != 1 }

  /** Where the confirmation in progress is: nowhere, past the attach check, with a writer open, or closing it. */
  datatype Pc =
    | Idle
    | Resolved(code: string)
    | Opened(code: string, path: string)
    | Closing(code: string, path: string, writer: Option<string>)

  /** A recording a finalise has taken out of the window and not stored yet. */
  datatype Taken = Taken(primary: string, attached: set<string>, writer: Option<string>)

  /**
   A writer is named by the bag it was opened for; an empty filter lets every topic through. `needed` are the
   topics of the faults of the recording, and `unresolved` says that those of one of them are not known.
   */
  datatype State = State(
    guard: bool,
    primary: string,
    bagPath: string,
    attached: set<string>,
    writer: Option<string>,
    filter: set<string>,
    needed: set<string>,
    unresolved: bool,
    pc: Pc,
    taken: map<string, Taken>,
    store: Rows.Store,
    cleared: set<string>,
    used: set<string>)

  const START := State(false, "", "", {}, None, {}, {}, false, Idle, map[], Rows.EMPTY, {}, {})

  /** What the capture knows of a closed bag: how large it is, and when by the wall clock it was closed. */
  datatype Closed = Closed(size: nat, at: int)

  datatype Step =
    | Confirm(code: string, topics: set<string>)
    | Open(path: string, opens: bool)
    | Publish
    | Close
    | StoreClosed(bag: Closed, stores: bool)
    | FinalizeTake
    | FinalizeStore(path: string, codes: seq<string>, bag: Closed, stores: bool)
    | Clear(code: string)
    | Reactivate(code: string)
    | Evict(recordingId: string)

  // ---------------------------------------------------------------- steps, on values

  /** The filter after a fault with these topics joined the recording. */
  function Widened(c: Config, s: State, topics: set<string>): State {
    var joined := s.(needed := s.needed + topics, unresolved := s.unresolved || topics == {});
    if !c.entityMode || s.filter == {} then joined
    else if topics == {} then joined.(filter := {})
    else joined.(filter := s.filter + topics)
  }

  function Confirmed(c: Config, s: State, code: string, topics: set<string>): State {
    if s.guard then
      if code == s.primary then s
      else if |s.attached| >= MAX_ATTACHED then Widened(c, s, topics)
      else if code in s.attached then s
      else Widened(c, s.(attached := s.attached + {code}), topics)
    else
      s.(filter := if c.entityMode then topics else {}, needed := topics, unresolved := topics == {},
         pc := Resolved(code))
  }

  function WithBag(store: Rows.Store, path: string): Rows.Store { store.(disk := store.disk + {path}) }

  function WithoutBag(store: Rows.Store, path: string): Rows.Store { store.(disk := store.disk - {path}) }

  function OpenedAt(s: State, path: string, opens: bool): State
    requires s.pc.Resolved?
  {
    if opens then
      s.(writer := Some(path), store := WithBag(s.store, path), used := s.used + {path}, pc := Opened(s.pc.code, path))
    else s.(writer := None, used := s.used + {path}, pc := Idle)
  }

  function Published(s: State): State
    requires s.pc.Opened?
  {
    s.(guard := true, primary := s.pc.code, bagPath := s.pc.path, attached := {}, pc := Idle)
  }

  /** Without a post-roll the confirmation itself takes the writer out and stores one row. */
  function ClosedNow(s: State): State
    requires s.pc.Opened?
  {
    s.(pc := Closing(s.pc.code, s.pc.path, s.writer), writer := None)
  }

  /** The rows of one recording go in together or not at all; a bag that gets none is removed. */
  function StoredFor(c: Config, store: Rows.Store, path: string, codes: seq<string>, bag: Closed, stores: bool)
    : Rows.Store
  {
    if codes == [] || !stores then WithoutBag(store, path)
    else Rows.AfterStore(store, BurstInfos(codes, path, bag.size, bag.at), c.cap)
  }

  function StoredClosed(c: Config, s: State, bag: Closed, stores: bool): State
    requires s.pc.Closing?
  {
    s.(pc := Idle, filter := {}, store := StoredFor(c, s.store, s.pc.path, [s.pc.code], bag, stores))
  }

  function TakenOut(s: State): State {
    if !s.guard then s
    else
      s.(guard := false, primary := "", bagPath := "", attached := {}, writer := None, filter := {},
         taken := s.taken[s.bagPath := Taken(s.primary, s.attached, s.writer)])
  }

  /** Whether a fault of a finalised recording still wants its row. */
  predicate WantsARow(c: Config, s: State, code: string) {
    !c.autoCleanup || KeepsHistory(c) || code !in s.cleared
  }

  /** The faults of a taken recording that are owed a row; a cleared primary has an empty code. */
  function Owed(c: Config, s: State, t: Taken): set<string> {
    set code | code in t.attached + {t.primary} && code != "" && WantsARow(c, s, code)
  }

  /** `codes` lists a set, in any order; the code lists the primary first and the attached in order. */
  ghost predicate Lists(codes: seq<string>, owed: set<string>) {
    Distinct(codes) && forall code :: code in codes <==> code in owed
  }

  ghost predicate ListsWithin(codes: seq<string>, owed: set<string>, part: set<string>) {
    Distinct(codes) && forall code :: code in codes <==> code in owed && code in part
  }

  function FinalizedAt(c: Config, s: State, path: string, codes: seq<string>, bag: Closed, stores: bool): State
    requires path in s.taken
  {
    s.(taken := s.taken - {path}, store := StoredFor(c, s.store, path, codes, bag, stores))
  }

  function ClearedCode(c: Config, s: State, code: string): State {
    var acknowledged := s.(cleared := s.cleared + {code});
    if !c.autoCleanup || KeepsHistory(c) then acknowledged
    else
      var dropped := if s.guard then
          acknowledged.(attached := s.attached - {code}, primary := if code == s.primary then "" else s.primary)
        else acknowledged;
      dropped.(store := Rows.After(s.store, c.cap, Rows.DeleteFault(code)))
  }

  /** Fault codes are non-empty, and a new recording gets a path no recording had before. */
  ghost predicate Enabled(c: Config, s: State, step: Step) {
    match step
    case Confirm(code, _) => s.pc.Idle? && code != ""
    case Open(path, _) => s.pc.Resolved? && path !in s.used
    case Publish => s.pc.Opened? && c.postRoll
    case Close => s.pc.Opened? && !c.postRoll
    case StoreClosed(_, _) => s.pc.Closing?
    case FinalizeTake => true
    case FinalizeStore(path, codes, _, _) => path in s.taken && Lists(codes, Owed(c, s, s.taken[path]))
    case Clear(_) => true
    case Reactivate(_) => true
    case Evict(_) => true
  }

  function After(c: Config, s: State, step: Step): State
    requires Enabled(c, s, step)
  {
    match step
    case Confirm(code, topics) => Confirmed(c, s, code, topics)
    case Open(path, opens) => OpenedAt(s, path, opens)
    case Publish => Published(s)
    case Close => ClosedNow(s)
    case StoreClosed(bag, stores) => StoredClosed(c, s, bag, stores)
    case FinalizeTake => TakenOut(s)
    case FinalizeStore(path, codes, bag, stores) => FinalizedAt(c, s, path, codes, bag, stores)
    case Clear(code) => ClearedCode(c, s, code)
    case Reactivate(code) => s.(cleared := s.cleared - {code})
    case Evict(id) => s.(store := Rows.After(s.store, c.cap, Rows.DeleteRecording(id)))
  }

  ghost predicate IsRun(c: Config, states: seq<State>, steps: seq<Step>) {
    && |states| == |steps| + 1 && states[0] == START
    && forall i :: 0 <= i < |steps| ==>
         Enabled(c, states[i], steps[i]) && states[i + 1] == After(c, states[i], steps[i])
  }

  // ---------------------------------------------------------------- what every step keeps

  predicate HasPath(pc: Pc) { pc.Opened? || pc.Closing? }

  /** The bag of a recording that is open or on its way to the store. */
  predicate IsOpen(s: State, path: string) {
    || (s.guard && path == s.bagPath)
    || (HasPath(s.pc) && path == s.pc.path)
    || path in s.taken
  }

  predicate HasRow(s: State, path: string) { path in Rows.Paths(s.store.rows) }

  /** Every writer is in the hands of the recording it was opened for. */
  predicate WritersMatch(s: State) {
    && (s.guard ==> s.pc.Idle? && s.writer == Some(s.bagPath))
    && (!s.guard && s.pc.Opened? ==> s.writer == Some(s.pc.path))
    && (!s.guard && !s.pc.Opened? ==> s.writer == None)
    && (s.pc.Closing? ==> s.pc.writer == Some(s.pc.path))
    && (forall path :: path in s.taken ==> s.taken[path].writer == Some(path))
  }

  /** No two recordings share a bag, and a stored bag is not open any more. */
  ghost predicate BagsApart(s: State) {
    && (s.guard ==> s.bagPath !in s.taken)
    && (HasPath(s.pc) ==> s.pc.path !in s.taken)
    && (forall path :: IsOpen(s, path) ==> path in s.used && !HasRow(s, path))
    && (forall path :: HasRow(s, path) ==> path in s.used)
  }

  /** What is on disk is exactly what is open, waiting for the store or named by a row. */
  ghost predicate NoLeaks(s: State) {
    forall path :: path in s.store.disk <==> IsOpen(s, path) || HasRow(s, path)
  }

  /**
   The filter of a recording in entity mode is exactly the topics of the faults that joined it, or nothing
   once one of them has none resolved; in the other modes there is never one.
   */
  predicate FilterExact(c: Config, s: State) {
    && (!c.entityMode ==> s.filter == {})
    && (c.entityMode && (s.guard || s.pc.Resolved? || s.pc.Opened?) ==>
          s.filter == (if s.unresolved then {} else s.needed) && (s.needed == {} ==> s.unresolved))
  }

  ghost predicate Inv(c: Config, s: State) {
    && WritersMatch(s)
    && Rows.StoreOk(s.store)
    && BagsApart(s)
    && NoLeaks(s)
    && FilterExact(c, s)
    && |s.attached| <= MAX_ATTACHED && s.primary !in s.attached && "" !in s.attached
  }

  /** `after` has the same bags open and the same store. */
  ghost predicate SameBags(s: State, after: State) {
    && after.store == s.store && after.used == s.used
    && forall path :: IsOpen(after, path) <==> IsOpen(s, path)
  }

  lemma WidenKeeps(c: Config, s: State, topics: set<string>)
    requires Inv(c, s)
    ensures Inv(c, Widened(c, s, topics))
  {
    OnlyFilterChanged(s, Widened(c, s, topics));
    if s.needed + topics == {} {
      assert s.needed == {};
    }
  }

  lemma OnlyFilterChanged(s: State, after: State)
    requires after == s.(filter := after.filter, needed := after.needed, unresolved := after.unresolved)
    requires WritersMatch(s) && BagsApart(s) && NoLeaks(s)
    ensures WritersMatch(after) && BagsApart(after) && NoLeaks(after)
  {
    assert SameBags(s, after);
  }

  lemma AttachKeeps(c: Config, s: State, code: string)
    requires Inv(c, s) && |s.attached| < MAX_ATTACHED && code != s.primary && code != ""
    ensures Inv(c, s.(attached := s.attached + {code}))
  {
    assert SameBags(s, s.(attached := s.attached + {code}));
  }

  lemma ConfirmKeeps(c: Config, s: State, code: string, topics: set<string>)
    requires Inv(c, s) && Enabled(c, s, Confirm(code, topics))
    ensures Inv(c, Confirmed(c, s, code, topics))
  {
    if !s.guard {
      assert SameBags(s, Confirmed(c, s, code, topics));
    } else if code != s.primary {
      if |s.attached| >= MAX_ATTACHED {
        WidenKeeps(c, s, topics);
      } else if code !in s.attached {
        AttachKeeps(c, s, code);
        WidenKeeps(c, s.(attached := s.attached + {code}), topics);
      }
    }
  }

  lemma OpenKeeps(c: Config, s: State, path: string, opens: bool)
    requires Inv(c, s) && Enabled(c, s, Open(path, opens))
    ensures Inv(c, OpenedAt(s, path, opens))
  {
    var after := OpenedAt(s, path, opens);
    assert !HasRow(s, path) && !IsOpen(s, path);
    assert forall p :: IsOpen(after, p) <==> IsOpen(s, p) || (opens && p == path);
  }

  lemma PublishKeeps(c: Config, s: State)
    requires Inv(c, s) && Enabled(c, s, Publish)
    ensures Inv(c, Published(s))
  {
    assert SameBags(s, Published(s));
  }

  lemma CloseKeeps(c: Config, s: State)
    requires Inv(c, s) && Enabled(c, s, Close)
    ensures Inv(c, ClosedNow(s))
  {
    assert SameBags(s, ClosedNow(s));
  }

  /** A step that closes the bags in `closed` and lets the bags follow the rows leaves nothing unowned. */
  lemma BagsStillOwned(s: State, after: State, closed: set<string>)
    requires BagsApart(s) && NoLeaks(s) && after.used == s.used
    requires forall p :: p in closed ==> IsOpen(s, p)
    requires forall p :: IsOpen(after, p) <==> IsOpen(s, p) && p !in closed
    requires Rows.StoreOk(after.store) && Rows.BagsFollowRows(s.store, after.store, closed)
    ensures NoLeaks(after)
    ensures forall p :: IsOpen(after, p) ==> p in after.used && !HasRow(after, p)
    ensures forall p :: HasRow(after, p) ==> p in after.used
  {
    forall p ensures p in after.store.disk <==> IsOpen(after, p) || HasRow(after, p) {
      OwnedAt(s, after, closed, p);
    }
  }

  lemma OwnedAt(s: State, after: State, closed: set<string>, p: string)
    requires BagsApart(s) && NoLeaks(s)
    requires p in closed ==> IsOpen(s, p)
    requires IsOpen(after, p) <==> IsOpen(s, p) && p !in closed
    requires Rows.StoreOk(after.store) && Rows.BagsFollowRows(s.store, after.store, closed)
    ensures p in after.store.disk <==> IsOpen(after, p) || HasRow(after, p)
  {
    assert p in s.store.disk <==> IsOpen(s, p) || HasRow(s, p);
    assert HasRow(after, p) ==> p in Rows.Paths(s.store.rows) + closed;
  }

  lemma StoredForFollows(c: Config, s: State, path: string, codes: seq<string>, bag: Closed, stores: bool)
    requires Inv(c, s) && IsOpen(s, path)
    ensures var after := StoredFor(c, s.store, path, codes, bag, stores);
            Rows.StoreOk(after) && Rows.BagsFollowRows(s.store, after, {path})
  {
    assert path in s.store.disk && !HasRow(s, path);
    if codes == [] || !stores {
      UnnamedBagGoes(s.store, path);
    } else {
      BurstPaths(codes, path, bag.size, bag.at);
      Rows.StepKeepsBags(s.store, c.cap, Rows.StoreBatch(BurstInfos(codes, path, bag.size, bag.at)));
    }
  }

  lemma UnnamedBagGoes(store: Rows.Store, path: string)
    requires Rows.StoreOk(store) && path !in Rows.Paths(store.rows)
    ensures Rows.StoreOk(WithoutBag(store, path)) && Rows.BagsFollowRows(store, WithoutBag(store, path), {path})
  {
    forall i | 0 <= i < |store.rows| ensures store.rows[i].info.path in WithoutBag(store, path).disk {
      assert store.rows[i].info.path in Rows.Paths(store.rows);
    }
  }

  lemma StoreClosedKeeps(c: Config, s: State, bag: Closed, stores: bool)
    requires Inv(c, s) && s.pc.Closing?
    ensures Inv(c, StoredClosed(c, s, bag, stores))
  {
    var after, path := StoredClosed(c, s, bag, stores), s.pc.path;
    assert IsOpen(s, path);
    StoredForFollows(c, s, path, [s.pc.code], bag, stores);
    assert forall p :: IsOpen(after, p) <==> IsOpen(s, p) && p !in {path};
    BagsStillOwned(s, after, {path});
  }

  lemma TakeKeeps(c: Config, s: State)
    requires Inv(c, s)
    ensures Inv(c, TakenOut(s))
  {
    assert SameBags(s, TakenOut(s));
  }

  lemma FinalizeKeeps(c: Config, s: State, path: string, codes: seq<string>, bag: Closed, stores: bool)
    requires Inv(c, s) && path in s.taken
    ensures Inv(c, FinalizedAt(c, s, path, codes, bag, stores))
  {
    var after := FinalizedAt(c, s, path, codes, bag, stores);
    assert IsOpen(s, path);
    StoredForFollows(c, s, path, codes, bag, stores);
    assert forall p :: IsOpen(after, p) <==> IsOpen(s, p) && p !in {path};
    BagsStillOwned(s, after, {path});
  }

  lemma DeleteKeeps(c: Config, s: State, step: Rows.Step)
    requires Inv(c, s) && (step.DeleteFault? || step.DeleteRecording?)
    ensures Inv(c, s.(store := Rows.After(s.store, c.cap, step)))
  {
    var after := s.(store := Rows.After(s.store, c.cap, step));
    Rows.StepKeepsBags(s.store, c.cap, step);
    assert forall p :: IsOpen(after, p) <==> IsOpen(s, p) && p !in {};
    BagsStillOwned(s, after, {});
  }

  lemma ClearKeeps(c: Config, s: State, code: string)
    requires Inv(c, s)
    ensures Inv(c, ClearedCode(c, s, code))
  {
    var acknowledged := s.(cleared := s.cleared + {code});
    assert SameBags(s, acknowledged);
    if c.autoCleanup && !KeepsHistory(c) {
      var dropped := if s.guard then
          acknowledged.(attached := s.attached - {code}, primary := if code == s.primary then "" else s.primary)
        else acknowledged;
      assert SameBags(s, dropped);
      DeleteKeeps(c, dropped, Rows.DeleteFault(code));
    }
  }

  lemma ReactivateKeeps(c: Config, s: State, code: string)
    requires Inv(c, s)
    ensures Inv(c, s.(cleared := s.cleared - {code}))
  {
    assert SameBags(s, s.(cleared := s.cleared - {code}));
  }

  lemma StepKeeps(c: Config, s: State, step: Step)
    requires Inv(c, s) && Enabled(c, s, step)
    ensures Inv(c, After(c, s, step))
  {
    match step {
      case Confirm(code, topics) => ConfirmKeeps(c, s, code, topics);
      case Open(path, opens) => OpenKeeps(c, s, path, opens);
      case Publish => PublishKeeps(c, s);
      case Close => CloseKeeps(c, s);
      case StoreClosed(bag, stores) => StoreClosedKeeps(c, s, bag, stores);
      case FinalizeTake => TakeKeeps(c, s);
      case FinalizeStore(path, codes, bag, stores) => FinalizeKeeps(c, s, path, codes, bag, stores);
      case Clear(code) => ClearKeeps(c, s, code);
      case Reactivate(code) => ReactivateKeeps(c, s, code);
      case Evict(id) => DeleteKeeps(c, s, Rows.DeleteRecording(id));
    }
  }

  /**
   In every interleaving: a set guard means the active writer is the one opened for the current bag, a
   finalise holds only its own recording's writer, no two recordings share a bag, nothing is left on
   disk that no recording and no row owns, and the capture filter is exactly what the faults that joined need.
   */
  lemma {:induction false} RunsKeepRecordings(c: Config, states: seq<State>, steps: seq<Step>)
    requires IsRun(c, states, steps)
    ensures Inv(c, states[|steps|])
    decreases |steps|
  {
    if steps == [] {
    } else {
      var last := |steps| - 1;
      RunsKeepRecordings(c, states[..|steps|], steps[..last]);
      StepKeeps(c, states[last], steps[last]);
    }
  }

  // ---------------------------------------------------------------- what a finished recording leaves

  function RowsAt(store: Rows.Store, path: string): set<string> {
    set r | r in store.rows && r.info.path == path :: r.info.code
  }

  /** Those of the codes whose new row the store keeps. */
  function Kept(c: Config, store: Rows.Store, codes: set<string>, at: int): set<string> {
    set code | code in codes && Fits(store.rows, code, at, c.cap)
  }

  lemma LinkAt(store: Rows.Store, path: string, code: string)
    ensures code in RowsAt(store, path) <==> HasLink(store.rows, code, path)
  {
    if HasLink(store.rows, code, path) {
      var i :| 0 <= i < |store.rows| && store.rows[i].info.code == code && store.rows[i].info.path == path;
      assert store.rows[i] in store.rows;
    }
  }

  lemma NoRowsAt(store: Rows.Store, path: string)
    ensures RowsAt(store, path) == {} <==> path !in Rows.Paths(store.rows)
  {
    if i :| 0 <= i < |store.rows| && store.rows[i].info.path == path {
      assert store.rows[i] in store.rows;
      assert store.rows[i].info.code in RowsAt(store, path);
    }
  }

  /** What a closed bag is left with. */
  lemma StoredForExactly(c: Config, s: State, path: string, codes: seq<string>, bag: Closed, stores: bool)
    requires Inv(c, s) && IsOpen(s, path) && Distinct(codes)
    ensures var after := StoredFor(c, s.store, path, codes, bag, stores);
            && (forall code :: code in RowsAt(after, path) <==>
                  stores && code in codes && Fits(s.store.rows, code, bag.at, c.cap))
            && (path in after.disk <==> RowsAt(after, path) != {})
  {
    var after := StoredFor(c, s.store, path, codes, bag, stores);
    assert path in s.store.disk && !HasRow(s, path);
    Rows.PathsMeansReferenced(s.store.rows, path);
    forall code
      ensures code in RowsAt(after, path) <==> stores && code in codes && Fits(s.store.rows, code, bag.at, c.cap)
    {
      LinkAt(after, path, code);
      LinkAt(s.store, path, code);
      NoRowsAt(s.store, path);
      if codes != [] && stores {
        BurstRows(Rows.Batch(s.store.rows, s.store.last, {}), codes, path, bag.size, bag.at, c.cap, code);
      }
    }
    NoRowsAt(after, path);
    StoredForFollows(c, s, path, codes, bag, stores);
  }

  /**
   A finalised bag has one row for exactly each of its faults that is still owed one and has fewer than the
   cap of stored rows created later. A bag without a row is gone: none was owed, the store failed, or all
   the new rows were trimmed by the store that wrote them.
   */
  lemma FinalizedBagHasItsRows(c: Config, s: State, path: string, codes: seq<string>, bag: Closed, stores: bool)
    requires Inv(c, s) && Enabled(c, s, FinalizeStore(path, codes, bag, stores))
    ensures var after := FinalizedAt(c, s, path, codes, bag, stores);
            var kept := Kept(c, s.store, Owed(c, s, s.taken[path]), bag.at);
            && RowsAt(after.store, path) == (if stores then kept else {})
            && (path in after.store.disk <==> stores && kept != {})
  {
    assert IsOpen(s, path);
    StoredForExactly(c, s, path, codes, bag, stores);
  }

  /** The fault a recording without post-roll owes its row to, if any. */
  function OwedNow(c: Config, s: State): set<string>
    requires s.pc.Closing?
  {
    if WantsARow(c, s, s.pc.code) then {s.pc.code} else {}
  }

  /**
   Without a post-roll the row is stored unasked, and kept if it fits. So the bag is left with the rows it
   owes exactly if the store fails, or the fault wants a row exactly when its row fits.
   */
  lemma ClosedBagHasItsRowsIff(c: Config, s: State, bag: Closed, stores: bool)
    requires Inv(c, s) && s.pc.Closing?
    ensures var after := StoredClosed(c, s, bag, stores);
            var fits := Fits(s.store.rows, s.pc.code, bag.at, c.cap);
            && (RowsAt(after.store, s.pc.path) == (if stores then OwedNow(c, s) else {}) <==>
                !stores || (WantsARow(c, s, s.pc.code) <==> fits))
            && (s.pc.path in after.store.disk <==> stores && fits)
  {
    var after, path := StoredClosed(c, s, bag, stores), s.pc.path;
    assert IsOpen(s, path);
    StoredForExactly(c, s, path, [s.pc.code], bag, stores);
    assert s.pc.code in RowsAt(after.store, path) <==> stores && Fits(s.store.rows, s.pc.code, bag.at, c.cap);
  }

  lemma RunExtends(c: Config, states: seq<State>, steps: seq<Step>, step: Step)
    requires IsRun(c, states, steps) && Enabled(c, states[|steps|], step)
    ensures IsRun(c, states + [After(c, states[|steps|], step)], steps + [step])
  {
  }

  /** A confirmed fault whose bag is being closed, without a post-roll. */
  lemma ClosingRun(c: Config, code: string, path: string) returns (states: seq<State>, steps: seq<Step>)
    requires code != "" && !c.postRoll
    ensures IsRun(c, states, steps)
    ensures var s := states[|steps|];
            s.pc == Closing(code, path, Some(path)) && s.store.rows == [] && !s.guard
  {
    var s1 := Confirmed(c, START, code, {});
    var s2 := OpenedAt(s1, path, true);
    states, steps := [START, s1, s2, ClosedNow(s2)], [Confirm(code, {}), Open(path, true), Close];
  }

  /** Reachable without a post-roll: a fault cleared while its bag is being closed keeps a row. */
  lemma ClearedFaultKeepsRow(code: string, path: string, bag: Closed) returns (states: seq<State>, steps: seq<Step>)
    requires code != ""
    ensures IsRun(Config(true, 1, true, false), states, steps)
    ensures code in states[|steps|].cleared && HasLink(states[|steps|].store.rows, code, path)
  {
    var c := Config(true, 1, true, false);
    states, steps := ClosingRun(c, code, path);
    var s := states[|steps|];
    RunsKeepRecordings(c, states, steps);
    RunExtends(c, states, steps, Clear(code));
    states, steps := states + [After(c, s, Clear(code))], steps + [Clear(code)];
    s := states[|steps|];
    RunsKeepRecordings(c, states, steps);
    RunExtends(c, states, steps, StoreClosed(bag, true));
    states, steps := states + [After(c, s, StoreClosed(bag, true))], steps + [StoreClosed(bag, true)];
    StoredForExactly(c, s, path, [code], bag, true);
    NoneAfterFits([], code, bag.at, 1);
    LinkAt(states[|steps|].store, path, code);
  }

  // ---------------------------------------------------------------- from confirmation to row

  /** The fault is one of the recording in `path`, which is in the window or taken out of it. */
  predicate Joined(s: State, path: string, code: string) {
    || (s.guard && path == s.bagPath && (code == s.primary || code in s.attached))
    || (path in s.taken && (code == s.taken[path].primary || code in s.taken[path].attached))
  }

  /** A confirmation inside the window joins its recording, up to the cap on attached faults. */
  lemma ConfirmJoins(c: Config, s: State, code: string, topics: set<string>)
    requires Inv(c, s) && Enabled(c, s, Confirm(code, topics)) && s.guard
    ensures var after := After(c, s, Confirm(code, topics));
            Joined(after, s.bagPath, code) <==> |s.attached| < 32 || Joined(s, s.bagPath, code)
  {
  }

  /** In entity mode its topics are recorded from then on, even past the cap, unless it was with the recording. */
  lemma ConfirmWidens(c: Config, s: State, code: string, topics: set<string>)
    requires Inv(c, s) && Enabled(c, s, Confirm(code, topics)) && s.guard && c.entityMode
    requires code != s.primary && (code !in s.attached || |s.attached| >= 32)
    ensures var after := After(c, s, Confirm(code, topics));
            && (after.filter == {} <==> s.filter == {} || topics == {})
            && (after.filter != {} ==> s.filter <= after.filter && topics <= after.filter)
  {
  }

  /** A fault that joined stays until its recording is stored, unless its clear takes it out. */
  lemma JoinedStays(c: Config, s: State, step: Step, path: string, code: string)
    requires Inv(c, s) && Enabled(c, s, step) && Joined(s, path, code) && code != ""
    requires !(step.FinalizeStore? && step.path == path)
    requires !(step == Clear(code) && c.autoCleanup && !KeepsHistory(c))
    ensures Joined(After(c, s, step), path, code)
  {
    if step.Publish? {
      assert !s.guard;
    }
  }

  /** Storing a recording gives a fault that is with it its row exactly if it wants one and that row fits. */
  lemma JoinedGetsRow(c: Config, s: State, path: string, codes: seq<string>, bag: Closed, code: string)
    requires Inv(c, s) && Enabled(c, s, FinalizeStore(path, codes, bag, true)) && Joined(s, path, code) && code != ""
    ensures HasLink(FinalizedAt(c, s, path, codes, bag, true).store.rows, code, path) <==>
            WantsARow(c, s, code) && Fits(s.store.rows, code, bag.at, c.cap)
  {
    assert IsOpen(s, path);
    assert code in codes <==> WantsARow(c, s, code);
    StoredForExactly(c, s, path, codes, bag, true);
    LinkAt(FinalizedAt(c, s, path, codes, bag, true).store, path, code);
  }

  // ---------------------------------------------------------------- the capture object

  /** The fields of the capture; the fault store, the disk and other threads are the ghost state beside it. */
  class RosbagCapture {
    const config: Config
    var guard: bool
    var primary: string
    var bagPath: string
    var attached: set<string>
    var writer: Option<string>
    var filter: set<string>

    constructor (config: Config)
      ensures this.config == config && Matches(START)
    {
      this.config := config;
      guard, primary, bagPath, attached, writer, filter := false, "", "", {}, None, {};
    }

    ghost predicate Matches(s: State)
      reads this
    {
      && guard == s.guard && primary == s.primary && bagPath == s.bagPath
      && attached == s.attached && writer == s.writer && filter == s.filter
    }

    method WidenCaptureFilterFor(topics: set<string>, ghost s: State)
      requires Matches(s)
      modifies this`filter
      ensures Matches(Widened(config, s, topics))
    {
      if !config.entityMode {
        return;
      }
      if filter == {} {
        return;
      }
      if topics == {} {
        filter := {};
        return;
      }
      filter := filter + topics;
    }

    method AttachToActiveRecording(code: string, topics: set<string>, ghost s: State) returns (joins: bool)
      requires Matches(s)
      modifies this`attached, this`filter
      ensures joins == s.guard
      ensures Matches(if joins then Confirmed(config, s, code, topics) else s)
    {
      if !guard {
        return false;
      }
      if code == primary {
        return true;
      }
      if |attached| >= MAX_ATTACHED {
        WidenCaptureFilterFor(topics, s);
        return true;
      }
      if code !in attached {
        attached := attached + {code};
        WidenCaptureFilterFor(topics, s.(attached := attached));
      }
      return true;
    }

    /** The part of a confirmation before any bag is opened. */
    method BeginConfirmation(code: string, topics: set<string>, ghost s: State) returns (opens: bool)
      requires Matches(s) && Enabled(config, s, Confirm(code, topics))
      modifies this`attached, this`filter
      ensures Matches(After(config, s, Confirm(code, topics)))
      ensures opens == After(config, s, Confirm(code, topics)).pc.Resolved?
    {
      var joins := AttachToActiveRecording(code, topics, s);
      if joins {
        return false;
      }
      filter := if config.entityMode then topics else {};
      return true;
    }

    method PublishRecording(code: string, path: string, ghost s: State)
      requires Matches(s) && s.pc == Opened(code, path) && config.postRoll
      modifies this
      ensures Matches(After(config, s, Publish))
    {
      primary, bagPath, attached, guard := code, path, {}, true;
    }

    /** The guard, the state and the writer change hands under one lock. */
    method TakeRecording(ghost s: State) returns (path: string, recording: Option<Taken>)
      requires Matches(s)
      modifies this
      ensures Matches(After(config, s, FinalizeTake))
      ensures recording.Some? <==> s.guard
      ensures recording.Some? ==> path == s.bagPath && TakenOut(s).taken == s.taken[path := recording.value]
    {
      if !guard {
        return "", None;
      }
      path := bagPath;
      recording := Some(Taken(primary, attached, writer));
      guard, attached, primary, bagPath, writer, filter := false, {}, "", "", None, {};
    }

    predicate Wants(code: string, cleared: set<string>) {
      code != "" && (!config.autoCleanup || KeepsHistory(config) || code !in cleared)
    }

    /** One row per fault the recording covers and that still wants one: the primary, then the attached. */
    method BuildRows(t: Taken, path: string, bag: Closed, cleared: set<string>, ghost s: State)
      returns (rows: seq<Info>)
      requires cleared == s.cleared && t.primary !in t.attached
      ensures IsBurst(rows, path, bag.size, bag.at) && Lists(CodesIn(rows), Owed(config, s, t))
    {
      ghost var owed := Owed(config, s, t);
      rows := OneMoreRow([], t.primary, path, bag, cleared, owed, {});
      var todo := t.attached;
      ghost var done := {t.primary};
      while todo != {}
        invariant forall code :: code in todo ==> code in t.attached && code !in done
        invariant forall code :: code in t.attached + {t.primary} && code !in todo ==> code in done
        invariant IsBurst(rows, path, bag.size, bag.at) && ListsWithin(CodesIn(rows), owed, done)
        decreases |todo|
      {
        var code :| code in todo;
        rows := OneMoreRow(rows, code, path, bag, cleared, owed, done);
        todo, done := todo - {code}, done + {code};
      }
    }

    /** One more fault of the recording, with or without a row. */
    method OneMoreRow(rows: seq<Info>, code: string, path: string, bag: Closed, cleared: set<string>,
                      ghost owed: set<string>, ghost done: set<string>)
      returns (more: seq<Info>)
      requires IsBurst(rows, path, bag.size, bag.at) && ListsWithin(CodesIn(rows), owed, done)
      requires code !in done && (code in owed <==> Wants(code, cleared))
      ensures IsBurst(more, path, bag.size, bag.at) && ListsWithin(CodesIn(more), owed, done + {code})
    {
      more := rows;
      if Wants(code, cleared) {
        OneMoreInfo(rows, code, path, bag.size, bag.at);
        more := rows + [Info(code, Rows.RecordingId(path), path, bag.size, bag.at)];
      }
    }

    method DropCleared(code: string, ghost s: State)
      requires Matches(s)
      modifies this`attached, this`primary
      ensures Matches(After(config, s, Clear(code)))
    {
      if !config.autoCleanup || KeepsHistory(config) {
        return;
      }
      if guard {
        attached := attached - {code};
        if code == primary {
          primary := "";
        }
      }
    }
  }
}
