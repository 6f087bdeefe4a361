/**
 The authentication discovery cache of one agent: probes that check and then save, invalidations
 that stamp and then mark, and observed evidence on its own timeline.

 The check and the save of a probe's write are two sections, and so are the stamp and the mark of
 an invalidation; anything can come between them.
 */
module DiscoveryCache {
  import opened Collections

  /** One durable row. `checkedAt` is empty until a probe confirmed the methods. */
  datatype Row = Row(methods: seq<string>, logout: bool, checkedAt: Option<nat>, stale: bool,
                     observed: Option<string>, observedAt: Option<nat>)

  datatype Discovery = Discovery(methods: seq<string>, logout: bool)

  datatype Kind = MarkStale | DeleteRow

  // ------------------------------------------------------------ the store's four writes

  /** Saves discovery data, merging the observed fields of the row there is. */
  function SaveRow(row: Option<Row>, d: Discovery, at: nat): Row {
    var observed := if row.Some? then row.value.observed else None;
    var observedAt := if row.Some? then row.value.observedAt else None;
    Row(d.methods, d.logout, Some(at), false, observed, observedAt)
  }

  /** Saves observed evidence, in a minimal row when there is none. */
  function ObserveRow(row: Option<Row>, observed: string, at: nat): Row {
    var kept := if row.Some? then row.value else Row([], false, None, false, None, None);
    kept.(observed := Some(observed), observedAt := Some(at))
  }

  function StrikeRow(row: Option<Row>, kind: Kind): Option<Row> {
    if row.None? || kind.DeleteRow? then None else Some(row.value.(stale := true))
  }

  predicate SameDiscovery(a: Row, b: Row) {
    a.methods == b.methods && a.logout == b.logout && a.checkedAt == b.checkedAt && a.stale == b.stale
  }

  predicate SameEvidence(a: Row, b: Row) {
    a.observed == b.observed && a.observedAt == b.observedAt
  }

  /** A discovery write and an evidence write commute, whatever row there was, and each leaves the
      other's fields alone. */
  lemma DiscoveryAndEvidenceCommute(row: Option<Row>, d: Discovery, at: nat, observed: string, observedAt: nat)
    ensures ObserveRow(Some(SaveRow(row, d, at)), observed, observedAt)
            == SaveRow(Some(ObserveRow(row, observed, observedAt)), d, at)
    ensures row.Some? ==> SameEvidence(SaveRow(row, d, at), row.value)
    ensures row.Some? ==> SameDiscovery(ObserveRow(row, observed, observedAt), row.value)
    ensures row.None? ==> ObserveRow(row, observed, observedAt).checkedAt == None
    ensures row.Some? <==> StrikeRow(Some(ObserveRow(row, observed, observedAt)), MarkStale)
                           == Some(ObserveRow(StrikeRow(row, MarkStale), observed, observedAt))
  {
  }

  // ------------------------------------------------------------ every interleaving

  /** A probe past its check: when it started, how many invalidations were stamped by then, and
      whether one stamped later has already struck the row. */
  datatype Passed = Passed(startedAt: nat, seen: nat, struck: bool)

  /** Who wrote the row's discovery data; `unmarked` when a later mark failed in the store. A row kept
      from an earlier process was written before this process's clock began, at -1. */
  datatype Writer = Writer(startedAt: int, seen: nat, struck: bool, unmarked: bool)

  /** Invalidations are numbered 1 to `stamps` as they are stamped; `marking` holds those not yet
      carried to the row. Times are in seconds. */
  datatype Cache = Cache(
    now: nat,
    invalidatedAt: Option<nat>,
    row: Option<Row>,
    probes: map<nat, nat>,
    passed: map<nat, Passed>,
    stamps: nat,
    marking: map<nat, Kind>,
    writer: Option<Writer>)

  datatype Action =
    | Tick
    | StartProbe(probe: nat)
    | DropProbe(probe: nat)
    | Check(probe: nat)
    | Save(probe: nat, d: Discovery, saved: bool)
    | Stamp(kind: Kind)
    | Mark(number: nat, saved: bool)
    | Observe(observed: string, saved: bool)
    | CheckAndSave(probe: nat, d: Discovery, saved: bool)
    | StampAndMark(kind: Kind, saved: bool)

  predicate Superseded(s: Cache, startedAt: int) {
    s.invalidatedAt.Some? && startedAt <= s.invalidatedAt.value
  }

  function CheckProbe(s: Cache, probe: nat): Cache
    requires probe in s.probes
  {
    var startedAt := s.probes[probe];
    var s' := s.(probes := s.probes - {probe});
    if Superseded(s, startedAt) then s'
    else s'.(passed := s.passed[probe := Passed(startedAt, s.stamps, false)])
  }

  function SaveProbe(s: Cache, probe: nat, d: Discovery, saved: bool): Cache
    requires probe in s.passed
  {
    var p := s.passed[probe];
    var s' := s.(passed := s.passed - {probe});
    if !saved then s'
    else s'.(row := Some(SaveRow(s.row, d, s.now)), writer := Some(Writer(p.startedAt, p.seen, p.struck, false)))
  }

  function StampNow(s: Cache, kind: Kind): Cache {
    s.(invalidatedAt := Some(s.now), stamps := s.stamps + 1, marking := s.marking[s.stamps + 1 := kind])
  }

  function Strike(passed: map<nat, Passed>, number: nat): map<nat, Passed> {
    map probe | probe in passed :: passed[probe].(struck := passed[probe].struck || passed[probe].seen < number)
  }

  function MarkRow(s: Cache, number: nat, saved: bool): Cache
    requires number in s.marking
  {
    var s' := s.(marking := s.marking - {number}, passed := Strike(s.passed, number));
    if saved then
      var row := StrikeRow(s.row, s.marking[number]);
      s'.(row := row, writer := if row.None? then None else s.writer)
    else if s.writer.Some? && s.writer.value.seen < number then
      s'.(writer := Some(s.writer.value.(unmarked := true)))
    else s'
  }

  /** A step whose guard fails leaves the state as it is. */
  function Apply(s: Cache, a: Action): Cache {
    match a
    case Tick => s.(now := s.now + 1)
    case StartProbe(probe) =>
      if probe in s.probes || probe in s.passed then s else s.(probes := s.probes[probe := s.now])
    case DropProbe(probe) => s.(probes := s.probes - {probe})
    case Check(probe) => if probe in s.probes then CheckProbe(s, probe) else s
    case Save(probe, d, saved) => if probe in s.passed then SaveProbe(s, probe, d, saved) else s
    case Stamp(kind) => StampNow(s, kind)
    case Mark(number, saved) => if number in s.marking then MarkRow(s, number, saved) else s
    case Observe(observed, saved) => if saved then s.(row := Some(ObserveRow(s.row, observed, s.now))) else s
    case CheckAndSave(probe, d, saved) =>
      if probe !in s.probes then s
      else
        var s' := CheckProbe(s, probe);
        if probe in s'.passed then SaveProbe(s', probe, d, saved) else s'
    case StampAndMark(kind, saved) => MarkRow(StampNow(s, kind), s.stamps + 1, saved)
  }

  function Run(s: Cache, actions: seq<Action>): Cache
    decreases |actions|
  {
    if actions == [] then s else Run(Apply(s, actions[0]), actions[1..])
  }

  /** A start over a row, or none, from earlier runs; no invalidation was stamped in this one. */
  function Fresh(row: Option<Row>): Cache {
    Cache(0, None, row, map[], map[], 0, map[], StartWriter(row))
  }

  predicate Checked(row: Option<Row>) {
    row.Some? && row.value.checkedAt.Some?
  }

  function StartWriter(row: Option<Row>): Option<Writer> {
    if Checked(row) then Some(Writer(-1, 0, false, false)) else None
  }

  // ------------------------------------------------------------ invariant

  /** Nothing was stamped since the check exactly when the probe started after the last stamp. */
  predicate UpToDate(s: Cache, startedAt: int, seen: nat) {
    seen <= s.stamps && startedAt <= s.now && (seen == s.stamps <==> !Superseded(s, startedAt))
  }

  predicate PassedInv(s: Cache, p: Passed) {
    && UpToDate(s, p.startedAt, p.seen)
    && (p.struck ==> p.seen < s.stamps)
    && (!p.struck ==> forall i :: p.seen < i <= s.stamps ==> i in s.marking)
  }

  /** A discovered row neither struck nor unmarked still has every later invalidation ahead of it, or
      is stale. */
  predicate WriterInv(s: Cache, w: Writer) {
    && s.row.Some? && UpToDate(s, w.startedAt, w.seen)
    && (w.struck || w.unmarked ==> w.seen < s.stamps)
    && (!w.struck && !w.unmarked && !s.row.value.stale ==> forall i :: w.seen < i <= s.stamps ==> i in s.marking)
  }

  ghost predicate Inv(s: Cache) {
    && (s.invalidatedAt.Some? <==> s.stamps > 0)
    && (s.invalidatedAt.Some? ==> s.invalidatedAt.value <= s.now)
    && (forall i :: i in s.marking ==> 1 <= i <= s.stamps)
    && (forall p :: p in s.probes ==> s.probes[p] <= s.now && p !in s.passed)
    && (forall p :: p in s.passed ==> PassedInv(s, s.passed[p]))
    && (s.writer.Some? <==> Checked(s.row))
    && (s.writer.Some? ==> WriterInv(s, s.writer.value))
  }

  lemma CheckKeepsInv(s: Cache, probe: nat)
    requires Inv(s) && probe in s.probes
    ensures Inv(CheckProbe(s, probe))
  {
    var s' := CheckProbe(s, probe);
    forall p | p in s'.passed
      ensures PassedInv(s', s'.passed[p])
    {
      if p in s.passed { assert PassedInv(s, s.passed[p]); }
    }
  }

  lemma SaveKeepsInv(s: Cache, probe: nat, d: Discovery, saved: bool)
    requires Inv(s) && probe in s.passed
    ensures Inv(SaveProbe(s, probe, d, saved))
  {
    assert PassedInv(s, s.passed[probe]);
    var s' := SaveProbe(s, probe, d, saved);
    forall p | p in s'.passed
      ensures PassedInv(s', s'.passed[p])
    {
      assert PassedInv(s, s.passed[p]);
    }
  }

  lemma StampKeepsInv(s: Cache, kind: Kind)
    requires Inv(s)
    ensures Inv(StampNow(s, kind))
  {
    var s' := StampNow(s, kind);
    forall p | p in s'.passed
      ensures PassedInv(s', s'.passed[p])
    {
      assert PassedInv(s, s.passed[p]);
    }
  }

  lemma MarkKeepsInv(s: Cache, number: nat, saved: bool)
    requires Inv(s) && number in s.marking
    ensures Inv(MarkRow(s, number, saved))
  {
    var s' := MarkRow(s, number, saved);
    forall p | p in s'.passed
      ensures PassedInv(s', s'.passed[p])
    {
      assert PassedInv(s, s.passed[p]);
    }
    if s'.writer.Some? {
      assert WriterInv(s, s.writer.value);
    }
  }

  lemma QuietStepKeepsInv(s: Cache, a: Action)
    requires Inv(s) && (a.Tick? || a.StartProbe? || a.DropProbe? || a.Observe?)
    ensures Inv(Apply(s, a))
  {
    var s' := Apply(s, a);
    forall p | p in s'.passed
      ensures PassedInv(s', s'.passed[p])
    {
      assert PassedInv(s, s.passed[p]);
    }
  }

  lemma StepKeepsInv(s: Cache, a: Action)
    requires Inv(s)
    ensures Inv(Apply(s, a))
  {
    hide Inv;
    match a
    case Check(probe) => if probe in s.probes { CheckKeepsInv(s, probe); }
    case Save(probe, d, saved) => if probe in s.passed { SaveKeepsInv(s, probe, d, saved); }
    case Stamp(kind) => StampKeepsInv(s, kind);
    case Mark(number, saved) => if number in s.marking { MarkKeepsInv(s, number, saved); }
    case CheckAndSave(probe, d, saved) =>
      if probe in s.probes {
        CheckKeepsInv(s, probe);
        if probe in CheckProbe(s, probe).passed { SaveKeepsInv(CheckProbe(s, probe), probe, d, saved); }
      }
    case StampAndMark(kind, saved) =>
      StampKeepsInv(s, kind);
      MarkKeepsInv(StampNow(s, kind), s.stamps + 1, saved);
    case _ => QuietStepKeepsInv(s, a);
  }

  lemma {:induction false} RunKeepsInv(s: Cache, actions: seq<Action>)
    requires Inv(s)
    ensures Inv(Run(s, actions))
    decreases |actions|
  {
    hide Inv, Apply;
    if actions != [] {
      StepKeepsInv(s, actions[0]);
      RunKeepsInv(Apply(s, actions[0]), actions[1..]);
    }
  }

  // ------------------------------------------------------------ results over every run

  /** The row holds discovery data that is not marked stale. */
  predicate Trusted(s: Cache) {
    Checked(s.row) && !s.row.value.stale
  }

  /** The row's data comes from a probe that started strictly after the last invalidation; without one,
      a row kept from an earlier process will do. */
  predicate Current(s: Cache) {
    s.writer.Some? && !Superseded(s, s.writer.value.startedAt)
  }

  /** In every run from any kept row, with no invalidation halfway: a trusted row is current exactly
      when no invalidation came wholly between its writer's check and save and no mark since failed in
      the store. */
  lemma InvalidationBeatsEarlierProbes(row: Option<Row>, actions: seq<Action>)
    requires Run(Fresh(row), actions).marking == map[] && Trusted(Run(Fresh(row), actions))
    ensures var s := Run(Fresh(row), actions);
            s.writer.Some? && (Current(s) <==> !s.writer.value.struck && !s.writer.value.unmarked)
  {
    RunKeepsInv(Fresh(row), actions);
    QuietTrustIsExact(Run(Fresh(row), actions));
  }

  lemma QuietTrustIsExact(s: Cache)
    requires Inv(s) && s.marking == map[] && Trusted(s)
    ensures s.writer.Some? && (Current(s) <==> !s.writer.value.struck && !s.writer.value.unmarked)
  {
    assert WriterInv(s, s.writer.value);
    assert !s.writer.value.struck && !s.writer.value.unmarked && s.writer.value.seen < s.stamps ==>
             s.stamps in s.marking;
  }

  // ------------------------------------------------------------ the same, step by step

  /** The invalidations a step carries to the row, whether or not the store takes them. */
  function MarkedBy(s: Cache, a: Action): set<nat> {
    match a
    case Mark(number, _) => if number in s.marking then {number} else {}
    case StampAndMark(_, _) => {s.stamps + 1}
    case _ => {}
  }

  function FailedBy(s: Cache, a: Action): set<nat> {
    if (a.Mark? || a.StampAndMark?) && !a.saved then MarkedBy(s, a) else {}
  }

  function MarkedIn(s: Cache, actions: seq<Action>): set<nat>
    decreases |actions|
  {
    if actions == [] then {} else MarkedBy(s, actions[0]) + MarkedIn(Apply(s, actions[0]), actions[1..])
  }

  function FailedIn(s: Cache, actions: seq<Action>): set<nat>
    decreases |actions|
  {
    if actions == [] then {} else FailedBy(s, actions[0]) + FailedIn(Apply(s, actions[0]), actions[1..])
  }

  predicate SomeAfter(numbers: set<nat>, seen: nat) {
    exists n :: n in numbers && n > seen
  }

  lemma SomeAfterEither(a: set<nat>, b: set<nat>, seen: nat)
    ensures SomeAfter(a + b, seen) <==> SomeAfter(a, seen) || SomeAfter(b, seen)
  {
    if n :| n in a && n > seen {
      assert n in a + b;
    }
    if n :| n in b && n > seen {
      assert n in a + b;
    }
  }

  predicate Saves(a: Action) {
    (a.Save? || a.CheckAndSave?) && a.saved
  }

  lemma PassedStep(s: Cache, a: Action, probe: nat)
    requires probe in s.passed && probe !in s.probes && !(a.Save? && a.probe == probe)
    ensures var s' := Apply(s, a);
            && probe in s'.passed && s'.passed[probe].startedAt == s.passed[probe].startedAt
            && s'.passed[probe].seen == s.passed[probe].seen
            && (s'.passed[probe].struck <==> s.passed[probe].struck || SomeAfter(MarkedBy(s, a), s.passed[probe].seen))
  {
    var seen := s.passed[probe].seen;
    if a.Mark? && a.number in s.marking {
      assert SomeAfter({a.number}, seen) <==> a.number > seen;
    }
    if a.StampAndMark? {
      assert SomeAfter({s.stamps + 1}, seen) <==> s.stamps + 1 > seen;
    }
  }

  /** While a probe waits to save, it is struck exactly when some invalidation stamped after its check
      is carried to the row. */
  lemma {:induction false} StruckExactly(s: Cache, actions: seq<Action>, probe: nat)
    requires Inv(s) && probe in s.passed && forall a :: a in actions ==> !(a.Save? && a.probe == probe)
    ensures var s' := Run(s, actions);
            && probe in s'.passed && s'.passed[probe].startedAt == s.passed[probe].startedAt
            && s'.passed[probe].seen == s.passed[probe].seen
            && (s'.passed[probe].struck <==>
                  s.passed[probe].struck || SomeAfter(MarkedIn(s, actions), s.passed[probe].seen))
    decreases |actions|
  {
    if actions == [] {
      assert !SomeAfter({}, s.passed[probe].seen);
    } else {
      var a := actions[0];
      assert a in actions && forall x :: x in actions[1..] ==> x in actions;
      StepKeepsInv(s, a);
      PassedStep(s, a, probe);
      SomeAfterEither(MarkedBy(s, a), MarkedIn(Apply(s, a), actions[1..]), s.passed[probe].seen);
      hide Inv, Apply, MarkedBy, SomeAfter;
      StruckExactly(Apply(s, a), actions[1..], probe);
    }
  }

  /** Same writer, or none once the row is gone; unmarked exactly as said. */
  predicate WriterAfter(w: Option<Writer>, w': Option<Writer>, failed: set<nat>) {
    w'.Some? ==> w.Some? && w'.value.startedAt == w.value.startedAt && w'.value.seen == w.value.seen
                 && w'.value.struck == w.value.struck
                 && (w'.value.unmarked <==> w.value.unmarked || SomeAfter(failed, w.value.seen))
  }

  lemma WriterStep(s: Cache, a: Action)
    requires Inv(s) && !Saves(a)
    ensures WriterAfter(s.writer, Apply(s, a).writer, FailedBy(s, a))
  {
    if s.writer.Some? {
      var seen := s.writer.value.seen;
      assert !SomeAfter({}, seen);
      if a.Mark? {
        assert SomeAfter({a.number}, seen) <==> a.number > seen;
      }
      if a.StampAndMark? {
        assert SomeAfter({s.stamps + 1}, seen) <==> s.stamps + 1 > seen;
      }
    }
  }

  /** While nothing is saved, the row's writer is unmarked exactly when some invalidation stamped after
      its check fails in the store. */
  lemma {:induction false} UnmarkedExactly(s: Cache, actions: seq<Action>)
    requires Inv(s) && forall a :: a in actions ==> !Saves(a)
    ensures WriterAfter(s.writer, Run(s, actions).writer, FailedIn(s, actions))
    decreases |actions|
  {
    if actions == [] {
      assert s.writer.Some? ==> !SomeAfter({}, s.writer.value.seen);
    } else {
      var a := actions[0];
      assert a in actions && forall x :: x in actions[1..] ==> x in actions;
      StepKeepsInv(s, a);
      WriterStep(s, a);
      if s.writer.Some? {
        SomeAfterEither(FailedBy(s, a), FailedIn(Apply(s, a), actions[1..]), s.writer.value.seen);
      }
      hide Inv, Apply, FailedBy, SomeAfter;
      UnmarkedExactly(Apply(s, a), actions[1..]);
    }
  }

  /** A probe's check, whatever comes between, its save, and whatever comes after short of another save:
      with no invalidation halfway, a trusted row is current exactly when no invalidation stamped after
      the check was carried to the row before the save, and none of them failed in the store after it. */
  lemma SavedRowIsCurrentExactly(row: Option<Row>, before: seq<Action>, probe: nat, between: seq<Action>, d: Discovery,
                                 after: seq<Action>)
    requires var s0 := Run(Fresh(row), before); probe in s0.probes && !Superseded(s0, s0.probes[probe])
    requires forall a :: a in between ==> !(a.Save? && a.probe == probe)
    requires forall a :: a in after ==> !Saves(a)
    ensures var s0 := Run(Fresh(row), before);
            var s1 := Apply(s0, Check(probe));
            var s2 := Apply(Run(s1, between), Save(probe, d, true));
            var s3 := Run(s2, after);
            s3.marking == map[] && Trusted(s3) ==>
              (Current(s3) <==>
                 !SomeAfter(MarkedIn(s1, between), s0.stamps) && !SomeAfter(FailedIn(s2, after), s0.stamps))
  {
    var s0 := Run(Fresh(row), before);
    var s1 := Apply(s0, Check(probe));
    RunKeepsInv(Fresh(row), before);
    hide Run;
    StepKeepsInv(s0, Check(probe));
    StruckExactly(s1, between, probe);
    RunKeepsInv(s1, between);
    var s1' := Run(s1, between);
    var s2 := Apply(s1', Save(probe, d, true));
    StepKeepsInv(s1', Save(probe, d, true));
    UnmarkedExactly(s2, after);
    RunKeepsInv(s2, after);
    var s3 := Run(s2, after);
    if s3.marking == map[] && Trusted(s3) {
      QuietTrustIsExact(s3);
    }
  }

  /** So with a row kept from an earlier process while nothing is saved: trusted, it is current exactly
      when nothing was invalidated; it can only be trusted then because a mark failed. */
  lemma KeptRowIsCurrentExactly(row: Option<Row>, actions: seq<Action>)
    requires forall a :: a in actions ==> !Saves(a)
    requires Run(Fresh(row), actions).marking == map[] && Trusted(Run(Fresh(row), actions))
    ensures Current(Run(Fresh(row), actions)) <==> Run(Fresh(row), actions).stamps == 0
    ensures Current(Run(Fresh(row), actions)) <==> !SomeAfter(FailedIn(Fresh(row), actions), 0)
  {
    UnmarkedExactly(Fresh(row), actions);
    RunKeepsInv(Fresh(row), actions);
    QuietTrustIsExact(Run(Fresh(row), actions));
  }

  /** A mark that fails in the store leaves a kept row trusted although it was invalidated. */
  lemma FailedMarkLeavesAnOutdatedRow(d: Discovery, at: nat)
    ensures var row := SaveRow(None, d, at);
            var s := Run(Fresh(Some(row)), [Tick, StampAndMark(MarkStale, false)]);
            Trusted(s) && s.row == Some(row) && s.marking == map[] && s.stamps == 1 && !Current(s)
  {
    var s0 := Fresh(Some(SaveRow(None, d, at)));
    var a, b := Tick, StampAndMark(MarkStale, false);
    var s1 := Apply(s0, a);
    var s2 := Apply(s1, b);
    assert s2.marking == map[];
    assert [a, b][1..] == [b] && [b][1..] == [];
    assert Run(s0, [a, b]) == Run(s1, [b]) == Run(s2, []);
  }

  // ------------------------------------------------------------ both as single steps

  /** Writes and invalidations are each one step, and the marks land. */
  predicate Atomic(a: Action) {
    !a.Check? && !a.Save? && !a.Stamp? && !a.Mark? && (a.StampAndMark? ==> a.saved)
  }

  predicate AtomicInv(s: Cache) {
    s.passed == map[] && s.marking == map[] && (s.writer.Some? ==> !s.writer.value.struck && !s.writer.value.unmarked)
  }

  lemma AtomicStep(s: Cache, a: Action)
    requires Inv(s) && AtomicInv(s) && Atomic(a)
    ensures AtomicInv(Apply(s, a))
  {
    if a.CheckAndSave? && a.probe in s.probes {
      var s' := CheckProbe(s, a.probe);
      assert s'.passed - {a.probe} == map[];
      assert a.probe !in s'.passed ==> s'.passed == map[];
    }
    if a.StampAndMark? {
      assert StampNow(s, a.kind).marking - {s.stamps + 1} == map[];
      assert Strike(s.passed, s.stamps + 1) == map[];
    }
  }

  lemma {:induction false} AtomicRunKeepsInv(s: Cache, actions: seq<Action>)
    requires Inv(s) && AtomicInv(s) && forall a :: a in actions ==> Atomic(a)
    ensures Inv(Run(s, actions)) && AtomicInv(Run(s, actions))
    decreases |actions|
  {
    if actions != [] {
      hide Inv, Apply, AtomicInv;
      assert actions[0] in actions;
      StepKeepsInv(s, actions[0]);
      AtomicStep(s, actions[0]);
      AtomicRunKeepsInv(Apply(s, actions[0]), actions[1..]);
    }
  }

  /** With both as single steps and marks that land, in every run from any kept row: a trusted row is
      current, and after any invalidation it was written by a probe of this run that started after it. */
  lemma AtomicWritesAreAlwaysCurrent(row: Option<Row>, actions: seq<Action>)
    requires forall a :: a in actions ==> Atomic(a)
    ensures var s := Run(Fresh(row), actions);
            Trusted(s) ==> Current(s) && (s.invalidatedAt.Some? ==> s.writer.value.startedAt > s.invalidatedAt.value)
  {
    AtomicRunKeepsInv(Fresh(row), actions);
    if Trusted(Run(Fresh(row), actions)) {
      QuietTrustIsExact(Run(Fresh(row), actions));
    }
  }

  /** In every run, a probe that started no later than the last invalidation writes nothing, in one step
      or in two with anything between: a forgotten row is not recreated by it, and a stale one stays stale. */
  lemma SupersededProbeWritesNothing(row: Option<Row>, actions: seq<Action>, probe: nat, between: seq<Action>,
                                     d: Discovery, saved: bool)
    requires var s := Run(Fresh(row), actions); probe in s.probes && Superseded(s, s.probes[probe])
    requires forall a :: a in between ==> !(a.StartProbe? && a.probe == probe)
    ensures var s := Run(Fresh(row), actions);
            var s' := Run(Apply(s, Check(probe)), between);
            && Apply(s, CheckAndSave(probe, d, saved)) == s.(probes := s.probes - {probe})
            && Apply(s', Save(probe, d, saved)) == s'
  {
    RunKeepsInv(Fresh(row), actions);
    var s := Run(Fresh(row), actions);
    RefusedStaysOut(Apply(s, Check(probe)), between, probe);
  }

  lemma {:induction false} RefusedStaysOut(s: Cache, actions: seq<Action>, probe: nat)
    requires probe !in s.probes && probe !in s.passed
    requires forall a :: a in actions ==> !(a.StartProbe? && a.probe == probe)
    ensures probe !in Run(s, actions).passed
    decreases |actions|
  {
    if actions != [] {
      var s' := Apply(s, actions[0]);
      assert actions[0] in actions && forall x :: x in actions[1..] ==> x in actions;
      assert probe !in s'.probes && probe !in s'.passed;
      hide Apply;
      RefusedStaysOut(s', actions[1..], probe);
    }
  }

  /** The race: an invalidation that falls between a probe's check and its save is lost. */
  lemma RaceLeavesAnOutdatedRow(d: Discovery, kind: Kind)
    ensures var s := Run(Fresh(None), [StartProbe(1), Check(1), Tick, Stamp(kind), Mark(1, true), Save(1, d, true)]);
            Trusted(s) && s.marking == map[] && s.writer.Some? && s.writer.value.struck && !Current(s)
  {
    var s3 := RaceUpToTheStamp(kind);
    var s5 := RaceFromTheStamp(s3, d, kind);
    var a, b, c, e, f, g := StartProbe(1), Check(1), Tick, Stamp(kind), Mark(1, true), Save(1, d, true);
    assert [a, b, c, e, f, g] == [a, b, c, e] + [f, g];
    RunInPieces(Fresh(None), [a, b, c, e], [f, g]);
  }

  lemma RaceUpToTheStamp(kind: Kind) returns (s: Cache)
    ensures s == Run(Fresh(None), [StartProbe(1), Check(1), Tick, Stamp(kind)])
    ensures s == Cache(1, Some(1), None, map[], map[1 := Passed(0, 0, false)], 1, map[1 := kind], None)
  {
    var a, b, c, e := StartProbe(1), Check(1), Tick, Stamp(kind);
    var s1 := Apply(Fresh(None), a);
    var s2 := Apply(s1, b);
    var s3 := Apply(s2, c);
    s := Apply(s3, e);
    assert [a, b, c, e][1..] == [b, c, e] && [b, c, e][1..] == [c, e] && [c, e][1..] == [e] && [e][1..] == [];
    assert Run(Fresh(None), [a, b, c, e]) == Run(s1, [b, c, e]) == Run(s2, [c, e]) == Run(s3, [e]) == Run(s, []);
  }

  lemma RaceFromTheStamp(s3: Cache, d: Discovery, kind: Kind) returns (s: Cache)
    requires s3 == Cache(1, Some(1), None, map[], map[1 := Passed(0, 0, false)], 1, map[1 := kind], None)
    ensures s == Run(s3, [Mark(1, true), Save(1, d, true)])
    ensures Trusted(s) && s.marking == map[] && s.invalidatedAt == Some(1)
            && s.writer == Some(Writer(0, 0, true, false))
  {
    var f, g := Mark(1, true), Save(1, d, true);
    var s4 := Apply(s3, f);
    s := Apply(s4, g);
    assert s4.passed[1] == Passed(0, 0, true) && s4.marking == map[];
    assert [f, g][1..] == [g] && [g][1..] == [];
    assert Run(s3, [f, g]) == Run(s4, [g]) == Run(s, []);
  }

  lemma {:induction false} RunInPieces(s: Cache, a: seq<Action>, b: seq<Action>)
    ensures Run(s, a + b) == Run(Run(s, a), b)
    decreases |a|
  {
    if a == [] {
      assert a + b == b;
    } else {
      assert (a + b)[0] == a[0] && (a + b)[1..] == a[1..] + b;
      RunInPieces(Apply(s, a[0]), a[1..], b);
    }
  }

  // ------------------------------------------------------------ what the row holds

  /** What a probe past its check has the store save. */
  function SavedBy(s: Cache, a: Action): Option<Discovery> {
    match a
    case Save(probe, d, saved) => if saved && probe in s.passed then Some(d) else None
    case CheckAndSave(probe, d, saved) =>
      if saved && probe in s.probes && !Superseded(s, s.probes[probe]) then Some(d) else None
    case _ => None
  }

  /** The invalidation a step carries to the row. */
  function LandedBy(s: Cache, a: Action): Option<Kind> {
    match a
    case Mark(number, saved) => if saved && number in s.marking then Some(s.marking[number]) else None
    case StampAndMark(kind, saved) => if saved then Some(kind) else None
    case _ => None
  }

  /** What was last saved and not deleted since, when, and whether a stale mark landed since. */
  datatype Known = Known(d: Discovery, at: nat, marked: bool)

  function KnownAfter(s: Cache, a: Action, known: Option<Known>): Option<Known> {
    if SavedBy(s, a).Some? then Some(Known(SavedBy(s, a).value, s.now, false))
    else if LandedBy(s, a) == Some(DeleteRow) then None
    else if LandedBy(s, a) == Some(MarkStale) && known.Some? then Some(known.value.(marked := true))
    else known
  }

  function LastSaved(s: Cache, known: Option<Known>, actions: seq<Action>): Option<Known>
    decreases |actions|
  {
    if actions == [] then known else LastSaved(Apply(s, actions[0]), KnownAfter(s, actions[0], known), actions[1..])
  }

  predicate Holds(row: Option<Row>, known: Option<Known>) {
    && (known.Some? <==> row.Some? && row.value.checkedAt.Some?)
    && (known.Some? ==> row.value.methods == known.value.d.methods && row.value.logout == known.value.d.logout
                        && row.value.checkedAt == Some(known.value.at) && row.value.stale == known.value.marked)
  }

  function KnownAtStart(row: Option<Row>): Option<Known> {
    if row.Some? && row.value.checkedAt.Some?
    then Some(Known(Discovery(row.value.methods, row.value.logout), row.value.checkedAt.value, row.value.stale))
    else None
  }

  lemma SaveHolds(s: Cache, a: Action, known: Option<Known>)
    requires Holds(s.row, known) && forall probe :: probe in s.probes ==> probe !in s.passed
    ensures Holds(Apply(s, a).row, KnownAfter(s, a, known))
  {
  }

  lemma {:induction false} HoldsTheLastSaved(s: Cache, known: Option<Known>, actions: seq<Action>)
    requires Inv(s) && Holds(s.row, known)
    ensures Holds(Run(s, actions).row, LastSaved(s, known, actions))
    decreases |actions|
  {
    if actions != [] {
      SaveHolds(s, actions[0], known);
      StepKeepsInv(s, actions[0]);
      hide Inv, Apply, KnownAfter, Holds;
      HoldsTheLastSaved(Apply(s, actions[0]), KnownAfter(s, actions[0], known), actions[1..]);
    }
  }

  /** In every run from any kept row: the row is checked exactly when something was saved, or kept, and not
      deleted since; its methods, logout flag and time are those of the last save, and it is stale exactly
      when a stale mark landed since. */
  lemma RowIsTheLastSaved(row: Option<Row>, actions: seq<Action>)
    ensures Holds(Run(Fresh(row), actions).row, LastSaved(Fresh(row), KnownAtStart(row), actions))
  {
    HoldsTheLastSaved(Fresh(row), KnownAtStart(row), actions);
  }

  /** An observation and its time. */
  type Sighting = (Option<string>, Option<nat>)

  function SeenAfter(s: Cache, a: Action, seen: Sighting): Sighting {
    if a.Observe? && a.saved then (Some(a.observed), Some(s.now))
    else if LandedBy(s, a) == Some(DeleteRow) then (None, None)
    else seen
  }

  function LastObserved(s: Cache, seen: Sighting, actions: seq<Action>): Sighting
    decreases |actions|
  {
    if actions == [] then seen else LastObserved(Apply(s, actions[0]), SeenAfter(s, actions[0], seen), actions[1..])
  }

  function Evidence(row: Option<Row>): Sighting {
    if row.Some? then (row.value.observed, row.value.observedAt) else (None, None)
  }

  lemma ObservedStep(s: Cache, a: Action)
    ensures Evidence(Apply(s, a).row) == SeenAfter(s, a, Evidence(s.row))
  {
  }

  /** And its evidence is what was last observed and not deleted since. */
  lemma {:induction false} EvidenceIsTheLastObserved(s: Cache, actions: seq<Action>)
    ensures Evidence(Run(s, actions).row) == LastObserved(s, Evidence(s.row), actions)
    decreases |actions|
  {
    if actions != [] {
      ObservedStep(s, actions[0]);
      hide Apply, SeenAfter, Evidence;
      EvidenceIsTheLastObserved(Apply(s, actions[0]), actions[1..]);
    }
  }

  // ------------------------------------------------------------ freshness

  /** Twenty-four hours, in seconds. */
  const STALE_AFTER: nat := 24 * 60 * 60

  datatype Freshness = Unknown | UpToDateNow | Recorded | Stale

  function DiscoveryFreshness(row: Option<Row>, justProbed: bool, now: nat): Freshness {
    if row.None? || row.value.checkedAt.None? then Unknown
    else if justProbed then UpToDateNow
    else if row.value.stale || now > row.value.checkedAt.value + STALE_AFTER then Stale
    else Recorded
  }

  function EvidenceFreshness(row: Option<Row>, justSeen: bool, now: nat): Freshness {
    if row.None? || row.value.observedAt.None? then Unknown
    else if justSeen then UpToDateNow
    else if now > row.value.observedAt.value + STALE_AFTER then Stale
    else Recorded
  }

  /** When each label is given: a day is 86400 seconds. */
  lemma LabelMeaning(row: Row, just: bool, now: nat)
    ensures DiscoveryFreshness(Some(row), just, now) == Unknown <==> row.checkedAt == None
    ensures DiscoveryFreshness(Some(row), just, now) == UpToDateNow <==> row.checkedAt.Some? && just
    ensures DiscoveryFreshness(Some(row), just, now) == Stale <==>
              row.checkedAt.Some? && !just && (row.stale || now - row.checkedAt.value > 86400)
    ensures EvidenceFreshness(Some(row), just, now) == Unknown <==> row.observedAt == None
    ensures EvidenceFreshness(Some(row), just, now) == UpToDateNow <==> row.observedAt.Some? && just
    ensures EvidenceFreshness(Some(row), just, now) == Stale <==>
              row.observedAt.Some? && !just && now - row.observedAt.value > 86400
    ensures DiscoveryFreshness(None, just, now) == EvidenceFreshness(None, just, now) == Unknown
  {
  }

  /** The two labels are independent: no discovery write moves the evidence label, no evidence write
      or invalidation mark moves the other's. */
  lemma LabelsAreIndependent(row: Row, d: Discovery, at: nat, observed: string, just: bool, now: nat)
    ensures EvidenceFreshness(Some(SaveRow(Some(row), d, at)), just, now) == EvidenceFreshness(Some(row), just, now)
    ensures EvidenceFreshness(StrikeRow(Some(row), MarkStale), just, now) == EvidenceFreshness(Some(row), just, now)
    ensures DiscoveryFreshness(Some(ObserveRow(Some(row), observed, at)), just, now)
            == DiscoveryFreshness(Some(row), just, now)
    ensures DiscoveryFreshness(StrikeRow(Some(row), MarkStale), false, now)
            == if row.checkedAt.None? then Unknown else Stale
  {
  }
}
