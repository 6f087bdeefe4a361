/**
 The event log over its store: sequence allocation, persist-before-publish, the bounded window,
 restart recovery and replay. Store failures are parameters of the calls that can fail.
 */
module EventLogs {
  import opened Collections
  import opened Events
  import opened LogModel
  import opened Replay

  // ------------------------------------------------------------ the code

  predicate Stored(rows: seq<Event>, num: nat) {
    exists e :: e in rows && e.num == num
  }

  /** The table's rows come in the order of their numbers, whenever they were inserted. */
  function Inserted(rows: seq<Event>, e: Event): seq<Event> {
    if rows == [] || e.num < rows[0].num then [e] + rows else [rows[0]] + Inserted(rows[1..], e)
  }

  lemma {:induction false} InsertedMembers(rows: seq<Event>, e: Event)
    ensures forall x :: x in Inserted(rows, e) <==> x in rows || x == e
  {
    if rows != [] && e.num >= rows[0].num {
      InsertedMembers(rows[1..], e);
      assert rows == [rows[0]] + rows[1..];
    }
  }

  lemma {:induction false} InsertedAtTheEnd(rows: seq<Event>, e: Event)
    requires Below(rows, e.num)
    ensures Inserted(rows, e) == rows + [e]
  {
    if rows != [] {
      InsertedAtTheEnd(rows[1..], e);
      assert rows == [rows[0]] + rows[1..];
    }
  }

  lemma {:induction false} InsertedInOrder(rows: seq<Event>, e: Event)
    requires Ascending(rows) && forall i :: 0 <= i < |rows| ==> rows[i].num != e.num
    ensures Ascending(Inserted(rows, e))
  {
    if rows != [] && e.num >= rows[0].num {
      var first, rest := rows[0], rows[1..];
      InsertedInOrder(rest, e);
      InsertedMembers(rest, e);
      forall i | 0 <= i < |Inserted(rest, e)|
        ensures first.num < Inserted(rest, e)[i].num
      {
        assert Inserted(rest, e)[i] in Inserted(rest, e);
      }
    }
  }

  lemma AboveMaxIsNew(rows: seq<Event>, num: nat)
    requires Ascending(rows) && MaxNum(rows) < num
    ensures !Stored(rows, num)
  {
  }

  /** The event table: rows by ascending sequence number. */
  class Store {
    var rows: seq<Event>

    ghost predicate Valid()
      reads this
    {
      Ascending(rows)
    }

    constructor (initial: seq<Event>)
      requires Ascending(initial)
      ensures Valid() && rows == initial
    {
      rows := initial;
    }

    /** Inserts one row atomically, unless its number is stored already or too large for the column.
        `writable` is whether the database accepts the write. */
    method SaveEvent(e: Event, writable: bool) returns (ok: bool)
      requires Valid()
      modifies this
      ensures Valid()
      ensures ok == (writable && e.num <= MAX_STORED_NUM && !Stored(old(rows), e.num))
      ensures !ok ==> rows == old(rows)
      ensures ok ==> forall x :: x in rows <==> x in old(rows) || x == e
      ensures ok && MaxNum(old(rows)) < e.num ==> rows == old(rows) + [e]
    {
      ok := writable && e.num <= MAX_STORED_NUM && !Stored(rows, e.num);
      if ok {
        InsertedInOrder(rows, e);
        InsertedMembers(rows, e);
        if MaxNum(rows) < e.num {
          InsertedAtTheEnd(rows, e);
        }
        rows := Inserted(rows, e);
      }
    }

    /** Deletes every row of one chat, in one transaction. */
    method DeleteForSession(chat: string, writable: bool) returns (ok: bool)
      requires Valid()
      modifies this
      ensures Valid() && ok == writable
      ensures rows == if ok then Without(chat, old(rows)) else old(rows)
    {
      if writable {
        WithoutKeepsOrder(chat, rows, MaxNum(rows) + 1);
        rows := Without(chat, rows);
      }
      return writable;
    }
  }

  class EventLog {
    const store: Store?
    const maxEntries: nat
    /** The serialized size of an event. */
    const encodedLen: Event -> nat
    var window: seq<Event>
    var minNum: nat
    var nextNum: nat
    var persistenceFailed: bool
    ghost var published: seq<Event>
    ghost var evicted: seq<Event>
    ghost var dropping: set<string>

    ghost function Model(): Log
      reads this, store
    {
      Log(store != null, if store != null then store.rows else [], window, minNum, nextNum, maxEntries,
          persistenceFailed, published, evicted, dropping)
    }

    ghost predicate Valid()
      reads this, store
    {
      Inv(Model()) && (store != null ==> MaxNum(store.rows) < nextNum)
    }

    constructor (store: Store?, maxEntries: nat, encodedLen: Event -> nat)
      ensures this.store == store && this.maxEntries == maxEntries && this.encodedLen == encodedLen
      ensures window == [] && minNum == 0 && nextNum == 1 && !persistenceFailed
      ensures published == [] && evicted == [] && dropping == {}
      ensures store == null ==> Valid() && Model() == Fresh(maxEntries)
    {
      this.store := store;
      this.maxEntries := maxEntries;
      this.encodedLen := encodedLen;
      window, minNum, nextNum, persistenceFailed := [], 0, 1, false;
      published, evicted, dropping := [], [], {};
    }

    predicate Fits(entry: Entry)
      reads this
    {
      encodedLen(Event(nextNum, entry)) <= MAX_DURABLE_EVENT_BYTES
    }

    /** When an append goes through: the log is open, the event fits, and the store, if any, takes it. */
    predicate Takes(entry: Entry, writable: bool)
      reads this
    {
      !persistenceFailed && Fits(entry) && (store == null || (writable && nextNum <= MAX_STORED_NUM))
    }

    /** Allocates a number, persists, then publishes; nothing happens on any failure but the
        first store failure, which closes the log. */
    method AppendAt(entry: Entry, writable: bool) returns (num: Option<nat>)
      requires Valid()
      modifies this, store
      ensures Valid()
      ensures Model() == Apply(old(Model()), Append(entry, old(Fits(entry)), writable))
      ensures num == if old(Takes(entry, writable)) then Some(old(nextNum)) else None
      ensures num.Some? <==>
                !old(persistenceFailed) && encodedLen(Event(old(nextNum), entry)) <= MAX_DURABLE_EVENT_BYTES
                && (store == null || (writable && old(nextNum) <= MAX_STORED_NUM))
      ensures num.Some? ==>
                && published == old(published) + [Event(old(nextNum), entry)]
                && (store != null ==> store.rows == old(store.rows) + [Event(old(nextNum), entry)])
                && window == Newest(maxEntries, old(window) + [Event(old(nextNum), entry)])
      ensures num.None? ==> published == old(published) && window == old(window)
      ensures persistenceFailed <==> old(persistenceFailed) || (old(Fits(entry)) && !old(Takes(entry, writable)))
      ensures num.Some? ==> !persistenceFailed && Model() == Accept(old(Model()), entry)
                            && Model() == Apply(old(Model()), Append(entry, true, true))
      ensures num.None? ==> nextNum == old(nextNum) && (store != null ==> store.rows == old(store.rows))
      ensures num.None? && !old(persistenceFailed) ==>
                !Fits(entry) || (store != null && (!writable || nextNum > MAX_STORED_NUM))
    {
      hide WindowInv, NumbersInv;
      ghost var before := Model();
      if persistenceFailed {
        return None;
      }
      var e := Event(nextNum, entry);
      if encodedLen(e) > MAX_DURABLE_EVENT_BYTES {
        return None;
      }
      if store != null {
        AboveMaxIsNew(store.rows, nextNum);
        var saved := store.SaveEvent(e, writable);
        if !saved {
          persistenceFailed := true;
          FailureKeepsInv(before);
          return None;
        }
      }
      Publish(e);
      assert Model() == Accept(before, entry);
      AcceptKeepsInv(before, entry);
      return Some(e.num);
    }

    /** The in-memory half of an append: number, window, oldest number, broadcast. */
    method Publish(e: Event)
      modifies `nextNum, `window, `minNum, `published, `evicted
      ensures nextNum == e.num + 1
      ensures window == Newest(maxEntries, old(window) + [e])
      ensures minNum == if window == [] then old(minNum) else window[0].num
      ensures published == old(published) + [e]
      ensures evicted == old(evicted) + (old(window) + [e])[..|old(window)| + 1 - |window|]
    {
      nextNum := e.num + 1;
      window := window + [e];
      TrimWindow();
      if |window| > 0 {
        minNum := window[0].num;
      }
      published := published + [e];
    }

    /** Pops the oldest events until the window fits its bound. */
    method TrimWindow()
      modifies `window, `evicted
      ensures window == Newest(maxEntries, old(window))
      ensures evicted == old(evicted) + old(window)[..|old(window)| - |window|]
    {
      ghost var popped: nat := 0;
      while |window| > maxEntries
        invariant popped <= |old(window)| && window == old(window)[popped..]
        invariant popped > 0 ==> |window| >= maxEntries
        invariant evicted == old(evicted)
        modifies `window
      {
        window := window[1..];
        popped := popped + 1;
      }
      evicted := evicted + old(window)[..popped];
    }

    method ForgetChat(chat: string)
      requires Valid()
      modifies this
      ensures Valid() && Model() == Apply(old(Model()), Action.ForgetChat(chat))
    {
      StepKeepsInv(Model(), Action.ForgetChat(chat));
      window := Without(chat, window);
      evicted := Without(chat, evicted);
      dropping := dropping - {chat};
    }

    /** Chat deletion: the durable rows go first, then the window forgets the chat; when the rows
        cannot be deleted nothing is forgotten. */
    method DeleteChat(chat: string, writable: bool) returns (ok: bool)
      requires Valid() && store != null
      modifies this, store
      ensures Valid() && ok == writable
      ensures Model() ==
                if ok then Apply(Apply(old(Model()), DeleteRows(chat)), Action.ForgetChat(chat)) else old(Model())
    {
      StepKeepsInv(Model(), DeleteRows(chat));
      DeletionLowersMax(chat, store.rows, nextNum);
      ok := store.DeleteForSession(chat, writable);
      if ok {
        dropping := dropping + {chat};
        ForgetChat(chat);
      }
    }

    // ---------------------------------------------------------- restart

    /** Appends the closing entries of one ordered map. The database accepts the next `writes` writes. */
    method CloseAll<V>(open: map<string, V>, close: (string, V) -> Entry, writes: nat) returns (ok: bool, landed: nat)
      requires Valid() && store != null && !persistenceFailed
      modifies this, store
      ensures Valid()
      ensures landed <= |Closers(open, close)| && ok == (landed == |Closers(open, close)|)
      ensures ok ==> !persistenceFailed && Model() == Run(old(Model()), AppendsOf(Closers(open, close)))
      ensures old(nextNum) == MaxNum(old(store.rows)) + 1 ==>
                store.rows == Extend(old(store.rows), Closers(open, close)[..landed])
      ensures !ok ==> Refuses(Closers(open, close)[landed], landed, writes)
    {
      hide Inv, Ascending, Extend, Run, Apply, Accept, AppendsOf, Closers, MaxNum, Leq, InOrder, Newest;
      ghost var owed, before := Closers(open, close), Model();
      var pending := open;
      landed := 0;
      assert owed[..0] == [] && owed[0..] == owed;
      RunNothing(before);
      while pending.Keys != {}
        invariant Valid() && !persistenceFailed
        invariant landed <= |owed| && owed[landed..] == Closers(pending, close)
        invariant Model() == Run(before, AppendsOf(owed[..landed]))
        decreases |pending|
      {
        LeastExists(pending.Keys);
        var key :| key in pending.Keys && IsLeast(key, pending.Keys);
        var entry := close(key, pending[key]);
        NextOwed(owed, landed, pending, close, key);
        ghost var state := Model();
        var num := AppendAt(entry, landed < writes);
        if num == None {
          if before.nextNum == MaxNum(before.rows) + 1 {
            AppendsExtend(before, owed[..landed]);
          }
          return false, landed;
        }
        AppendsSnoc(owed[..landed], entry);
        RunSnoc(before, AppendsOf(owed[..landed]), Append(entry, true, true));
        landed := landed + 1;
        pending := pending - {key};
      }
      ClosersOfNothing(pending, close);
      assert owed[..landed] == owed;
      if before.nextNum == MaxNum(before.rows) + 1 {
        AppendsExtend(before, owed);
      }
      return true, landed;
    }

    /** Opens a log over a store: seeds the window, then appends whatever the durable log owes.
        `readable` is whether the startup queries succeed, `writes` how many writes do. */
    static method PersistentWithLimit(store: Store, maxEntries: nat, encodedLen: Event -> nat, readable: bool,
                                      writes: nat)
      returns (log: EventLog, ok: bool, landed: nat)
      requires store.Valid()
      modifies store
      ensures fresh(log) && log.store == store && log.encodedLen == encodedLen
      ensures landed <= |Owed(old(store.rows))|
              && store.rows == Extend(old(store.rows), Owed(old(store.rows))[..landed])
      ensures ok ==> forall entry :: Adds(old(store.rows), store.rows, entry) <==>
                       ClosesPermission(old(store.rows), entry) || ClosesElicitation(old(store.rows), entry)
                       || ClosesTurn(old(store.rows), entry)
      ensures ok ==> store.rows == Recovered(old(store.rows)) && log.Valid()
                     && log.Model() == Run(Started(old(store.rows), maxEntries), AppendsOf(Owed(old(store.rows))))
      ensures !ok && readable ==>
                landed < |Owed(old(store.rows))| && log.Refuses(Owed(old(store.rows))[landed], landed, writes)
    {
      hide Inv, Ascending;
      ghost var rows := store.rows;
      log := new EventLog(store, maxEntries, encodedLen);
      if !readable {
        assert Owed(rows)[..0] == [];
        return log, false, 0;
      }
      log.SeedWindow();
      RecoveryScanSeesEverything(rows);
      var open := ScanRecoveryRows(RecoveryRows(store.rows));
      ok, landed := log.AppendRepairs(open, writes);
      if ok {
        assert Owed(rows)[..landed] == Owed(rows);
        forall entry {
          RecoveryAppendsExactly(rows, entry);
        }
      }
    }

    /** Why an owed entry was not appended: no write left, no number left, or too large. */
    ghost predicate Refuses(entry: Entry, landed: nat, writes: nat)
      reads this
    {
      landed >= writes || nextNum > MAX_STORED_NUM || !Fits(entry)
    }

    method AppendRepairs(open: Open, writes: nat) returns (ok: bool, landed: nat)
      requires Valid() && store != null && !persistenceFailed && nextNum == MaxNum(store.rows) + 1
      modifies this, store
      ensures Valid()
      ensures landed <= |Repairs(open)| && ok == (landed == |Repairs(open)|)
      ensures store.rows == Extend(old(store.rows), Repairs(open)[..landed])
      ensures ok ==> Model() == Run(old(Model()), AppendsOf(Repairs(open)))
      ensures !ok ==> Refuses(Repairs(open)[landed], landed, writes)
    {
      hide Inv, Ascending, Run, Extend, Closers, MaxNum, Apply, AppendsOf, Accept, Fold;
      ghost var before := Model();
      ghost var p, e, t := Closers(open.permissions, ClosePermission), Closers(open.elicitations, CloseElicitation),
        Closers(open.turns, CloseTurn);
      var landed1, landed2, landed3;
      ok, landed1 := CloseAll(open.permissions, ClosePermission, writes);
      assert (p + e + t)[..landed1] == p[..landed1];
      if !ok {
        return false, landed1;
      }
      assert p[..landed1] == p;
      AppendsExtend(before, p);
      ok, landed2 := CloseAll(open.elicitations, CloseElicitation, if writes >= landed1 then writes - landed1 else 0);
      SplitOwed(before.rows, p, e, t, |p| + landed2);
      if !ok {
        return false, landed1 + landed2;
      }
      assert e[..landed2] == e;
      RunTwoParts(before, p, e);
      AppendsExtend(before, p + e);
      var used := landed1 + landed2;
      ok, landed3 := CloseAll(open.turns, CloseTurn, if writes >= used then writes - used else 0);
      SplitOwed(before.rows, p, e, t, |p| + |e| + landed3);
      landed := landed1 + landed2 + landed3;
      if ok {
        RunTwoParts(before, p + e, t);
      }
    }

    /** Seeds number allocation and the replay window from the durable rows. */
    method SeedWindow()
      requires store != null && store.Valid()
      requires window == [] && minNum == 0 && !persistenceFailed && published == [] && evicted == [] && dropping == {}
      modifies this
      ensures Model() == Started(store.rows, maxEntries) && Valid()
    {
      hide Inv, Ascending, Started, MaxNum, Newest;
      nextNum := MaxNum(store.rows) + 1;
      var recent := Newest(REPLAY_LIMIT, store.rows);
      NewestKeptTo(maxEntries, recent);
      if |recent| > maxEntries {
        recent := recent[|recent| - maxEntries..];
      }
      StartKeepsInv(store.rows, maxEntries);
      SeededState(store.rows, maxEntries);
      minNum := if recent == [] then 0 else recent[0].num;
      window := recent;
      evicted := store.rows[..|store.rows| - |recent|];
    }

    // ---------------------------------------------------------- replay

    /** The highest durable number, or the highest allocated one without a store. */
    method HighWatermark(readable: bool) returns (num: Option<nat>)
      requires Valid()
      ensures num.None? <==> persistenceFailed || (store != null && !readable)
      ensures num.Some? ==> num.value == if store != null then MaxNum(store.rows) else nextNum - 1
    {
      if persistenceFailed || (store != null && !readable) {
        return None;
      }
      return Some(if store != null then MaxNum(store.rows) else nextNum - 1);
    }

    method ReplayPage(from: nat, through: nat, limit: nat, readable: bool) returns (page: Option<seq<Event>>)
      ensures page.None? <==> persistenceFailed || (store != null && !readable)
      ensures page.Some? ==> page.value == Page(if store != null then store.rows else window, from, through, limit)
      ensures page.Some? ==>
                var range := Between(if store != null then store.rows else window, from, through);
                |page.value| <= limit && page.value <= range && (|page.value| == limit || page.value == range)
    {
      if persistenceFailed || (store != null && !readable) {
        return None;
      }
      return Some(Page(if store != null then store.rows else window, from, through, limit));
    }

    /** What the appends of `entries`, one after another, do to a log whose store accepts them. */
    ghost function Landing(s: Log, entries: seq<Entry>): seq<Action>
      decreases |entries|
    {
      if entries == [] then []
      else
        var a := Append(entries[0], encodedLen(Event(s.nextNum, entries[0])) <= MAX_DURABLE_EVENT_BYTES, true);
        [a] + Landing(Apply(s, a), entries[1..])
    }

    lemma LandingStep(s: Log, entries: seq<Entry>, i: nat)
      requires i < |entries|
      ensures var a := Append(entries[i], encodedLen(Event(s.nextNum, entries[i])) <= MAX_DURABLE_EVENT_BYTES, true);
              Run(s, Landing(s, entries[i..])) == Run(Apply(s, a), Landing(Apply(s, a), entries[i + 1..]))
    {
      assert entries[i..][0] == entries[i] && entries[i..][1..] == entries[i + 1..];
      var a := Append(entries[i], encodedLen(Event(s.nextNum, entries[i])) <= MAX_DURABLE_EVENT_BYTES, true);
      assert ([a] + Landing(Apply(s, a), entries[i + 1..]))[1..] == Landing(Apply(s, a), entries[i + 1..]);
    }

    /** Other tasks append while a replay is under way. */
    method Arrivals(entries: seq<Entry>) returns (ghost later: seq<Event>)
      requires Valid()
      modifies this, store
      ensures Valid()
      ensures Model() == Run(old(Model()), Landing(old(Model()), entries))
      ensures store != null ==> store.rows == old(store.rows) + later
      ensures forall e :: e in later ==> e.num >= old(nextNum)
      ensures nextNum >= old(nextNum)
    {
      hide *;
      ghost var before := Model();
      later := [];
      WholeAndNothing(entries, if store != null then store.rows else []);
      for i := 0 to |entries|
        invariant Valid() && nextNum >= old(nextNum)
        invariant Run(Model(), Landing(Model(), entries[i..])) == Run(before, Landing(before, entries))
        invariant store != null ==> store.rows == old(store.rows) + later
        invariant forall e :: e in later ==> e.num >= old(nextNum)
      {
        LandingStep(Model(), entries, i);
        ghost var gain := Arrival(entries[i]);
        ghost var rows := if store != null then old(store.rows) else [];
        assert rows + later + gain == rows + (later + gain);
        later := later + gain;
      }
      NothingLands(Model(), entries[|entries|..]);
    }

    lemma WholeAndNothing(entries: seq<Entry>, rows: seq<Event>)
      ensures entries[0..] == entries && rows + [] == rows
    {
    }

    method Arrival(entry: Entry) returns (ghost gain: seq<Event>)
      requires Valid()
      modifies this, store
      ensures Valid() && nextNum >= old(nextNum)
      ensures var e := Event(old(Model()).nextNum, entry);
              Model() == Apply(old(Model()), Append(entry, encodedLen(e) <= MAX_DURABLE_EVENT_BYTES, true))
      ensures store != null ==> store.rows == old(store.rows) + gain
      ensures forall e :: e in gain ==> e.num >= old(nextNum)
    {
      hide Inv, Ascending, Newest, Apply, MaxNum;
      gain := [];
      ghost var e := Event(nextNum, entry);
      var num := AppendAt(entry, true);
      if num.Some? {
        gain := [e];
      } else if store != null {
        assert store.rows + [] == store.rows;
      }
    }

    lemma NothingLands(s: Log, entries: seq<Entry>)
      requires entries == []
      ensures Run(s, Landing(s, entries)) == s
    {
    }

    /** Replays from `from`. Page `i` reads successfully when `readable(i)`; `arrivals(i)` is what
        other tasks append after page `i`, or, without a store, before the lock is taken. A failed
        read answers `Complete` with nothing. */
    method ReplayFrom(from: nat, pageSize: nat, arrivals: nat -> seq<Entry>, readable: nat -> bool)
      returns (result: ReplayResult, gaveUp: bool)
      requires Valid() && pageSize >= 1
      modifies this, store
      ensures Valid()
      ensures store == null ==> !gaveUp && Model() == Run(old(Model()), Landing(old(Model()), arrivals(0)))
      ensures store == null ==> result == ReplayWith(old(minNum), window, from)
      ensures store == null ==> (result.Partial? <==> 0 < from < old(minNum))
      ensures store == null && result.Partial? ==> result.events == window && result.oldestAvailable == old(minNum)
      ensures store == null && result.Complete? ==> forall e :: e in result.events <==> e in window && e.num >= from
      ensures store != null ==>
                result == Complete(if gaveUp then [] else Between(old(store.rows), from, MaxNum(old(store.rows))))
      ensures !persistenceFailed && (forall i :: readable(i)) ==> !gaveUp
    {
      hide Inv, Filter, Between, MaxNum, Run, Landing;
      if store != null {
        var events;
        events, gaveUp := PageThrough(from, pageSize, arrivals, readable);
        return Complete(events), gaveUp;
      }
      var oldest := minNum;
      ghost var later := Arrivals(arrivals(0));
      result := if from > 0 && from < oldest && oldest > 0 then Partial(window, oldest)
                else Complete(Filter(e => Reaches(from, e), window));
      FilterMembers(e => Reaches(from, e), window);
      return result, false;
    }

    lemma DurableRows()
      requires Valid() && store != null
      ensures Ascending(store.rows) && MaxNum(store.rows) < nextNum
    {
    }

    /** The paging loop over the durable log, up to the watermark read first. */
    method PageThrough(from: nat, pageSize: nat, arrivals: nat -> seq<Entry>, readable: nat -> bool)
      returns (events: seq<Event>, gaveUp: bool)
      requires Valid() && store != null && pageSize >= 1
      modifies this, store
      ensures Valid()
      ensures events == if gaveUp then [] else Between(old(store.rows), from, MaxNum(old(store.rows)))
      ensures !persistenceFailed && (forall i :: readable(i)) ==> !gaveUp
    {
      hide *;
      ghost var rows, later := store.rows, [];
      var watermark := HighWatermark(readable(0));
      if watermark == None {
        return [], true;
      }
      var through, cursor, pages := watermark.value, from, 0;
      events := [];
      EmptyRange(rows, from, from);
      DurableRows();
      assert rows + [] == rows;
      while cursor <= through
        invariant Valid() && nextNum > through
        invariant store.rows == rows + later && forall e :: e in later ==> e.num > through
        invariant from <= cursor && (cursor <= through + 1 || cursor == from)
        invariant events == if cursor > 0 then Between(rows, from, cursor - 1) else []
        decreases through + 1 - cursor
      {
        pages := pages + 1;
        var page := ReplayPage(cursor, through, pageSize, readable(pages));
        if page == None {
          return [], true;
        }
        DurableRows();
        NextPage(rows, later, from, cursor, through, pageSize);
        if page.value == [] {
          break;
        }
        cursor := page.value[|page.value| - 1].num + 1;
        events := events + page.value;
        ghost var more := Arrivals(arrivals(pages));
        assert rows + later + more == rows + (later + more);
        later := later + more;
      }
      EmptyRange(rows, from, through);
      return events, false;
    }
  }

  lemma NewestKeptTo(n: nat, rows: seq<Event>)
    ensures Newest(n, rows) == if |rows| > n then rows[|rows| - n..] else rows
  {
  }

  lemma SeededState(rows: seq<Event>, maxEntries: nat)
    ensures var recent := Newest(maxEntries, Newest(REPLAY_LIMIT, rows));
            && |recent| <= |rows|
            && Started(rows, maxEntries) ==
               Log(true, rows, recent, if recent == [] then 0 else recent[0].num, MaxNum(rows) + 1, maxEntries, false,
                   [], rows[..|rows| - |recent|], {})
            && MaxNum(rows) < Started(rows, maxEntries).nextNum
  {
  }

  lemma RunTwoParts(s: Log, a: seq<Entry>, b: seq<Entry>)
    ensures Run(s, AppendsOf(a + b)) == Run(Run(s, AppendsOf(a)), AppendsOf(b))
  {
    assert AppendsOf(a + b) == AppendsOf(a) + AppendsOf(b);
    RunInPieces(s, AppendsOf(a), AppendsOf(b));
  }

  /** A prefix of the owed entries, by the map it ends in. */
  lemma SplitOwed(rows: seq<Event>, p: seq<Entry>, e: seq<Entry>, t: seq<Entry>, k: nat)
    requires |p| <= k <= |p + e + t|
    ensures k <= |p| + |e| ==> Extend(rows, (p + e + t)[..k]) == Extend(Extend(rows, p), e[..k - |p|])
    ensures k >= |p| + |e| ==> Extend(rows, (p + e + t)[..k]) == Extend(Extend(rows, p + e), t[..k - |p| - |e|])
  {
    if k <= |p| + |e| {
      assert (p + e + t)[..k] == p + e[..k - |p|];
      ExtendInPieces(rows, p, e[..k - |p|]);
    }
    if k >= |p| + |e| {
      assert (p + e + t)[..k] == p + e + t[..k - |p| - |e|];
      ExtendInPieces(rows, p + e, t[..k - |p| - |e|]);
    }
  }

  lemma NextOwed<V>(owed: seq<Entry>, landed: nat, pending: map<string, V>, close: (string, V) -> Entry, key: string)
    requires landed <= |owed| && owed[landed..] == Closers(pending, close) && IsLeast(key, pending.Keys)
    ensures landed < |owed| && owed[landed] == close(key, pending[key])
    ensures owed[landed + 1..] == Closers(pending - {key}, close)
    ensures owed[..landed + 1] == owed[..landed] + [owed[landed]]
    ensures |pending - {key}| < |pending|
  {
    LeastIsUnique(key, Least(pending.Keys), pending.Keys);
    ClosersTail(pending, close);
    SmallerMap(pending, key);
    assert owed[landed] == owed[landed..][0] && owed[landed + 1..] == owed[landed..][1..];
  }

  /** The startup scan: three maps updated row by row. */
  method ScanRecoveryRows(recovery: seq<Event>) returns (open: Open)
    ensures open == Fold(recovery)
  {
    var permissions: map<string, Owner> := map[];
    var elicitations: map<string, Owner> := map[];
    var turns: map<string, string> := map[];
    for i := 0 to |recovery|
      invariant Open(permissions, elicitations, turns) == Fold(recovery[..i])
    {
      var e := recovery[i].entry;
      assert recovery[..i + 1] == recovery[..i] + [recovery[i]];
      FoldStep(recovery[..i], recovery[i]);
      match e.payload {
        case PermissionRequest(id, _) => permissions := permissions[id := Owner(e.chat, e.agent)];
        case PermissionResponse(id, _) => permissions := permissions - {id};
        case ElicitationRequest(id) => elicitations := elicitations[id := Owner(e.chat, e.agent)];
        case ElicitationResponse(id, _) => elicitations := elicitations - {id};
        case ElicitationComplete(id) => elicitations := elicitations - {id};
        case StateChange(_, turn) => if turn == "PROMPTING" { turns := turns[e.chat := e.agent]; }
        case TurnComplete(_) => turns := turns - {e.chat};
        case Other(_) =>
      }
    }
    assert recovery[..|recovery|] == recovery;
    return Open(permissions, elicitations, turns);
  }

  lemma DeletionLowersMax(chat: string, rows: seq<Event>, bound: nat)
    requires Ascending(rows) && MaxNum(rows) < bound
    ensures MaxNum(Without(chat, rows)) < bound
  {
    WithoutKeepsOrder(chat, rows, bound);
  }
}
