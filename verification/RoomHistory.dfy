/** The room history: at most five join codes in recency order, one of which may be rejoined at startup. */
module RoomHistory {
  import opened Prelude
  import opened Text

  const MAX_HISTORY: nat := 5

  datatype Route = Relay | Lan

  datatype Entry = Entry(id: u64, code: string, route: Route)

  datatype History = History(nextId: u64, restoreId: Option<u64>, entries: seq<Entry>)

  function Empty(): History { History(1, None, []) }

  function Take<T>(s: seq<T>, n: nat): seq<T> { if |s| <= n then s else s[..n] }

  // ---- The operations, as functions of the history ----

  /** The first entry with this id. */
  function EntryOf(entries: seq<Entry>, id: u64): Option<Entry> {
    if entries == [] then None else if entries[0].id == id then Some(entries[0]) else EntryOf(entries[1..], id)
  }

  function RestoreEntry(h: History): Option<Entry> {
    if h.restoreId.None? then None
    else
      var found := EntryOf(h.entries, h.restoreId.value);
      if found.Some? && found.value.route.Relay? then found else None
  }

  function Codes(entries: seq<Entry>): (r: seq<string>)
    ensures |r| == |entries|
    ensures forall i :: 0 <= i < |r| ==> r[i] == entries[i].code
  {
    seq(|entries|, i requires 0 <= i < |entries| => entries[i].code)
  }

  function IndexOf<T(==)>(codes: seq<T>, c: T): (i: nat)
    ensures i <= |codes|
    ensures i < |codes| ==> codes[i] == c
    ensures forall k :: 0 <= k < i ==> codes[k] != c
  {
    if codes == [] || codes[0] == c then 0 else 1 + IndexOf(codes[1..], c)
  }

  /** Where the code stands; the length if it is not there. */
  function Position(entries: seq<Entry>, code: string): (i: nat)
    ensures i <= |entries|
    ensures i < |entries| ==> entries[i].code == code
    ensures forall k :: 0 <= k < i ==> entries[k].code != code
  {
    IndexOf(Codes(entries), code)
  }

  function Recorded(h: History, code: string, route: Route): History {
    var at := Position(h.entries, code);
    var known := at < |h.entries|;
    var id := if known then h.entries[at].id else h.nextId;
    var others := if known then h.entries[..at] + h.entries[at + 1..] else h.entries;
    History(
      if known then h.nextId else SaturatingSucc(h.nextId), Some(id),
      Take([Entry(id, code, route)] + others, MAX_HISTORY))
  }

  function Cleared(h: History): History { h.(restoreId := None) }

  predicate Blank(code: string) { Trim(code) == "" }

  function NonBlank(entries: seq<Entry>): seq<Entry> {
    if entries == [] then []
    else (if Blank(entries[0].code) then [] else [entries[0]]) + NonBlank(entries[1..])
  }

  /** What a history read from disk is reduced to. */
  function Sanitized(h: History): History {
    var entries := Take(NonBlank(h.entries), MAX_HISTORY);
    h.(entries := entries,
       restoreId := if h.restoreId.Some? && EntryOf(entries, h.restoreId.value).Some? then h.restoreId else None)
  }

  // ---- The store ----

  class RoomHistoryStore {
    var nextId: u64
    var restoreId: Option<u64>
    var entries: seq<Entry>
    /** What the history file holds, if there is one. */
    var disk: Option<History>

    ghost function State(): Store
      reads this
    {
      Store(History(nextId, restoreId, entries), disk)
    }

    constructor ()
      ensures State() == Store(Empty(), None)
    {
      nextId, restoreId, entries, disk := 1, None, [], None;
    }

    /** `writes` says whether the file could be replaced; the memory changes either way. */
    method RecordSuccess(code: string, route: Route, writes: bool) returns (r: Result<u64, ()>)
      modifies this
      ensures State() == Act(old(State()), Record(code, route, writes))
      ensures r == if writes then Ok(restoreId.value) else Err(())
    {
      var at := 0;
      while at < |entries| && entries[at].code != code
        invariant at <= |entries| && forall k :: 0 <= k < at ==> entries[k].code != code
      {
        at := at + 1;
      }
      assert at == Position(entries, code);
      hide Position, EntryOf, Sanitized;
      var id := nextId;
      if at < |entries| {
        id := entries[at].id;
        entries := entries[..at] + entries[at + 1..];
      } else {
        nextId := SaturatingSucc(nextId);
      }
      entries := [Entry(id, code, route)] + entries;
      if |entries| > MAX_HISTORY { entries := entries[..MAX_HISTORY]; }
      restoreId := Some(id);
      if writes { disk := Some(History(nextId, restoreId, entries)); }
      r := if writes then Ok(id) else Err(());
    }

    method ClearRestore(writes: bool) returns (ok: bool)
      modifies this
      ensures State() == Act(old(State()), Clear(writes))
      ensures ok <==> old(restoreId).None? || writes
    {
      var had := restoreId.Some?;
      restoreId := None;
      if had && writes { disk := Some(History(nextId, restoreId, entries)); }
      ok := !had || writes;
    }

    static method RetainNonBlank(all: seq<Entry>) returns (kept: seq<Entry>)
      ensures kept == NonBlank(all)
    {
      kept := [];
      for i := 0 to |all|
        invariant NonBlank(all) == kept + NonBlank(all[i..])
      {
        ghost var rest := NonBlank(all[i + 1..]);
        assert all[i..][1..] == all[i + 1..];
        if Trim(all[i].code) != "" {
          assert kept + ([all[i]] + rest) == (kept + [all[i]]) + rest;
          kept := kept + [all[i]];
        } else {
          assert [] + rest == rest;
        }
      }
      assert all[|all|..] == [] && kept + [] == kept;
    }

    /** A restart of the program. `readable` says whether the file is found where it should be, can be decrypted and has
        this version's format; if not, the history starts empty and the file is left as it is. */
    method Load(readable: bool)
      modifies this
      ensures State() == Act(old(State()), Restart(readable))
    {
      if disk.None? || !readable { nextId, restoreId, entries := 1, None, []; return; }
      var data := disk.value;
      var kept := RetainNonBlank(data.entries);
      hide NonBlank, EntryOf;
      if |kept| > MAX_HISTORY { kept := kept[..MAX_HISTORY]; }
      nextId, entries, restoreId := data.nextId, kept, data.restoreId;
      if restoreId.Some? && EntryOf(kept, restoreId.value).None? { restoreId := None; }
    }
  }

  // ---- The reference: codes by their last use ----

  function RemoveFirst<T(==)>(codes: seq<T>, c: T): seq<T> {
    var i := IndexOf(codes, c);
    if i < |codes| then codes[..i] + codes[i + 1..] else codes
  }

  /** Every code ever used, the latest first. */
  function Recent<T(==)>(uses: seq<T>): seq<T> {
    if uses == [] then []
    else var c := uses[|uses| - 1]; [c] + RemoveFirst(Recent(uses[..|uses| - 1]), c)
  }

  function LastUse<T(==)>(uses: seq<T>, c: T): (i: nat)
    requires c in uses
    ensures i < |uses| && uses[i] == c
    ensures forall k :: i < k < |uses| ==> uses[k] != c
  {
    if uses[|uses| - 1] == c then |uses| - 1 else LastUse(uses[..|uses| - 1], c)
  }

  /** `codes` holds exactly what was used, in descending order of last use. */
  ghost predicate ByLastUse<T(!new)>(uses: seq<T>, codes: seq<T>) {
    && (forall c :: c in codes <==> c in uses)
    && (forall i, j :: 0 <= i < j < |codes| ==> LastUse(uses, codes[i]) > LastUse(uses, codes[j]))
  }

  lemma RemoveFirstMembers<T>(older: seq<T>, c: T, x: T)
    requires x != c
    ensures x in RemoveFirst(older, c) <==> x in older
  {
    var p := IndexOf(older, c);
    hide IndexOf;
    if p < |older| { assert older == older[..p] + [c] + older[p + 1..]; }
  }

  /** One more use leaves the order of the other codes. */
  lemma OthersStayOrdered<T(!new)>(before: seq<T>, c: T, older: seq<T>)
    requires ByLastUse(before, older)
    ensures var rest := RemoveFirst(older, c);
            && (forall k :: 0 <= k < |rest| ==> rest[k] in before && rest[k] != c)
            && (forall i, j :: 0 <= i < j < |rest| ==> LastUse(before, rest[i]) > LastUse(before, rest[j]))
  {
    var rest := RemoveFirst(older, c);
    var p := IndexOf(older, c);
    hide IndexOf;
    if p < |older| {
      forall k | 0 <= k < |rest| ensures rest[k] == older[if k < p then k else k + 1] {}
    }
    forall k | 0 <= k < |rest| ensures rest[k] in before && rest[k] != c {
      assert rest[k] in older;
    }
  }

  lemma LastUseMore<T>(before: seq<T>, c: T, x: T)
    requires x in before && x != c
    ensures LastUse(before + [c], x) == LastUse(before, x)
  {
    assert (before + [c])[..|before|] == before;
  }

  /** One more use moves its code to the front. */
  lemma ByLastUseMore<T(!new)>(before: seq<T>, c: T, older: seq<T>)
    requires ByLastUse(before, older)
    ensures ByLastUse(before + [c], [c] + RemoveFirst(older, c))
  {
    var uses, rest := before + [c], RemoveFirst(older, c);
    var codes := [c] + rest;
    OthersStayOrdered(before, c, older);
    forall x ensures x in codes <==> x in uses {
      if x != c {
        RemoveFirstMembers(older, c, x);
        assert x in rest <==> x in before;
      }
    }
    hide RemoveFirst;
    forall i, j | 0 <= i < j < |codes| ensures LastUse(uses, codes[i]) > LastUse(uses, codes[j]) {
      LastUseMore(before, c, codes[j]);
      if i > 0 { LastUseMore(before, c, codes[i]); }
    }
  }

  lemma {:induction false} RecentIsByLastUse<T(!new)>(uses: seq<T>)
    ensures ByLastUse(uses, Recent(uses))
    decreases |uses|
  {
    if uses != [] {
      var before, c := uses[..|uses| - 1], uses[|uses| - 1];
      assert uses == before + [c];
      RecentIsByLastUse(before);
      ByLastUseMore(before, c, Recent(before));
    }
  }

  lemma TakeOfRemove<T>(codes: seq<T>, c: T, n: nat)
    ensures Take(RemoveFirst(codes, c), n) == Take(RemoveFirst(Take(codes, n + 1), c), n)
  {
    var i, k := IndexOf(codes, c), IndexOf(Take(codes, n + 1), c);
    hide IndexOf;
    var few := Take(codes, n + 1);
    assert forall j :: 0 <= j < |few| ==> few[j] == codes[j];
    if i <= n && i < |codes| {
      assert k == i;
      var all, some := codes[..i] + codes[i + 1..], few[..i] + few[i + 1..];
      assert forall j :: 0 <= j < |some| ==> some[j] == all[j];
    } else {
      assert k == |few|;
    }
  }

  lemma TakeOfCons<T>(c: T, a: seq<T>, b: seq<T>, n: nat)
    requires n > 0 && Take(a, n - 1) == Take(b, n - 1)
    ensures Take([c] + a, n) == Take([c] + b, n)
  {
    assert Take([c] + a, n) == [c] + Take(a, n - 1);
    assert Take([c] + b, n) == [c] + Take(b, n - 1);
  }

  // ---- Runs ----

  datatype Use = Used(code: string, route: Route) | Forgot

  function Apply(h: History, u: Use): History { if u.Used? then Recorded(h, u.code, u.route) else Cleared(h) }

  function Replay(uses: seq<Use>): History {
    if uses == [] then Empty() else Apply(Replay(uses[..|uses| - 1]), uses[|uses| - 1])
  }

  function UsedCodes(uses: seq<Use>): seq<string> {
    if uses == [] then []
    else
      var u, before := uses[|uses| - 1], UsedCodes(uses[..|uses| - 1]);
      if u.Used? then before + [u.code] else before
  }

  lemma CodesOfOthers(entries: seq<Entry>, code: string)
    ensures RemoveFirst(Codes(entries), code) == Codes(Others(entries, code))
  {
    var codes, p := Codes(entries), Position(entries, code);
    hide IndexOf;
    if p < |entries| { assert codes[..p] + codes[p + 1..] == Codes(entries[..p] + entries[p + 1..]); }
  }

  lemma CodesOfFront(e: Entry, others: seq<Entry>)
    ensures Codes(Take([e] + others, MAX_HISTORY)) == Take([e.code] + Codes(others), MAX_HISTORY)
  {
    assert Codes([e] + others) == [e.code] + Codes(others);
  }

  /** The entries without the code, or all of them if it is not there. */
  function Others(entries: seq<Entry>, code: string): seq<Entry> {
    var at := Position(entries, code);
    if at < |entries| then entries[..at] + entries[at + 1..] else entries
  }

  lemma RecordedEntries(h: History, code: string, route: Route) returns (e: Entry)
    ensures e.code == code && Recorded(h, code, route).entries == Take([e] + Others(h.entries, code), MAX_HISTORY)
  {
    hide Position, Take;
    var at := Position(h.entries, code);
    e := Entry(if at < |h.entries| then h.entries[at].id else h.nextId, code, route);
  }

  lemma CodesOfRecorded(h: History, code: string, route: Route)
    ensures Codes(Recorded(h, code, route).entries) == Take([code] + RemoveFirst(Codes(h.entries), code), MAX_HISTORY)
  {
    hide Position, IndexOf, RemoveFirst, Codes, Recorded, Take, Others;
    var e := RecordedEntries(h, code, route);
    CodesOfOthers(h.entries, code);
    CodesOfFront(e, Others(h.entries, code));
  }

  /** Whatever was recorded and cleared, the history is the five most recently used distinct codes. */
  lemma {:induction false} HistoryIsFiveMostRecent(uses: seq<Use>)
    ensures Codes(Replay(uses).entries) == Take(Recent(UsedCodes(uses)), MAX_HISTORY)
    decreases |uses|
  {
    if uses != [] {
      var before, u := uses[..|uses| - 1], uses[|uses| - 1];
      HistoryIsFiveMostRecent(before);
      if u.Used? {
        var recent := Recent(UsedCodes(before));
        CodesOfRecorded(Replay(before), u.code, u.route);
        assert UsedCodes(uses)[..|UsedCodes(uses)| - 1] == UsedCodes(before);
        TakeOfRemove(recent, u.code, MAX_HISTORY - 1);
        TakeOfCons(u.code, RemoveFirst(recent, u.code), RemoveFirst(Take(recent, MAX_HISTORY), u.code), MAX_HISTORY);
      }
    }
  }

  // ---- Ids ----

  ghost predicate DistinctIds(entries: seq<Entry>) {
    forall i, j :: 0 <= i < j < |entries| ==> entries[i].id != entries[j].id
  }

  ghost predicate IdsBelow(entries: seq<Entry>, n: u64) { forall i :: 0 <= i < |entries| ==> entries[i].id < n }

  /** Ids stay distinct through a record exactly when the code is known or its new id is not one of the four kept. */
  lemma IdsStayDistinctIff(h: History, code: string, route: Route)
    requires DistinctIds(h.entries) && |h.entries| <= MAX_HISTORY
    ensures DistinctIds(Recorded(h, code, route).entries) <==>
              code in Codes(h.entries) || forall e :: e in Take(h.entries, MAX_HISTORY - 1) ==> e.id != h.nextId
  {
    var h' := Recorded(h, code, route);
    var at, kept := Position(h.entries, code), Take(h.entries, MAX_HISTORY - 1);
    if at < |h.entries| {
      assert code == Codes(h.entries)[at];
    } else {
      assert h'.entries == [Entry(h.nextId, code, route)] + kept;
      assert code !in Codes(h.entries);
      if DistinctIds(h'.entries) {
        forall e | e in kept ensures e.id != h.nextId {
          var k :| 0 <= k < |kept| && kept[k] == e;
          assert h'.entries[0].id != h'.entries[k + 1].id;
        }
      }
    }
  }

  /** The entries without the first one of this code. */
  function Except(entries: seq<Entry>, code: string): seq<Entry> {
    if entries == [] then []
    else if entries[0].code == code then entries[1..]
    else [entries[0]] + Except(entries[1..], code)
  }

  lemma {:induction false} ExceptIsOthers(entries: seq<Entry>, code: string, at: nat)
    requires at <= |entries| && (at < |entries| ==> entries[at].code == code)
    requires forall k :: 0 <= k < at ==> entries[k].code != code
    ensures Except(entries, code) == if at < |entries| then entries[..at] + entries[at + 1..] else entries
    decreases |entries|
  {
    if at > 0 {
      var tail := entries[1..];
      ExceptIsOthers(tail, code, at - 1);
      assert entries[..at] == [entries[0]] + tail[..at - 1] && entries == [entries[0]] + tail;
    }
  }

  /** Recording puts the code in front with its route, under the id it had or else the next one, which is then used up;
      it is the one to restore; behind it come up to four of the other entries, ids and routes as they were. */
  lemma RecordIsExact(h: History, code: string, route: Route)
    ensures var h' := Recorded(h, code, route);
            && h'.entries != [] && h'.entries[0].code == code && h'.entries[0].route == route
            && h'.restoreId == Some(h'.entries[0].id)
            && h'.entries[1..] == Take(Except(h.entries, code), 4)
            && (if exists i :: 0 <= i < |h.entries| && h.entries[i].code == code then
                  && h'.nextId == h.nextId
                  && exists i ::
                       0 <= i < |h.entries| && h.entries[i].code == code && h.entries[i].id == h'.entries[0].id
                else h'.entries[0].id == h.nextId && h'.nextId == if h.nextId == U64_MAX then U64_MAX else h.nextId + 1)
  {
    var h', at := Recorded(h, code, route), Position(h.entries, code);
    ExceptIsOthers(h.entries, code, at);
    hide Position, Except, Take;
    var known := at < |h.entries|;
    FourBehind(Entry(if known then h.entries[at].id else h.nextId, code, route), Except(h.entries, code));
  }

  lemma FourBehind<T>(first: T, others: seq<T>)
    ensures var all := Take([first] + others, 5); all != [] && all[0] == first && all[1..] == Take(others, 4)
  {
    assert ([first] + others)[1..] == others;
    assert |others| > 4 ==> ([first] + others)[..5][1..] == others[..4];
  }

  /** The condition fails where the counter has saturated, which a readable file can bring about: two new codes recorded
      after such a start get one id. */
  lemma IdsRepeatAtSaturation(a: string, b: string, route: Route, s: Store)
    requires a != b && s.disk == Some(History(U64_MAX, None, []))
    ensures var h := Act(Act(Act(s, Restart(true)), Record(a, route, true)), Record(b, route, true)).memory;
            h.entries == [Entry(U64_MAX, b, route), Entry(U64_MAX, a, route)] && !DistinctIds(h.entries)
  {
    var h0 := Act(s, Restart(true)).memory;
    assert h0 == History(U64_MAX, None, []);
    var h1 := Recorded(h0, a, route);
    assert h1 == History(U64_MAX, Some(U64_MAX), [Entry(U64_MAX, a, route)]);
    var h2 := Recorded(h1, b, route);
    assert Position(h1.entries, b) == 1;
    assert h2.entries == [Entry(U64_MAX, b, route), Entry(U64_MAX, a, route)];
    assert h2.entries[0].id == h2.entries[1].id;
  }

  lemma RecordedIds(h: History, code: string, route: Route)
    requires DistinctIds(h.entries) && IdsBelow(h.entries, h.nextId) && |h.entries| <= MAX_HISTORY
    ensures var h' := Recorded(h, code, route);
            h.nextId <= h'.nextId && |h'.entries| <= MAX_HISTORY && DistinctIds(h'.entries)
            && (h'.nextId < U64_MAX ==> IdsBelow(h'.entries, h'.nextId))
  {
    IdsStayDistinctIff(h, code, route);
  }

  /** Until the counter saturates, kept ids are distinct and below the next one. */
  lemma {:induction false} IdsAreFresh(uses: seq<Use>)
    ensures var h := Replay(uses);
            && |h.entries| <= MAX_HISTORY
            && (h.nextId < U64_MAX ==> DistinctIds(h.entries) && IdsBelow(h.entries, h.nextId))
    decreases |uses|
  {
    if uses != [] {
      var before, u := uses[..|uses| - 1], uses[|uses| - 1];
      IdsAreFresh(before);
      var h := Replay(before);
      if u.Used? && h.nextId < U64_MAX { RecordedIds(h, u.code, u.route); }
    }
  }

  // ---- What is restored ----

  /** What startup should rejoin: the last room recorded, if it was a relay room and nothing was cleared since. */
  function Rejoin(uses: seq<Use>): Option<string> {
    if uses == [] then None
    else var u := uses[|uses| - 1]; if u.Used? && u.route.Relay? then Some(u.code) else None
  }

  /** The restore id names a kept entry, and what it restores is exactly what should be rejoined; this holds even
      when the id counter has saturated. */
  lemma RestoreIsExact(uses: seq<Use>)
    ensures var h := Replay(uses);
            && (h.restoreId.Some? ==> h.entries != [] && h.entries[0].id == h.restoreId.value)
            && RestoreEntry(h) ==
               (if Rejoin(uses).None? then None else Some(Entry(h.restoreId.value, Rejoin(uses).value, Relay)))
  {
    if uses != [] {
      var u := uses[|uses| - 1];
      var h := Replay(uses);
      if u.Used? { assert h.entries[0] == Entry(h.restoreId.value, u.code, u.route); }
    }
  }

  // ---- Disk and restart ----

  datatype Action = Record(code: string, route: Route, writes: bool) | Clear(writes: bool) | Restart(readable: bool)

  datatype Store = Store(memory: History, disk: Option<History>)

  /** What the store's methods do, on values. */
  function Act(s: Store, a: Action): Store {
    match a
    case Record(code, route, writes) =>
      var h := Recorded(s.memory, code, route);
      Store(h, if writes then Some(h) else s.disk)
    case Clear(writes) =>
      var h := Cleared(s.memory);
      Store(h, if writes && s.memory.restoreId.Some? then Some(h) else s.disk)
    case Restart(readable) => s.(memory := if s.disk.None? || !readable then Empty() else Sanitized(s.disk.value))
  }

  function ActAll(actions: seq<Action>): Store {
    if actions == [] then Store(Empty(), None) else Act(ActAll(actions[..|actions| - 1]), actions[|actions| - 1])
  }

  /** What made a history: its uses, and the times it was read back. */
  datatype Move = Did(use: Use) | Reread

  function Rebuild(moves: seq<Move>): History {
    if moves == [] then Empty()
    else
      var h, m := Rebuild(moves[..|moves| - 1]), moves[|moves| - 1];
      if m.Did? then Apply(h, m.use) else Sanitized(h)
  }

  /** The moves behind the memory and those behind the file: a restart forgets what was never written, and one that
      cannot read the file forgets everything. */
  datatype Trace = Trace(moves: seq<Move>, written: seq<Move>)

  function Remember(t: Trace, a: Action): Trace {
    match a
    case Record(code, route, writes) =>
      var moves := t.moves + [Did(Used(code, route))];
      Trace(moves, if writes then moves else t.written)
    case Clear(writes) =>
      var moves := t.moves + [Did(Forgot)];
      Trace(moves, if writes && Rebuild(t.moves).restoreId.Some? then moves else t.written)
    case Restart(readable) => t.(moves := if readable then t.written + [Reread] else [])
  }

  function Remembered(actions: seq<Action>): Trace {
    if actions == [] then Trace([], [])
    else Remember(Remembered(actions[..|actions| - 1]), actions[|actions| - 1])
  }

  ghost predicate Rebuilds(s: Store, t: Trace) {
    && s.memory == Rebuild(t.moves)
    && (s.disk.None? ==> t.written == []) && (s.disk.Some? ==> s.disk.value == Rebuild(t.written))
  }

  lemma RebuildMore(moves: seq<Move>, m: Move)
    ensures Rebuild(moves + [m]) == if m.Did? then Apply(Rebuild(moves), m.use) else Sanitized(Rebuild(moves))
  {
    assert (moves + [m])[..|moves|] == moves;
  }

  lemma ActRebuilds(s: Store, t: Trace, a: Action)
    requires Rebuilds(s, t)
    ensures Rebuilds(Act(s, a), Remember(t, a))
  {
    match a
    case Record(code, route, _) => RebuildMore(t.moves, Did(Used(code, route))); hide Recorded, Rebuild;
    case Clear(_) => RebuildMore(t.moves, Did(Forgot)); hide Rebuild;
    case Restart(_) => RebuildMore(t.written, Reread); assert Sanitized(Empty()) == Empty(); hide Sanitized;
  }

  /** Over every run of records, clears, failed writes and restarts, with any codes and a file that may be unreadable:
      memory and file are what their surviving moves make of an empty history. */
  lemma {:induction false} StoreIsReplay(actions: seq<Action>)
    ensures Rebuilds(ActAll(actions), Remembered(actions))
    decreases |actions|
  {
    if actions != [] {
      var before, a := actions[..|actions| - 1], actions[|actions| - 1];
      StoreIsReplay(before);
      ActRebuilds(ActAll(before), Remembered(before), a);
    }
  }

  /** Retaining goes entry by entry, in order. */
  lemma {:induction false} RetainIsExact(a: seq<Entry>, e: Entry, b: seq<Entry>)
    ensures NonBlank([]) == []
    ensures NonBlank([e]) == if AllSpace(e.code) then [] else [e]
    ensures NonBlank(a + b) == NonBlank(a) + NonBlank(b)
    decreases |a|
  {
    assert Blank(e.code) <==> AllSpace(e.code) by { BlankIsSpace(e.code); }
    assert [e][1..] == [];
    hide Blank;
    if a == [] {
      assert a + b == b;
    } else {
      RetainIsExact(a[1..], e, b);
      assert (a + b)[1..] == a[1..] + b;
    }
  }

  lemma BlankIsSpace(s: string)
    ensures Blank(s) <==> AllSpace(s)
  {
    var i, j := TrimIsMiddle(s);
    hide Trim;
    if i == j {
      assert s == s[..i] + s[j..];
    } else {
      assert Trim(s) == s[i..j] && s[i..j][0] == s[i];
    }
  }

  /** What is kept of a file: the counter, the first five codes that are not blank, and the entry to restore if it is
      still among them. */
  lemma SanitizedIsExact(h: History)
    ensures var s, kept := Sanitized(h), NonBlank(h.entries);
            && s.nextId == h.nextId
            && s.entries == (if |kept| <= 5 then kept else kept[..5])
            && (s.restoreId.Some? <==> h.restoreId.Some? && exists e :: e in s.entries && Some(e.id) == h.restoreId)
            && (s.restoreId.Some? ==> s.restoreId == h.restoreId)
  {
    hide NonBlank;
    if h.restoreId.Some? { EntryIsThere(Sanitized(h).entries, h.restoreId.value); }
  }

  lemma {:induction false} EntryIsThere(entries: seq<Entry>, id: u64)
    ensures EntryOf(entries, id).Some? <==> exists e :: e in entries && e.id == id
    ensures EntryOf(entries, id).Some? ==> EntryOf(entries, id).value in entries && EntryOf(entries, id).value.id == id
  {
    if entries != [] {
      EntryIsThere(entries[1..], id);
      assert entries == [entries[0]] + entries[1..];
    }
  }

  /** Forgetting the entry to restore forgets nothing else. */
  lemma ClearIsExact(s: Store, writes: bool)
    ensures var s' := Act(s, Clear(writes));
            && s'.memory == History(s.memory.nextId, None, s.memory.entries)
            && s'.disk == (if s.memory.restoreId.Some? && writes then Some(s'.memory) else s.disk)
  {
  }

  // ---- When reading back shows ----

  lemma {:induction false} NonBlankIsAllIff(entries: seq<Entry>)
    ensures |NonBlank(entries)| <= |entries|
    ensures NonBlank(entries) == entries <==> forall e :: e in entries ==> !Blank(e.code)
  {
    if entries != [] {
      NonBlankIsAllIff(entries[1..]);
      assert entries == [entries[0]] + entries[1..];
      if !Blank(entries[0].code) && NonBlank(entries) == entries {
        assert NonBlank(entries)[1..] == NonBlank(entries[1..]);
      }
    }
  }

  /** At most five entries, and a restore id that names one of them. */
  ghost predicate Sane(h: History) {
    |h.entries| <= MAX_HISTORY && (h.restoreId.Some? ==> EntryOf(h.entries, h.restoreId.value).Some?)
  }

  lemma {:induction false} RebuiltIsSane(moves: seq<Move>)
    ensures Sane(Rebuild(moves))
    decreases |moves|
  {
    if moves != [] {
      var before, m := moves[..|moves| - 1], moves[|moves| - 1];
      RebuiltIsSane(before);
      if m.Did? && m.use.Used? {
        var h := Recorded(Rebuild(before), m.use.code, m.use.route);
        assert h.entries[0].id == h.restoreId.value;
      }
    }
  }

  /** Reading back any history a store can hold changes nothing, exactly when none of its codes is blank. */
  lemma SanitizedIsIdentityIff(moves: seq<Move>)
    ensures var h := Rebuild(moves);
            Sanitized(h) == h <==> forall e :: e in h.entries ==> !Blank(e.code)
  {
    var h := Rebuild(moves);
    RebuiltIsSane(moves);
    NonBlankIsAllIff(h.entries);
  }

  function UsesOf(moves: seq<Move>): seq<Use> {
    if moves == [] then []
    else
      var m, before := moves[|moves| - 1], UsesOf(moves[..|moves| - 1]);
      if m.Did? then before + [m.use] else before
  }

  ghost predicate Unblemished(moves: seq<Move>) {
    forall i :: 0 <= i < |moves| && moves[i].Did? && moves[i].use.Used? ==> !Blank(moves[i].use.code)
  }

  lemma {:induction false} KeptWasUsed(moves: seq<Move>, e: Entry)
    requires Unblemished(moves) && e in Rebuild(moves).entries
    ensures !Blank(e.code)
    decreases |moves|
  {
    var before, m := moves[..|moves| - 1], moves[|moves| - 1];
    if m.Reread? { NonBlankKeeps(Rebuild(before).entries, e); }
    if e in Rebuild(before).entries { KeptWasUsed(before, e); }
  }

  lemma {:induction false} NonBlankKeeps(entries: seq<Entry>, e: Entry)
    requires e in NonBlank(entries)
    ensures e in entries && !Blank(e.code)
  {
    if Blank(entries[0].code) || e != entries[0] { NonBlankKeeps(entries[1..], e); }
  }

  lemma ReplayMore(uses: seq<Use>, u: Use)
    ensures Replay(uses + [u]) == Apply(Replay(uses), u)
  {
    assert (uses + [u])[..|uses|] == uses;
  }

  /** Where no blank code was recorded, restarts do not show: the history is that of its uses alone, so everything
      proved about `Replay` holds across restarts. */
  lemma {:induction false} RestartsDoNotShow(moves: seq<Move>)
    requires Unblemished(moves)
    ensures Rebuild(moves) == Replay(UsesOf(moves))
    decreases |moves|
  {
    if moves != [] {
      var before, m := moves[..|moves| - 1], moves[|moves| - 1];
      RestartsDoNotShow(before);
      if m.Did? {
        ReplayMore(UsesOf(before), m.use);
      } else {
        SanitizedIsIdentityIff(before);
        hide Rebuild, Sanitized, Replay;
        forall e | e in Rebuild(before).entries ensures !Blank(e.code) { KeptWasUsed(before, e); }
      }
    }
  }

  ghost predicate NoneBlank(actions: seq<Action>) {
    forall i :: 0 <= i < |actions| && actions[i].Record? ==> !Blank(actions[i].code)
  }

  lemma {:induction false} RememberedIsUnblemished(actions: seq<Action>)
    requires NoneBlank(actions)
    ensures Unblemished(Remembered(actions).moves) && Unblemished(Remembered(actions).written)
    decreases |actions|
  {
    if actions != [] {
      hide Blank, Rebuild;
      RememberedIsUnblemished(actions[..|actions| - 1]);
    }
  }

  /** Over every run of records of codes that are not blank, clears, failed writes, restarts and unreadable files: the
      memory holds the five most recent of the uses that survived. */
  lemma StoreHoldsFiveMostRecent(actions: seq<Action>)
    requires NoneBlank(actions)
    ensures Codes(ActAll(actions).memory.entries) ==
              Take(Recent(UsedCodes(UsesOf(Remembered(actions).moves))), 5)
  {
    StoreIsReplay(actions);
    RememberedIsUnblemished(actions);
    RestartsDoNotShow(Remembered(actions).moves);
    HistoryIsFiveMostRecent(UsesOf(Remembered(actions).moves));
    hide Replay, Rebuild, ActAll, Remembered, UsesOf, Recent, UsedCodes;
  }

  /** A blank code does show: it is recorded and restored, and gone after a restart. */
  lemma BlankCodeIsLostOnRestart(h: History)
    requires h == Recorded(Empty(), "", Relay)
    ensures RestoreEntry(h) == Some(Entry(1, "", Relay))
    ensures Sanitized(h) == History(2, None, [])
  {
    assert h.entries == [Entry(1, "", Relay)];
    assert NonBlank(h.entries[1..]) == [];
  }
}
