/** The fixed-size frame duplicate window of the relay protocol: a 128-bit shift register
    standing for the unbounded set of every frame id accepted so far. */
module FrameWindow {
  import opened Prelude

  const WINDOW_BITS: int := 128

  /** An unsigned 128-bit integer as its bits, least significant first. */
  type Register = s: seq<bool> | |s| == 128 witness seq(128, _ => false)

  function Zero(): Register { seq(128, _ => false) }

  function ShiftLeft(s: Register, n: nat): Register {
    seq(128, k requires 0 <= k < 128 => k >= n && s[k - n])
  }

  function Or(s: Register, t: Register): Register {
    seq(128, k requires 0 <= k < 128 => s[k] || t[k])
  }

  function And(s: Register, t: Register): Register {
    seq(128, k requires 0 <= k < 128 => s[k] && t[k])
  }

  /** The register holding the number one. */
  function One(): Register { seq(128, k => k == 0) }

  datatype Decision = New | Reordered | Duplicate | TooOld

  datatype Window = Window(highest: Option<u64>, seen: Register)

  function Empty(): Window { Window(None, Zero()) }

  predicate Accepts(d: Decision) { d.New? || d.Reordered? }

  /** One observation on the register itself. */
  function Observe(w: Window, id: u64): (Window, Decision) {
    match w.highest
    case None => (Window(Some(id), One()), New)
    case Some(highest) =>
      if id > highest then
        var advance := id - highest;
        var seen := if advance >= WINDOW_BITS then One() else Or(ShiftLeft(w.seen, advance), One());
        (Window(Some(id), seen), New)
      else
        var age := highest - id;
        if age >= WINDOW_BITS then (w, TooOld)
        else
          var mask := ShiftLeft(One(), age);
          if And(w.seen, mask) != Zero() then (w, Duplicate)
          else (w.(seen := Or(w.seen, mask)), Reordered)
  }

  // ---- The reference: remember every accepted id ----

  ghost predicate Newest(accepted: set<u64>, id: u64) {
    forall a :: a in accepted ==> a < id
  }

  ghost predicate Stale(accepted: set<u64>, id: u64) {
    exists a :: a in accepted && a - id >= WINDOW_BITS
  }

  /** The decision taken by a receiver that keeps the whole set of accepted ids. */
  ghost function Decide(accepted: set<u64>, id: u64): Decision {
    if Newest(accepted, id) then New
    else if Stale(accepted, id) then TooOld
    else if id in accepted then Duplicate
    else Reordered
  }

  ghost function Record(accepted: set<u64>, id: u64): set<u64> {
    if Accepts(Decide(accepted, id)) then accepted + {id} else accepted
  }

  /** Bit `k` of the register is set exactly when `highest - k` was accepted. */
  ghost predicate Represents(w: Window, accepted: set<u64>) {
    match w.highest
    case None => accepted == {}
    case Some(highest) =>
      && highest in accepted
      && (forall a :: a in accepted ==> a <= highest)
      && (forall k :: 0 <= k < 128 ==> (w.seen[k] <==> highest - k in accepted))
  }

  lemma MaskTest(s: Register, age: nat)
    requires age < 128
    ensures And(s, ShiftLeft(One(), age)) != Zero() <==> s[age]
  {
    var masked := And(s, ShiftLeft(One(), age));
    assert masked[age] == s[age];
    if !s[age] {
      assert forall k :: 0 <= k < 128 ==> masked[k] == Zero()[k];
      assert masked == Zero();
    }
  }

  lemma AdvanceRepresents(w: Window, accepted: set<u64>, id: u64)
    requires Represents(w, accepted) && w.highest.Some? && id > w.highest.value
    ensures Represents(Observe(w, id).0, accepted + {id})
  {
    var h, w' := w.highest.value, Observe(w, id).0;
    var advance := id - h;
    forall k | 0 <= k < 128
      ensures w'.seen[k] <==> id - k in accepted + {id}
    {
      if k >= advance {
        assert id - k == h - (k - advance);
        assert w'.seen[k] == w.seen[k - advance];
      } else {
        assert w'.seen[k] == (k == 0);
      }
    }
  }

  lemma ReorderRepresents(w: Window, accepted: set<u64>, id: u64)
    requires Represents(w, accepted) && w.highest.Some? && 0 <= w.highest.value - id < 128
    ensures Observe(w, id).1 == if id in accepted then Duplicate else Reordered
    ensures Represents(Observe(w, id).0, accepted + {id})
  {
    var h, w' := w.highest.value, Observe(w, id).0;
    var age := h - id;
    MaskTest(w.seen, age);
    assert id == h - age;
    if id in accepted {
      assert accepted + {id} == accepted;
    } else {
      forall k | 0 <= k < 128
        ensures w'.seen[k] <==> h - k in accepted + {id}
      {
        assert w'.seen[k] == (w.seen[k] || k == age);
      }
    }
  }

  /** One observation of the register agrees with the reference and keeps representing it. */
  lemma ObserveRefinesReference(w: Window, accepted: set<u64>, id: u64)
    requires Represents(w, accepted)
    ensures Observe(w, id).1 == Decide(accepted, id)
    ensures Represents(Observe(w, id).0, Record(accepted, id))
  {
    if w.highest.None? {
      assert Newest(accepted, id);
    } else if id > w.highest.value {
      assert Newest(accepted, id);
      AdvanceRepresents(w, accepted, id);
    } else {
      assert !Newest(accepted, id);
      if w.highest.value - id >= 128 {
        assert Stale(accepted, id);
      } else {
        ReorderRepresents(w, accepted, id);
        assert accepted + {id} == if id in accepted then accepted else accepted + {id};
      }
    }
  }

  function ObserveAll(ids: seq<u64>): (Window, seq<Decision>) {
    if ids == [] then (Empty(), [])
    else
      var (w, ds) := ObserveAll(ids[..|ids| - 1]);
      var (w', d) := Observe(w, ids[|ids| - 1]);
      (w', ds + [d])
  }

  ghost function ReferenceAll(ids: seq<u64>): (set<u64>, seq<Decision>) {
    if ids == [] then ({}, [])
    else
      var (a, ds) := ReferenceAll(ids[..|ids| - 1]);
      var id := ids[|ids| - 1];
      (Record(a, id), ds + [Decide(a, id)])
  }

  /** For every sequence of observed ids the register takes the reference's decisions. */
  lemma {:induction false} WindowRefinesReference(ids: seq<u64>)
    ensures ObserveAll(ids).1 == ReferenceAll(ids).1
    ensures Represents(ObserveAll(ids).0, ReferenceAll(ids).0)
  {
    if ids != [] {
      var prefix := ids[..|ids| - 1];
      WindowRefinesReference(prefix);
      ObserveRefinesReference(ObserveAll(prefix).0, ReferenceAll(prefix).0, ids[|ids| - 1]);
    }
  }

  // ---- At most one acceptance per id ----

  /** The window would refuse `id` now. */
  predicate Refuses(w: Window, id: u64) { !Accepts(Observe(w, id).1) }

  lemma ObservedIsRefused(w: Window, id: u64)
    ensures Refuses(Observe(w, id).0, id)
  {
    var w' := Observe(w, id).0;
    if w.highest.Some? && id <= w.highest.value && w.highest.value - id < 128 {
      MaskTest(w.seen, w.highest.value - id);
      MaskTest(w'.seen, w.highest.value - id);
    } else if w'.highest == Some(id) {
      MaskTest(w'.seen, 0);
    }
  }

  /** Once refused, an id stays refused whatever else is observed. */
  lemma RefusalIsStable(w: Window, id: u64, other: u64)
    requires Refuses(w, id)
    ensures Refuses(Observe(w, other).0, id)
  {
    var w' := Observe(w, other).0;
    var h, h' := w.highest.value, w'.highest.value;
    if h' - id < 128 {
      MaskTest(w.seen, h - id);
      MaskTest(w'.seen, h' - id);
    }
  }

  /** The window as the object the relay keeps for each connection. */
  class FrameIdWindow {
    var highest: Option<u64>
    var seen: Register
    ghost var accepted: set<u64>

    ghost predicate Valid() reads this { Represents(Value(), accepted) }

    function Value(): Window reads this { Window(highest, seen) }

    constructor ()
      ensures Valid() && accepted == {} && Value() == Empty()
    {
      highest, seen, accepted := None, Zero(), {};
    }

    method ObserveFrame(id: u64) returns (decision: Decision)
      requires Valid()
      modifies this
      ensures Valid()
      ensures decision == Decide(old(accepted), id)
      ensures accepted == Record(old(accepted), id)
      ensures Value() == Observe(old(Value()), id).0
    {
      ObserveRefinesReference(Value(), accepted, id);
      accepted := Record(accepted, id);
      if highest.None? {
        highest, seen := Some(id), One();
        return New;
      }
      if id > highest.value {
        var advance := id - highest.value;
        seen := if advance >= WINDOW_BITS then One() else Or(ShiftLeft(seen, advance), One());
        highest := Some(id);
        return New;
      }
      var age := highest.value - id;
      if age >= WINDOW_BITS {
        return TooOld;
      }
      var mask := ShiftLeft(One(), age);
      if And(seen, mask) != Zero() {
        decision := Duplicate;
      } else {
        seen := Or(seen, mask);
        decision := Reordered;
      }
    }
  }
}
