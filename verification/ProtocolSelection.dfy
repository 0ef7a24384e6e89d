/** Protocol version selection, as the relay and the direct protocol both do it: the newest version that
    lies in some range of each side. */
module ProtocolSelection {
  import opened Prelude

  const MAX_PROTOCOL_RANGES: nat := 4

  datatype Version = Version(major: byte, minor: byte)

  datatype Range = Range(major: byte, minMinor: byte, maxMinor: byte)

  datatype SelectionError = InvalidRange(range: Range) | InvalidRangeCount(count: nat) | NoCommonProtocol

  predicate Contains(r: Range, v: Version) { r.major == v.major && r.minMinor <= v.minor <= r.maxMinor }

  predicate WellFormed(r: Range) { r.minMinor <= r.maxMinor }

  predicate Newer(v: Version, w: Version) { v.major > w.major || (v.major == w.major && v.minor > w.minor) }

  // ---- What a selection must be ----

  ghost predicate Offers(ranges: seq<Range>, v: Version) { exists i :: 0 <= i < |ranges| && Contains(ranges[i], v) }

  ghost predicate Common(a: seq<Range>, b: seq<Range>, v: Version) { Offers(a, v) && Offers(b, v) }

  /** The newest common version, or the error when there is none. */
  ghost predicate Best(a: seq<Range>, b: seq<Range>, r: Result<Version, SelectionError>) {
    match r
    case Ok(v) => Common(a, b, v) && forall w :: Common(a, b, w) ==> !Newer(w, v)
    case Err(e) => e.NoCommonProtocol? && forall w :: !Common(a, b, w)
  }

  ghost predicate AllWellFormed(ranges: seq<Range>) { forall i :: 0 <= i < |ranges| ==> WellFormed(ranges[i]) }

  /** The first malformed range of a list. */
  ghost predicate FirstMalformed(ranges: seq<Range>, r: Range) {
    exists i :: 0 <= i < |ranges| && ranges[i] == r && !WellFormed(r) && AllWellFormed(ranges[..i])
  }

  /** What the relay's selection answers. */
  ghost predicate RelayAnswer(a: seq<Range>, b: seq<Range>, r: Result<Version, SelectionError>) {
    if AllWellFormed(a) && AllWellFormed(b) then Best(a, b, r)
    else r.Err? && r.error.InvalidRange? && FirstMalformed(a + b, r.error.range)
  }

  predicate Countable(ranges: seq<Range>) { 1 <= |ranges| <= 4 }

  /** What the direct protocol's selection answers: it judges the local list completely, then the remote one. */
  ghost predicate DirectAnswer(a: seq<Range>, b: seq<Range>, r: Result<Version, SelectionError>) {
    if !Countable(a) then r == Err(InvalidRangeCount(|a|))
    else if !AllWellFormed(a) then r.Err? && r.error.InvalidRange? && FirstMalformed(a, r.error.range)
    else if !Countable(b) then r == Err(InvalidRangeCount(|b|))
    else if !AllWellFormed(b) then r.Err? && r.error.InvalidRange? && FirstMalformed(b, r.error.range)
    else Best(a, b, r)
  }

  // ---- The selection ----

  method CheckRanges(ranges: seq<Range>) returns (bad: Option<Range>)
    ensures bad.None? ==> AllWellFormed(ranges)
    ensures bad.Some? ==> FirstMalformed(ranges, bad.value) && !AllWellFormed(ranges)
  {
    for i := 0 to |ranges|
      invariant AllWellFormed(ranges[..i])
    {
      if ranges[i].minMinor > ranges[i].maxMinor { return Some(ranges[i]); }
      assert ranges[..i + 1] == ranges[..i] + [ranges[i]];
    }
    assert ranges[..|ranges|] == ranges;
    return None;
  }

  /** No version common to ranges `x` and `y` beats the one chosen so far. */
  ghost predicate Beaten(x: Range, y: Range, selected: Option<Version>) {
    forall w :: Contains(x, w) && Contains(y, w) ==> selected.Some? && !Newer(w, selected.value)
  }

  method Improve(x: Range, y: Range, current: Option<Version>) returns (selected: Option<Version>)
    ensures Beaten(x, y, selected)
    ensures selected == current || (selected.Some? && Contains(x, selected.value) && Contains(y, selected.value))
    ensures current.Some? ==> selected.Some? && !Newer(current.value, selected.value)
  {
    selected := current;
    if x.major != y.major { return; }
    var minMinor := if x.minMinor > y.minMinor then x.minMinor else y.minMinor;
    var maxMinor := if x.maxMinor < y.maxMinor then x.maxMinor else y.maxMinor;
    if minMinor > maxMinor { return; }
    var candidate := Version(x.major, maxMinor);
    if current.None? || Newer(candidate, current.value) { selected := Some(candidate); }
  }

  method NewestCommon(local: seq<Range>, remote: seq<Range>) returns (r: Result<Version, SelectionError>)
    ensures Best(local, remote, r)
  {
    var selected: Option<Version> := None;
    for i := 0 to |local|
      invariant selected.Some? ==> Common(local, remote, selected.value)
      invariant forall k, l :: 0 <= k < i && 0 <= l < |remote| ==> Beaten(local[k], remote[l], selected)
    {
      for j := 0 to |remote|
        invariant selected.Some? ==> Common(local, remote, selected.value)
        invariant forall k, l :: 0 <= k < i && 0 <= l < |remote| ==> Beaten(local[k], remote[l], selected)
        invariant forall l :: 0 <= l < j ==> Beaten(local[i], remote[l], selected)
      {
        var before := selected;
        selected := Improve(local[i], remote[j], before);
      }
    }
    forall w | Common(local, remote, w) ensures selected.Some? && !Newer(w, selected.value) {
      var k :| 0 <= k < |local| && Contains(local[k], w);
      var l :| 0 <= l < |remote| && Contains(remote[l], w);
      assert Beaten(local[k], remote[l], selected);
    }
    r := if selected.Some? then Ok(selected.value) else Err(NoCommonProtocol);
  }

  method SelectProtocol(client: seq<Range>, relay: seq<Range>) returns (r: Result<Version, SelectionError>)
    ensures RelayAnswer(client, relay, r)
  {
    var bad := CheckRanges(client + relay);
    AllOfBoth(client, relay);
    if bad.Some? { return Err(InvalidRange(bad.value)); }
    r := NewestCommon(client, relay);
  }

  method ValidateSelectionRanges(ranges: seq<Range>) returns (e: Option<SelectionError>)
    ensures !Countable(ranges) ==> e == Some(InvalidRangeCount(|ranges|))
    ensures Countable(ranges) && !AllWellFormed(ranges) ==>
      e.Some? && e.value.InvalidRange? && FirstMalformed(ranges, e.value.range)
    ensures Countable(ranges) && AllWellFormed(ranges) ==> e == None
  {
    if |ranges| == 0 || |ranges| > MAX_PROTOCOL_RANGES { return Some(InvalidRangeCount(|ranges|)); }
    var bad := CheckRanges(ranges);
    e := if bad.Some? then Some(InvalidRange(bad.value)) else None;
  }

  method SelectDirectProtocol(local: seq<Range>, remote: seq<Range>) returns (r: Result<Version, SelectionError>)
    ensures DirectAnswer(local, remote, r)
  {
    var bad := ValidateSelectionRanges(local);
    if bad.Some? { return Err(bad.value); }
    bad := ValidateSelectionRanges(remote);
    if bad.Some? { return Err(bad.value); }
    r := NewestCommon(local, remote);
  }

  // ---- The answer is determined by what each side offers ----

  lemma AllOfBoth(a: seq<Range>, b: seq<Range>)
    ensures AllWellFormed(a + b) <==> AllWellFormed(a) && AllWellFormed(b)
  {
    if AllWellFormed(a + b) {
      forall i | 0 <= i < |b| ensures WellFormed(b[i]) { assert (a + b)[|a| + i] == b[i]; }
      forall i | 0 <= i < |a| ensures WellFormed(a[i]) { assert (a + b)[i] == a[i]; }
    }
  }

  /** The same offers in any order, on either side of the call, get the same answer. */
  lemma AnswerIsDetermined(a: seq<Range>, b: seq<Range>, r: Result<Version, SelectionError>,
                           c: seq<Range>, d: seq<Range>, q: Result<Version, SelectionError>)
    requires Best(a, b, r) && Best(c, d, q)
    requires forall v :: Common(a, b, v) <==> Common(c, d, v)
    ensures r == q
  {
    if r.Ok? { assert Common(c, d, r.value); }
    if q.Ok? { assert Common(a, b, q.value); }
  }

  lemma OffersIgnoreOrder(a: seq<Range>, c: seq<Range>, v: Version)
    requires forall x :: x in a ==> x in c
    requires Offers(a, v)
    ensures Offers(c, v)
  {
    var i :| 0 <= i < |a| && Contains(a[i], v);
    assert a[i] in c;
    var j :| 0 <= j < |c| && c[j] == a[i];
  }

  /** Well-formed lists reordered, repeated or exchanged between the sides select the same version. */
  lemma SelectionIgnoresOrder(a: seq<Range>, b: seq<Range>, r: Result<Version, SelectionError>,
                              c: seq<Range>, d: seq<Range>, q: Result<Version, SelectionError>)
    requires AllWellFormed(a) && AllWellFormed(b)
    requires (forall x :: x in a <==> x in c) && (forall x :: x in b <==> x in d)
    requires RelayAnswer(a, b, r) && (RelayAnswer(c, d, q) || RelayAnswer(d, c, q))
    ensures r == q
  {
    forall i | 0 <= i < |c| ensures WellFormed(c[i]) { assert c[i] in a; }
    forall i | 0 <= i < |d| ensures WellFormed(d[i]) { assert d[i] in b; }
    forall v ensures Common(a, b, v) <==> Common(c, d, v) {
      if Common(a, b, v) { OffersIgnoreOrder(a, c, v); OffersIgnoreOrder(b, d, v); }
      if Common(c, d, v) { OffersIgnoreOrder(c, a, v); OffersIgnoreOrder(d, b, v); }
    }
    if RelayAnswer(c, d, q) {
      AnswerIsDetermined(a, b, r, c, d, q);
    } else {
      AnswerIsDetermined(a, b, r, d, c, q);
    }
  }

  /** Within its count limit the direct protocol answers what the relay's selection answers. */
  lemma DirectMeetsRelay(a: seq<Range>, b: seq<Range>, r: Result<Version, SelectionError>)
    requires Countable(a) && Countable(b)
    ensures DirectAnswer(a, b, r) <==> RelayAnswer(a, b, r)
  {
    if !AllWellFormed(a) || !AllWellFormed(b) {
      if r.Err? && r.error.InvalidRange? { FirstOfBoth(a, b, r.error.range); }
    }
  }

  lemma FirstOfBoth(a: seq<Range>, b: seq<Range>, x: Range)
    ensures FirstMalformed(a + b, x) <==>
              if AllWellFormed(a) then FirstMalformed(b, x) else FirstMalformed(a, x)
  {
    var all := a + b;
    if FirstMalformed(all, x) {
      var i :| 0 <= i < |all| && all[i] == x && !WellFormed(x) && AllWellFormed(all[..i]);
      if i < |a| {
        assert all[..i] == a[..i] && a[i] == x;
        assert FirstMalformed(a, x);
      } else {
        assert all[..i] == a + b[..i - |a|];
        AllOfBoth(a, b[..i - |a|]);
        assert b[i - |a|] == x;
      }
    }
    if AllWellFormed(a) && FirstMalformed(b, x) {
      var i :| 0 <= i < |b| && b[i] == x && !WellFormed(x) && AllWellFormed(b[..i]);
      assert all[..|a| + i] == a + b[..i];
      AllOfBoth(a, b[..i]);
      assert all[|a| + i] == x;
    }
    if FirstMalformed(a, x) {
      var i :| 0 <= i < |a| && a[i] == x && !WellFormed(x) && AllWellFormed(a[..i]);
      assert all[..i] == a[..i] && all[i] == x;
    }
  }
}
