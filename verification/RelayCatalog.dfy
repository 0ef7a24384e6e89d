/** The relay catalog of the client's config file: relays, the selected one, and the stored counter that keeps ids
    of deleted relays from coming back. A document holds raw text; a config is what parsing makes of it. */
module RelayCatalog {
  import opened Prelude
  import opened Text

  const I64_MAX: int := 0x7FFF_FFFF_FFFF_FFFF

  datatype Transport = Udp | Tcp

  datatype Profile = Profile(name: string, host: string, port: u16, udp: bool, tcp: bool, preferred: Option<Transport>)

  /** A relay, as the document stores it or, with every text trimmed, as the config holds it. */
  datatype Relay = Relay(id: string, profile: Profile)

  datatype Document = Document(relays: seq<Relay>, selected: Option<string>, nextRelayId: Option<int>)

  datatype Config = Config(relays: seq<Relay>, selected: Option<string>)

  datatype Change = Add(input: Profile) | Update(id: string, input: Profile) | Delete(id: string)

  datatype Error =
    | InvalidRelay(id: string) | DuplicateRelayId(id: string) | UnknownSelectedRelay(id: string)
    | RelayNotFound(id: string) | RelayIdExhausted | Io

  // ---- Parsing and validation ----

  predicate ValidProfile(p: Profile) {
    && Trim(p.name) != "" && Trim(p.host) != "" && p.port != 0 && (p.udp || p.tcp)
    && (p.preferred == Some(Udp) ==> p.udp) && (p.preferred == Some(Tcp) ==> p.tcp)
  }

  predicate ValidRelay(r: Relay) { Trim(r.id) != "" && ValidProfile(r.profile) }

  predicate Bracketed(s: string) { |s| >= 2 && s[0] == '[' && s[|s| - 1] == ']' }

  /** `RelayEndpoint::new`: trimmed, then without one pair of enclosing brackets. */
  function Host(h: string): string {
    var t := Trim(h);
    if Bracketed(t) then t[1..|t| - 1] else t
  }

  function Normalize(p: Profile): Profile { p.(name := Trim(p.name), host := Host(p.host)) }

  function Preset(r: Relay): Relay { Relay(Trim(r.id), Normalize(r.profile)) }

  function Presets(tables: seq<Relay>): (r: seq<Relay>)
    ensures |r| == |tables|
    ensures forall i :: 0 <= i < |r| ==> r[i] == Preset(tables[i])
  {
    seq(|tables|, i requires 0 <= i < |tables| => Preset(tables[i]))
  }

  /** Where the id stands; the length if it is not there. */
  function IndexOf(relays: seq<Relay>, id: string): (i: nat)
    ensures i <= |relays|
    ensures i < |relays| ==> relays[i].id == id
    ensures forall k :: 0 <= k < i ==> relays[k].id != id
  {
    if relays == [] || relays[0].id == id then 0 else 1 + IndexOf(relays[1..], id)
  }

  predicate Has(relays: seq<Relay>, id: string) { IndexOf(relays, id) < |relays| }

  /** The first fault of the relays that follow the ids in `seen`. */
  function Judge(relays: seq<Relay>, seen: set<string>): Option<Error> {
    if relays == [] then None
    else if !ValidRelay(relays[0]) then Some(InvalidRelay(relays[0].id))
    else if relays[0].id in seen then Some(DuplicateRelayId(relays[0].id))
    else Judge(relays[1..], seen + {relays[0].id})
  }

  function Validated(c: Config): Option<Error> {
    var fault := Judge(c.relays, {});
    if fault.Some? then fault
    else if c.selected.Some? && !Has(c.relays, c.selected.value) then Some(UnknownSelectedRelay(c.selected.value))
    else None
  }

  function Selection(relays: seq<Relay>, selected: Option<string>): Option<string> {
    if selected.Some? && Trim(selected.value) != "" && Has(relays, Trim(selected.value))
    then Some(Trim(selected.value)) else None
  }

  function Parse(doc: Document): Result<Config, Error> {
    var relays := Presets(doc.relays);
    var c := Config(relays, Selection(relays, doc.selected));
    var fault := Validated(c);
    if fault.Some? then Err(fault.value) else Ok(c)
  }

  // ---- Ids ----

  /** The largest numeric id, zero if there is none. */
  function MaxNumeric(relays: seq<Relay>): nat {
    if relays == [] then 0
    else
      var rest := MaxNumeric(relays[1..]);
      var n := ParseU64(relays[0].id);
      if n.Some? && n.value > rest then n.value else rest
  }

  function StoredCounter(doc: Document): nat {
    if doc.nextRelayId.Some? && doc.nextRelayId.value >= 0 then doc.nextRelayId.value else 1
  }

  /** The id the next relay would get, were numbers unbounded. */
  function Watermark(doc: Document): nat {
    var after := MaxNumeric(Presets(doc.relays)) + 1;
    if after >= StoredCounter(doc) then after else StoredCounter(doc)
  }

  function NextRelayId(doc: Document): Result<nat, Error> {
    if MaxNumeric(Presets(doc.relays)) + 1 >= U64_LIMIT then Err(RelayIdExhausted)
    else if Watermark(doc) > I64_MAX then Err(RelayIdExhausted)
    else Ok(Watermark(doc))
  }

  // ---- Saving a change ----

  function OptionalKey(value: string): Option<string> { if Trim(value) == "" then None else Some(Trim(value)) }

  /** The document after the change; the file is replaced only if this succeeds. */
  function Edited(doc: Document, change: Change): Result<Document, Error> {
    var current := Parse(doc);
    if current.Err? then Err(current.error)
    else match change
      case Add(input) =>
        var next := NextRelayId(doc);
        if next.Err? then Err(next.error)
        else
          var id := Decimal(next.value);
          var relay := Relay(id, Normalize(input));
          if !ValidRelay(relay) then Err(InvalidRelay(id))
          else if next.value + 1 > I64_MAX then Err(RelayIdExhausted)
          else Ok(Document(doc.relays + [relay], OptionalKey(id), Some(next.value + 1)))
      case Update(id, input) =>
        var relay := Relay(id, Normalize(input));
        var at := IndexOf(Presets(doc.relays), Trim(id));
        if !ValidRelay(relay) then Err(InvalidRelay(id))
        else if at == |doc.relays| then Err(RelayNotFound(id))
        else Ok(doc.(relays := doc.relays[at := doc.relays[at].(profile := relay.profile)]))
      case Delete(id) =>
        var next := NextRelayId(doc);
        var at := IndexOf(Presets(doc.relays), Trim(id));
        if next.Err? then Err(next.error)
        else if at == |doc.relays| then Err(RelayNotFound(id))
        else Ok(Document(
                  doc.relays[..at] + doc.relays[at + 1..],
                  if current.value.selected == Some(id) then None else doc.selected, Some(next.value)))
  }

  function Saved(doc: Document, change: Change): Result<Document, Error> {
    var edited := Edited(doc, change);
    if edited.Err? then edited
    else var config := Parse(edited.value); if config.Err? then Err(config.error) else edited
  }

  class ConfigFile {
    var stored: Document

    constructor (doc: Document)
      ensures stored == doc
    {
      stored := doc;
    }

    static method Validate(c: Config) returns (fault: Option<Error>)
      ensures fault == Validated(c)
    {
      var ids: set<string> := {};
      for i := 0 to |c.relays|
        invariant Judge(c.relays, {}) == Judge(c.relays[i..], ids)
      {
        assert c.relays[i..][1..] == c.relays[i + 1..];
        if !ValidRelay(c.relays[i]) { return Some(InvalidRelay(c.relays[i].id)); }
        if c.relays[i].id in ids { return Some(DuplicateRelayId(c.relays[i].id)); }
        ids := ids + {c.relays[i].id};
      }
      if c.selected.Some? && !Has(c.relays, c.selected.value) { return Some(UnknownSelectedRelay(c.selected.value)); }
      return None;
    }

    static method FindTable(tables: seq<Relay>, id: string) returns (at: nat)
      ensures at == IndexOf(Presets(tables), Trim(id))
    {
      at := 0;
      while at < |tables| && Trim(tables[at].id) != Trim(id)
        invariant at <= |tables| && forall k :: 0 <= k < at ==> Presets(tables)[k].id != Trim(id)
      {
        at := at + 1;
      }
    }

    static method ParseDocument(doc: Document) returns (r: Result<Config, Error>)
      ensures r == Parse(doc)
    {
      var relays := Presets(doc.relays);
      var config := Config(relays, Selection(relays, doc.selected));
      var fault := Validate(config);
      r := if fault.Some? then Err(fault.value) else Ok(config);
    }

    /** `writes` says whether the file could be replaced. Every error leaves it as it was. */
    method SaveRelayCatalog(change: Change, writes: bool) returns (r: Result<Config, Error>)
      modifies this
      ensures var saved := Saved(old(stored), change);
              && (saved.Err? ==> r == Err(saved.error))
              && (saved.Ok? ==> r == if writes then Parse(saved.value) else Err(Io))
              && stored == if r.Ok? then saved.value else old(stored)
    {
      hide Parse, Watermark, IndexOf, Decimal, Trim;
      var doc := stored;
      var parsed := ParseDocument(doc);
      if parsed.Err? { return Err(parsed.error); }
      match change {
        case Add(input) =>
          var next := NextRelayId(doc);
          if next.Err? { return Err(next.error); }
          var relay := Relay(Decimal(next.value), Normalize(input));
          if !ValidRelay(relay) { return Err(InvalidRelay(relay.id)); }
          doc := doc.(relays := doc.relays + [relay]);
          doc := doc.(selected := OptionalKey(relay.id));
          if next.value + 1 > I64_MAX { return Err(RelayIdExhausted); }
          doc := doc.(nextRelayId := Some(next.value + 1));
        case Update(id, input) =>
          var relay := Relay(id, Normalize(input));
          if !ValidRelay(relay) { return Err(InvalidRelay(id)); }
          var at := FindTable(doc.relays, id);
          if at == |doc.relays| { return Err(RelayNotFound(id)); }
          doc := doc.(relays := doc.relays[at := doc.relays[at].(profile := relay.profile)]);
        case Delete(id) =>
          var next := NextRelayId(doc);
          if next.Err? { return Err(next.error); }
          var at := FindTable(doc.relays, id);
          if at == |doc.relays| { return Err(RelayNotFound(id)); }
          doc := doc.(relays := doc.relays[..at] + doc.relays[at + 1..]);
          if parsed.value.selected == Some(id) { doc := doc.(selected := None); }
          doc := doc.(nextRelayId := Some(next.value));
      }
      assert Edited(old(stored), change) == Ok(doc);
      var config := ParseDocument(doc);
      if config.Err? { return Err(config.error); }
      if !writes { return Err(Io); }
      stored := doc;
      r := config;
    }
  }

  // ---- What validation means ----

  ghost predicate AllValid(relays: seq<Relay>) { forall i :: 0 <= i < |relays| ==> ValidRelay(relays[i]) }

  ghost predicate DistinctIds(relays: seq<Relay>) {
    forall i, j :: 0 <= i < j < |relays| ==> relays[i].id != relays[j].id
  }

  lemma {:induction false} JudgeIsExact(relays: seq<Relay>, seen: set<string>)
    ensures Judge(relays, seen).None? <==>
              AllValid(relays) && DistinctIds(relays) && forall i :: 0 <= i < |relays| ==> relays[i].id !in seen
    decreases |relays|
  {
    hide ValidRelay;
    if relays != [] {
      var tail := relays[1..];
      JudgeIsExact(tail, seen + {relays[0].id});
      assert relays == [relays[0]] + tail;
      if ValidRelay(relays[0]) && relays[0].id !in seen {
        assert AllValid(relays) <==> AllValid(tail);
      }
    }
  }

  /** A document parses exactly when its relays are valid and their trimmed ids distinct; the selection of a config is
      one of its relays, so the unknown-selection error never comes out of a document. */
  lemma ParseIsExact(doc: Document)
    ensures Parse(doc).Ok? <==> AllValid(Presets(doc.relays)) && DistinctIds(Presets(doc.relays))
    ensures Parse(doc).Err? ==> !Parse(doc).error.UnknownSelectedRelay?
    ensures Parse(doc).Ok? ==>
              Parse(doc).value == Config(Presets(doc.relays), Selection(Presets(doc.relays), doc.selected))
    ensures Parse(doc).Ok? && Parse(doc).value.selected.Some? ==>
              Has(Presets(doc.relays), Parse(doc).value.selected.value)
  {
    var relays := Presets(doc.relays);
    JudgeIsExact(relays, {});
    JudgeNamesNoSelection(relays, {});
    hide Judge, Presets, AllValid, DistinctIds;
  }

  lemma {:induction false} JudgeNamesNoSelection(relays: seq<Relay>, seen: set<string>)
    ensures Judge(relays, seen).Some? ==> !Judge(relays, seen).value.UnknownSelectedRelay?
    decreases |relays|
  {
    hide ValidRelay;
    if relays != [] { JudgeNamesNoSelection(relays[1..], seen + {relays[0].id}); }
  }

  /** The fault reported is the first one, and that a relay is invalid goes before that its id is taken. */
  lemma {:induction false} FaultIsFirst(relays: seq<Relay>, seen: set<string>) returns (at: nat)
    requires Judge(relays, seen).Some?
    ensures at < |relays| && Judge(relays[..at], seen).None?
    ensures var relay := relays[at];
            Judge(relays, seen) ==
            Some(if ValidRelay(relay) then DuplicateRelayId(relay.id) else InvalidRelay(relay.id))
    ensures ValidRelay(relays[at]) ==> relays[at].id in seen || exists k :: 0 <= k < at && relays[k].id == relays[at].id
    decreases |relays|
  {
    hide ValidRelay;
    var id := relays[0].id;
    at := 0;
    if ValidRelay(relays[0]) && id !in seen {
      var k := FaultIsFirst(relays[1..], seen + {id});
      at := k + 1;
      assert relays[..at][1..] == relays[1..][..k] && relays[..at][0] == relays[0];
      if ValidRelay(relays[at]) && relays[at].id !in seen {
        if relays[at].id != id {
          var j :| 0 <= j < k && relays[1..][j].id == relays[at].id;
          assert relays[j + 1].id == relays[at].id;
        }
      }
    }
  }

  /** The first invalid relay after valid and distinct ones is the fault. */
  lemma {:induction false} JudgeFindsInvalid(relays: seq<Relay>, seen: set<string>, at: nat)
    requires at < |relays| && AllValid(relays[..at]) && DistinctIds(relays[..at]) && !ValidRelay(relays[at])
    requires forall i :: 0 <= i < at ==> relays[i].id !in seen
    ensures Judge(relays, seen) == Some(InvalidRelay(relays[at].id))
    decreases |relays|
  {
    hide ValidRelay;
    if at > 0 {
      var head, tail := relays[0], relays[1..];
      assert relays[..at][0] == head && tail[..at - 1] == relays[..at][1..];
      forall i | 0 <= i < at - 1 ensures tail[i].id !in seen + {head.id} {
        assert relays[..at][0].id != relays[..at][i + 1].id;
      }
      JudgeFindsInvalid(tail, seen + {head.id}, at - 1);
    }
  }

  lemma ParseFindsInvalid(doc: Document, at: nat)
    requires var relays := Presets(doc.relays);
             at < |relays| && AllValid(relays[..at]) && DistinctIds(relays[..at]) && !ValidRelay(relays[at])
    ensures Parse(doc) == Err(InvalidRelay(Presets(doc.relays)[at].id))
  {
    JudgeFindsInvalid(Presets(doc.relays), {}, at);
    hide Judge, Presets, ValidRelay, AllValid, DistinctIds;
  }

  // ---- What each change does to the parsed catalog ----

  /** A host that parsing leaves alone. */
  predicate Bare(h: string) { Trimmed(h) && !Bracketed(h) }

  /** Parsing a stored host gives it back exactly when it is bare; and it never makes a blank host good. */
  lemma HostIsStableIff(h: string)
    ensures Host(h) == h <==> Bare(h)
    ensures Trim(Host(h)) != "" ==> Trim(h) != ""
  {
    TrimIsExact(h);
    TrimEndKeepsStart(TrimStart(h));
    TrimStartLeads(h);
  }

  /** A profile is stored normalised and parsed normalised again; what passes the second time passed the first. */
  lemma ReparsedIsValid(p: Profile)
    ensures ValidProfile(Normalize(Normalize(p))) ==> ValidProfile(Normalize(p))
    ensures Normalize(Normalize(p)) == Normalize(p) <==> Bare(Host(p.host))
  {
    TrimIsExact(p.name);
    HostIsStableIff(Host(p.host));
    hide Trim, Host;
  }

  /** One pair of brackets comes off at a time, whatever is inside: `[::1]` is stored as `::1`, `[[a]]` is stored as
      `[a]` and parsed as `a`, and `[[]]` is stored as `[]` and parsed as nothing. */
  lemma BracketsComeOff(h: string)
    ensures Host("[" + h + "]") == h
  {
    TrimIsExact("[" + h + "]");
  }

  /** The failing input: a validated profile that its own saving refuses, on the second parse. */
  lemma EmptyNestedBracketsAreRefused(p: Profile)
    requires p.host == "[[]]" && Trim(p.name) != "" && p.port != 0 && p.udp && p.preferred == Some(Udp)
    ensures ValidProfile(Normalize(p)) && !ValidProfile(Normalize(Normalize(p)))
  {
    BracketsComeOff("[]");
    BracketsComeOff("");
    TrimIsExact(p.name);
    TrimIsExact("[]");
    TrimIsExact("");
    hide Trim, Host;
    assert "[" + "[]" + "]" == "[[]]" && "[" + "" + "]" == "[]";
  }

  /** The other failing input: a profile saved, and parsed with another host than was validated. */
  lemma NestedBracketsChange(p: Profile)
    requires p.host == "[[a]]"
    ensures Normalize(p).host == "[a]" && Normalize(Normalize(p)).host == "a"
  {
    BracketsComeOff("[a]");
    BracketsComeOff("a");
    hide Trim, Host;
    assert "[" + "[a]" + "]" == "[[a]]" && "[" + "a" + "]" == "[a]";
  }

  lemma {:induction false} MaxNumericIsLeast(relays: seq<Relay>, m: nat)
    ensures MaxNumeric(relays) <= m <==>
              forall i :: 0 <= i < |relays| && ParseU64(relays[i].id).Some? ==> ParseU64(relays[i].id).value <= m
    decreases |relays|
  {
    hide ParseU64;
    if relays != [] {
      MaxNumericIsLeast(relays[1..], m);
      assert relays == [relays[0]] + relays[1..];
    }
  }

  lemma {:induction false} MaxNumericOfConcat(a: seq<Relay>, b: seq<Relay>)
    ensures var x, y := MaxNumeric(a), MaxNumeric(b); MaxNumeric(a + b) == if x >= y then x else y
    decreases |a|
  {
    hide ParseU64;
    if a == [] {
      assert a + b == b;
    } else {
      assert (a + b)[1..] == a[1..] + b && (a + b)[0] == a[0];
      MaxNumericOfConcat(a[1..], b);
    }
  }

  /** Only ids matter to the counter. */
  lemma {:induction false} MaxNumericOfIds(a: seq<Relay>, b: seq<Relay>)
    requires |a| == |b| && forall i :: 0 <= i < |a| ==> a[i].id == b[i].id
    ensures MaxNumeric(a) == MaxNumeric(b)
    decreases |a|
  {
    hide ParseU64;
    if a != [] { MaxNumericOfIds(a[1..], b[1..]); }
  }

  /** The id the counter yields is above every numeric id, so it is not in the catalog. */
  lemma WatermarkIsUnused(doc: Document)
    requires Watermark(doc) < U64_LIMIT
    ensures !Has(Presets(doc.relays), Decimal(Watermark(doc)))
  {
    var relays, id := Presets(doc.relays), Decimal(Watermark(doc));
    DecimalRoundTrips(Watermark(doc));
    MaxNumericIsLeast(relays, Watermark(doc) - 1);
    hide Presets, ParseU64, Decimal, IndexOf;
    if Has(relays, id) { assert false; }
  }

  lemma PresetsOfAdded(tables: seq<Relay>, id: string, profile: Profile)
    requires Trim(id) == id
    ensures Presets(tables + [Relay(id, profile)]) == Presets(tables) + [Relay(id, Normalize(profile))]
  {
  }

  /** Adding a profile succeeds if and only if it is still valid parsed a second time and the counter is not exhausted;
      never with a duplicate id. The catalog grows by exactly the new relay, as parsed again, which is selected, and the
      counter moves past its id. */
  lemma AddIsExact(doc: Document, input: Profile)
    requires Parse(doc).Ok?
    ensures var w, r, once := Watermark(doc), Saved(doc, Add(input)), Normalize(input);
            && (r.Ok? <==> ValidProfile(Normalize(once)) && w < I64_MAX)
            && (r.Err? ==>
                  r.error == if w > I64_MAX || (w == I64_MAX && ValidProfile(once)) then RelayIdExhausted
                             else InvalidRelay(Decimal(w)))
            && (r.Ok? ==> AddedTo(doc, r.value, Relay(Decimal(w), Normalize(once))) && Watermark(r.value) == w + 1)
  {
    var w, once := Watermark(doc), Normalize(input);
    ReparsedIsValid(input);
    hide Parse, Trim, Host, Decimal, ParseU64, Watermark, ValidProfile, Normalize, AddedTo, Saved;
    if w >= I64_MAX || !ValidProfile(once) {
      AddRefuses(doc, input);
    } else {
      AddEdits(doc, input);
      AddReparses(doc, Decimal(w), once);
      SavedIsEdited(doc, Add(input));
      hide Edited;
      AddedToParses(doc, WithAdded(doc, once), Relay(Decimal(w), Normalize(once)));
    }
  }

  lemma AddedToParses(doc: Document, doc': Document, relay: Relay)
    ensures AddedTo(doc, doc', relay) ==> Parse(doc').Ok?
  {
    hide Parse;
  }

  lemma AddRefuses(doc: Document, input: Profile)
    requires Parse(doc).Ok? && (Watermark(doc) >= I64_MAX || !ValidProfile(Normalize(input)))
    ensures var w := Watermark(doc);
            Saved(doc, Add(input)) ==
            Err(if w > I64_MAX || (w == I64_MAX && ValidProfile(Normalize(input))) then RelayIdExhausted
                else InvalidRelay(Decimal(w)))
  {
    if Watermark(doc) <= I64_MAX { DecimalRoundTrips(Watermark(doc)); }
    hide Parse, Trim, Decimal, ParseU64, ValidProfile, Normalize, MaxNumeric, Presets;
  }

  function WithAdded(doc: Document, profile: Profile): Document {
    var id := Decimal(Watermark(doc));
    Document(doc.relays + [Relay(id, profile)], Some(id), Some(Watermark(doc) + 1))
  }

  lemma AddEdits(doc: Document, input: Profile)
    requires Parse(doc).Ok? && Watermark(doc) < I64_MAX && ValidProfile(Normalize(input))
    ensures Edited(doc, Add(input)) == Ok(WithAdded(doc, Normalize(input)))
  {
    DecimalRoundTrips(Watermark(doc));
    hide Parse, Trim, Decimal, ParseU64, ValidProfile, Normalize, MaxNumeric, Presets;
  }

  lemma AddReparses(doc: Document, id: string, profile: Profile)
    requires Parse(doc).Ok? && Watermark(doc) < I64_MAX && id == Decimal(Watermark(doc))
    ensures var doc', relay := WithAdded(doc, profile), Relay(id, Normalize(profile));
            if ValidProfile(relay.profile) then AddedTo(doc, doc', relay) && Watermark(doc') == Watermark(doc) + 1
            else Parse(doc') == Err(InvalidRelay(id))
  {
    var doc', relay := WithAdded(doc, profile), Relay(id, Normalize(profile));
    DecimalRoundTrips(Watermark(doc));
    PresetsOfAdded(doc.relays, id, profile);
    if ValidProfile(relay.profile) {
      AddedParses(doc, doc', relay);
      AddedWatermark(doc, doc', relay);
    } else {
      ParseIsExact(doc);
      var all := Presets(doc'.relays);
      assert all[..|doc.relays|] == Presets(doc.relays) && all[|doc.relays|] == relay;
      ParseFindsInvalid(doc', |doc.relays|);
    }
    hide Parse, Trim, Decimal, ParseU64, ValidProfile, Normalize, MaxNumeric, Presets, AddedTo, Watermark;
  }

  ghost predicate AddedTo(doc: Document, doc': Document, relay: Relay) {
    Parse(doc') == Ok(Config(Presets(doc.relays) + [relay], Some(relay.id)))
  }

  lemma HasIffMember(relays: seq<Relay>, id: string)
    ensures Has(relays, id) <==> exists i :: 0 <= i < |relays| && relays[i].id == id
  {
  }

  lemma AddedParses(doc: Document, doc': Document, relay: Relay)
    requires Parse(doc).Ok? && ValidRelay(relay) && Trim(relay.id) == relay.id
    requires Watermark(doc) < U64_LIMIT && relay.id == Decimal(Watermark(doc))
    requires doc'.selected == Some(relay.id) && Presets(doc'.relays) == Presets(doc.relays) + [relay]
    ensures AddedTo(doc, doc', relay)
  {
    ParseIsExact(doc);
    ParseIsExact(doc');
    WatermarkIsUnused(doc);
    var relays, all := Presets(doc.relays), Presets(doc'.relays);
    TrimIsExact(relay.id);
    HasIffMember(relays, relay.id);
    HasIffMember(all, relay.id);
    hide Presets, ValidRelay, Decimal, Trim, Watermark, Parse, Has, IndexOf, AllValid, DistinctIds;
    assert all[|relays|] == relay;
    ValidWithNew(relays, relay);
  }

  lemma ValidWithNew(relays: seq<Relay>, relay: Relay)
    requires AllValid(relays) && DistinctIds(relays) && ValidRelay(relay)
    requires forall i :: 0 <= i < |relays| ==> relays[i].id != relay.id
    ensures AllValid(relays + [relay]) && DistinctIds(relays + [relay])
  {
    hide ValidRelay;
  }

  lemma AddedWatermark(doc: Document, doc': Document, relay: Relay)
    requires Watermark(doc) < U64_LIMIT && relay.id == Decimal(Watermark(doc))
    requires doc'.nextRelayId == Some(Watermark(doc) + 1) && Presets(doc'.relays) == Presets(doc.relays) + [relay]
    ensures Watermark(doc') == Watermark(doc) + 1
  {
    DecimalRoundTrips(Watermark(doc));
    MaxNumericOfConcat(Presets(doc.relays), [relay]);
    hide Decimal, ParseU64, Presets;
  }

  /** An update succeeds if and only if the profile is still valid parsed a second time and the id is known; it changes
      that relay's profile and nothing else. */
  lemma UpdateIsExact(doc: Document, id: string, input: Profile)
    requires Parse(doc).Ok?
    ensures var relays, r, once := Presets(doc.relays), Saved(doc, Update(id, input)), Normalize(input);
            var at := IndexOf(relays, Trim(id));
            && (r.Ok? <==> ValidProfile(Normalize(once)) && at < |relays|)
            && (r.Err? ==>
                  r.error == if Trim(id) == "" || !ValidProfile(once) then InvalidRelay(id)
                             else if at == |relays| then RelayNotFound(id) else InvalidRelay(Trim(id)))
            && (r.Ok? ==>
                  && Parse(r.value) ==
                     Ok(Config(relays[at := Relay(Trim(id), Normalize(once))], Parse(doc).value.selected))
                  && Watermark(r.value) == Watermark(doc))
  {
    var relays, at, once := Presets(doc.relays), IndexOf(Presets(doc.relays), Trim(id)), Normalize(input);
    ReparsedIsValid(input);
    if at < |relays| { IdIsNotBlank(doc, at, id); }
    hide Trim, Host, IndexOf, Presets, Parse, Watermark, ValidProfile, Normalize, Saved;
    if Trim(id) == "" || !ValidProfile(once) || at == |relays| {
      UpdateRefuses(doc, id, input);
    } else {
      UpdateEdits(doc, id, input);
      UpdatedParses(doc, at, once);
      SavedIsEdited(doc, Update(id, input));
    }
  }

  lemma SavedIsEdited(doc: Document, change: Change)
    ensures var edited := Edited(doc, change);
            Saved(doc, change) ==
            if edited.Ok? && Parse(edited.value).Err? then Err(Parse(edited.value).error) else edited
  {
    hide Parse, Edited;
  }

  lemma IdIsNotBlank(doc: Document, at: nat, id: string)
    requires Parse(doc).Ok? && at < |doc.relays| && Presets(doc.relays)[at].id == Trim(id)
    ensures Trim(id) != ""
  {
    ParseIsExact(doc);
    assert ValidRelay(Presets(doc.relays)[at]);
    TrimIsExact(id);
    hide Trim, Parse, ValidProfile;
  }

  lemma UpdateRefuses(doc: Document, id: string, input: Profile)
    requires Parse(doc).Ok?
    requires Trim(id) == "" || !ValidProfile(Normalize(input)) || IndexOf(Presets(doc.relays), Trim(id)) == |doc.relays|
    ensures Saved(doc, Update(id, input)) ==
              Err(if Trim(id) == "" || !ValidProfile(Normalize(input)) then InvalidRelay(id) else RelayNotFound(id))
  {
    hide Trim, Host, IndexOf, Presets, Parse, ValidProfile, Normalize;
  }

  lemma UpdateEdits(doc: Document, id: string, input: Profile)
    requires Parse(doc).Ok? && Trim(id) != "" && ValidProfile(Normalize(input))
    requires IndexOf(Presets(doc.relays), Trim(id)) < |doc.relays|
    ensures Edited(doc, Update(id, input)) ==
              Ok(WithProfile(doc, IndexOf(Presets(doc.relays), Trim(id)), Normalize(input)))
  {
    hide Trim, Host, IndexOf, Presets, Parse, ValidProfile, Normalize;
  }

  function WithProfile(doc: Document, at: nat, profile: Profile): Document
    requires at < |doc.relays|
  {
    doc.(relays := doc.relays[at := doc.relays[at].(profile := profile)])
  }

  lemma UpdatedParses(doc: Document, at: nat, profile: Profile)
    requires Parse(doc).Ok? && at < |doc.relays|
    ensures var relays, doc' := Presets(doc.relays), WithProfile(doc, at, profile);
            if ValidProfile(Normalize(profile)) then
              && Parse(doc') ==
                 Ok(Config(relays[at := Relay(relays[at].id, Normalize(profile))], Parse(doc).value.selected))
              && Watermark(doc') == Watermark(doc)
            else Parse(doc') == Err(InvalidRelay(relays[at].id))
  {
    var doc' := WithProfile(doc, at, profile);
    var relays, relays' := Presets(doc.relays), Presets(doc'.relays);
    PresetsOfUpdated(doc, at, profile);
    ParseIsExact(doc);
    ParseIsExact(doc');
    hide Presets, Trim, Host, MaxNumeric, Parse, Selection, ValidRelay, ValidProfile, Normalize, Has;
    if ValidProfile(Normalize(profile)) {
      MaxNumericOfIds(relays, relays');
      SelectionOfIds(relays, relays', doc.selected);
      ValidUpdated(relays, at, relays');
      hide AllValid, DistinctIds;
    } else {
      assert relays'[..at] == relays[..at];
      InvalidUpdated(relays, at, relays');
      hide AllValid, DistinctIds;
      ParseFindsInvalid(doc', at);
    }
  }

  lemma PresetsOfUpdated(doc: Document, at: nat, profile: Profile)
    requires at < |doc.relays|
    ensures var relays := Presets(doc.relays);
            Presets(WithProfile(doc, at, profile).relays) == relays[at := Relay(relays[at].id, Normalize(profile))]
  {
    hide Trim, Normalize;
  }

  lemma ValidUpdated(relays: seq<Relay>, at: nat, relays': seq<Relay>)
    requires AllValid(relays) && DistinctIds(relays) && at < |relays| && |relays'| == |relays|
    requires ValidProfile(relays'[at].profile) && relays' == relays[at := Relay(relays[at].id, relays'[at].profile)]
    ensures AllValid(relays') && DistinctIds(relays')
  {
    hide Trim, ValidProfile;
    assert ValidRelay(relays[at]);
  }

  lemma InvalidUpdated(relays: seq<Relay>, at: nat, relays': seq<Relay>)
    requires AllValid(relays) && DistinctIds(relays) && at < |relays| && |relays'| == |relays|
    requires !ValidProfile(relays'[at].profile) && relays'[..at] == relays[..at]
    ensures AllValid(relays'[..at]) && DistinctIds(relays'[..at]) && !ValidRelay(relays'[at])
  {
    hide Trim, ValidProfile;
    forall i | 0 <= i < at ensures ValidRelay(relays'[..at][i]) { assert relays[..at][i] == relays[i]; }
    forall i, j | 0 <= i < j < at ensures relays'[..at][i].id != relays'[..at][j].id {
      assert relays[..at][i] == relays[i] && relays[..at][j] == relays[j];
    }
  }

  lemma SelectionOfIds(a: seq<Relay>, b: seq<Relay>, selected: Option<string>)
    requires |a| == |b| && forall i :: 0 <= i < |a| ==> a[i].id == b[i].id
    ensures Selection(a, selected) == Selection(b, selected)
  {
    hide Trim;
  }

  lemma SelectionOfDeleted(a: seq<Relay>, at: nat, selected: Option<string>)
    requires DistinctIds(a) && at < |a|
    ensures var b := a[..at] + a[at + 1..];
            Selection(b, selected) == if Selection(a, selected) == Some(a[at].id) then None else Selection(a, selected)
  {
    var b := a[..at] + a[at + 1..];
    hide Trim;
    if selected.Some? {
      var id := Trim(selected.value);
      var i, j := IndexOf(a, id), IndexOf(b, id);
      hide IndexOf;
      assert forall k :: 0 <= k < |b| ==> b[k] == a[if k < at then k else k + 1];
      if i < at { assert b[i] == a[i]; }
      if at < i < |a| { assert b[i - 1] == a[i]; }
      assert i < |a| && i != at ==> j < |b|;
      assert i == |a| || i == at ==> j == |b|;
    }
  }

  lemma StillValid(a: seq<Relay>, at: nat)
    requires at < |a| && AllValid(a) && DistinctIds(a)
    ensures AllValid(a[..at] + a[at + 1..]) && DistinctIds(a[..at] + a[at + 1..])
  {
    hide ValidRelay;
    var b := a[..at] + a[at + 1..];
    assert forall k :: 0 <= k < |b| ==> b[k] == a[if k < at then k else k + 1];
  }

  lemma DeletedParses(doc: Document, doc': Document, at: nat)
    requires Parse(doc).Ok? && at < |doc.relays| && doc'.relays == doc.relays[..at] + doc.relays[at + 1..]
    ensures var relays := Presets(doc.relays);
            && Presets(doc'.relays) == relays[..at] + relays[at + 1..]
            && Parse(doc') == Ok(Config(Presets(doc'.relays), Selection(Presets(doc'.relays), doc'.selected)))
  {
    ParseIsExact(doc);
    ParseIsExact(doc');
    var a, b := Presets(doc.relays), Presets(doc'.relays);
    hide Trim, ValidRelay, Selection, Judge, Preset;
    assert b == a[..at] + a[at + 1..];
    StillValid(a, at);
    hide Presets, AllValid, DistinctIds;
  }

  /** The counter written by a deletion remembers what the deleted id would have forced. */
  lemma DeletedWatermark(doc: Document, doc': Document, at: nat)
    requires at < |doc.relays| && doc'.nextRelayId == Some(Watermark(doc))
    requires var relays := Presets(doc.relays); Presets(doc'.relays) == relays[..at] + relays[at + 1..]
    ensures Watermark(doc') == Watermark(doc)
  {
    var relays := Presets(doc.relays);
    hide Presets, ParseU64, MaxNumeric;
    MaxNumericOfConcat(relays[..at], relays[at + 1..]);
    MaxNumericOfConcat(relays[..at], relays[at..]);
    MaxNumericOfConcat([relays[at]], relays[at + 1..]);
    assert relays == relays[..at] + relays[at..] && relays[at..] == [relays[at]] + relays[at + 1..];
  }

  /** A deletion succeeds exactly for a known id while the counter fits its 64-bit field; it removes that relay, and the
      selection only if it was that relay, however the caller spaced the id. */
  lemma DeleteIsExact(doc: Document, id: string)
    requires Parse(doc).Ok?
    ensures var relays, at, r := Presets(doc.relays), IndexOf(Presets(doc.relays), Trim(id)), Saved(doc, Delete(id));
            var selected := Parse(doc).value.selected;
            && (r.Ok? <==> at < |relays| && Watermark(doc) <= I64_MAX)
            && (r.Err? ==> r.error == if Watermark(doc) > I64_MAX then RelayIdExhausted else RelayNotFound(id))
            && (r.Ok? ==>
                  && Parse(r.value) ==
                     Ok(Config(relays[..at] + relays[at + 1..], if selected == Some(Trim(id)) then None else selected))
                  && Watermark(r.value) == Watermark(doc))
  {
    var relays, at := Presets(doc.relays), IndexOf(Presets(doc.relays), Trim(id));
    hide Trim, Watermark, IndexOf, Presets, Parse, Saved;
    if at < |relays| && Watermark(doc) <= I64_MAX {
      DeleteEdits(doc, id);
      DeletedIsParsed(doc, id, at);
      SavedIsEdited(doc, Delete(id));
    } else {
      DeleteRefuses(doc, id);
    }
  }

  function WithoutRelay(doc: Document, id: string, at: nat): Document
    requires Parse(doc).Ok? && at < |doc.relays|
  {
    Document(doc.relays[..at] + doc.relays[at + 1..],
             if Parse(doc).value.selected == Some(id) then None else doc.selected, Some(Watermark(doc)))
  }

  lemma DeleteEdits(doc: Document, id: string)
    requires Parse(doc).Ok? && IndexOf(Presets(doc.relays), Trim(id)) < |doc.relays| && Watermark(doc) <= I64_MAX
    ensures Edited(doc, Delete(id)) == Ok(WithoutRelay(doc, id, IndexOf(Presets(doc.relays), Trim(id))))
  {
    hide Trim, IndexOf, Parse, Presets, MaxNumeric;
  }

  lemma DeleteRefuses(doc: Document, id: string)
    requires Parse(doc).Ok?
    requires IndexOf(Presets(doc.relays), Trim(id)) == |doc.relays| || Watermark(doc) > I64_MAX
    ensures Saved(doc, Delete(id)) == Err(if Watermark(doc) > I64_MAX then RelayIdExhausted else RelayNotFound(id))
  {
    hide Trim, IndexOf, Parse, Presets, MaxNumeric;
  }

  lemma DeletedIsParsed(doc: Document, id: string, at: nat)
    requires Parse(doc).Ok? && at < |doc.relays| && Presets(doc.relays)[at].id == Trim(id)
    ensures var relays, selected := Presets(doc.relays), Parse(doc).value.selected;
            var doc' := WithoutRelay(doc, id, at);
            && Parse(doc') ==
               Ok(Config(relays[..at] + relays[at + 1..], if selected == Some(Trim(id)) then None else selected))
            && Watermark(doc') == Watermark(doc)
  {
    var relays, selected, doc' := Presets(doc.relays), Parse(doc).value.selected, WithoutRelay(doc, id, at);
    ParseIsExact(doc);
    DeletedParses(doc, doc', at);
    DeletedWatermark(doc, doc', at);
    SelectionOfDeleted(relays, at, doc.selected);
    if selected == Some(id) { SelectionIsTrimmed(relays, doc.selected, id); }
    SelectionOfNone(relays[..at] + relays[at + 1..]);
    hide Trim, Watermark, Presets, MaxNumeric, Parse, AllValid, DistinctIds, Selection;
  }

  lemma SelectionOfNone(relays: seq<Relay>)
    ensures Selection(relays, None) == None
  {
  }

  lemma SelectionIsTrimmed(relays: seq<Relay>, selected: Option<string>, id: string)
    requires Selection(relays, selected) == Some(id)
    ensures Trim(id) == id
  {
    TrimIsExact(selected.value);
    hide Trim;
  }

  // ---- Field by field ----

  /** The host as it is kept: trimmed, and without one pair of brackets around it. */
  predicate KeptHost(h: string, kept: string) {
    var t := Trim(h);
    if |t| >= 2 && t[0] == '[' && t[|t| - 1] == ']' then kept == t[1..|t| - 1] else kept == t
  }

  /** What is kept of a profile. */
  predicate Keeps(p: Profile, kept: Profile) {
    && kept.name == Trim(p.name) && KeptHost(p.host, kept.host) && kept.port == p.port
    && kept.udp == p.udp && kept.tcp == p.tcp && kept.preferred == p.preferred
  }

  /** What a kept profile must be: a name, a host, a port, a transport, and no preference for one it does not have. */
  predicate Acceptable(kept: Profile) {
    && Trim(kept.name) != "" && Trim(kept.host) != "" && kept.port != 0 && !(!kept.udp && !kept.tcp)
    && !(kept.preferred == Some(Udp) && !kept.udp) && !(kept.preferred == Some(Tcp) && !kept.tcp)
  }

  lemma NormalizeKeeps(p: Profile, kept: Profile)
    ensures Keeps(p, kept) <==> kept == Normalize(p)
    ensures Acceptable(kept) <==> ValidProfile(kept)
  {
    hide Trim;
  }

  ghost predicate TableAcceptable(t: Relay) {
    Trim(t.id) != "" && exists kept :: Keeps(t.profile, kept) && Acceptable(kept)
  }

  lemma TableIsExact(t: Relay)
    ensures TableAcceptable(t) <==> ValidRelay(Preset(t))
  {
    NormalizeKeeps(t.profile, Normalize(t.profile));
    TrimIsExact(t.id);
    if kept :| Keeps(t.profile, kept) && Acceptable(kept) { NormalizeKeeps(t.profile, kept); }
    hide Trim, Normalize, ValidProfile, Acceptable, Keeps;
  }

  /** A document parses if and only if every table is acceptable and no two have the same trimmed id; the parsed catalog
      then keeps every table, field by field. */
  lemma ParseKeepsFields(doc: Document)
    ensures Parse(doc).Ok? <==>
              && (forall i :: 0 <= i < |doc.relays| ==> TableAcceptable(doc.relays[i]))
              && (forall i, j :: 0 <= i < j < |doc.relays| ==> Trim(doc.relays[i].id) != Trim(doc.relays[j].id))
    ensures Parse(doc).Ok? ==>
              var relays := Parse(doc).value.relays;
              && |relays| == |doc.relays|
              && forall i :: 0 <= i < |relays| ==>
                   relays[i].id == Trim(doc.relays[i].id) && Keeps(doc.relays[i].profile, relays[i].profile)
  {
    var relays := Presets(doc.relays);
    ParseIsExact(doc);
    forall i | 0 <= i < |relays|
      ensures TableAcceptable(doc.relays[i]) <==> ValidRelay(relays[i])
      ensures relays[i].id == Trim(doc.relays[i].id) && Keeps(doc.relays[i].profile, relays[i].profile)
    {
      TableIsExact(doc.relays[i]);
      NormalizeKeeps(doc.relays[i].profile, relays[i].profile);
      hide Trim, Normalize, ValidProfile, Keeps;
    }
    hide Trim, Presets, Parse, ValidRelay, Keeps, TableAcceptable, Selection;
    if Parse(doc).Ok? {
      forall i, j | 0 <= i < j < |doc.relays| ensures Trim(doc.relays[i].id) != Trim(doc.relays[j].id) {
        assert relays[i].id != relays[j].id;
      }
    }
  }

  /** The profile as it is validated, and as the parse before saving keeps that. */
  ghost predicate KeptTwice(p: Profile, once: Profile, twice: Profile) { Keeps(p, once) && Keeps(once, twice) }

  lemma KeptTwiceIs(p: Profile)
    ensures KeptTwice(p, Normalize(p), Normalize(Normalize(p)))
    ensures forall once, twice :: KeptTwice(p, once, twice) ==>
              once == Normalize(p) && twice == Normalize(Normalize(p))
    ensures Acceptable(Normalize(p)) <==> ValidProfile(Normalize(p))
    ensures Acceptable(Normalize(Normalize(p))) <==> ValidProfile(Normalize(Normalize(p)))
  {
    hide Normalize, Keeps, Acceptable, ValidProfile;
    NormalizeKeeps(p, Normalize(p));
    NormalizeKeeps(Normalize(p), Normalize(Normalize(p)));
    forall once, twice | KeptTwice(p, once, twice)
      ensures once == Normalize(p) && twice == Normalize(Normalize(p))
    {
      NormalizeKeeps(p, once);
      NormalizeKeeps(once, twice);
    }
  }

  /** Adding, field by field: it succeeds if and only if what is kept of what is kept of the profile is acceptable and
      the counter has room; the catalog then gains exactly that, under the next id, selected. */
  lemma AddKeepsFields(doc: Document, input: Profile, once: Profile, twice: Profile)
    requires Parse(doc).Ok? && KeptTwice(input, once, twice)
    ensures var r := Saved(doc, Add(input));
            && (r.Ok? <==> Acceptable(twice) && Watermark(doc) < I64_MAX)
            && (r.Ok? ==>
                  var id := Decimal(Watermark(doc));
                  Parse(r.value) == Ok(Config(Parse(doc).value.relays + [Relay(id, twice)], Some(id))))
  {
    ParseIsExact(doc);
    hide Parse, Saved, Watermark, Normalize, Acceptable, ValidProfile, Decimal, Presets, AllValid, Selection;
    KeptTwiceIs(input);
    AddIsExact(doc, input);
  }

  /** Updating, field by field. */
  lemma UpdateKeepsFields(doc: Document, id: string, input: Profile, once: Profile, twice: Profile)
    requires Parse(doc).Ok? && KeptTwice(input, once, twice)
    ensures var r, before := Saved(doc, Update(id, input)), Parse(doc).value;
            && (r.Ok? <==> Acceptable(twice) && exists i :: 0 <= i < |before.relays| && before.relays[i].id == Trim(id))
            && (r.Ok? ==>
                  && Parse(r.value).Ok? && |Parse(r.value).value.relays| == |before.relays|
                  && Parse(r.value).value.selected == before.selected
                  && forall i :: 0 <= i < |before.relays| ==>
                       Parse(r.value).value.relays[i] ==
                       if before.relays[i].id == Trim(id) then Relay(Trim(id), twice) else before.relays[i])
  {
    var relays := Presets(doc.relays);
    var at := IndexOf(relays, Trim(id));
    ParseIsExact(doc);
    hide Parse, Saved, Watermark, Normalize, Acceptable, ValidProfile, Presets, AllValid, Selection, IndexOf, Trim;
    IndexIsOnly(relays, Trim(id), at);
    KeptTwiceIs(input);
    UpdateIsExact(doc, id, input);
  }

  lemma IndexIsOnly(relays: seq<Relay>, id: string, at: nat)
    requires DistinctIds(relays) && at == IndexOf(relays, id)
    ensures (exists i :: 0 <= i < |relays| && relays[i].id == id) <==> at < |relays|
    ensures forall i :: 0 <= i < |relays| && relays[i].id == id ==> i == at
  {
    hide IndexOf;
  }

  lemma IdsAreNotBlank(relays: seq<Relay>)
    requires AllValid(relays)
    ensures forall i :: 0 <= i < |relays| ==> relays[i].id != ""
  {
    hide Trim, ValidProfile;
    TrimIsExact("");
    assert Trimmed("");
  }

  /** The selection is the trimmed stored key if a relay has that id, and none otherwise. */
  lemma SelectionIsExact(doc: Document, id: string)
    requires Parse(doc).Ok?
    ensures Parse(doc).value.selected == Some(id) <==>
              doc.selected.Some? && Trim(doc.selected.value) == id && exists i ::
                0 <= i < |Parse(doc).value.relays| && Parse(doc).value.relays[i].id == id
  {
    var relays := Presets(doc.relays);
    ParseIsExact(doc);
    IdsAreNotBlank(relays);
    hide Parse, Presets, Trim, AllValid, IndexOf;
    IndexIsOnly(relays, id, IndexOf(relays, id));
  }

  /** The next id is the least number that is at least one, above every numeric id, and not below the stored counter. */
  lemma WatermarkIsLeast(doc: Document, w: nat)
    ensures Watermark(doc) <= w <==>
              && w >= 1
              && (doc.nextRelayId.Some? ==> doc.nextRelayId.value <= w)
              && forall i :: 0 <= i < |doc.relays| ==>
                   var n := ParseU64(Trim(doc.relays[i].id)); n.Some? ==> n.value < w
  {
    var relays := Presets(doc.relays);
    assert forall i :: 0 <= i < |relays| ==> relays[i].id == Trim(doc.relays[i].id);
    hide Presets, ParseU64, Trim, MaxNumeric;
    if w >= 1 { MaxNumericIsLeast(relays, w - 1); }
  }

  // ---- Runs ----

  /** A catalog change whose file write may fail, or a new selection. */
  datatype Event = Changed(change: Change, writes: bool) | Selected(selected: Option<string>)

  function Next(doc: Document, e: Event): Document {
    match e
    case Changed(change, writes) =>
      var r := Saved(doc, change);
      if r.Ok? && writes then r.value else doc
    case Selected(selected) => doc.(selected := if selected.None? then None else OptionalKey(selected.value))
  }

  function Run(doc: Document, es: seq<Event>): Document
    decreases |es|
  {
    if es == [] then doc else Run(Next(doc, es[0]), es[1..])
  }

  /** A new selection is the trimmed id if a relay has it and none otherwise; relays and the next id stay. */
  lemma SelectIsExact(doc: Document, selected: Option<string>)
    requires Parse(doc).Ok?
    ensures var doc', relays := Next(doc, Selected(selected)), Parse(doc).value.relays;
            && doc'.relays == doc.relays && Watermark(doc') == Watermark(doc)
            && Parse(doc').Ok? && Parse(doc').value.relays == relays
            && Parse(doc').value.selected ==
               if selected.Some? && exists i :: 0 <= i < |relays| && relays[i].id == Trim(selected.value)
               then Some(Trim(selected.value)) else None
  {
    var doc' := Next(doc, Selected(selected));
    ParseIsExact(doc);
    ParseIsExact(doc');
    var relays := Presets(doc.relays);
    IdsAreNotBlank(relays);
    hide Parse, Presets, AllValid, DistinctIds, MaxNumeric;
    if selected.Some? {
      var id := Trim(selected.value);
      TrimIsExact(selected.value);
      hide Trim, Selection;
      SelectionIsExact(doc', id);
      if Parse(doc').value.selected.Some? { SelectionIsExact(doc', Parse(doc').value.selected.value); }
    } else {
      hide Trim;
    }
  }

  lemma WatermarkStep(doc: Document, e: Event)
    ensures Watermark(doc) <= Watermark(Next(doc, e))
  {
    if e.Changed? && Parse(doc).Ok? {
      match e.change
      case Add(input) => AddIsExact(doc, input); hide Saved, Watermark, Parse;
      case Update(id, input) => UpdateIsExact(doc, id, input); hide Saved, Watermark, Parse;
      case Delete(id) => DeleteIsExact(doc, id); hide Saved, Watermark, Parse;
    } else {
      hide Parse, MaxNumeric, Presets;
    }
  }

  lemma {:induction false} WatermarkNeverDecreases(doc: Document, es: seq<Event>)
    ensures Watermark(doc) <= Watermark(Run(doc, es))
    decreases |es|
  {
    hide Watermark, Next;
    if es != [] {
      WatermarkStep(doc, es[0]);
      WatermarkNeverDecreases(Next(doc, es[0]), es[1..]);
    }
  }

  /** Whatever happened since a document was stored, a relay added later gets an id above every numeric id that document
      held, whether or not those relays still exist. */
  lemma AddedIdIsAboveEveryEarlierId(doc: Document, es: seq<Event>, input: Profile, i: nat)
    ensures var later := Run(doc, es);
            var saved := Saved(later, Add(input));
            saved.Ok? && i < |doc.relays| && ParseU64(Trim(doc.relays[i].id)).Some? ==>
              var config := Parse(saved.value);
              && config.Ok? && config.value.selected.Some?
              && ParseU64(config.value.selected.value) == Some(Watermark(later))
              && ParseU64(Trim(doc.relays[i].id)).value < Watermark(later)
  {
    var later := Run(doc, es);
    if Saved(later, Add(input)).Ok? && i < |doc.relays| && ParseU64(Trim(doc.relays[i].id)).Some? {
      WatermarkNeverDecreases(doc, es);
      MaxNumericIsLeast(Presets(doc.relays), MaxNumeric(Presets(doc.relays)));
      assert Presets(doc.relays)[i].id == Trim(doc.relays[i].id);
      assert Parse(later).Ok?;
      AddIsExact(later, input);
      DecimalRoundTrips(Watermark(later));
      hide Run, Saved, Trim, Decimal, ParseU64, MaxNumeric, Presets;
    }
  }
}
