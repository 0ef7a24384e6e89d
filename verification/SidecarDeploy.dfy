/** Deploying and removing the Proton sidecar, one file or registry action at a time, where any action
    may fail before or after taking effect and the process may die at any point.

    Renames are atomic, existence tests are reliable and nobody else edits the managed paths or the
    override key. The contents of a half-written temporary file are never read, so a temporary file is
    either absent or present. */
module SidecarDeploy {
  import opened Prelude
  import opened Text
  import opened SidecarMarker

  datatype Path = Dll | ForwardA | ForwardB | Marker | RuntimeLog | Temp(target: Path)

  const MANAGED: set<Path> := {Dll, ForwardA, ForwardB}

  const TEMPORARY: set<Path> := {Temp(Marker), Temp(Dll), Temp(ForwardA), Temp(ForwardB)}

  /** The override key: whether it exists, its `winmm` value, and the names of its other values. */
  datatype Registry = Registry(keyExists: bool, value: Option<string>, others: set<string>)

  ghost predicate WellFormed(r: Registry) { !r.keyExists ==> r.value.None? && r.others == {} }

  /** How a value comes back from `reg query`: the rest of its line, trimmed. */
  function Reported(value: string): string { Trim(FirstLine(value)) }

  function ReportedValue(value: Option<string>): Option<string> {
    match value case None => None case Some(text) => Some(Reported(text))
  }

  /** The registry with its value as it is reported. */
  function Normal(r: Registry): Registry { r.(value := ReportedValue(r.value)) }

  function AsOverride(r: Registry): OriginalOverride { OriginalOverride(r.keyExists, r.value) }

  lemma ReportedIsExactIff(value: string)
    ensures Reported(value) == value <==> '\n' !in value && Trimmed(value)
    ensures Reported(Reported(value)) == Reported(value)
  {
    FirstLineExtent(value);
    TrimIsExact(FirstLine(value));
    TrimEndKeepsStart(TrimStart(FirstLine(value)));
    TrimKeepsOneLine(FirstLine(value));
    FirstLineExtent(Reported(value));
    if Reported(value) == value && FirstLine(value) != value {
      TrimStartLeads(FirstLine(value));
      assert false;
    }
  }

  lemma TrimKeepsOneLine(s: string)
    requires '\n' !in s
    ensures '\n' !in Trim(s)
  {
    TrimStartKeepsOneLine(s);
    TrimEndKeepsStart(TrimStart(s));
  }

  lemma {:induction false} TrimStartKeepsOneLine(s: string)
    requires '\n' !in s
    ensures '\n' !in TrimStart(s)
  {
    if s != "" && IsSpace(s[0]) {
      TrimStartKeepsOneLine(s[1..]);
    }
  }

  // ---- The protocol's states ----

  ghost predicate Settled(reg: Registry, original: Registry) { reg == original || reg == Normal(original) }

  /** What our own writes can make of the key. */
  ghost predicate Touched(reg: Registry, original: Registry) {
    WellFormed(reg) && reg.others == original.others && (original.keyExists ==> reg.keyExists)
  }

  /** No trace of a deployment. */
  ghost predicate Clean(files: map<Path, string>, reg: Registry, original: Registry) {
    Marker !in files && files.Keys !! MANAGED && Settled(reg, original)
  }

  /** The marker records the true original, and the override differs only while every file is in place. */
  ghost predicate Armed(files: map<Path, string>, reg: Registry, original: Registry) {
    && Marker in files && ParseMarker(files[Marker]) == Some(AsOverride(Normal(original)))
    && Touched(reg, original)
    && (Settled(reg, original) || MANAGED <= files.Keys)
  }

  /** Somebody else's marker, or somebody else's file under a managed name. */
  ghost predicate Foreign(files: map<Path, string>) {
    if Marker in files then ParseMarker(files[Marker]).None? else !(files.Keys !! MANAGED)
  }

  datatype Status = Go | Failed | Crashed
  datatype RawOutcome = Outcome(effect: bool, status: Status)

  /** A successful action has taken effect; a failed or interrupted one may have. */
  type Outcome = o: RawOutcome | o.status.Go? ==> o.effect witness Outcome(true, Go)

  /** Everything goes well but possibly the last of these actions, which fails. */
  ghost predicate OnceFails(script: seq<Outcome>) {
    && (forall i :: 0 <= i < |script| - 1 ==> script[i].status.Go?)
    && (script != [] ==> !script[|script| - 1].status.Crashed?)
  }

  /** A procedure that failed at such actions has used them up. */
  ghost predicate Spent(before: seq<Outcome>, after: seq<Outcome>, s: Status) {
    OnceFails(before) ==> OnceFails(after) && !s.Crashed? && (s.Failed? ==> after == [])
  }

  datatype Operation = Deploy | Remove | Recover

  /** An Isaac installation and its Proton prefix. `script` holds the outcomes of the coming actions;
      once it is used up every action succeeds. */
  class Installation {
    const hook: string
    const builtin: string
    ghost const original: Registry
    var files: map<Path, string>
    var reg: Registry
    var script: seq<Outcome>
    /** How many actions have failed, except those whose failure is meant to be ignored. */
    ghost var errors: nat

    ghost predicate Valid() reads this {
      WellFormed(original) &&
      (Clean(files, reg, original) || Armed(files, reg, original) || Foreign(files))
    }

    constructor (files: map<Path, string>, reg: Registry, hook: string, builtin: string)
      requires WellFormed(reg)
      requires Marker in files ==> ParseMarker(files[Marker]).None?
      ensures Valid() && original == reg && this.files == files && this.reg == reg && script == []
    {
      this.files, this.reg, this.hook, this.builtin, this.original, script := files, reg, hook, builtin, reg, [];
      errors := 0;
    }

    method Next() returns (o: Outcome)
      modifies this`script, this`errors
      ensures old(script) == [] ==> o.status.Go? && script == []
      ensures Spent(old(script), script, o.status)
      ensures errors == old(errors) + if o.status.Failed? then 1 else 0
    {
      if script == [] { return Outcome(true, Go); }
      o, script := script[0], script[1..];
      errors := if o.status.Failed? then errors + 1 else errors;
    }

    // ---- File actions ----

    method Unlink(p: Path) returns (s: Status)
      modifies this`files, this`script, this`errors
      ensures files == old(files) - {p} || (!s.Go? && files == old(files))
      ensures old(script) == [] ==> s.Go? && script == []
      ensures Spent(old(script), script, s)
      ensures s.Go? ==> errors == old(errors)
    {
      var o := Next();
      if o.effect { files := files - {p}; }
      s := o.status;
    }

    /** Errors of a quiet removal are ignored. */
    method UnlinkQuietly(p: Path) returns (s: Status)
      modifies this`files, this`script, this`errors
      ensures files == old(files) - {p} || files == old(files)
      ensures !s.Failed? && (old(script) == [] ==> s.Go? && script == [] && files == old(files) - {p})
      ensures Spent(old(script), script, s)
      ensures errors == old(errors)
    {
      ghost var before := errors;
      s := Unlink(p);
      if s.Failed? { s := Go; }
      errors := before;
    }

    method Rename(source: Path, target: Path) returns (s: Status)
      modifies this`files, this`script, this`errors
      ensures files == old(files) ||
              (source in old(files) && files == (old(files) - {source})[target := old(files)[source]])
      ensures s.Go? ==> source in old(files) && files == (old(files) - {source})[target := old(files)[source]]
      ensures old(script) == [] && source in old(files) ==> s.Go? && script == []
      ensures source in old(files) ==> Spent(old(script), script, s)
      ensures s.Go? ==> errors == old(errors)
    {
      if source !in files { return Failed; }
      var o := Next();
      if o.effect { files := (files - {source})[target := files[source]]; }
      s := o.status;
    }

    /** Write to a fresh temporary file, then rename it into place. */
    method WriteAtomically(target: Path, contents: string) returns (s: Status)
      requires !target.Temp?
      modifies this`files, this`script, this`errors
      ensures forall p: Path :: !p.Temp? && p != target ==>
                (p in files <==> p in old(files)) && (p in files ==> files[p] == old(files)[p])
      ensures || (target in files && files[target] == contents)
              || (!s.Go? && (target in files <==> target in old(files))
                  && (target in files ==> files[target] == old(files)[target]))
      ensures old(script) == [] ==> s.Go? && script == []
      ensures Spent(old(script), script, s)
      ensures s.Go? ==> errors == old(errors)
    {
      s := UnlinkQuietly(Temp(target));
      if !s.Go? { return; }
      var o := Next();
      if o.effect { files := files[Temp(target) := contents]; }
      if !o.status.Go? { return o.status; }
      s := Rename(Temp(target), target);
    }

    method RemoveTemps() returns (s: Status)
      modifies this`files, this`script, this`errors
      ensures forall p: Path :: !p.Temp? ==>
                (p in files <==> p in old(files)) && (p in files ==> files[p] == old(files)[p])
      ensures !s.Failed? && (old(script) == [] ==> s.Go? && script == [] && files.Keys !! TEMPORARY)
      ensures Spent(old(script), script, s)
      ensures errors == old(errors)
    {
      s := UnlinkQuietly(Temp(Marker));
      if !s.Go? { return; }
      s := UnlinkQuietly(Temp(Dll));
      if !s.Go? { return; }
      s := UnlinkQuietly(Temp(ForwardA));
      if !s.Go? { return; }
      s := UnlinkQuietly(Temp(ForwardB));
    }

    /** Reading the marker yields nothing when it is absent, unreadable or not ours. */
    method ReadMarker() returns (marker: Option<OriginalOverride>, crashed: bool)
      modifies this`script, this`errors
      ensures marker.Some? ==> Marker in files && ParseMarker(files[Marker]) == marker
      ensures old(script) == [] ==> !crashed && script == []
      ensures old(script) == [] ==> marker == if Marker in files then ParseMarker(files[Marker]) else None
      ensures errors == old(errors)
    {
      ghost var before := errors;
      var o := Next();
      errors := before;
      crashed := o.status.Crashed?;
      marker := if o.status.Go? && Marker in files then ParseMarker(files[Marker]) else None;
    }

    // ---- Registry actions ----

    method ReadOverride() returns (s: Status, found: OriginalOverride)
      modifies this`script, this`errors
      ensures s.Go? ==> found == AsOverride(Normal(reg))
      ensures old(script) == [] ==> s.Go? && script == []
      ensures Spent(old(script), script, s)
      ensures s.Go? ==> errors == old(errors)
    {
      found := OriginalOverride(reg.keyExists, None);
      var key := Next();
      if !key.status.Go? { return key.status, found; }
      var value := Next();
      s := value.status;
      found := OriginalOverride(reg.keyExists, ReportedValue(reg.value));
    }

    /** `reg add` creates the key if need be, then stores the value. */
    method SetOverride(value: string) returns (s: Status)
      modifies this`reg, this`script, this`errors
      ensures || reg == old(reg) || reg == old(reg).(keyExists := true)
              || reg == old(reg).(keyExists := true, value := Some(value))
      ensures s.Go? ==> reg == old(reg).(keyExists := true, value := Some(value))
      ensures old(script) == [] ==> s.Go? && script == []
      ensures Spent(old(script), script, s)
      ensures s.Go? ==> errors == old(errors)
    {
      var key := Next();
      if key.effect { reg := reg.(keyExists := true); }
      if !key.status.Go? { return key.status; }
      var stored := Next();
      if stored.effect { reg := reg.(value := Some(value)); }
      s := stored.status;
    }

    method RestoreOverride(marker: OriginalOverride) returns (s: Status)
      requires Armed(files, reg, original) && WellFormed(original) && marker == AsOverride(Normal(original))
      modifies this`reg, this`script, this`errors
      ensures Armed(files, reg, original)
      ensures s.Go? ==> reg == Normal(original)
      ensures old(script) == [] ==> s.Go? && script == []
      ensures s.Go? ==> errors == old(errors)
    {
      if marker.value.Some? {
        s := SetOverride(marker.value.value);
        return;
      }
      var deleted := Next();
      if deleted.effect { reg := reg.(value := None); }
      if !deleted.status.Go? { return deleted.status; }
      s := Go;
      if !marker.keyExisted {
        s := RemoveEmptyKey();
      }
    }

    method RemoveEmptyKey() returns (s: Status)
      modifies this`reg, this`script, this`errors
      ensures reg == old(reg) || (reg == Registry(false, None, {}) && old(reg).value.None? && old(reg).others == {})
      ensures s.Go? && old(reg).value.None? && old(reg).others == {} && WellFormed(old(reg)) ==>
                reg == Registry(false, None, {})
      ensures old(script) == [] ==> s.Go? && script == []
      ensures s.Go? ==> errors == old(errors)
    {
      var query := Next();
      if !query.status.Go? { return query.status; }
      if !reg.keyExists || reg.value.Some? || reg.others != {} { return Go; }
      var deleted := Next();
      if deleted.effect { reg := Registry(false, None, {}); }
      s := deleted.status;
    }

    // ---- Removal and recovery ----

    method RemoveManaged() returns (s: Status)
      requires Armed(files, reg, original) && reg == Normal(original)
      modifies this`files, this`script, this`errors
      ensures Armed(files, reg, original)
      ensures s.Go? ==> files.Keys !! MANAGED
      ensures old(script) == [] ==> s.Go? && script == []
      ensures s.Go? ==> errors == old(errors)
    {
      s := Unlink(Dll);
      if !s.Go? { return; }
      s := Unlink(ForwardA);
      if !s.Go? { return; }
      s := Unlink(ForwardB);
    }

    method RemoveWithRuntime() returns (s: Status)
      requires Valid()
      modifies this`files, this`reg, this`script, this`errors
      ensures Valid()
      ensures !Armed(old(files), old(reg), original) ==> files == old(files) && reg == old(reg)
      ensures Armed(old(files), old(reg), original) ==> !Foreign(files)
      ensures old(script) == [] ==> s.Go? && script == []
      ensures old(script) == [] && Armed(old(files), old(reg), original) ==>
                Clean(files, reg, original) && reg == Normal(original)
                && files.Keys !! TEMPORARY && RuntimeLog !in files
      ensures s.Go? ==> errors == old(errors)
    {
      var marker, crashed := ReadMarker();
      if crashed { return Crashed; }
      if marker.None? { return Go; }
      s := RestoreOverride(marker.value);
      if !s.Go? { return; }
      s := RemoveManaged();
      if !s.Go? { return; }
      s := RemoveTemps();
      if !s.Go? { return; }
      s := Unlink(RuntimeLog);
      if !s.Go? { return; }
      s := Unlink(Marker);
    }

    /** Removal at the end of a session: a marker that is not ours is left alone without an error. */
    method RemoveSidecar() returns (s: Status)
      requires Valid()
      modifies this`files, this`reg, this`script, this`errors
      ensures Valid()
      ensures !Armed(old(files), old(reg), original) ==> files == old(files) && reg == old(reg)
      ensures Armed(old(files), old(reg), original) ==> !Foreign(files)
      ensures old(script) == [] && Armed(old(files), old(reg), original) ==>
                s.Go? && Clean(files, reg, original) && reg == Normal(original)
      ensures old(script) == [] ==> s.Go?
      ensures s.Go? ==> errors == old(errors)
    {
      var marker, crashed := ReadMarker();
      if crashed { return Crashed; }
      if marker.None? { return Go; }
      var discovered := Next();
      if !discovered.status.Go? { return discovered.status; }
      s := RemoveWithRuntime();
    }

    /** Recovery at the next start. */
    method RecoverStale() returns (s: Status, recovered: bool)
      requires Valid()
      modifies this`files, this`reg, this`script, this`errors
      ensures Valid()
      ensures !Armed(old(files), old(reg), original) ==> files == old(files) && reg == old(reg) && !recovered
      ensures Armed(old(files), old(reg), original) ==> !Foreign(files)
      ensures old(script) == [] && !Foreign(old(files)) ==>
                s.Go? && Clean(files, reg, original) && script == []
      ensures old(script) == [] && Armed(old(files), old(reg), original) ==>
                recovered && reg == Normal(original) && files.Keys !! TEMPORARY && RuntimeLog !in files
      ensures old(script) == [] ==>
                && (s.Failed? <==> Marker in old(files) && ParseMarker(old(files)[Marker]).None?)
                && (recovered <==> Marker in old(files) && ParseMarker(old(files)[Marker]).Some?)
      ensures s.Go? ==> errors == old(errors)
    {
      if Marker !in files { return Go, false; }
      var marker, crashed := ReadMarker();
      if crashed { return Crashed, false; }
      if marker.None? { return Failed, false; }
      var discovered := Next();
      if !discovered.status.Go? { return discovered.status, false; }
      s := RemoveWithRuntime();
      recovered := s.Go?;
    }

    // ---- Deployment ----

    /** The marker is written before anything else is touched. */
    method WriteAhead() returns (s: Status)
      requires WellFormed(original) && files.Keys !! MANAGED
      requires Clean(files, reg, original) || Armed(files, reg, original)
      modifies this`files, this`script, this`errors
      ensures Clean(files, reg, original) || Armed(files, reg, original)
      ensures s.Go? ==> Armed(files, reg, original)
      ensures old(script) == [] ==> s.Go? && script == []
      ensures Spent(old(script), script, s)
      ensures files.Keys !! MANAGED
      ensures s.Go? ==> errors == old(errors)
    {
      s := RemoveTemps();
      if !s.Go? { return; }
      var found: OriginalOverride;
      s, found := ReadOverride();
      if !s.Go? { return; }
      NormalIsStable(original);
      MarkerRoundTrips(found);
      assert found == AsOverride(Normal(original));
      s := WriteAtomically(Marker, MarkerText(found));
    }

    /** The copies and the override, after the marker is in place. */
    method Install() returns (s: Status)
      requires WellFormed(original) && Armed(files, reg, original) && Settled(reg, original)
      modifies this`files, this`reg, this`script, this`errors
      ensures Armed(files, reg, original)
      ensures s.Go? ==>
                && ForwardA in files && ForwardB in files && Dll in files
                && files[ForwardA] == files[ForwardB] == builtin && files[Dll] == hook
                && reg == old(reg).(keyExists := true, value := Some(NATIVE_OVERRIDE))
      ensures old(script) == [] ==> s.Go? && script == []
      ensures Spent(old(script), script, s)
      ensures s.Go? ==> errors == old(errors)
    {
      s := WriteAtomically(ForwardA, builtin);
      if !s.Go? { return; }
      s := WriteAtomically(ForwardB, builtin);
      if !s.Go? { return; }
      s := WriteAtomically(Dll, hook);
      if !s.Go? { return; }
      s := SetOverride(NATIVE_OVERRIDE);
    }

    method DeploySidecar() returns (s: Status)
      requires Valid()
      modifies this`files, this`reg, this`script, this`errors
      ensures Valid()
      ensures Foreign(old(files)) ==> files == old(files) && reg == old(reg) && !s.Go?
      ensures !Foreign(old(files)) ==> !Foreign(files)
      ensures s.Go? ==> Deployed()
      ensures old(script) == [] && !Foreign(old(files)) ==> s.Go? && script == []
      ensures old(script) == [] && Foreign(old(files)) ==> s.Failed?
      ensures Clean(old(files), old(reg), original) && OnceFails(old(script)) && s.Failed? ==>
                files.Keys !! MANAGED && Settled(reg, original)
      ensures s.Go? ==> errors == old(errors)
    {
      var ready := Next();
      if !ready.status.Go? { return ready.status; }
      if Marker in files {
        var marker, crashed := ReadMarker();
        if crashed { return Crashed; }
        if marker.None? { return Failed; }
        s := RemoveWithRuntime();
        if !s.Go? { return; }
      }
      if Dll in files || ForwardA in files || ForwardB in files { return Failed; }
      s := PutInPlace();
    }

    /** The deployment proper, undone again if a step of it fails. */
    method PutInPlace() returns (s: Status)
      requires WellFormed(original) && files.Keys !! MANAGED
      requires Clean(files, reg, original) || Armed(files, reg, original)
      modifies this`files, this`reg, this`script, this`errors
      ensures Valid() && !Foreign(files)
      ensures s.Go? ==> Deployed()
      ensures old(script) == [] ==> s.Go? && script == []
      ensures OnceFails(old(script)) && s.Failed? ==> files.Keys !! MANAGED && Settled(reg, original)
      ensures s.Go? ==> errors == old(errors)
    {
      hide OnceFails, WellFormed, Normal, AsOverride, Touched, ParseMarker;
      s := WriteAhead();
      if !s.Go? { return; }
      s := Install();
      if s.Failed? {
        s := RemoveWithRuntime();
        if s.Go? { s := Failed; }
      }
    }

    /** Every file in place with its contents, the override set, and the marker recording the original. */
    ghost predicate Deployed() reads this {
      && Armed(files, reg, original) && MANAGED <= files.Keys
      && files[ForwardA] == files[ForwardB] == builtin && files[Dll] == hook
      && reg.value == Some(NATIVE_OVERRIDE)
    }

    // ---- Whole histories ----

    method Perform(op: Operation) returns (s: Status)
      requires Valid()
      modifies this`files, this`reg, this`script, this`errors
      ensures Valid()
      ensures Foreign(old(files)) ==> files == old(files) && reg == old(reg)
      ensures !Foreign(old(files)) ==> !Foreign(files)
    {
      match op {
        case Deploy => s := DeploySidecar();
        case Remove => s := RemoveSidecar();
        case Recover =>
          var recovered: bool;
          s, recovered := RecoverStale();
      }
    }

    /** Any operations, each with any failures and possibly cut off by a crash: the installation stays
        valid, and one that held somebody else's file is never changed at all. */
    method History(steps: seq<(Operation, seq<Outcome>)>)
      requires Valid()
      modifies this`files, this`reg, this`script, this`errors
      ensures Valid()
      ensures Foreign(old(files)) ==> files == old(files) && reg == old(reg)
      ensures !Foreign(old(files)) ==> !Foreign(files)
    {
      for i := 0 to |steps|
        invariant Valid()
        invariant Foreign(old(files)) ==> files == old(files) && reg == old(reg)
        invariant !Foreign(old(files)) ==> !Foreign(files)
      {
        script := steps[i].1;
        var _ := Perform(steps[i].0);
      }
    }

    /** After any history, one undisturbed recovery leaves no marker and no managed file, and the override
        as it was reported before the first deployment. */
    method HistoryThenRecovery(steps: seq<(Operation, seq<Outcome>)>)
      requires Valid() && !Foreign(files)
      modifies this`files, this`reg, this`script, this`errors
      ensures Clean(files, reg, original)
      ensures original.value.None? || Reported(original.value.value) == original.value.value ==> reg == original
    {
      if original.value.Some? { ReportedIsExactIff(original.value.value); }
      hide Reported, ParseMarker, WellFormed, Touched, AsOverride;
      History(steps);
      script := [];
      var _, recovered := RecoverStale();
    }

    /** Deploying and removing undisturbed gives the override back exactly when it is reported exactly. */
    method DeployThenRemove()
      requires Valid() && !Foreign(files)
      modifies this`files, this`reg, this`script, this`errors
      ensures Clean(files, reg, original) && reg == Normal(original)
      ensures reg == original <==>
                (original.value.Some? ==> '\n' !in original.value.value && Trimmed(original.value.value))
    {
      script := [];
      var _ := DeploySidecar();
      var _ := RemoveSidecar();
      if original.value.Some? { ReportedIsExactIff(original.value.value); }
    }
  }

  /** The failing input: an override stored with a leading space comes back without it. */
  method PaddedOverrideIsTrimmed(files: map<Path, string>, hook: string, builtin: string)
    returns (i: Installation)
    requires Marker !in files && files.Keys !! MANAGED
    ensures i.original == Registry(true, Some(" native"), {})
    ensures i.reg == Registry(true, Some("native"), {}) != i.original
    ensures fresh(i)
  {
    i := new Installation(files, Registry(true, Some(" native"), {}), hook, builtin);
    i.DeployThenRemove();
    PaddedIsTrimmed();
  }

  lemma PaddedIsTrimmed()
    ensures Reported(" native") == "native"
  {
    FirstLineExtent(" native");
    assert TrimStart("native") == "native" && TrimEnd("native") == "native";
    assert " native"[1..] == "native";
  }

  lemma NormalIsStable(r: Registry)
    ensures Normal(Normal(r)) == Normal(r)
    ensures r.value.Some? ==> (Normal(r) == r <==> '\n' !in r.value.value && Trimmed(r.value.value))
  {
    if r.value.Some? { ReportedIsExactIff(r.value.value); }
  }
}
