/** Why a connection exists and who holds it: every one in every reachable state goes back to a challenge that was
    issued and answered, and its control peer and UDP address to the keys it was given. */
module RelayProvenance {
  import opened Prelude
  import opened FrameWindow
  import opened RelayModel
  import opened RelayInvariant
  import opened RelayLife
  import opened RelayControl
  import opened RelayTraffic

  /** The challenge of `begin`, answered by `complete` correctly and in time, admitted this peer to this session. */
  ghost predicate AdmittedBy(begin: Event, complete: Event, c: ConnectionId, session: Key, p: Peer) {
    && begin.BeginJoinEvent? && complete.CompleteJoinEvent? && begin.control == complete.control
    && complete.proof == Proof(begin.join.challenge, true)
    && Since(complete.now, begin.join.issuedAt) <= CHALLENGE_LIFETIME
    && complete.draw.connection == c && begin.join.session == session
    && SameIdentity(NewPeer(begin.join, complete.control, complete.draw, complete.now), p)
  }

  /** The control peer is the one that joined, or one that showed the resume key since. */
  ghost predicate ControlGranted(es: seq<Event>, j: nat, c: ConnectionId, p: Peer)
    requires j < |es| && es[j].CompleteJoinEvent?
  {
    p.control == es[j].control ||
    exists n :: j < n < |es| && es[n].ResumeEvent? && es[n].connection == c && es[n].key == p.resumeKey
                && es[n].control == p.control
  }

  /** The UDP address, if any, was bound since by showing the path key. */
  ghost predicate AddressGranted(es: seq<Event>, j: nat, c: ConnectionId, p: Peer) {
    p.udpAddress.None? ||
    exists n :: j < n < |es| && es[n].BindEvent? && es[n].connection == c && Some(es[n].pathKey) == p.pathKey
                && Some(es[n].address) == p.udpAddress
  }

  ghost predicate VouchedAt(es: seq<Event>, i: nat, j: nat, c: ConnectionId, session: Key, p: Peer) {
    && i < j < |es| && AdmittedBy(es[i], es[j], c, session, p)
    && ControlGranted(es, j, c, p) && AddressGranted(es, j, c, p)
  }

  ghost predicate Vouched(es: seq<Event>, c: ConnectionId, session: Key, p: Peer) {
    exists i, j :: VouchedAt(es, i, j, c, session, p)
  }

  ghost predicate Issued(es: seq<Event>, control: PeerId, join: Pending) {
    exists i :: 0 <= i < |es| && es[i] == BeginJoinEvent(control, join)
  }

  ghost predicate Accounted(s: State, es: seq<Event>) {
    && (forall control :: control in s.pending ==> Issued(es, control, s.pending[control]))
    && (forall c :: Has(s, c) ==> Vouched(es, c, s.index[c], PeerOf(s, c)))
  }

  lemma IndexGrowsByIssue(s: State, e: Event, c: ConnectionId)
    requires Valid(s) && c in Step(s, e).index && !Issues(s, e, c)
    ensures c in s.index
  {
    hide Valid, Observe, CheckTraffic, CheckProbe, TargetDestination, SourceError;
  }

  lemma PendingGrowsByBegin(s: State, e: Event, control: PeerId)
    requires control in Step(s, e).pending
    ensures (control in s.pending && Step(s, e).pending[control] == s.pending[control])
            || e == BeginJoinEvent(control, Step(s, e).pending[control])
  {
    hide Observe, CheckTraffic, CheckProbe, TargetDestination, SourceError;
  }

  lemma IssueIsVouched(s: State, es: seq<Event>, e: Event, c: ConnectionId)
    requires Valid(s) && Accounted(s, es) && Legal(s, e) && Issues(s, e, c)
    ensures Has(Step(s, e), c) && Vouched(es + [e], c, Step(s, e).index[c], PeerOf(Step(s, e), c))
  {
    var all, join := es + [e], s.pending[e.control];
    assert Issued(es, e.control, join);
    var i :| 0 <= i < |es| && es[i] == BeginJoinEvent(e.control, join);
    assert all[i] == es[i] && all[|es|] == e;
    hide Valid, Vacated, Accounted;
    assert VouchedAt(all, i, |es|, c, Step(s, e).index[c], PeerOf(Step(s, e), c));
  }

  /** What vouched for a connection still does after a step that continues it. */
  lemma VouchedContinues(s: State, es: seq<Event>, e: Event, c: ConnectionId)
    requires Has(s, c) && Has(Step(s, e), c) && Continues(s, Step(s, e), c) && Minds(s, e, c)
    requires Vouched(es, c, s.index[c], PeerOf(s, c))
    ensures Vouched(es + [e], c, Step(s, e).index[c], PeerOf(Step(s, e), c))
  {
    var all, k, p, p' := es + [e], s.index[c], PeerOf(s, c), PeerOf(Step(s, e), c);
    hide Step;
    var i, j :| VouchedAt(es, i, j, c, k, p);
    assert forall n :: 0 <= n < |es| ==> all[n] == es[n];
    assert all[|es|] == e;
    assert ControlGranted(all, j, c, p');
    assert AddressGranted(all, j, c, p');
    assert VouchedAt(all, i, j, c, k, p');
  }

  lemma StepAccounts(s: State, es: seq<Event>, e: Event)
    requires Valid(s) && Legal(s, e) && Accounted(s, es)
    ensures Accounted(Step(s, e), es + [e])
  {
    var s', all := Step(s, e), es + [e];
    hide Step, Valid, Legal, Vouched;
    forall control | control in s'.pending ensures Issued(all, control, s'.pending[control]) {
      PendingGrowsByBegin(s, e, control);
      assert forall n :: 0 <= n < |es| ==> all[n] == es[n];
      assert all[|es|] == e;
    }
    forall c | Has(s', c) ensures Vouched(all, c, s'.index[c], PeerOf(s', c)) {
      if Issues(s, e, c) {
        IssueIsVouched(s, es, e, c);
      } else {
        IndexGrowsByIssue(s, e, c);
        StepContinues(s, e, c);
        StepMinds(s, e, c);
        VouchedContinues(s, es, e, c);
      }
    }
  }

  /** In every state the relay reaches from empty, every connection was admitted by an answered challenge for exactly
      its session, SteamID64, profile and capabilities, and its control peer and UDP address were granted by its
      keys. */
  lemma {:induction false} EveryConnectionIsAccountedFor(config: Config, es: seq<Event>)
    requires 0 < config.maxPeersPerRoom && LegalRun(Initial(config), es)
    ensures Accounted(Run(Initial(config), es), es)
    decreases |es|
  {
    if es != [] {
      var s0, front, e := Initial(config), es[..|es| - 1], es[|es| - 1];
      assert es == front + [e];
      RunSplits(s0, front, [e]);
      EveryConnectionIsAccountedFor(config, front);
      InitialIsValid(config);
      RunKeepsValid(s0, front);
      RunOne(Run(s0, front), e, []);
      assert [e] + [] == [e];
      hide Accounted, Valid, Step;
      StepAccounts(Run(s0, front), front, e);
    }
  }
}
