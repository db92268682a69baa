/**
 * The two reconciliation passes run after classification: `parse_local_smb`
 * (create missing redirects, delete redirects with the wrong target) and
 * `parse_external_smb` (delete redirects whose name no local share carries).
 * Each RPC is an Action appended to a log at the moment the source issues it.
 */
module Reconcile {
  import opened Strings
  import opened Shares

  // ---------------------------------------------------------------------------
  // Creation and stale-removal pass

  /** A redirect named like `l` whose path fails the target test for `l`'s host. */
  predicate IsStaleFor(e: ExternalShare, l: LocalShare)
  {
    e.name == l.name && !PointsAt(e.smbpath, l.host)
  }

  /** Some redirect anywhere in the fleet is named like `l` and passes the target test for its host. */
  predicate HasCorrectRedirect(l: LocalShare, es: seq<ExternalShare>)
  {
    exists k :: 0 <= k < |es| && es[k].name == l.name && PointsAt(es[k].smbpath, l.host)
  }

  /** The delete call for a redirect record: sent to the host the redirect was found on, with that host's key and the redirect's id. */
  function DeleteOf(e: ExternalShare): (a: Action)
    ensures a.Delete? && a.host == e.host && a.apikey == e.apikey && a.smbid == e.smbid
  {
    RemoveSmbShare(e.host, e.apikey, e.smbid)
  }

  /** The create call placing on `h` a redirect to local share `l`. */
  function RedirectFor(h: HostEntry, l: LocalShare): Action
  {
    CreateExternalShare(h.host, h.apikey, l.host, l.name)
  }

  /** The deletes one scan of the redirect list issues for `l`: its stale redirects, in order. */
  function StaleDeletes(l: LocalShare, es: seq<ExternalShare>): seq<Action>
  {
    if es == [] then []
    else StaleDeletes(l, es[..|es| - 1]) + (if IsStaleFor(es[|es| - 1], l) then [DeleteOf(es[|es| - 1])] else [])
  }

  /** What the pass issues for local share `l` and fleet member `h`. */
  function PairActions(l: LocalShare, h: HostEntry, es: seq<ExternalShare>): seq<Action>
  {
    if l.host == h.host || l.conflict then []
    else StaleDeletes(l, es) + (if HasCorrectRedirect(l, es) then [] else [RedirectFor(h, l)])
  }

  /** What the pass issues for local share `l`, over the host list in order. */
  function LocalActions(l: LocalShare, hosts: seq<HostEntry>, es: seq<ExternalShare>): seq<Action>
  {
    if hosts == [] then []
    else LocalActions(l, hosts[..|hosts| - 1], es) + PairActions(l, hosts[|hosts| - 1], es)
  }

  /** Everything the creation pass issues, local share by local share. */
  function CreationPlan(hosts: seq<HostEntry>, locals: seq<LocalShare>, es: seq<ExternalShare>): seq<Action>
  {
    if locals == [] then []
    else CreationPlan(hosts, locals[..|locals| - 1], es) + LocalActions(locals[|locals| - 1], hosts, es)
  }

  /** `parse_local_smb`: for every local share and every other fleet member, scan all redirects, then maybe create. */
  method ParseLocalSmb(hostList: seq<HostEntry>, localShares: seq<LocalShare>, externalShares: seq<ExternalShare>)
    returns (log: seq<Action>)
    ensures log == CreationPlan(hostList, localShares, externalShares)
  {
    log := [];
    for i := 0 to |localShares|
      invariant log == CreationPlan(hostList, localShares[..i], externalShares)
    {
      var emitted := SyncLocalShare(hostList, localShares[i], externalShares);
      log := log + emitted;
      assert localShares[..i + 1][..i] == localShares[..i];
    }
    assert localShares[..|localShares|] == localShares;
  }

  /** The body of the outer loop of `parse_local_smb`: the calls issued for one local share. */
  method SyncLocalShare(hostList: seq<HostEntry>, lshare: LocalShare, externalShares: seq<ExternalShare>)
    returns (log: seq<Action>)
    ensures log == LocalActions(lshare, hostList, externalShares)
  {
    log := [];
    assert hostList[..0] == [];
    for j := 0 to |hostList|
      invariant log == LocalActions(lshare, hostList[..j], externalShares)
    {
      var host := hostList[j];
      var createShare := true;
      assert hostList[..j + 1][..j] == hostList[..j];
      assert LocalActions(lshare, hostList[..j + 1], externalShares)
        == LocalActions(lshare, hostList[..j], externalShares) + PairActions(lshare, host, externalShares);
      if lshare.host == host.host {
        continue;
      }
      if lshare.conflict {
        continue;
      }
      var deletes;
      deletes, createShare := ScanRedirects(lshare, externalShares);
      log := log + deletes;
      if createShare {
        log := log + [CreateExternalShare(host.host, host.apikey, lshare.host, lshare.name)];
      }
    }
    assert hostList[..|hostList|] == hostList;
  }

  /**
   * The redirect scan of `parse_local_smb` for one local share and one host:
   * it deletes the same-named redirects that fail the target test, in order,
   * and reports whether a create is still needed.
   */
  method ScanRedirects(lshare: LocalShare, externalShares: seq<ExternalShare>) returns (deletes: seq<Action>, createShare: bool)
    ensures deletes == StaleDeletes(lshare, externalShares)
    ensures createShare <==> !HasCorrectRedirect(lshare, externalShares)
  {
    deletes, createShare := [], true;
    assert externalShares[..0] == [];
    for k := 0 to |externalShares|
      invariant deletes == StaleDeletes(lshare, externalShares[..k])
      invariant createShare <==> !HasCorrectRedirect(lshare, externalShares[..k])
    {
      var eshare := externalShares[k];
      assert externalShares[..k + 1][..k] == externalShares[..k];
      assert externalShares[..k + 1][k] == eshare;
      if eshare.name == lshare.name {
        if Contains(eshare.smbpath, Marker + lshare.host) {
          createShare := false;
        } else {
          deletes := deletes + [RemoveSmbShare(eshare.host, eshare.apikey, eshare.smbid)];
        }
      }
      HasCorrectSnoc(lshare, externalShares[..k], eshare);
    }
    assert externalShares[..|externalShares|] == externalShares;
  }

  /** Extending the scanned redirects by one record. */
  lemma HasCorrectSnoc(l: LocalShare, es: seq<ExternalShare>, e: ExternalShare)
    ensures HasCorrectRedirect(l, es + [e]) <==> HasCorrectRedirect(l, es) || (e.name == l.name && PointsAt(e.smbpath, l.host))
  {
    var es' := es + [e];
    if HasCorrectRedirect(l, es) {
      var k :| 0 <= k < |es| && es[k].name == l.name && PointsAt(es[k].smbpath, l.host);
      assert es'[k] == es[k];
    }
    if e.name == l.name && PointsAt(e.smbpath, l.host) {
      assert es'[|es|] == e;
    }
    if HasCorrectRedirect(l, es') {
      var k :| 0 <= k < |es'| && es'[k].name == l.name && PointsAt(es'[k].smbpath, l.host);
      if k < |es| {
        assert es[k] == es'[k];
      }
    }
  }

  // ---------------------------------------------------------------------------
  // Orphan-pruning pass

  /** Everything the prune pass issues: a delete for each redirect whose name no local record carries. */
  function PrunePlan(locals: seq<LocalShare>, es: seq<ExternalShare>): seq<Action>
  {
    if es == [] then []
    else PrunePlan(locals, es[..|es| - 1]) + (if NameInLocals(locals, es[|es| - 1].name) then [] else [DeleteOf(es[|es| - 1])])
  }

  /** `parse_external_smb`: for every redirect, look for a local record of the same name; prune it if there is none. */
  method ParseExternalSmb(localShares: seq<LocalShare>, externalShares: seq<ExternalShare>) returns (log: seq<Action>)
    ensures log == PrunePlan(localShares, externalShares)
  {
    log := [];
    for i := 0 to |externalShares|
      invariant log == PrunePlan(localShares, externalShares[..i])
    {
      var eshare := externalShares[i];
      var pruneShare := true;
      for k := 0 to |localShares|
        invariant pruneShare
        invariant forall m :: 0 <= m < k ==> localShares[m].name != eshare.name
      {
        if eshare.name == localShares[k].name {
          pruneShare := false;
          break;
        }
      }
      assert pruneShare <==> !NameInLocals(localShares, eshare.name);
      if pruneShare {
        log := log + [RemoveSmbShare(eshare.host, eshare.apikey, eshare.smbid)];
      }
      assert externalShares[..i + 1][..i] == externalShares[..i];
    }
    assert externalShares[..|externalShares|] == externalShares;
  }

  // ---------------------------------------------------------------------------
  // Properties of the creation pass

  lemma {:induction false} StaleDeletesMembers(l: LocalShare, es: seq<ExternalShare>)
    ensures forall a :: a in StaleDeletes(l, es) <==> exists k :: 0 <= k < |es| && IsStaleFor(es[k], l) && a == DeleteOf(es[k])
  {
    if es != [] {
      var init := es[..|es| - 1];
      StaleDeletesMembers(l, init);
      forall a ensures a in StaleDeletes(l, es) <==> exists k :: 0 <= k < |es| && IsStaleFor(es[k], l) && a == DeleteOf(es[k]) {
        if a in StaleDeletes(l, init) {
          var k :| 0 <= k < |init| && IsStaleFor(init[k], l) && a == DeleteOf(init[k]);
          assert es[k] == init[k];
        }
        if exists k :: 0 <= k < |es| && IsStaleFor(es[k], l) && a == DeleteOf(es[k]) {
          var k :| 0 <= k < |es| && IsStaleFor(es[k], l) && a == DeleteOf(es[k]);
          if k < |init| {
            assert init[k] == es[k];
          }
        }
      }
    }
  }

  lemma {:induction false} LocalActionsMembers(l: LocalShare, hosts: seq<HostEntry>, es: seq<ExternalShare>)
    ensures forall a :: a in LocalActions(l, hosts, es) <==> exists j :: 0 <= j < |hosts| && a in PairActions(l, hosts[j], es)
  {
    if hosts != [] {
      var init := hosts[..|hosts| - 1];
      LocalActionsMembers(l, init, es);
      forall a ensures a in LocalActions(l, hosts, es) <==> exists j :: 0 <= j < |hosts| && a in PairActions(l, hosts[j], es) {
        if a in LocalActions(l, init, es) {
          var j :| 0 <= j < |init| && a in PairActions(l, init[j], es);
          assert hosts[j] == init[j];
        }
        if exists j :: 0 <= j < |hosts| && a in PairActions(l, hosts[j], es) {
          var j :| 0 <= j < |hosts| && a in PairActions(l, hosts[j], es);
          if j < |init| {
            assert init[j] == hosts[j];
          }
        }
      }
    }
  }

  /** The calls of `f` for each local share, in order. */
  function FlatMap(locals: seq<LocalShare>, f: LocalShare -> seq<Action>): seq<Action>
  {
    if locals == [] then [] else FlatMap(locals[..|locals| - 1], f) + f(locals[|locals| - 1])
  }

  lemma {:induction false} FlatMapMember(locals: seq<LocalShare>, f: LocalShare -> seq<Action>, a: Action)
    ensures a in FlatMap(locals, f) <==> exists i :: 0 <= i < |locals| && a in f(locals[i])
  {
    if locals != [] {
      var init, last := locals[..|locals| - 1], locals[|locals| - 1];
      FlatMapMember(init, f, a);
      if a in FlatMap(init, f) {
        var i :| 0 <= i < |init| && a in f(init[i]);
        assert locals[i] == init[i];
      }
      if exists i :: 0 <= i < |locals| && a in f(locals[i]) {
        var i :| 0 <= i < |locals| && a in f(locals[i]);
        if i < |init| {
          assert init[i] == locals[i];
        }
      }
    }
  }

  /** The creation plan is the per-share actions, share by share. */
  lemma {:induction false} CreationPlanIsFlatMap(hosts: seq<HostEntry>, locals: seq<LocalShare>, es: seq<ExternalShare>)
    ensures CreationPlan(hosts, locals, es) == FlatMap(locals, l => LocalActions(l, hosts, es))
  {
    if locals != [] {
      CreationPlanIsFlatMap(hosts, locals[..|locals| - 1], es);
    }
  }

  lemma CreationPlanMembers(hosts: seq<HostEntry>, locals: seq<LocalShare>, es: seq<ExternalShare>)
    ensures forall a :: a in CreationPlan(hosts, locals, es) <==> exists i :: 0 <= i < |locals| && a in LocalActions(locals[i], hosts, es)
  {
    var f := l => LocalActions(l, hosts, es);
    CreationPlanIsFlatMap(hosts, locals, es);
    forall a ensures a in CreationPlan(hosts, locals, es) <==> exists i :: 0 <= i < |locals| && a in LocalActions(locals[i], hosts, es) {
      FlatMapMember(locals, f, a);
    }
  }


  /**
   * Every call of the creation pass comes from a non-conflicted local share:
   * a create goes to a fleet member other than the share's own host, only when
   * no correct redirect exists, and carries the share's name and redirect path;
   * a delete removes a redirect named like the share that fails the target test.
   */
  lemma CreationProvenance(hosts: seq<HostEntry>, locals: seq<LocalShare>, es: seq<ExternalShare>)
    ensures forall a :: a in CreationPlan(hosts, locals, es) && a.Create? ==>
      exists i, j :: 0 <= i < |locals| && 0 <= j < |hosts| && !locals[i].conflict && hosts[j].host != locals[i].host
        && !HasCorrectRedirect(locals[i], es) && a == RedirectFor(hosts[j], locals[i])
    ensures forall a :: a in CreationPlan(hosts, locals, es) && a.Delete? ==>
      exists i, k :: 0 <= i < |locals| && 0 <= k < |es| && !locals[i].conflict
        && IsStaleFor(es[k], locals[i]) && a == DeleteOf(es[k])
  {
    CreationPlanMembers(hosts, locals, es);
    forall a | a in CreationPlan(hosts, locals, es)
      ensures a.Create? ==>
        exists i, j :: 0 <= i < |locals| && 0 <= j < |hosts| && !locals[i].conflict && hosts[j].host != locals[i].host
          && !HasCorrectRedirect(locals[i], es) && a == RedirectFor(hosts[j], locals[i])
      ensures a.Delete? ==>
        exists i, k :: 0 <= i < |locals| && 0 <= k < |es| && !locals[i].conflict
          && IsStaleFor(es[k], locals[i]) && a == DeleteOf(es[k])
    {
      var i :| 0 <= i < |locals| && a in LocalActions(locals[i], hosts, es);
      LocalActionsMembers(locals[i], hosts, es);
      var j :| 0 <= j < |hosts| && a in PairActions(locals[i], hosts[j], es);
      StaleDeletesMembers(locals[i], es);
      if a in StaleDeletes(locals[i], es) {
        var k :| 0 <= k < |es| && IsStaleFor(es[k], locals[i]) && a == DeleteOf(es[k]);
      } else {
        assert a == RedirectFor(hosts[j], locals[i]);
      }
    }
  }

  /** A local share in conflict causes no call at all. */
  lemma {:induction false} ConflictedShareSilent(l: LocalShare, hosts: seq<HostEntry>, es: seq<ExternalShare>)
    requires l.conflict
    ensures LocalActions(l, hosts, es) == []
  {
    if hosts != [] {
      ConflictedShareSilent(l, hosts[..|hosts| - 1], es);
    }
  }

  /**
   * For a non-conflicted local share and a fleet member other than its host,
   * the redirect to it is created there iff no redirect anywhere in the fleet
   * has its name and passes the target test for its host.
   */
  lemma CreateIff(hosts: seq<HostEntry>, locals: seq<LocalShare>, es: seq<ExternalShare>, i: int, j: int)
    requires 0 <= i < |locals| && 0 <= j < |hosts|
    requires !locals[i].conflict && hosts[j].host != locals[i].host
    ensures RedirectFor(hosts[j], locals[i]) in CreationPlan(hosts, locals, es) <==> !HasCorrectRedirect(locals[i], es)
  {
    var l, h := locals[i], hosts[j];
    var a := RedirectFor(h, l);
    CreationPlanMembers(hosts, locals, es);
    LocalActionsMembers(l, hosts, es);
    if !HasCorrectRedirect(l, es) {
      assert a in PairActions(l, h, es);
      assert a in LocalActions(l, hosts, es);
    }
    if a in CreationPlan(hosts, locals, es) {
      CreationProvenance(hosts, locals, es);
      var i', j' :| 0 <= i' < |locals| && 0 <= j' < |hosts| && !locals[i'].conflict && hosts[j'].host != locals[i'].host
        && !HasCorrectRedirect(locals[i'], es) && a == RedirectFor(hosts[j'], locals[i']);
      CreateExternalShareInjective(h.host, h.apikey, l.host, l.name,
                                   hosts[j'].host, hosts[j'].apikey, locals[i'].host, locals[i'].name);
    }
  }

  /** The delete calls in a sequence of calls, in order. */
  function DeletesOf(acts: seq<Action>): seq<Action>
  {
    if acts == [] then []
    else DeletesOf(acts[..|acts| - 1]) + (if acts[|acts| - 1].Delete? then [acts[|acts| - 1]] else [])
  }

  /** s repeated n times. */
  function Repeat(s: seq<Action>, n: nat): seq<Action>
  {
    if n == 0 then [] else Repeat(s, n - 1) + s
  }

  /** How many fleet members other than `l`'s own host the host list holds. */
  function OtherHostCount(l: LocalShare, hosts: seq<HostEntry>): nat
  {
    if hosts == [] then 0
    else OtherHostCount(l, hosts[..|hosts| - 1]) + (if hosts[|hosts| - 1].host != l.host then 1 else 0)
  }

  lemma {:induction false} DeletesOfAppend(x: seq<Action>, y: seq<Action>)
    ensures DeletesOf(x + y) == DeletesOf(x) + DeletesOf(y)
  {
    if y == [] {
      assert x + y == x;
    } else {
      var y0 := y[..|y| - 1];
      DeletesOfAppend(x, y0);
      assert (x + y)[..|x + y| - 1] == x + y0;
    }
  }

  lemma {:induction false} DeletesOfStale(l: LocalShare, es: seq<ExternalShare>)
    ensures DeletesOf(StaleDeletes(l, es)) == StaleDeletes(l, es)
  {
    if es != [] {
      var init := es[..|es| - 1];
      DeletesOfStale(l, init);
      var tail := if IsStaleFor(es[|es| - 1], l) then [DeleteOf(es[|es| - 1])] else [];
      DeletesOfAppend(StaleDeletes(l, init), tail);
      if tail != [] {
        assert tail[..0] == [];
      }
    }
  }

  /**
   * A non-conflicted local share's stale redirects are deleted once per fleet
   * member other than its host: the deletes issued for it are the stale
   * deletes repeated that many times.
   */
  lemma {:induction false} StaleDeletedPerOtherHost(l: LocalShare, hosts: seq<HostEntry>, es: seq<ExternalShare>)
    requires !l.conflict
    ensures DeletesOf(LocalActions(l, hosts, es)) == Repeat(StaleDeletes(l, es), OtherHostCount(l, hosts))
  {
    if hosts != [] {
      var init, h := hosts[..|hosts| - 1], hosts[|hosts| - 1];
      var stale := StaleDeletes(l, es);
      var n := OtherHostCount(l, init);
      StaleDeletedPerOtherHost(l, init, es);
      assert LocalActions(l, hosts, es) == LocalActions(l, init, es) + PairActions(l, h, es);
      DeletesOfAppend(LocalActions(l, init, es), PairActions(l, h, es));
      PairDeletes(l, h, es);
      if h.host != l.host {
        assert OtherHostCount(l, hosts) == n + 1;
        assert Repeat(stale, n + 1) == Repeat(stale, n) + stale;
      } else {
        assert OtherHostCount(l, hosts) == n;
        assert DeletesOf(LocalActions(l, init, es)) + [] == Repeat(stale, n);
      }
    }
  }

  /** For one host, the deletes are the stale deletes when it is not the share's own host, and none otherwise. */
  lemma PairDeletes(l: LocalShare, h: HostEntry, es: seq<ExternalShare>)
    requires !l.conflict
    ensures DeletesOf(PairActions(l, h, es)) == if h.host != l.host then StaleDeletes(l, es) else []
  {
    if h.host != l.host {
      var tail := if HasCorrectRedirect(l, es) then [] else [RedirectFor(h, l)];
      assert PairActions(l, h, es) == StaleDeletes(l, es) + tail;
      DeletesOfAppend(StaleDeletes(l, es), tail);
      DeletesOfStale(l, es);
      if tail != [] {
        assert tail[..0] == [];
        assert DeletesOf(tail) == [];
      }
    }
  }

  // ---------------------------------------------------------------------------
  // Properties of the prune pass

  /** The prune pass deletes exactly the redirects whose name no local record (conflicted or not) carries. */
  lemma {:induction false} PruneByName(locals: seq<LocalShare>, es: seq<ExternalShare>)
    ensures forall a :: a in PrunePlan(locals, es) <==>
      exists k :: 0 <= k < |es| && !NameInLocals(locals, es[k].name) && a == DeleteOf(es[k])
    ensures |PrunePlan(locals, es)| <= |es|
  {
    if es != [] {
      var init := es[..|es| - 1];
      PruneByName(locals, init);
      forall a ensures a in PrunePlan(locals, es) <==>
        exists k :: 0 <= k < |es| && !NameInLocals(locals, es[k].name) && a == DeleteOf(es[k])
      {
        if a in PrunePlan(locals, init) {
          var k :| 0 <= k < |init| && !NameInLocals(locals, init[k].name) && a == DeleteOf(init[k]);
          assert es[k] == init[k];
        }
        if exists k :: 0 <= k < |es| && !NameInLocals(locals, es[k].name) && a == DeleteOf(es[k]) {
          var k :| 0 <= k < |es| && !NameInLocals(locals, es[k].name) && a == DeleteOf(es[k]);
          if k < |init| {
            assert init[k] == es[k];
          }
        }
      }
    }
  }

  /**
   * The prune pass looks at names only: conflict flags, paths and the target
   * a redirect names do not change what it deletes.
   */
  lemma {:induction false} PruneSeesOnlyNames(locals: seq<LocalShare>, locals': seq<LocalShare>,
                                               es: seq<ExternalShare>, es': seq<ExternalShare>)
    requires forall n :: NameInLocals(locals, n) <==> NameInLocals(locals', n)
    requires |es| == |es'|
    requires forall k :: 0 <= k < |es| ==> es'[k].name == es[k].name && DeleteOf(es'[k]) == DeleteOf(es[k])
    ensures PrunePlan(locals, es) == PrunePlan(locals', es')
  {
    if es != [] {
      PruneSeesOnlyNames(locals, locals', es[..|es| - 1], es'[..|es'| - 1]);
      assert es'[|es| - 1].name == es[|es| - 1].name;
    }
  }

  /** A delete of either pass removes a redirect record of the list the passes were given. */
  lemma DeletesAreListedRedirects(hosts: seq<HostEntry>, locals: seq<LocalShare>, es: seq<ExternalShare>, a: Action)
    requires a in CreationPlan(hosts, locals, es) + PrunePlan(locals, es) && a.Delete?
    ensures exists k :: 0 <= k < |es| && a == DeleteOf(es[k])
  {
    if a in CreationPlan(hosts, locals, es) {
      CreationProvenance(hosts, locals, es);
    } else {
      PruneByName(locals, es);
    }
  }

  /** A create of either pass is a create of the creation pass for a share not in conflict, on another host, with no correct redirect. */
  lemma CreateOrigin(hosts: seq<HostEntry>, locals: seq<LocalShare>, es: seq<ExternalShare>, a: Action)
    requires a in CreationPlan(hosts, locals, es) + PrunePlan(locals, es) && a.Create?
    ensures exists i, j :: (0 <= i < |locals| && 0 <= j < |hosts| && !locals[i].conflict && hosts[j].host != locals[i].host
      && !HasCorrectRedirect(locals[i], es) && a == RedirectFor(hosts[j], locals[i]))
  {
    PruneByName(locals, es);
    assert a in CreationPlan(hosts, locals, es);
    CreationProvenance(hosts, locals, es);
  }

  // ---------------------------------------------------------------------------
  // A converged fleet

  /**
   * Every redirect is named after a non-conflicted local share and carries
   * exactly the path a create would give it, and every fleet member other than
   * a non-conflicted share's host holds such a redirect for it.
   */
  predicate Converged(hosts: seq<HostEntry>, locals: seq<LocalShare>, es: seq<ExternalShare>)
  {
    && (forall k :: 0 <= k < |es| ==>
          exists i :: 0 <= i < |locals| && !locals[i].conflict && es[k].name == locals[i].name
            && es[k].smbpath == RedirectPath(locals[i].host, locals[i].name))
    && (forall i, j :: 0 <= i < |locals| && 0 <= j < |hosts| && !locals[i].conflict && hosts[j].host != locals[i].host ==>
          exists k :: 0 <= k < |es| && es[k].host == hosts[j].host && es[k].name == locals[i].name
            && es[k].smbpath == RedirectPath(locals[i].host, locals[i].name))
  }

  /** On a converged fleet with distinct local names neither pass issues any call. */
  lemma ConvergedIsQuiet(hosts: seq<HostEntry>, locals: seq<LocalShare>, es: seq<ExternalShare>)
    requires DistinctNames(locals)
    requires Converged(hosts, locals, es)
    ensures CreationPlan(hosts, locals, es) == []
    ensures PrunePlan(locals, es) == []
  {
    CreationPlanMembers(hosts, locals, es);
    forall i | 0 <= i < |locals| ensures LocalActions(locals[i], hosts, es) == [] {
      var l := locals[i];
      LocalActionsMembers(l, hosts, es);
      forall j | 0 <= j < |hosts| ensures PairActions(l, hosts[j], es) == [] {
        if l.host != hosts[j].host && !l.conflict {
          RedirectPathRecognised(l.host, l.name);
          StaleDeletesMembers(l, es);
          forall k | 0 <= k < |es| ensures !IsStaleFor(es[k], l) {
            if es[k].name == l.name {
              var i' :| 0 <= i' < |locals| && !locals[i'].conflict && es[k].name == locals[i'].name
                && es[k].smbpath == RedirectPath(locals[i'].host, locals[i'].name);
              assert i' == i;
            }
          }
          EmptyIffNoMember(StaleDeletes(l, es));
          var k :| 0 <= k < |es| && es[k].host == hosts[j].host && es[k].name == l.name
            && es[k].smbpath == RedirectPath(l.host, l.name);
          assert HasCorrectRedirect(l, es);
        }
      }
      EmptyIffNoMember(LocalActions(l, hosts, es));
    }
    EmptyIffNoMember(CreationPlan(hosts, locals, es));
    PruneByName(locals, es);
    forall k | 0 <= k < |es| ensures NameInLocals(locals, es[k].name) {
      var i :| 0 <= i < |locals| && !locals[i].conflict && es[k].name == locals[i].name
        && es[k].smbpath == RedirectPath(locals[i].host, locals[i].name);
    }
    EmptyIffNoMember(PrunePlan(locals, es));
  }

  lemma EmptyIffNoMember(s: seq<Action>)
    ensures s == [] <==> forall a :: a !in s
  {
    if s != [] {
      assert s[0] in s;
    }
  }

  // ---------------------------------------------------------------------------
  // Two consequences of how the source tests for an existing redirect

  /**
   * The lookup ranges over the whole fleet: one correct redirect on host b
   * suppresses the create on host c, although c holds no redirect.
   */
  lemma FleetWideLookup(a: HostEntry, b: HostEntry, c: HostEntry, name: string, path: string, id: int)
    requires a.host != b.host && a.host != c.host && b.host != c.host
    ensures CreationPlan([a, b, c], [LocalShare(name, a.host, a.apikey, path, false)],
                         [ExternalShare(name, b.host, b.apikey, RedirectPath(a.host, name), id)]) == []
  {
    var l := LocalShare(name, a.host, a.apikey, path, false);
    var es := [ExternalShare(name, b.host, b.apikey, RedirectPath(a.host, name), id)];
    RedirectPathRecognised(a.host, name);
    assert HasCorrectRedirect(l, es) by {
      assert es[0].name == l.name && PointsAt(es[0].smbpath, l.host);
    }
    assert es[..0] == [];
    assert StaleDeletes(l, es) == [];
    assert PairActions(l, a, es) == [] && PairActions(l, b, es) == [] && PairActions(l, c, es) == [];
    var hosts := [a, b, c];
    assert hosts[..2] == [a, b] && [a, b][..1] == [a] && [a][..0] == [];
    assert LocalActions(l, [a], es) == [];
    assert LocalActions(l, [a, b], es) == [];
    assert LocalActions(l, hosts, es) == [];
    assert [l][..0] == [];
  }

  /**
   * The target test is a substring test: a redirect to host "nas10" passes it
   * for a share on host "nas1", so it is neither deleted nor replaced.
   */
  lemma NeighbourAddressAccepted(l: LocalShare, e: ExternalShare)
    requires l.host == "nas1" && e.name == l.name && e.smbpath == RedirectPath("nas10", l.name)
    ensures HasCorrectRedirect(l, [e]) && StaleDeletes(l, [e]) == []
  {
    assert e.smbpath == (Marker + "nas1") + ("0\\" + l.name);
    ContainsPrefix(Marker + "nas1", "0\\" + l.name);
    assert [e][0] == e;
    assert [e][..0] == [];
  }
}
