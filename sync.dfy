/**
 * One synchronisation cycle, `start_sync`: classify the fetched share lists,
 * run the creation pass, then the prune pass over the same two lists.
 */
module Sync {
  import opened Strings
  import opened Shares
  import opened Classification
  import opened Reconcile

  /** The host list, in the order the fleet was given. */
  function HostList(fleet: seq<HostInventory>): seq<HostEntry>
  {
    seq(|fleet|, i requires 0 <= i < |fleet| => fleet[i].entry)
  }

  /** Every call one cycle issues: the creation pass's, then the prune pass's. */
  function SyncPlan(fleet: seq<HostInventory>): seq<Action>
  {
    var c := ClassifyAll(Entries(fleet));
    CreationPlan(HostList(fleet), c.locals, c.externals) + PrunePlan(c.locals, c.externals)
  }

  /** `start_sync` over share lists already fetched from every host, in host-list order. */
  method StartSync(fleet: seq<HostInventory>) returns (log: seq<Action>)
    ensures log == SyncPlan(fleet)
  {
    var localShares, externalShares := Classify(fleet);
    var hostList := HostList(fleet);
    var created := ParseLocalSmb(hostList, localShares, externalShares);
    var pruned := ParseExternalSmb(localShares, externalShares);
    log := created + pruned;
  }

  /** A fleet whose classified shares are converged gets no call at all. */
  lemma ConvergedFleetIsQuiet(fleet: seq<HostInventory>)
    requires Converged(HostList(fleet), ClassifyAll(Entries(fleet)).locals, ClassifyAll(Entries(fleet)).externals)
    ensures SyncPlan(fleet) == []
  {
    var c := ClassifyAll(Entries(fleet));
    LocalsCharacterised(Entries(fleet));
    ConvergedIsQuiet(HostList(fleet), c.locals, c.externals);
  }

  /**
   * `a` creates a redirect for a name exactly one enabled local entry of `es`
   * declares, on a fleet member other than the declaring host, with the
   * redirect path to that host.
   */
  predicate CreatesForUniqueName(es: seq<Entry>, a: Action)
    requires a.Create?
  {
    var ds := LocalDecls(es);
    && DeclCount(ds, a.args.name) == 1
    && exists p :: (0 <= p < |ds| && ds[p].share.name == a.args.name && a.host != ds[p].owner.host
      && a.args.path == RedirectPath(ds[p].owner.host, a.args.name))
  }

  /** Every create of a cycle is for a uniquely declared name; a name declared twice, on one host or on two, never gets a redirect. */
  lemma CreatesOnlyForUniqueNames(fleet: seq<HostInventory>)
    ensures forall a :: a in SyncPlan(fleet) && a.Create? ==> CreatesForUniqueName(Entries(fleet), a)
  {
    var es := Entries(fleet);
    var ds := LocalDecls(es);
    var c := ClassifyAll(es);
    var hosts := HostList(fleet);
    forall a | a in SyncPlan(fleet) && a.Create?
      ensures CreatesForUniqueName(es, a)
    {
      CreateOrigin(hosts, c.locals, c.externals, a);
      var i, j :| 0 <= i < |c.locals| && 0 <= j < |hosts| && !c.locals[i].conflict && hosts[j].host != c.locals[i].host
        && !HasCorrectRedirect(c.locals[i], c.externals) && a == RedirectFor(hosts[j], c.locals[i]);
      var l := c.locals[i];
      LocalRecordOrigin(es, i);
      var p :| 0 <= p < |ds| && l == LocalRecord(ds[p]).(conflict := l.conflict);
      assert ds[p].share.name == a.args.name && a.host != ds[p].owner.host;
    }
  }

  /** `a` is the delete of an enabled redirect entry of `es`, sent to the host that reported it with that host's key and the entry's id. */
  predicate RemovesRedirectEntry(es: seq<Entry>, a: Action)
  {
    exists k :: 0 <= k < |es| && IsRedirectDecl(es[k])
      && a == RemoveSmbShare(es[k].owner.host, es[k].owner.apikey, es[k].share.id)
  }

  /** Every delete of a cycle removes an enabled redirect entry of the fleet; a local share is never deleted. */
  lemma DeletesOnlyRedirects(fleet: seq<HostInventory>)
    ensures forall a :: a in SyncPlan(fleet) && a.Delete? ==> RemovesRedirectEntry(Entries(fleet), a)
  {
    var es := Entries(fleet);
    var c := ClassifyAll(es);
    forall a | a in SyncPlan(fleet) && a.Delete?
      ensures RemovesRedirectEntry(es, a)
    {
      DeletesAreListedRedirects(HostList(fleet), c.locals, c.externals, a);
      var m :| 0 <= m < |c.externals| && a == DeleteOf(c.externals[m]);
      assert c.externals[m] in c.externals;
      ExternalsCharacterised(es);
      var k :| 0 <= k < |es| && IsRedirectDecl(es[k]) && c.externals[m] == ExternalRecord(es[k]);
      assert a == RemoveSmbShare(es[k].owner.host, es[k].owner.apikey, es[k].share.id);
    }
  }

  /** The fleet of three hosts where only `a` has a share. */
  function OneShareFleet(a: HostEntry, b: HostEntry, c: HostEntry, share: RawShare): seq<HostInventory>
  {
    [HostInventory(a, [share]), HostInventory(b, []), HostInventory(c, [])]
  }

  lemma OneShareEntries(a: HostEntry, b: HostEntry, c: HostEntry, share: RawShare)
    ensures Entries(OneShareFleet(a, b, c, share)) == [Entry(a, share)]
  {
    var fleet := OneShareFleet(a, b, c, share);
    var f1, f2 := fleet[..1], fleet[..2];
    assert f2[..1] == f1 && f1[..0] == [];
    assert HostEntries(fleet[0]) == [Entry(a, share)];
    assert HostEntries(fleet[1]) == [] && HostEntries(fleet[2]) == [];
    assert Entries(f1) == HostEntries(fleet[0]);
    assert Entries(f2) == Entries(f1) + HostEntries(fleet[1]);
    assert Entries(fleet) == Entries(f2) + HostEntries(fleet[2]);
  }

  /** A single enabled local share on `a` is mirrored to `b` and then to `c`, and nothing else happens. */
  lemma OneShareMirrored(a: HostEntry, b: HostEntry, c: HostEntry, share: RawShare)
    requires a.host != b.host && a.host != c.host && b.host != c.host
    requires share.enabled && !IsRedirectPath(share.path)
    ensures SyncPlan(OneShareFleet(a, b, c, share)) ==
      [CreateExternalShare(b.host, b.apikey, a.host, share.name), CreateExternalShare(c.host, c.apikey, a.host, share.name)]
  {
    var fleet := OneShareFleet(a, b, c, share);
    OneShareEntries(a, b, c, share);
    var e := Entry(a, share);
    assert [e][..0] == [];
    var l := LocalRecord(e);
    assert ClassifyAll([e]) == Classified([l], []);
    var hosts := HostList(fleet);
    assert hosts == [a, b, c];
    assert hosts[..2] == [a, b] && [a, b][..1] == [a] && [a][..0] == [];
    assert PairActions(l, a, []) == [];
    assert PairActions(l, b, []) == [RedirectFor(b, l)];
    assert PairActions(l, c, []) == [RedirectFor(c, l)];
    assert LocalActions(l, [a], []) == [];
    assert LocalActions(l, [a, b], []) == [RedirectFor(b, l)];
    assert LocalActions(l, hosts, []) == [RedirectFor(b, l), RedirectFor(c, l)];
    assert [l][..0] == [];
    assert CreationPlan(hosts, [l], []) == LocalActions(l, hosts, []);
    assert PrunePlan([l], []) == [];
  }

  /** The fleet after the two creates of OneShareMirrored were applied. */
  function MirroredFleet(a: HostEntry, b: HostEntry, c: HostEntry, share: RawShare, idb: int, idc: int): seq<HostInventory>
  {
    [ HostInventory(a, [share]),
      HostInventory(b, [RawShare(idb, share.name, RedirectPath(a.host, share.name), true)]),
      HostInventory(c, [RawShare(idc, share.name, RedirectPath(a.host, share.name), true)]) ]
  }

  /** The mirrored fleet classifies into the share on `a` and the two redirects to it. */
  lemma MirroredClassified(a: HostEntry, b: HostEntry, c: HostEntry, share: RawShare, idb: int, idc: int)
    requires share.enabled && !IsRedirectPath(share.path)
    ensures ClassifyAll(Entries(MirroredFleet(a, b, c, share, idb, idc))) ==
      Classified([LocalRecord(Entry(a, share))],
        [ ExternalRecord(Entry(b, MirroredFleet(a, b, c, share, idb, idc)[1].shares[0])),
          ExternalRecord(Entry(c, MirroredFleet(a, b, c, share, idb, idc)[2].shares[0])) ])
  {
    var fleet := MirroredFleet(a, b, c, share, idb, idc);
    var ea, eb, ec := Entry(a, share), Entry(b, fleet[1].shares[0]), Entry(c, fleet[2].shares[0]);
    var f1, f2 := fleet[..1], fleet[..2];
    assert f2[..1] == f1 && f1[..0] == [];
    assert HostEntries(fleet[0]) == [ea] && HostEntries(fleet[1]) == [eb] && HostEntries(fleet[2]) == [ec];
    assert Entries(f1) == [ea];
    assert Entries(f2) == [ea, eb];
    assert Entries(fleet) == [ea, eb, ec];
    RedirectPathRecognised(a.host, share.name);
    assert [ea, eb, ec][..2] == [ea, eb] && [ea, eb][..1] == [ea] && [ea][..0] == [];
    assert ClassifyAll([ea]) == Classified([LocalRecord(ea)], []);
    assert ClassifyAll([ea, eb]) == Classified([LocalRecord(ea)], [ExternalRecord(eb)]);
  }

  /** Once the mirroring creates are applied, the next cycle issues nothing. */
  lemma MirroredFleetIsQuiet(a: HostEntry, b: HostEntry, c: HostEntry, share: RawShare, idb: int, idc: int)
    requires a.host != b.host && a.host != c.host && b.host != c.host
    requires share.enabled && !IsRedirectPath(share.path)
    ensures SyncPlan(MirroredFleet(a, b, c, share, idb, idc)) == []
  {
    var fleet := MirroredFleet(a, b, c, share, idb, idc);
    MirroredClassified(a, b, c, share, idb, idc);
    var l := LocalRecord(Entry(a, share));
    var es := [ExternalRecord(Entry(b, fleet[1].shares[0])), ExternalRecord(Entry(c, fleet[2].shares[0]))];
    var hosts := HostList(fleet);
    assert hosts == [a, b, c];
    assert Converged(hosts, [l], es) by {
      forall k | 0 <= k < |es|
        ensures exists i :: (0 <= i < |[l]| && ![l][i].conflict && es[k].name == [l][i].name
          && es[k].smbpath == RedirectPath([l][i].host, [l][i].name))
      {
        assert [l][0] == l;
      }
      forall i, j | 0 <= i < |[l]| && 0 <= j < |hosts| && ![l][i].conflict && hosts[j].host != [l][i].host
        ensures exists k :: (0 <= k < |es| && es[k].host == hosts[j].host && es[k].name == [l][i].name
          && es[k].smbpath == RedirectPath([l][i].host, [l][i].name))
      {
        assert [l][i] == l;
        if j == 1 {
          assert es[0].host == hosts[j].host;
        } else {
          assert es[1].host == hosts[j].host;
        }
      }
    }
    ConvergedFleetIsQuiet(fleet);
  }
}
