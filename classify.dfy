/**
 * The first half of `start_sync`: every host's share list, in host-list order,
 * is split into local records and redirect records. Disabled entries are
 * skipped; when a local name is declared again, the record already stored gets
 * its conflict flag and the later declaration is dropped.
 */
module Classification {
  import opened Strings
  import opened Shares

  /** One reported share together with the fleet member that reported it. */
  datatype Entry = Entry(owner: HostEntry, share: RawShare)

  /** The two lists `start_sync` builds. */
  datatype Classified = Classified(locals: seq<LocalShare>, externals: seq<ExternalShare>)

  /** The entries of one host's share list, in order. */
  function HostEntries(inv: HostInventory): seq<Entry>
  {
    seq(|inv.shares|, k requires 0 <= k < |inv.shares| => Entry(inv.entry, inv.shares[k]))
  }

  /** All entries of the fleet, host by host, in the order the loop visits them. */
  function Entries(fleet: seq<HostInventory>): seq<Entry>
  {
    if fleet == [] then [] else Entries(fleet[..|fleet| - 1]) + HostEntries(fleet[|fleet| - 1])
  }

  /** The record a new local declaration is stored as. */
  function LocalRecord(e: Entry): LocalShare
  {
    LocalShare(e.share.name, e.owner.host, e.owner.apikey, e.share.path, false)
  }

  /** The record a redirect entry is stored as. */
  function ExternalRecord(e: Entry): ExternalShare
  {
    ExternalShare(e.share.name, e.owner.host, e.owner.apikey, e.share.path, e.share.id)
  }

  /** Every stored local record named `name` gets its conflict flag. */
  function MarkConflict(locals: seq<LocalShare>, name: string): seq<LocalShare>
  {
    seq(|locals|, k requires 0 <= k < |locals| =>
      if locals[k].name == name then locals[k].(conflict := true) else locals[k])
  }

  /** What the loop body does with one entry. */
  function Step(c: Classified, e: Entry): Classified
  {
    if !e.share.enabled then c
    else if IsRedirectPath(e.share.path) then c.(externals := c.externals + [ExternalRecord(e)])
    else if NameInLocals(c.locals, e.share.name) then c.(locals := MarkConflict(c.locals, e.share.name))
    else c.(locals := c.locals + [LocalRecord(e)])
  }

  /** The two lists after the loop has visited the entries `es`. */
  function ClassifyAll(es: seq<Entry>): Classified
  {
    if es == [] then Classified([], []) else Step(ClassifyAll(es[..|es| - 1]), es[|es| - 1])
  }

  /** The classification loop of `start_sync`, over the fetched share lists in host-list order. */
  method Classify(fleet: seq<HostInventory>) returns (localShares: seq<LocalShare>, externalShares: seq<ExternalShare>)
    ensures Classified(localShares, externalShares) == ClassifyAll(Entries(fleet))
  {
    localShares, externalShares := [], [];
    for i := 0 to |fleet|
      invariant Classified(localShares, externalShares) == ClassifyAll(Entries(fleet[..i]))
    {
      localShares, externalShares := ClassifyHost(Entries(fleet[..i]), fleet[i], localShares, externalShares);
      assert fleet[..i + 1][..i] == fleet[..i];
    }
    assert fleet[..|fleet|] == fleet;
  }

  /** One pass of the classification loop: the share list of one host, after the entries `done`. */
  method ClassifyHost(ghost done: seq<Entry>, inv: HostInventory, localsIn: seq<LocalShare>, externalsIn: seq<ExternalShare>)
    returns (localShares: seq<LocalShare>, externalShares: seq<ExternalShare>)
    requires Classified(localsIn, externalsIn) == ClassifyAll(done)
    ensures Classified(localShares, externalShares) == ClassifyAll(done + HostEntries(inv))
  {
    localShares, externalShares := localsIn, externalsIn;
    var host := inv.entry;
    var smbList := inv.shares;
    ghost var here := HostEntries(inv);
    assert done + here[..0] == done;
    for j := 0 to |smbList|
      invariant Classified(localShares, externalShares) == ClassifyAll(done + here[..j])
    {
      var item := smbList[j];
      ghost var before := Classified(localShares, externalShares);
      assert done + here[..j + 1] == (done + here[..j]) + [Entry(host, item)];
      assert ClassifyAll(done + here[..j + 1]) == Step(before, Entry(host, item));
      if !item.enabled {
        continue;
      }
      var smbExternal := Contains(item.path, Marker);
      var addLocal := true;
      if !smbExternal {
        localShares, addLocal := MarkNameConflicts(localShares, item.name);
      }
      if smbExternal {
        externalShares := externalShares + [ExternalShare(item.name, host.host, host.apikey, item.path, item.id)];
      } else if addLocal {
        localShares := localShares + [LocalShare(item.name, host.host, host.apikey, item.path, false)];
      }
    }
    assert here[..|smbList|] == here;
  }

  /**
   * The conflict scan of `start_sync`: every stored local record named `name`
   * is flagged in place, and the new entry is to be added iff none was found.
   */
  method MarkNameConflicts(localShares: seq<LocalShare>, name: string) returns (marked: seq<LocalShare>, addLocal: bool)
    ensures marked == MarkConflict(localShares, name)
    ensures addLocal <==> !NameInLocals(localShares, name)
    ensures addLocal ==> marked == localShares
  {
    marked, addLocal := localShares, true;
    for k := 0 to |localShares|
      invariant |marked| == |localShares|
      invariant forall m :: 0 <= m < k ==> marked[m] == MarkConflict(localShares, name)[m]
      invariant forall m :: k <= m < |localShares| ==> marked[m] == localShares[m]
      invariant addLocal <==> !exists m :: 0 <= m < k && localShares[m].name == name
    {
      if marked[k].name == name {
        marked := marked[k := marked[k].(conflict := true)];
        addLocal := false;
      }
    }
    assert addLocal ==> marked == localShares;
  }

  // ---------------------------------------------------------------------------
  // An independent description of the result: which entries are declarations,
  // which declaration of each name is kept, and when a record is in conflict.

  /** An enabled entry whose path has no marker: a local share declaration. */
  predicate IsLocalDecl(e: Entry)
  {
    e.share.enabled && !IsRedirectPath(e.share.path)
  }

  /** An enabled entry whose path has the marker: a redirect. */
  predicate IsRedirectDecl(e: Entry)
  {
    e.share.enabled && IsRedirectPath(e.share.path)
  }

  /** The enabled entries, in order. */
  function Enabled(es: seq<Entry>): seq<Entry>
  {
    if es == [] then []
    else Enabled(es[..|es| - 1]) + (if es[|es| - 1].share.enabled then [es[|es| - 1]] else [])
  }

  /** The local share declarations, in order. */
  function LocalDecls(es: seq<Entry>): seq<Entry>
  {
    if es == [] then []
    else LocalDecls(es[..|es| - 1]) + (if IsLocalDecl(es[|es| - 1]) then [es[|es| - 1]] else [])
  }

  /** The redirect entries as records, in order. */
  function Redirects(es: seq<Entry>): seq<ExternalShare>
  {
    if es == [] then []
    else Redirects(es[..|es| - 1]) + (if IsRedirectDecl(es[|es| - 1]) then [ExternalRecord(es[|es| - 1])] else [])
  }

  /** Some entry of ds declares `name`. */
  predicate Declares(ds: seq<Entry>, name: string)
  {
    exists k :: 0 <= k < |ds| && ds[k].share.name == name
  }

  /** How many entries of ds declare `name`. */
  function DeclCount(ds: seq<Entry>, name: string): nat
  {
    if ds == [] then 0
    else DeclCount(ds[..|ds| - 1], name) + (if ds[|ds| - 1].share.name == name then 1 else 0)
  }

  /** The first declaration of each name, in order. */
  function FirstDecls(ds: seq<Entry>): seq<Entry>
  {
    if ds == [] then []
    else if Declares(ds[..|ds| - 1], ds[|ds| - 1].share.name) then FirstDecls(ds[..|ds| - 1])
    else FirstDecls(ds[..|ds| - 1]) + [ds[|ds| - 1]]
  }

  /** The local records: one per name, from its first declaration, in conflict iff the name is declared twice or more. */
  function ExpectedLocals(es: seq<Entry>): seq<LocalShare>
  {
    var ds := LocalDecls(es);
    var firsts := FirstDecls(ds);
    seq(|firsts|, k requires 0 <= k < |firsts| =>
      LocalRecord(firsts[k]).(conflict := DeclCount(ds, firsts[k].share.name) > 1))
  }

  lemma {:induction false} DeclCountPositive(ds: seq<Entry>, name: string)
    ensures DeclCount(ds, name) > 0 <==> Declares(ds, name)
  {
    if ds != [] {
      var init := ds[..|ds| - 1];
      DeclCountPositive(init, name);
      if Declares(init, name) {
        var k :| 0 <= k < |init| && init[k].share.name == name;
        assert ds[k] == init[k];
      }
      if Declares(ds, name) && ds[|ds| - 1].share.name != name {
        var k :| 0 <= k < |ds| && ds[k].share.name == name;
        assert init[k] == ds[k];
      }
    }
  }

  /** `x` is an entry of `ds` whose name no earlier entry of `ds` declares. */
  predicate FirstDeclaredIn(ds: seq<Entry>, x: Entry)
  {
    exists p :: 0 <= p < |ds| && ds[p] == x && !Declares(ds[..p], x.share.name)
  }

  /** Declaring in `ds + [e]` is declaring in `ds` or being `e`'s name. */
  lemma DeclaresSnoc(ds: seq<Entry>, e: Entry, n: string)
    ensures Declares(ds + [e], n) <==> Declares(ds, n) || e.share.name == n
  {
    var all := ds + [e];
    if Declares(ds, n) {
      var k :| 0 <= k < |ds| && ds[k].share.name == n;
      assert all[k] == ds[k];
    }
    if e.share.name == n {
      assert all[|ds|] == e;
    }
    if Declares(all, n) && e.share.name != n {
      var k :| 0 <= k < |all| && all[k].share.name == n;
      assert ds[k] == all[k];
    }
  }

  /** FirstDecls declares exactly the names `ds` declares. */
  lemma {:induction false} FirstDeclsNames(ds: seq<Entry>, n: string)
    ensures Declares(FirstDecls(ds), n) <==> Declares(ds, n)
  {
    if ds != [] {
      var init, e := ds[..|ds| - 1], ds[|ds| - 1];
      assert ds == init + [e];
      FirstDeclsNames(init, n);
      DeclaresSnoc(init, e, n);
      if !Declares(init, e.share.name) {
        DeclaresSnoc(FirstDecls(init), e, n);
      } else if e.share.name == n {
        FirstDeclsNames(init, e.share.name);
      }
    } else {
      assert FirstDecls(ds) == [];
    }
  }

  /** No two entries FirstDecls keeps share a name. */
  lemma {:induction false} FirstDeclsDistinct(ds: seq<Entry>)
    ensures forall i, j :: 0 <= i < j < |FirstDecls(ds)| ==> FirstDecls(ds)[i].share.name != FirstDecls(ds)[j].share.name
  {
    if ds != [] {
      var init, e := ds[..|ds| - 1], ds[|ds| - 1];
      FirstDeclsDistinct(init);
      var f0 := FirstDecls(init);
      if !Declares(init, e.share.name) {
        FirstDeclsNames(init, e.share.name);
        assert forall i :: 0 <= i < |f0| ==> f0[i].share.name != e.share.name;
        assert FirstDecls(ds) == f0 + [e];
      } else {
        assert FirstDecls(ds) == f0;
      }
    } else {
      assert FirstDecls(ds) == [];
    }
  }

  /** Each entry FirstDecls keeps is an entry of `ds` that no earlier entry shares its name with. */
  lemma {:induction false} FirstDeclsOrigin(ds: seq<Entry>)
    ensures forall i :: 0 <= i < |FirstDecls(ds)| ==>
      FirstDeclaredIn(ds, FirstDecls(ds)[i])
  {
    if ds != [] {
      var init, e := ds[..|ds| - 1], ds[|ds| - 1];
      FirstDeclsOrigin(init);
      var f0 := FirstDecls(init);
      forall i | 0 <= i < |f0|
        ensures FirstDeclaredIn(ds, f0[i])
      {
        assert FirstDeclaredIn(init, f0[i]);
        var p :| 0 <= p < |init| && init[p] == f0[i] && !Declares(init[..p], init[p].share.name);
        assert ds[p] == init[p] && ds[..p] == init[..p];
      }
      if !Declares(init, e.share.name) {
        var f := FirstDecls(ds);
        assert f == f0 + [e];
        forall i | 0 <= i < |f|
          ensures FirstDeclaredIn(ds, f[i])
        {
          if i < |f0| {
            assert f[i] == f0[i];
          } else {
            var p := |ds| - 1;
            assert ds[..p] == init && ds[p] == e == f[i];
          }
        }
      } else {
        assert FirstDecls(ds) == f0;
      }
    } else {
      assert FirstDecls(ds) == [];
    }
  }

  /** FirstDecls keeps each name exactly once, each kept entry being the first declaration of its name. */
  lemma FirstDeclsFacts(ds: seq<Entry>)
    ensures forall n :: Declares(FirstDecls(ds), n) <==> Declares(ds, n)
    ensures forall i, j :: 0 <= i < j < |FirstDecls(ds)| ==> FirstDecls(ds)[i].share.name != FirstDecls(ds)[j].share.name
    ensures forall i :: 0 <= i < |FirstDecls(ds)| ==>
      FirstDeclaredIn(ds, FirstDecls(ds)[i])
  {
    forall n ensures Declares(FirstDecls(ds), n) <==> Declares(ds, n) {
      FirstDeclsNames(ds, n);
    }
    FirstDeclsDistinct(ds);
    FirstDeclsOrigin(ds);
  }

  /** The names of the expected local records are the names of the first declarations. */
  lemma ExpectedNames(es: seq<Entry>, n: string)
    ensures NameInLocals(ExpectedLocals(es), n) <==> Declares(FirstDecls(LocalDecls(es)), n)
  {
    var firsts := FirstDecls(LocalDecls(es));
    var ls := ExpectedLocals(es);
    if Declares(firsts, n) {
      var k :| 0 <= k < |firsts| && firsts[k].share.name == n;
      assert ls[k].name == n;
    }
    if NameInLocals(ls, n) {
      var k :| 0 <= k < |ls| && ls[k].name == n;
      assert firsts[k].share.name == n;
    }
  }

  /** A repeated local declaration flags the stored record of its name and adds nothing. */
  lemma RepeatedDeclStep(init: seq<Entry>, e: Entry)
    requires IsLocalDecl(e) && Declares(LocalDecls(init), e.share.name)
    ensures ExpectedLocals(init + [e]) == MarkConflict(ExpectedLocals(init), e.share.name)
  {
    var es := init + [e];
    assert es[..|es| - 1] == init;
    var ds0 := LocalDecls(init);
    var ds := ds0 + [e];
    assert LocalDecls(es) == ds;
    assert ds[..|ds| - 1] == ds0;
    var f0 := FirstDecls(ds0);
    assert FirstDecls(ds) == f0;
    var n := e.share.name;
    var ls, l0 := ExpectedLocals(es), ExpectedLocals(init);
    DeclCountPositive(ds0, n);
    assert |ls| == |l0|;
    forall k | 0 <= k < |ls| ensures ls[k] == MarkConflict(l0, n)[k] {
      assert DeclCount(ds, f0[k].share.name) ==
        DeclCount(ds0, f0[k].share.name) + (if f0[k].share.name == n then 1 else 0);
    }
  }

  /** A local declaration of a new name appends its record, not in conflict. */
  lemma FreshDeclStep(init: seq<Entry>, e: Entry)
    requires IsLocalDecl(e) && !Declares(LocalDecls(init), e.share.name)
    ensures ExpectedLocals(init + [e]) == ExpectedLocals(init) + [LocalRecord(e)]
  {
    var es := init + [e];
    assert es[..|es| - 1] == init;
    var ds0 := LocalDecls(init);
    var ds := ds0 + [e];
    assert LocalDecls(es) == ds;
    assert ds[..|ds| - 1] == ds0;
    FirstDeclsFacts(ds0);
    var f0 := FirstDecls(ds0);
    assert FirstDecls(ds) == f0 + [e];
    var n := e.share.name;
    var ls, l0 := ExpectedLocals(es), ExpectedLocals(init);
    DeclCountPositive(ds0, n);
    assert |ls| == |l0| + 1;
    forall k | 0 <= k < |ls| ensures ls[k] == (l0 + [LocalRecord(e)])[k] {
      if k < |l0| {
        assert !Declares(f0, n);
        assert DeclCount(ds, f0[k].share.name) == DeclCount(ds0, f0[k].share.name);
      } else {
        assert DeclCount(ds, n) == 1;
      }
    }
  }

  /**
   * The classification loop computes exactly the independent description:
   * the redirect records of all enabled redirect entries in order, and one
   * local record per declared name, taken from its first declaration and in
   * conflict iff the name is declared at least twice (by any hosts).
   */
  lemma {:induction false} ClassifyExact(es: seq<Entry>)
    ensures ClassifyAll(es) == Classified(ExpectedLocals(es), Redirects(es))
  {
    if es != [] {
      var init, e := es[..|es| - 1], es[|es| - 1];
      assert es == init + [e];
      ClassifyExact(init);
      if IsLocalDecl(e) {
        ExpectedNames(init, e.share.name);
        FirstDeclsFacts(LocalDecls(init));
        if Declares(LocalDecls(init), e.share.name) {
          RepeatedDeclStep(init, e);
        } else {
          FreshDeclStep(init, e);
        }
      } else {
        assert LocalDecls(es) == LocalDecls(init);
      }
    }
  }

  /**
   * What the local list promises: names pairwise distinct; a name is present
   * iff some enabled non-redirect entry declares it; each record carries the
   * host, key and path of the first such declaration; and it is in conflict
   * iff its name is declared more than once.
   */
  lemma LocalsCharacterised(es: seq<Entry>)
    ensures DistinctNames(ClassifyAll(es).locals)
    ensures forall n :: NameInLocals(ClassifyAll(es).locals, n) <==> Declares(LocalDecls(es), n)
    ensures forall k :: 0 <= k < |ClassifyAll(es).locals| ==>
      (ClassifyAll(es).locals[k].conflict <==> DeclCount(LocalDecls(es), ClassifyAll(es).locals[k].name) >= 2)
    ensures forall k :: 0 <= k < |ClassifyAll(es).locals| ==>
      exists p :: 0 <= p < |LocalDecls(es)| && !Declares(LocalDecls(es)[..p], LocalDecls(es)[p].share.name)
        && ClassifyAll(es).locals[k] == LocalRecord(LocalDecls(es)[p]).(conflict := ClassifyAll(es).locals[k].conflict)
  {
    ClassifyExact(es);
    var ds := LocalDecls(es);
    var firsts := FirstDecls(ds);
    var ls := ClassifyAll(es).locals;
    FirstDeclsFacts(ds);
    forall n ensures NameInLocals(ls, n) <==> Declares(ds, n) {
      ExpectedNames(es, n);
    }
    forall i, j | 0 <= i < j < |ls| ensures ls[i].name != ls[j].name {
      assert ls[i].name == firsts[i].share.name && ls[j].name == firsts[j].share.name;
    }
    forall k | 0 <= k < |ls|
      ensures exists p :: (0 <= p < |ds| && !Declares(ds[..p], ds[p].share.name)
        && ls[k] == LocalRecord(ds[p]).(conflict := ls[k].conflict))
    {
      assert FirstDeclaredIn(ds, firsts[k]);
      var p :| 0 <= p < |ds| && ds[p] == firsts[k] && !Declares(ds[..p], ds[p].share.name);
      assert ls[k] == LocalRecord(ds[p]).(conflict := ls[k].conflict);
    }
  }

  /** One local record: its name is declared, it is in conflict iff declared twice or more, and it comes from a declaration. */
  lemma LocalRecordOrigin(es: seq<Entry>, k: int)
    requires 0 <= k < |ClassifyAll(es).locals|
    ensures DeclCount(LocalDecls(es), ClassifyAll(es).locals[k].name) >= 1
    ensures ClassifyAll(es).locals[k].conflict <==> DeclCount(LocalDecls(es), ClassifyAll(es).locals[k].name) >= 2
    ensures exists p :: 0 <= p < |LocalDecls(es)| && ClassifyAll(es).locals[k] == LocalRecord(LocalDecls(es)[p]).(conflict := ClassifyAll(es).locals[k].conflict)
  {
    LocalsCharacterised(es);
    var l := ClassifyAll(es).locals[k];
    assert NameInLocals(ClassifyAll(es).locals, l.name);
    DeclCountPositive(LocalDecls(es), l.name);
  }

  /** The redirect list is every enabled redirect entry, in order, with its host, key, path and id. */
  lemma {:induction false} ExternalsCharacterised(es: seq<Entry>)
    ensures ClassifyAll(es).externals == Redirects(es)
    ensures forall x :: x in ClassifyAll(es).externals <==>
      exists k :: 0 <= k < |es| && IsRedirectDecl(es[k]) && x == ExternalRecord(es[k])
  {
    ClassifyExact(es);
    RedirectsMembers(es);
  }

  lemma {:induction false} RedirectsMembers(es: seq<Entry>)
    ensures forall x :: x in Redirects(es) <==>
      exists k :: 0 <= k < |es| && IsRedirectDecl(es[k]) && x == ExternalRecord(es[k])
  {
    if es != [] {
      var init := es[..|es| - 1];
      RedirectsMembers(init);
      forall x ensures x in Redirects(es) <==>
        exists k :: 0 <= k < |es| && IsRedirectDecl(es[k]) && x == ExternalRecord(es[k])
      {
        if x in Redirects(init) {
          var k :| 0 <= k < |init| && IsRedirectDecl(init[k]) && x == ExternalRecord(init[k]);
          assert es[k] == init[k];
        }
        if exists k :: 0 <= k < |es| && IsRedirectDecl(es[k]) && x == ExternalRecord(es[k]) {
          var k :| 0 <= k < |es| && IsRedirectDecl(es[k]) && x == ExternalRecord(es[k]);
          if k < |init| {
            assert init[k] == es[k];
          }
        }
      }
    }
  }

  /** Disabled entries are invisible: dropping them leaves both lists unchanged. */
  lemma {:induction false} DisabledInvisible(es: seq<Entry>)
    ensures ClassifyAll(es) == ClassifyAll(Enabled(es))
  {
    if es != [] {
      var init, e := es[..|es| - 1], es[|es| - 1];
      DisabledInvisible(init);
      if e.share.enabled {
        var en := Enabled(init) + [e];
        assert Enabled(es) == en;
        assert en[..|en| - 1] == Enabled(init);
        assert ClassifyAll(en) == Step(ClassifyAll(Enabled(init)), e);
      } else {
        assert Enabled(es) == Enabled(init);
      }
    }
  }

  /**
   * Classification partitions the enabled entries: each one is a redirect or a
   * local declaration; every redirect lands in the redirect list and every
   * local declaration's name in the local list, which is never longer than the
   * declarations.
   */
  lemma {:induction false} ClassifyPartition(es: seq<Entry>)
    ensures |ClassifyAll(es).externals| + |LocalDecls(es)| == |Enabled(es)|
    ensures |ClassifyAll(es).locals| <= |LocalDecls(es)|
    ensures forall k :: 0 <= k < |es| && IsRedirectDecl(es[k]) ==> ExternalRecord(es[k]) in ClassifyAll(es).externals
    ensures forall k :: 0 <= k < |es| && IsLocalDecl(es[k]) ==> NameInLocals(ClassifyAll(es).locals, es[k].share.name)
  {
    if es != [] {
      ClassifyPartition(es[..|es| - 1]);
      ClassifyExact(es[..|es| - 1]);
    }
    ExternalsCharacterised(es);
    LocalsCharacterised(es);
    LocalDeclsMembers(es);
    ClassifyExact(es);
    ExpectedLength(es);
  }

  lemma {:induction false} LocalDeclsMembers(es: seq<Entry>)
    ensures forall k :: 0 <= k < |es| && IsLocalDecl(es[k]) ==> Declares(LocalDecls(es), es[k].share.name)
  {
    if es != [] {
      var init := es[..|es| - 1];
      LocalDeclsMembers(init);
      forall k | 0 <= k < |es| && IsLocalDecl(es[k]) ensures Declares(LocalDecls(es), es[k].share.name) {
        var ds := LocalDecls(es);
        if k < |init| {
          assert init[k] == es[k];
          var p :| 0 <= p < |LocalDecls(init)| && LocalDecls(init)[p].share.name == es[k].share.name;
          assert ds[p] == LocalDecls(init)[p];
        } else {
          assert ds[|ds| - 1] == es[k];
        }
      }
    }
  }

  lemma {:induction false} FirstDeclsLength(ds: seq<Entry>)
    ensures |FirstDecls(ds)| <= |ds|
  {
    if ds != [] {
      FirstDeclsLength(ds[..|ds| - 1]);
    }
  }

  lemma ExpectedLength(es: seq<Entry>)
    ensures |ExpectedLocals(es)| <= |LocalDecls(es)|
  {
    FirstDeclsLength(LocalDecls(es));
  }
}
