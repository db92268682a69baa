/**
 * The records the synchroniser works with: fleet members, the share entries
 * each host reports, the local and redirect ("EXTERNAL:") records the
 * classification builds from them, and the RPC calls it issues.
 */
module Shares {
  import opened Strings

  /** One fleet member: its address and its API key. */
  datatype HostEntry = HostEntry(host: string, apikey: string)

  /** One SMB share entry as a host reports it (`id`, `name`, `path`, `enabled`). */
  datatype RawShare = RawShare(id: int, name: string, path: string, enabled: bool)

  /** The share list fetched from one fleet member. */
  datatype HostInventory = HostInventory(entry: HostEntry, shares: seq<RawShare>)

  /** A share whose storage is on `host`; `conflict` is set once a second declaration of its name is seen. */
  datatype LocalShare = LocalShare(name: string, host: string, apikey: string, smbpath: string, conflict: bool)

  /** A redirect share found on `host`; `smbid` is the identifier that deletes it. */
  datatype ExternalShare = ExternalShare(name: string, host: string, apikey: string, smbpath: string, smbid: int)

  /** The argument object of a `sharing.smb.create` call. */
  datatype CreateArgs = CreateArgs(path: string, comment: string, name: string)

  /**
   * One RPC the synchroniser issues: `sharing.smb.create` with its arguments, or
   * `sharing.smb.delete` of a share id (the call `remove_smb_share` makes).
   */
  datatype Action =
    | Create(host: string, apikey: string, args: CreateArgs)
    | Delete(host: string, apikey: string, smbid: int)

  /** The marker that makes a share path a redirect. */
  const Marker: string := "EXTERNAL:"

  /** The comment every created redirect carries. */
  const RedirectComment: string := "Auto-Created SMB Redirect"

  /** A path is a redirect path when the marker occurs anywhere in it. */
  predicate IsRedirectPath(path: string)
  {
    Contains(path, Marker)
  }

  /** The target test of the creation pass: the path contains the marker followed by the owner's address. */
  predicate PointsAt(path: string, owner: string)
  {
    Contains(path, Marker + owner)
  }

  /** The path of a redirect on behalf of share `smbname` stored on `smbhost`. */
  function RedirectPath(smbhost: string, smbname: string): string
  {
    Marker + smbhost + "\\" + smbname
  }

  /**
   * The `sharing.smb.create` call that places on `host` a redirect named `smbname`
   * to the share on `smbhost`. The path it creates is classified as a redirect
   * again and passes the creation pass's target test for `smbhost`.
   */
  function CreateExternalShare(host: string, apikey: string, smbhost: string, smbname: string): (a: Action)
    ensures a.Create? && a.host == host && a.apikey == apikey
    ensures a.args.name == smbname && a.args.comment == RedirectComment
    ensures IsRedirectPath(a.args.path)
    ensures PointsAt(a.args.path, smbhost)
  {
    RedirectPathRecognised(smbhost, smbname);
    Create(host, apikey, CreateArgs(RedirectPath(smbhost, smbname), RedirectComment, smbname))
  }

  /** A redirect path carries the marker and names its target host. */
  lemma RedirectPathRecognised(smbhost: string, smbname: string)
    ensures IsRedirectPath(RedirectPath(smbhost, smbname))
    ensures PointsAt(RedirectPath(smbhost, smbname), smbhost)
  {
    assert RedirectPath(smbhost, smbname) == Marker + (smbhost + "\\" + smbname);
    ContainsPrefix(Marker, smbhost + "\\" + smbname);
    assert RedirectPath(smbhost, smbname) == (Marker + smbhost) + ("\\" + smbname);
    ContainsPrefix(Marker + smbhost, "\\" + smbname);
  }

  /**
   * The `sharing.smb.delete` call `remove_smb_share` issues: it goes to `host`
   * with that host's key and names the share by its id alone.
   */
  function RemoveSmbShare(host: string, apikey: string, smbid: int): (a: Action)
    ensures a.Delete? && a.host == host && a.apikey == apikey && a.smbid == smbid
  {
    Delete(host, apikey, smbid)
  }

  /** Two create calls are equal only when host, key, target host and share name all agree. */
  lemma CreateExternalShareInjective(h1: string, k1: string, s1: string, n1: string,
                                     h2: string, k2: string, s2: string, n2: string)
    requires CreateExternalShare(h1, k1, s1, n1) == CreateExternalShare(h2, k2, s2, n2)
    ensures h1 == h2 && k1 == k2 && s1 == s2 && n1 == n2
  {
    var p1, p2 := RedirectPath(s1, n1), RedirectPath(s2, n2);
    assert p1 == p2 && n1 == n2;
    assert |s1| == |s2|;
    assert s1 == p1[|Marker|..|Marker| + |s1|];
    assert s2 == p2[|Marker|..|Marker| + |s2|];
  }

  /** Some local record carries this name (the name tests of share_sync/__init__.py:79 and :188). */
  predicate NameInLocals(locals: seq<LocalShare>, name: string)
  {
    exists k :: 0 <= k < |locals| && locals[k].name == name
  }

  /** No two local records share a name. */
  predicate DistinctNames(locals: seq<LocalShare>)
  {
    forall i, j :: 0 <= i < j < |locals| ==> locals[i].name != locals[j].name
  }
}
