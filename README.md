# TrueNAS SMB share synchroniser — reconciliation model

This project models one synchronisation cycle of `sharesync`, the daemon that
keeps SMB share redirects consistent across a fleet of TrueNAS hosts. With
every host's share list already fetched, a cycle does three things:

1. **Classification** (`start_sync`). Entries are visited host by host in
   host-list order. Disabled entries are skipped. An entry whose path contains
   `EXTERNAL:` becomes a redirect record. Any other entry becomes a local record,
   unless a local record of the same name is already stored. In that case the
   stored record gets `conflict = True` and the new entry is dropped.
2. **Creation pass** (`parse_local_smb`). This covers each local share that is
   not in conflict, against each other host in the list. The pass scans every
   redirect in the fleet that has the share's name:
   - a redirect whose path contains `EXTERNAL:<owner>` suppresses the create;
   - any other such redirect is deleted.

   If nothing suppressed it, the pass then creates the redirect
   `EXTERNAL:<owner>\<name>` on that host.
3. **Prune pass** (`parse_external_smb`). It runs over the same two lists and
   deletes every redirect whose name no local record carries.

Every create and delete call the source issues is an `Action` value, appended
to a log at the moment the source issues it:
- `Create` stands for `sharing.smb.create`, which `create_external_share` sends;
- `Delete` stands for `sharing.smb.delete`, which `remove_smb_share` sends to the
  host the redirect was found on, with that host's key and the redirect's id.

The other calls are not in the log. These are the `sharing.smb.query` issued
once per host to fetch its share list, and the `auth.login_with_api_key` that
precedes every call. Each loop of the source is a method with loop invariants,
proved equal to a specification function. The properties are lemmas about
those functions.

Files:
- `strings.dfy`: Python's substring test.
- `shares.dfy`: records, calls and the redirect path.
- `classify.dfy`: classification.
- `reconcile.dfy`: the two passes.
- `sync.dfy`: the whole cycle.

Behaviour of the code worth knowing:
- Only the earlier record of a repeated name is flagged, and the later entry is
  dropped. Repeats on the same host are flagged as well.
- The existing-redirect lookup ranges over the whole fleet, not over the target
  host. The comment at share_sync/__init__.py:142-143 speaks of "this host",
  but the scan at :144 covers every redirect found on any host.
  `Reconcile.FleetWideLookup` shows that one correct redirect on host b
  suppresses the create on host c, even though c has no redirect.
- The target test is a substring test. `Reconcile.NeighbourAddressAccepted`
  shows that a redirect to `nas10` passes it for a share on `nas1`.
- A stale redirect is not deleted once. It is deleted once per host other than
  the owner (`Reconcile.StaleDeletedPerOtherHost`).
- Calls are issued as they are decided. There is no separate planning phase.
  The log keeps the issue order.

## Model

| member | source | states |
|---|---|---|
| `Strings.ContainsIffOccurs` | share_sync/__init__.py:72 | the substring test holds iff the pattern occurs at some position of the string |
| `Shares.CreateExternalShare` | share_sync/__init__.py:213-222 | the create call goes to the given host and key with the share name and the fixed comment; its path is classified as a redirect again and passes the target test for the share's host |
| `Shares.CreateExternalShareInjective` | share_sync/__init__.py:215-220 | two create calls are equal only if host, key, target host and share name all agree |
| `Classification.Classify` | share_sync/__init__.py:55-104 | the nested loops, including the in-place conflict marking, compute exactly the classification of the fleet's entries in host-list order |
| `Classification.ClassifyHost` | share_sync/__init__.py:61-104 | one host's share list, visited in order after the entries already classified, extends the classification by exactly those entries |
| `Classification.MarkNameConflicts` | share_sync/__init__.py:77-90 | the scan over the stored local records flags every record of the entry's name and no other, and reports the entry as new iff no stored record has that name; with no match the list is unchanged |
| `Classification.ClassifyExact` | share_sync/__init__.py:58-104 | the redirect list is every enabled redirect entry in order. There is one local record per declared name, from its first declaration, in conflict iff the name is declared at least twice |
| `Classification.RepeatedDeclStep` | share_sync/__init__.py:77-90 | a repeated local name sets the conflict flag on the stored record of that name, changes no other record and adds nothing |
| `Classification.FreshDeclStep` | share_sync/__init__.py:100-104 | a local entry with a new name is appended with its host, key and path, not in conflict |
| `Classification.LocalsCharacterised` | share_sync/__init__.py:72-104 | local names are pairwise distinct. A name is present iff an enabled non-redirect entry declares it. Each record keeps its first declaration's host, key and path, and is in conflict iff the name is declared twice or more |
| `Classification.ExternalsCharacterised` | share_sync/__init__.py:72-98 | a record is in the redirect list iff it is the record of an enabled entry whose path contains the marker, keeping name, host, key, path and id |
| `Classification.DisabledInvisible` | share_sync/__init__.py:67-69 | removing the disabled entries leaves both lists unchanged |
| `Classification.ClassifyPartition` | share_sync/__init__.py:61-104 | redirects plus local declarations number exactly the enabled entries. Every redirect entry lands in the redirect list, and every local declaration's name lands in the local list |
| `Reconcile.ParseLocalSmb` | share_sync/__init__.py:113-161 | the creation pass issues exactly the creation plan: per local share, per host, the stale deletes and then the optional create |
| `Reconcile.SyncLocalShare` | share_sync/__init__.py:127-161 | the calls issued for one local share are its actions over the host list in order |
| `Reconcile.ScanRedirects` | share_sync/__init__.py:144-157 | one scan of the redirect list deletes exactly the same-named redirects that fail the target test, in order, and asks for a create iff no same-named redirect passes it |
| `Reconcile.StaleDeletesMembers` | share_sync/__init__.py:144-157 | one redirect scan deletes exactly the redirects with the share's name that fail the target test |
| `Reconcile.CreationProvenance` | share_sync/__init__.py:130-161 | every create comes from a share not in conflict, goes to a host other than the share's own, and is issued only when no correct redirect exists. Every delete removes a stale redirect of such a share |
| `Reconcile.ConflictedShareSilent` | share_sync/__init__.py:137-140 | a share in conflict causes no call at all |
| `Reconcile.CreateIff` | share_sync/__init__.py:144-161 | take a share not in conflict and a host other than its own. The redirect is created there iff no redirect anywhere in the fleet has its name and passes the target test |
| `Reconcile.StaleDeletedPerOtherHost` | share_sync/__init__.py:130-157 | the deletes issued for a share not in conflict are its stale deletes repeated once per host other than its own |
| `Reconcile.ParseExternalSmb` | share_sync/__init__.py:170-195 | the prune pass, with its early `break`, issues exactly the prune plan |
| `Reconcile.PruneByName` | share_sync/__init__.py:181-195 | a delete is pruned iff it is the delete of a redirect whose name no local record carries, whether that record is in conflict or not |
| `Reconcile.PruneSeesOnlyNames` | share_sync/__init__.py:185-192 | the prune pass does not depend on conflict flags, paths or redirect targets, only on names |
| `Reconcile.DeletesAreListedRedirects` | share_sync/__init__.py:144-195 | a delete issued by either pass is the delete of a record in the redirect list the passes were given |
| `Reconcile.ConvergedIsQuiet` | share_sync/__init__.py:127-195 | take distinct local names, every redirect named after a share not in conflict with exactly the created path, and such a redirect on every other host. Then neither pass issues a call |
| `Reconcile.FleetWideLookup` | share_sync/__init__.py:142-158 | a correct redirect on host b suppresses the create for host c as well |
| `Reconcile.NeighbourAddressAccepted` | share_sync/__init__.py:147-148 | a redirect to `nas10` passes the target test for a share on `nas1`, so it is neither deleted nor replaced |
| `Sync.StartSync` | share_sync/__init__.py:44-110 | one cycle issues the creation pass's calls, then the prune pass's, both computed from the same classification |
| `Sync.ConvergedFleetIsQuiet` | share_sync/__init__.py:55-110 | a fleet whose classified lists are converged gets no call in a cycle |
| `Sync.CreatesOnlyForUniqueNames` | share_sync/__init__.py:77-161 | every create is for a name exactly one enabled local entry declares. It goes to a host other than the declaring one and carries the redirect path to that host |
| `Sync.DeletesOnlyRedirects` | share_sync/__init__.py:58-239 | every delete of a cycle, whether the creation pass's `remove_smb_share` call at :155-157 or the prune pass's at :193-195, removes an enabled entry whose path carries the marker. The `sharing.smb.delete` call of :225-239 goes to the host that reported that entry, with that host's key and the entry's id; a local share is never deleted |
| `Sync.OneShareMirrored` | share_sync/__init__.py:58-161 | with three hosts and one local share on the first, a cycle issues exactly the creates on the second and third host, in that order |
| `Sync.MirroredFleetIsQuiet` | share_sync/__init__.py:44-110 | once those two redirects exist, the next cycle issues nothing |

## Left out

- `api_call` (share_sync/__init__.py:242-286): websocket RPC through the TrueNAS client library. This is network I/O. It covers the ws:// to wss:// fallback and the login warning that does not stop the command. Calls are only entries in the log, and their results are ignored, as the source ignores them. `api_call` catches only `FileNotFoundError` and `ConnectionRefusedError` from the connection and a `ClientException` from the command. Any other exception passes up through `start_sync` and `main`, which catches only `KeyboardInterrupt` (share_sync/__init__.py:346-352), so the cycle's calls stop partway and the process exits. The log shows a cycle in which every call returns.
- `get_smb_shares` (share_sync/__init__.py:289-301): the fetch is network I/O. Share lists are an input. When every transport fails, `api_call` returns `None` and the classification loop would fail iterating it. The model does not cover that crash.
- `main` (share_sync/__init__.py:304-352): argument parsing, `sys.exit`, the two-host minimum and the polling loop with `time.sleep`. These are process control.
- Environment settings `DEBUG` and `POLLMINUTES` and the signal handlers (share_sync/__init__.py:19-41): process configuration and OS signals.
- Console output: the conflict warning, which prints on every repeat, the create and delete messages, and the debug dumps. Printing has no effect on the calls issued.
- main.py is not part of this model. It is an earlier prototype whose passes only print, and the installed entry point does not use it.
- setup.py is not part of this model: it is packaging metadata.
- Host behaviour after a call, such as ids assigned to new shares or a delete of an id that is already gone, is outside the code. `Sync.MirroredFleetIsQuiet` takes the applied fleet as given.
