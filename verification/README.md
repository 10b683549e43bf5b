# A verified model of AdaptiveCowrie's cores

AdaptiveCowrie is a medium-interaction honeypot. This project models the stateful parts of it in Dafny, in the
form they have in the program, and proves what they are for. `dafny verify dfyconfig.toml` checks everything.

**Virtual filesystem** (`Paths`, `FlatFs`, `FlatOps`, `FlatLinks`, `FlatLaws`, `Fs`, `FsTwins`). `Fs` is the tree of
entries edited in place, with its two separately written path walkers. `FlatFs` and `FlatOps` are the same filesystem
as a map from component sequences to attributes; every method of `Fs` is proved to refine its operation there.
`FlatLinks` is about cycles of links, `FlatLaws` says what the operations mean, what undoes them and where they go
wrong, and `FsTwins` what removal by equality does. Walks carry a ghost bound on the nesting of links; `FlatFs` proves
that answers do not depend on it, and `FlatLinks` that all walks end exactly when no links lead round in a circle.

**Backend pool** (`PoolModel`, `PoolSystem`, `PoolRuns`, `PoolFates`, `PoolUse`, `PoolService`, `NetworkTable`,
`PoolServer`, `Wire`). Each consumer call and each producer iteration is one atomic step on guests, NAT table and
outstanding leases. `PoolService` and `PoolServer` are the objects, proved against the steps; `PoolSystem` proves one
invariant kept by every step, `PoolRuns` what follows for every run, `PoolFates` what can become of a single guest,
and `PoolUse` who is served by which guest, and when a guest goes, told by the events alone. Runs assume that each
granted guest is given back exactly once and that live guests and leases are at most 252 creations old, because ids
are reused after 252. `Wire` is the protocol between the pool server and its client.

**AbuseIPDB log book** (`LogBookModel`, `AbuseRuns`, `AbuseIpdb`). A sliding-window rate limiter with clean-ups and a
sleep mode, over runs in which logins, scheduled clean-ups, answers to the reports in flight and wake-up calls come
in any order. The scheduled clean-up that `recall` refers to is pending or spent: cancelling a spent one raises
Twisted's AlreadyCancelled or AlreadyCalled, which the program does not catch.

**CNAME resolver** (`Cname`), with aliases as in section 3.6.2 of RFC 1034; **AuthRandom** (`Auth`);
**pipelines** (`Pipeline`); **session recordings** (`TtyLog`, `Players`); **tail** (`Tail`).

Answers of clocks, random numbers, qemu, port scans, DNS and the operating system are parameters. Time is a
real number in the log book, and an integer in the pool and, as microseconds, in recordings.

## What turned out not to hold

Each is stated by a lemma with a concrete input or with the exact condition, or both.

- A 429 answer that comes while the AbuseIPDB plugin is asleep can let it report an ip again too early. The answer
  brings a wake-up call of its own, which ends whatever sleep is going on; the first answer's clean-up may have
  forgotten the report by then, since it judges by the end of the first sleep. The second answer makes no clean-up:
  `recall` was cancelled by the first, and cancelling it again raises (`ShortSleepInsideALongOne`). `StepSafeIff` says
  exactly which steps are safe, and `UnsafeStepIff` that after any other one a report that is too early can follow;
  with one sleep at a time it cannot (`OneSleepAtATimeIsSafe`).
- A clean-up throws away a deque with a single login (`CleanUpForgets`), and one made for a waking time can keep a
  deque and throw away logins in it that count (`CleanUpForWakingLosesCount`); `CleanUpHarmlessIff` is the exact
  condition.
- `rename` loses the subtree if the new parent is missing, lies inside it, or is come to through it
  (`RenameKeepsTreeIff`), and can close a circle of links (`RenameCanCloseACycle`); `RenameClosesCycleIff` says
  exactly when, on the tree before the call. `mkdir` makes a second entry of a taken name (`MkDirMeaning`), `mkdir2`
  of a dangling link (`MkDir2Duplicates`).
- Renaming a link renames the node it leads to, which may hang in another directory than the one it is to be removed
  from. That raises ValueError, unless an entry there equals the node in every field and in all it contains: then
  that entry is lost, and the renamed node hangs in two places (`RenameStraysIff`, `RenamingALinkTakesATwin`).
- Without following, the last piece of a path is recognised by its name (`LastPieceByName`), and a link to a link on
  the way is not followed either (`ChainedLinksStop`); `NoFollowFindsIff` is the exact condition.
- Handing a shared guest back unused can leave it `using` with nobody connected, and nothing but a new request or a
  failing health check ends that (`StrandedIff`, `StrandedStays`). A late free or reuse brings a condemned guest back
  (`RevivedIff`). A pool of one never replaces a condemned guest (`IdleIsGoneIff`, `PoolOfOneIsStuck`).
- Stopping the pool closes all listeners but leaves the bindings: ids that are leased stay bound to closed ports
  (`StopLeavesStaleIff`).
- `AuthRandom` never admits an address by count that drew a number below one (`DrawsBelowOneNeverGetIn`), and a cache
  hit sets the number to one (`AfterACacheHit`). The comparison of a returning login compares bytes with str and
  never agrees, as modelled.
- Two logins can count as one combination if there are colons in them (`ColonsRunTogether`).
- The two walkers of the filesystem read a doubled slash differently (`DoubledSlashSkipped`, `DoubledSlashMissing`).
- A sleeping player raises on a log whose clock went back between two writes; `PlaylogShowsAllIff` is the exact
  condition.
- With sharing on and no guest busy, `min` raises ValueError instead of NoAvailableVMs
  (`RequestVm`, outcome `EmptyMin`).

## Model

| member | source | states |
|---|---|---|
| Paths.FoldNormal | src/cowrie/shell/fs.py:200-231 | Resolving a normalised path onto a stack appends it piece by piece: `.`, `..` and empty parts are all that resolving ever interprets |
| Paths.FoldConcat | src/cowrie/shell/fs.py:214-229 | Resolving is a left fold: pieces `a` then `b` give what the pieces `a + b` give |
| Paths.FoldRStrip | src/cowrie/shell/fs.py:212-229 | Trailing slashes change nothing, although they are cut before the path is split |
| Paths.ResolvedNormal | src/cowrie/shell/fs.py:200-231 | With a normalised working directory the result has no empty, `.` or `..` component and no component with a slash |
| Paths.ResolvedRender | src/cowrie/shell/fs.py:200-231 | A rendered normalised path resolves to itself from any working directory |
| Paths.ResolveIdempotent | src/cowrie/shell/fs.py:200-231 | Resolving what resolving gave changes nothing, whatever directory it is done from |
| Paths.ResolveRelative | src/cowrie/shell/fs.py:200-231 | A relative path resolved in `c` is `c/path` resolved anywhere |
| Paths.ResolveCompose | src/cowrie/shell/fs.py:200-231 | Resolving `b` in the directory that `a` resolved to is resolving `a/b` |
| Paths.DotDotIsParent | src/cowrie/shell/fs.py:219-222 | `..` behind a path is the parent of what the path resolves to; the root is its own parent |
| Paths.NameGoesDown | src/cowrie/shell/fs.py:217-229 | A name behind a path goes down by that name; `.` and a trailing slash stay |
| Paths.FromHere | src/cowrie/shell/fs.py:212-229 | From the working directory `..` is its parent, `.` is itself, and a name is its child |
| Paths.TildeIsHome | src/cowrie/shell/fs.py:206-208 | `~/x` is what `x` below the home directory resolves to |
| Paths.DirnameBasename | src/cowrie/shell/fs.py:384-404 | `dirname` and `basename` of a rendered path are its parent and its last component |
| Paths.SplitRender | src/cowrie/shell/fs.py:262-286 | Splitting a rendered path and skipping empty parts gives its components back |
| Fs.HoneyPotFilesystem.ResolvePath | src/cowrie/shell/fs.py:200-231 | The loop that pops pieces and pushes components computes the fold; the empty path is the IndexError case |
| FlatFs.WalkersAgree | src/cowrie/shell/fs.py:262-355 | On every normalised path `getfile` with following and `get_path` reach the same node, or both fail, or neither ends |
| FlatFs.RawTarget | src/cowrie/shell/fs.py:277 | `get_path` hands on the raw target, `getfile` one with a slash in front: the same walk for a non-empty target |
| FlatFs.RankedTerminates | src/cowrie/shell/fs.py:318-355 | If links can be ranked so that a link's target runs only into links of lower rank, both walkers end on every path |
| FlatFs.TerminatesOnlyRanked | src/cowrie/shell/fs.py:318-355 | Conversely, if every link's walk ends then such a ranking exists: ranking is exactly termination |
| FlatFs.SettledWalksEnd | src/cowrie/shell/fs.py:318-355 | If every link settles, every walk from every node over any pieces ends |
| FlatFs.MoreFuel | src/cowrie/shell/fs.py:318-355 | The nesting bound of the model never influences an answer that was reached |
| FlatFs.FollowedIsNoLink | src/cowrie/shell/fs.py:318-355 | A walk that follows links never ends on a link |
| FlatFs.NoFollowAgrees | src/cowrie/shell/fs.py:334-335 | A walk that leaves the last piece alone and ends on something other than a link agrees with the one that follows |
| FlatFs.NoFollowChild | src/cowrie/shell/fs.py:318-355 | Without following, `parent/name` is the child `name` of the directory `get_path` finds for `parent` |
| FlatFs.LinkFreeLookUp | src/cowrie/shell/fs.py:262-355 | With no link above it, looking up a normalised path is membership in the map, for both walkers |
| FlatLaws.LinkLeadsFromRoot | src/cowrie/shell/fs.py:338-348 | A link leads where its target leads from the root, also where the target is relative |
| FlatLaws.DoubledSlashSkipped | src/cowrie/shell/fs.py:262-270 | For `get_path` a doubled slash is a single one |
| FlatLaws.DoubledSlashMissing | src/cowrie/shell/fs.py:318-332 | For `getfile` nothing lies behind a doubled slash in a normalised path, as long as no entry has an empty name |
| FlatFs.NoFollowFindsIff | src/cowrie/shell/fs.py:318-355 | Without following, an entry that `get_path` shows to be there is found exactly when no link met on its parent's way is called like it, and each link met leads to something other than a link even when its own last piece is not followed |
| FlatFs.LastPieceByName | src/cowrie/shell/fs.py:334-335 | The first cause on a concrete tree: the last piece is recognised by its name |
| FlatFs.ChainedLinksStop | src/cowrie/shell/fs.py:338-345 | The second cause on a concrete tree with all names different: a link to a link above the entry |
| Fs.HoneyPotFilesystem.GetFile | src/cowrie/shell/fs.py:318-355 | On the node tree, `getfile` finds exactly what walking the map finds, null exactly when the map walk fails |
| Fs.HoneyPotFilesystem.EnterByName | src/cowrie/shell/fs.py:327-353 | The inner loop, in which the last entry of a name counts, answers one step of the map walk |
| Fs.HoneyPotFilesystem.GetPath | src/cowrie/shell/fs.py:262-286 | On the node tree, `get_path` reaches exactly the directory that walking the map reaches |
| Fs.HoneyPotFilesystem.EnterFirst | src/cowrie/shell/fs.py:271-285 | The inner loop, in which the first entry of a name counts, answers the same step of the map walk |
| Fs.HoneyPotFilesystem.PathExists | src/cowrie/shell/fs.py:288-296 | True exactly when following finds a node |
| Fs.HoneyPotFilesystem.MkFile | src/cowrie/shell/fs.py:384-408 | In place on the lists: the tree stays well shaped and its map becomes `MkFileOp` of the old one, with the same outcome |
| Fs.HoneyPotFilesystem.MkDir | src/cowrie/shell/fs.py:410-432 | The same for `mkdir`; where the name is taken the directory ends up holding it twice |
| Fs.HoneyPotFilesystem.MkDir2 | src/cowrie/shell/fs.py:561-568 | The same for `mkdir2` |
| Fs.HoneyPotFilesystem.RmDir | src/cowrie/shell/fs.py:570-586 | The same for `rmdir`, with every refusal |
| Fs.HoneyPotFilesystem.Remove | src/cowrie/shell/fs.py:609-613 | The same for `remove`, by equality: the node, or where it is not in that directory an entry equal to it, or ValueError |
| Fs.HoneyPotFilesystem.Rename | src/cowrie/shell/fs.py:626-636 | The same for `rename`: node taken out, renamed and hung in again, or lost if the new parent is not found; where an equal entry was taken out instead, that subtree leaves the tree and the node is renamed where it hangs |
| Fs.HoneyPotFilesystem.Chmod | src/cowrie/shell/fs.py:594-598 | Only the mode of the node found changes, keeping its file type bits |
| Fs.HoneyPotFilesystem.Chown | src/cowrie/shell/fs.py:600-607 | Only owner and group of the node found change, -1 leaving each as it is |
| Fs.HoneyPotFilesystem.UpdateSize | src/cowrie/shell/fs.py:671-677 | Only the size of a regular file changes; a missing path is no error |
| FlatLaws.MkFileMeaning | src/cowrie/shell/fs.py:384-408 | `mkfile` on any normalised path whose parent is found: the key is there with the given attributes, what was at or under it is gone, every other key is untouched |
| FlatLaws.MkDirMeaning | src/cowrie/shell/fs.py:410-432 | `mkdir` on any normalised path makes a second entry of a name exactly when the name is taken in the directory found, else adds just that key |
| FlatLaws.MkDir2Duplicates | src/cowrie/shell/fs.py:561-568 | `mkdir2` on any normalised path makes a second entry exactly on a dangling link |
| FlatLaws.MkDir2Meaning | src/cowrie/shell/fs.py:561-568 | Where it makes one, the directory is root's, of 4096 bytes and mode 040755 |
| FlatLaws.MakingRefusedIff | src/cowrie/shell/fs.py:395-420 | Files and directories are refused exactly after more than 10000, and files also below paths that begin like `/sys`, `/proc` or `/dev/pts` |
| FlatLaws.RemoveMeaning | src/cowrie/shell/fs.py:609-613 | On any normalised path, links included, `remove` succeeds exactly when the node is found and takes away it and what is below |
| FlatLaws.RmDirMeaning | src/cowrie/shell/fs.py:570-586 | On any normalised path `rmdir` succeeds exactly on a childless directory and removes only it; otherwise nothing changes |
| FlatLaws.ChmodMeaning | src/cowrie/shell/fs.py:594-598 | The twelve permission bits become those asked for, the file type bits stay, and nothing else changes |
| FlatLaws.ChownMeaning | src/cowrie/shell/fs.py:600-607 | Owner and group become those asked for, each but for -1, and nothing else changes |
| FlatLaws.UpdateSizeMeaning | src/cowrie/shell/fs.py:671-677 | The size of a regular file becomes the one given; nothing else changes, and a missing path is no error |
| FlatLaws.RenameMeaning | src/cowrie/shell/fs.py:626-636 | `rename` moves exactly the keys at and under the old path when the new parent exists outside it; otherwise the subtree is lost |
| FlatLinks.WalkWithout | src/cowrie/shell/fs.py:262-286 | With a subtree taken out, walks that come to it fail and all others end where they did |
| FlatLaws.RenameThroughLinks | src/cowrie/shell/fs.py:626-636 | `rename` between any two normalised paths, through any links, in full |
| FlatLaws.RenameKeepsTreeIff | src/cowrie/shell/fs.py:634-636 | Between any two normalised paths a failed rename changes the tree exactly when the node hangs where the old path says, the new path leads nowhere, and its parent is missing or the walk to it comes by the node |
| FlatLaws.PlainRenameKeepsTreeIff | src/cowrie/shell/fs.py:634-636 | With no link on the way: exactly when the new parent is missing or lies inside the old path |
| FlatLaws.MkDirRmDir | src/cowrie/shell/fs.py:410-586 | `rmdir` undoes `mkdir` of a new name |
| FlatLaws.MkFileRemove | src/cowrie/shell/fs.py:384-613 | `remove` undoes `mkfile` of a new name |
| FlatLaws.MoveBack | src/cowrie/shell/fs.py:626-636 | Moving a subtree away and back restores the map |
| FlatLaws.RenameThereAndBack | src/cowrie/shell/fs.py:626-636 | Renaming there and back is no change at all |
| FlatLinks.SettlesIffNoCycle | src/cowrie/shell/fs.py:262-355 | All walks end exactly when no links meet one another round in a circle |
| FlatLinks.LinkFreeMoveSettles | src/cowrie/shell/fs.py:626-636 | Renaming a subtree without links leaves links settled at the same depth |
| FlatLinks.UndanglingMoveSettles | src/cowrie/shell/fs.py:626-636 | So does renaming any subtree to where no link's walk stopped |
| FlatLinks.MoveClosesCycleIff | src/cowrie/shell/fs.py:634-636 | A move makes walks endless exactly when it closes a circle of links, for which it has to move a link and some link has to have stopped at the new path |
| FlatLinks.WalkAfterIsWalk | src/cowrie/shell/fs.py:634-636 | Every walk after a move, told on the tree before it: coming to the new path it goes on from the old one, whose own name is gone |
| FlatLinks.RenameClosesCycleIff | src/cowrie/shell/fs.py:626-636 | A call of `rename` makes some walk endless exactly if it succeeds and links, told on the tree before the call, then lead round in a circle; it has to move a link and some link has to have stopped at the new path |
| FlatLaws.RenameCanCloseACycle | src/cowrie/shell/fs.py:626-636 | A concrete rename that does both, after which no walk leaves the circle |
| Fs.EqualIsMayTwin | src/cowrie/shell/fs.py:634 | Two nodes in different places that the list's `remove` takes for equal have the same keys with the same attributes below them |
| FsTwins.ChildlessTwinsAreEqual | src/cowrie/shell/fs.py:634 | A childless node equals every entry of the same name and real file that looks like it on the map |
| Fs.HoneyPotFilesystem.FirstEqual | src/cowrie/shell/fs.py:613-634 | What `list.remove` by equality takes: the node itself where it is in the directory, else the first entry equal to it |
| FlatOps.TwinsLieApart | src/cowrie/shell/fs.py:634 | Neither of two equal nodes lies inside the other |
| FsTwins.EqualIff | src/cowrie/shell/fs.py:634 | Two nodes in different places are equal for the list's `remove` exactly if they have one name, the same keys and attributes below them, the same real files, and list what they contain in the same order throughout |
| FlatLaws.RenameFindsTwinIff | src/cowrie/shell/fs.py:626-636 | When a rename comes to an entry that looks like the node found: the necessary half that the map can tell |
| FsTwins.RenameStraysIff | src/cowrie/shell/fs.py:626-636 | On the node tree, exactly when renaming a normalised path takes out another entry: the node found hangs elsewhere, the new path is free, and the directory has an equal entry of the node's name; the old path is then a link |
| FsTwins.TwinsStray | src/cowrie/shell/fs.py:634 | It does on every tree like the one given |
| FsTwins.RenamingALinkTakesATwin | src/cowrie/shell/fs.py:634 | Such a tree, built node by node, and the call on it |
| FlatOps.ApplyKeepsInv | src/cowrie/shell/fs.py:384-677 | Every operation keeps the map a tree whose links are leaves |
| FlatOps.RunKeepsInv | src/cowrie/shell/fs.py:384-677 | So does every sequence of calls, and at most 10001 entries are ever made |
| FlatOps.RenameSettles | src/cowrie/shell/fs.py:626-636 | `rename` leaves links settled, failed or not, if it moves no link |
| FlatOps.ApplySettles | src/cowrie/shell/fs.py:384-677 | No operation can make a walk endless but a `rename` that moves a link |
| FlatOps.RunSettles | src/cowrie/shell/fs.py:384-677 | Nor can any sequence of calls, renames included, that moves no link |
| PoolService.LoopIsEach | src/backend_pool/pool_service.py:263-280 | A loop over the guests in some states, assigning their fields one by one, is one function applied to every guest |
| PoolService.RemoveIsKeep | src/backend_pool/pool_service.py:323-324 | With distinct ips, `guests.remove(guest)` by field equality deletes exactly the intended guest |
| PoolService.KeepIsFilter | src/backend_pool/pool_service.py:317-324 | Removing the destroyed guests one by one is an order-preserving filter |
| PoolService.PoolService.MarkTimedOut | src/backend_pool/pool_service.py:258-280 | Exactly the used guests that were freed too long before the clock reading at their turn become unavailable |
| PoolService.PoolService.DestroyTimedOut | src/backend_pool/pool_service.py:301-315 | Exactly the unavailable guests that qemu destroys become destroyed |
| PoolService.PoolService.CheckHealth | src/backend_pool/pool_service.py:282-299 | Exactly the usable guests without connectivity become unavailable |
| PoolService.PoolService.RemoveDestroyed | src/backend_pool/pool_service.py:317-324 | The list becomes the guests not destroyed, in order |
| PoolService.PoolService.MarkAvailable | src/backend_pool/pool_service.py:326-345 | Exactly the created guests with connectivity become available, and `any_vm_up` is set if there was one |
| PoolService.PoolService.GetMacIp | src/backend_pool/libvirt/backend_service.py:102-116 | An ip returned is free and was picked among the first 500; failure means all 500 picks were taken |
| PoolService.PoolService.CreateGuests | src/backend_pool/pool_service.py:347-377 | Guests are appended up to `max_vm` with fresh ips and ids that wrap at 252, or creation fails part of the way |
| PoolService.PoolService.ProducerLoop | src/backend_pool/pool_service.py:379-403 | One iteration on the list of objects is one `Produce` step on values, whatever clock, qemu and port scans answer |
| PoolService.PoolService.SelectGuest | src/backend_pool/pool_service.py:406-445 | Own guest, else an available one, else with sharing the first least connected one |
| PoolService.PoolService.RequestVm | src/backend_pool/pool_service.py:431-456 | The chosen guest is taken and no other changes; no guest and the empty `min` change nothing |
| PoolService.PoolService.FreeVm | src/backend_pool/pool_service.py:458-467 | Only the first guest with the id changes: freed now, one connection less, `used` when that was the last |
| PoolService.PoolService.ReuseVm | src/backend_pool/pool_service.py:469-479 | Only the first guest with the id changes: one connection less, back to its previous state when that was the last |
| PoolModel.LeastBusy | src/backend_pool/pool_service.py:422-429 | What `min` returns: the first of the busy guests with the fewest connections |
| NetworkTable.GenerateNetworkTable | src/backend_pool/util.py:39-67 | Every MAC gets an ip, no two the same, and together they are exactly the consecutive ips from 2 on |
| NetworkTable.NumberDigits | src/backend_pool/util.py:64 | Reading the decimal digits of a number gives it back, so the ips differ |
| PoolSystem.RequestKeeps | src/backend_pool/pool_service.py:431-456 | A request keeps the invariant of pool, NAT table and leases |
| PoolSystem.FreeKeeps | src/backend_pool/pool_service.py:458-467 | Giving a lease back for cleaning keeps it |
| PoolSystem.ReuseKeeps | src/backend_pool/pool_service.py:469-479 | Giving a lease back unused keeps it |
| PoolSystem.IterateKeeps | src/backend_pool/pool_service.py:379-403 | A producer iteration keeps it |
| PoolSystem.StepKeeps | src/backend_pool/pool_server.py:53-184 | Every possible step keeps it |
| PoolSystem.GrantKeepsNat | src/backend_pool/nat.py:89-111 | Binding an id for a new lease keeps bindings, counts and ports in step with the leases |
| PoolSystem.ReleaseKeepsNat | src/backend_pool/nat.py:113-121 | So does releasing one |
| PoolRuns.RunInv | src/backend_pool/pool_server.py:53-184 | The invariant holds in every state of every run with lease discipline |
| PoolRuns.BindingsFollowLeases | src/backend_pool/nat.py:89-121 | A live guest's id is bound exactly while connections to it are out; the binding's count is the guest's `connected` |
| PoolRuns.BindingsFollowOrphans | src/backend_pool/nat.py:89-121 | Also for a guest destroyed under its clients, until its last lease is back |
| PoolRuns.TwoListenersPerBinding | src/backend_pool/nat.py:103-109 | The open listeners are exactly two per binding |
| PoolRuns.PortsNeverChange | src/backend_pool/nat.py:95-101 | While a guest stays leased, its two public ports stay the same over any steps of others |
| PoolRuns.NothingLeaks | src/backend_pool/nat.py:113-121 | With every lease back, no binding and no listener is left |
| PoolRuns.ConnectedStates | src/backend_pool/pool_service.py:258-479 | Created, available and used guests have no connections; connected ones are using or unavailable and remember a usable state |
| PoolRuns.TimeOutSparesConnected | src/backend_pool/pool_service.py:266-280 | Marking by age never hits a connected guest although it does not look at `connected` |
| PoolFates.UnsharedRunStrandsNothing | src/backend_pool/pool_service.py:406-479 | If no request of a run is ever served by a guest already in use, then in every state every guest in use has a connection |
| PoolFates.PrevIsWhatTheLatestFound | src/backend_pool/pool_service.py:449-451 | In every state of every run, the previous state a guest remembers is the one the latest request it served found it in |
| PoolFates.StrandedIff | src/backend_pool/pool_service.py:469-479 | In every run a step leaves a guest in use with nobody connected exactly when it hands the last connection back unused and the latest request had found the guest already in use |
| PoolFates.StrandedStays | src/backend_pool/pool_service.py:258-403 | Such a guest stays so over any number of steps: no age condemns it and no iteration destroys it, until a request is served by it or a health check of it fails |
| PoolFates.RevivedIff | src/backend_pool/pool_service.py:458-479 | A condemned guest can be used again after a step exactly when the step gives back its last connection |
| PoolUse.IterationFate | src/backend_pool/pool_service.py:263-403 | What an iteration makes of every guest: gone exactly if, in a pool of two or more, it was condemned or had been freed longer ago than the timeout, and qemu destroys it; else there in the state that age, health and boot say, and otherwise unchanged |
| PoolUse.UsedGoesIff | src/backend_pool/pool_service.py:266-280 | A used guest goes exactly if its free is longer ago than the timeout by the clock at its turn |
| PoolUse.FreedIsLatestFree | src/backend_pool/pool_service.py:458-467 | In every state of every run, the time a guest remembers is that of its latest free, -1 if there was none |
| PoolUse.UsedGoesByAge | src/backend_pool/pool_service.py:263-403 | In every run, the two together |
| PoolUse.IterationMakes | src/backend_pool/pool_service.py:347-377 | Every guest that qemu made is in the pool after the iteration, unused, with its id and what qemu told of it, available exactly if it answers |
| PoolUse.IterationAddsNoOther | src/backend_pool/pool_service.py:347-377 | And there are no guests but those made and those there before |
| PoolUse.ClientIpsAreServed | src/backend_pool/pool_service.py:449-454 | In every state of every run, the addresses a guest knows are those of the requests it has served |
| PoolUse.OwnGuestFirst | src/backend_pool/pool_service.py:406-456 | In every run, a request of an address is served by the first guest in use that an earlier request of it was served by; else by the first available one; else, with sharing, by the first of those in use with the fewest connections; and by none exactly if there is none of these |
| PoolUse.AvailableWasNeverFreed | src/backend_pool/pool_service.py:431-479 | In every state of every run, a guest that is available was never given back after use |
| PoolUse.GivingBack | src/backend_pool/pool_service.py:458-479 | In every run: the last connection given back after use leaves the guest used, the last one given back unused leaves it as the latest request found it, and any other changes only the count |
| PoolUse.AnyUpIff | src/backend_pool/pool_service.py:326-345 | In every run, `any_vm_up` says exactly whether some guest had started up by then |
| PoolFates.IdleIsGoneIff | src/backend_pool/pool_service.py:379-403 | If qemu does as it is asked, an iteration gets rid of a condemned guest without connections exactly if the pool held at least two guests |
| PoolFates.PoolOfOneIsStuck | src/backend_pool/pool_service.py:379-403 | A pool of one whose guest is condemned and idle is stuck in every run: the guest is never destroyed or replaced, and no request is granted again |
| PoolRuns.Capacity | src/backend_pool/pool_service.py:227-231 | The pool never holds more than 253 guests |
| PoolRuns.IterationSize | src/backend_pool/pool_service.py:379-403 | An iteration that can create ends with `max_vm` guests, or with the survivors if they are more, none destroyed |
| PoolRuns.PoolStaysFull | src/backend_pool/pool_service.py:347-403 | From a fresh start with `max_vm` never lowered every iteration ends with exactly `max_vm` guests |
| PoolRuns.ConsumerAt | src/backend_pool/pool_service.py:406-479 | A consumer call changes the guest it is about, ids being reused as they are, and no other |
| PoolRuns.ConsumersLeaveIdle | src/backend_pool/pool_service.py:406-479 | No consumer call touches a condemned guest without connections |
| PoolRuns.IdleIsGone | src/backend_pool/pool_service.py:301-403 | In a pool of two or more such a guest is gone after the next iteration, whatever consumers do before it |
| PoolRuns.IdleGoneByNextIteration | src/backend_pool/pool_service.py:301-403 | From a fresh start with `max_vm` at least two, it is gone one iteration after the one it was idle at the end of |
| PoolServer.NatService.RequestBinding | src/backend_pool/nat.py:89-111 | The table in place becomes the one of the model; the ports returned are those of the binding |
| PoolServer.NatService.FreeBinding | src/backend_pool/nat.py:113-121 | One use less, listeners closed with the last; an unknown id is the KeyError case and changes nothing |
| PoolServer.NatService.FreeAll | src/backend_pool/nat.py:123-127 | The listeners of every binding are closed and the bindings stay |
| PoolSystem.StopLeavesStaleIff | src/backend_pool/pool_service.py:161-184 | After a stop nothing is listened on, and the table is in step with the leases exactly if none was out |
| PoolServer.PoolServer.DataReceived | src/backend_pool/pool_server.py:53-184 | Bytes are taken apart, acted on in pool and NAT table, and answered, as `Handle` says for every message and every error |
| PoolServer.HandleIsStep | src/backend_pool/pool_server.py:53-184 | With NAT on, handling a message of a client that keeps to its leases is a step of the protocol |
| PoolServer.ToldPortsAreOpen | src/backend_pool/pool_server.py:108-129 | The ports a client is told are those bound for its guest, and they are listened on |
| PoolServer.RequestAnswered | src/backend_pool/pool_server.py:72-151 | What a request is answered and does, with NAT and without: the guest that should serve it takes the client, who is told its id, snapshot, address and ports; else a refusal, or no answer with sharing |
| PoolServer.OthersAnswered | src/backend_pool/pool_server.py:53-70 | Settings are taken over and acknowledged; giving back is not answered and does the same to the pool without NAT |
| PoolServer.ClientSeesHandled | src/cowrie/pool_interface/client.py:30-117 | What a client sends is handled as meant, and it reads the answer back as meant, whatever follows on the wire |
| Wire.ServerReadsClient | src/backend_pool/pool_server.py:53-180 | The server reads back every message the client can send |
| Wire.AcceptedIsEncoded | src/backend_pool/pool_server.py:53-180 | What the server accepts is the encoding of what it read, byte for byte, but for flag bytes above one |
| Wire.ServerBytesInjective | src/cowrie/pool_interface/client.py:30-56 | Distinct requests have distinct bytes |
| Wire.ToServerLayout | src/cowrie/pool_interface/client.py:30-56 | The bytes of a request: a letter, numbers in network order, text as ASCII |
| Wire.ClientReadsServer | src/cowrie/pool_interface/client.py:58-117 | The client reads back every answer the server can send, whatever bytes follow |
| Wire.ClientBytesInjective | src/backend_pool/pool_server.py:72-151 | Distinct answers have distinct bytes |
| Wire.ToClientLayout | src/backend_pool/pool_server.py:72-151 | The bytes of an answer, field by field |
| LogBookModel.MakeConfig | src/cowrie/output/abuseipdb.py:199-213 | The pause between reports is never below 900 seconds |
| LogBookModel.CleanIsFilter | src/cowrie/output/abuseipdb.py:229-239 | Popping expired times from the left is filtering by the window, because times are in order |
| LogBookModel.CountingIsExact | src/cowrie/output/abuseipdb.py:160-187 | Until the threshold the deque is exactly the logins within the window of the latest, and the report comes exactly when the naive count reaches it |
| LogBookModel.CleanUpHarmlessIff | src/cowrie/output/abuseipdb.py:275-304 | For every time a clean-up judges by, before or after the next login: it is without effect on that login exactly if the deque had nothing within the login's window, or had at least two times, was not dropped for the pause, and lost no time within that window |
| LogBookModel.CleanUpForWakingLosesCount | src/cowrie/output/abuseipdb.py:285-288 | A deque that survives a clean-up for the waking time and has yet lost a login that counts |
| LogBookModel.CleanUpForgets | src/cowrie/output/abuseipdb.py:272-273 | A deque of one is always thrown away: two logins two seconds apart that are not counted together |
| LogBookModel.ForgettingReportHarmlessIff | src/cowrie/output/abuseipdb.py:254-297 | A clean-up may forget a report exactly if its pause is over for the next login, or was not over at the time the clean-up judges by |
| AbuseRuns.ReportsAreJustified | src/cowrie/output/abuseipdb.py:160-187 | In every run each report is the last of at least the required logins of that ip, all within the window |
| AbuseRuns.CountedInRuns | src/cowrie/output/abuseipdb.py:160-187 | In every run, from any state in which the ip is not reported and as long as no clean-up comes: the entry is what naive counting makes of its deque and the logins since, and nothing is reported below the threshold |
| AbuseRuns.ReportIffCountReaches | src/cowrie/output/abuseipdb.py:160-187 | And the next login is reported exactly if it makes that count reach the threshold |
| AbuseRuns.CountedAgainInRuns | src/cowrie/output/abuseipdb.py:160-187 | In every run, from any state in which the ip is reported and as long as no clean-up comes: logins until the pause is over change nothing, and from the first later one on the entry is what naive counting makes of the logins since |
| AbuseRuns.ReportAgainIffCountReaches | src/cowrie/output/abuseipdb.py:174-187 | And the next login is reported exactly if it comes after the pause and makes that count reach the threshold |
| AbuseRuns.IntolerantReportsIff | src/cowrie/output/abuseipdb.py:148-158 | Where one attempt is enough: in every run an awake login is reported exactly if its ip is not in the book or its pause is over |
| AbuseRuns.AlwaysGoesOn | src/cowrie/output/abuseipdb.py:216-304 | In every state of every run: awake, a clean-up is scheduled within 600 seconds; asleep, a wake-up call is for the time slept to |
| AbuseRuns.ThresholdStep | src/cowrie/output/abuseipdb.py:136-304 | Every login, clean-up, answer and wake-up keeps deques suffixes of the history, shorter than the threshold |
| AbuseRuns.StepSafeIff | src/cowrie/output/abuseipdb.py:218-304 | Exactly which steps keep every report remembered until its ip may be reported again, by the time, the wake-up calls, the book and whether `recall` can still be cancelled; all logins and wake-ups do |
| AbuseRuns.ReportsAreSpaced | src/cowrie/output/abuseipdb.py:148-304 | In every run of such steps two reports of an ip are more than `rereport_after` apart |
| AbuseRuns.OneSleepAtATimeIsSafe | src/cowrie/output/abuseipdb.py:473-484 | All steps of a run are such if no 429 answer comes while the plugin is asleep |
| AbuseRuns.SafeIffNothingEarlyFollows | src/cowrie/output/abuseipdb.py:148-187 | Remembering is exactly what is needed, for every number of attempts: it fails if and only if some wake-ups and logins alone can go on to a report that comes too early |
| AbuseRuns.UnsafeStepIff | src/cowrie/output/abuseipdb.py:218-304 | In every run, after safe steps: the next step is unsafe if and only if what can follow it by wake-ups and logins includes a report that comes too early |
| AbuseRuns.ShortSleepInsideALongOne | src/cowrie/output/abuseipdb.py:473-484 | A concrete run with two reports and their two 429 answers that reports an ip twice within the pause |
| AbuseIpdb.LogBook.CleanExpiredTimestamps | src/cowrie/output/abuseipdb.py:229-239 | The loop on the deque leaves what `Clean` leaves and touches no other entry |
| AbuseIpdb.LogBook.FindAndDeleteEmptyEntries | src/cowrie/output/abuseipdb.py:241-252 | Exactly the empty deques go |
| AbuseIpdb.LogBook.CancelRecall | src/cowrie/output/abuseipdb.py:279-283 | The scheduled clean-up is cancelled; a `recall` that was called or cancelled before makes it raise, a missing one is no error |
| AbuseIpdb.LogBook.CleanupAndDumpState | src/cowrie/output/abuseipdb.py:275-304 | The book becomes the cleaned-up book, judged by the waking time while asleep; in the stopping mode nothing is cleaned where cancelling raises; only the looping mode, awake, schedules the next |
| AbuseIpdb.LogBook.Tick | src/cowrie/output/abuseipdb.py:301-304 | The scheduled call is spent, cleans the book and schedules the next unless asleep |
| AbuseIpdb.LogBook.Wakeup | src/cowrie/output/abuseipdb.py:216-220 | Awake, with the next clean-up scheduled and `recall` replaced, whichever sleep the call belonged to |
| AbuseIpdb.Output.TolerantObserver | src/cowrie/output/abuseipdb.py:160-187 | The entry of the ip and the report sent are those of the model, the IndexError branch included |
| AbuseIpdb.Output.IntolerantObserver | src/cowrie/output/abuseipdb.py:148-158 | The same where every login counts |
| AbuseIpdb.Output.Write | src/cowrie/output/abuseipdb.py:136-146 | Asleep nothing happens; awake the configured observer acts |
| AbuseIpdb.Output.RateLimitHandler | src/cowrie/output/abuseipdb.py:473-484 | Sleep is entered and the wake-up scheduled before the clean-up, which uses the waking time; where `recall` was spent the clean-up is not made and the exception leaves the sleep in place |
| AbuseIpdb.Start | src/cowrie/output/abuseipdb.py:108-111 | With nothing saved: an empty book, awake, the first clean-up scheduled |
| Cname.ResolveCname | src/cowrie/core/network.py:38-77 | The search with its shared visited set answers what following every path would, and ends on cyclic aliases |
| Cname.Resolve | src/cowrie/core/network.py:38-77 | None exactly if no name down the aliases has an A record; an address returned is an A record of such a name |
| Cname.FirstAddressFound | src/cowrie/core/network.py:49-77 | Which address: the one that the first record leads to that leads to any, at every name on the way |
| Cname.FailedAgain | src/cowrie/core/network.py:49-52 | A name that was given up would be given up again from wherever it is tried: cutting it off loses nothing |
| Cname.SettledIsClosed | src/cowrie/core/network.py:38-77 | Nothing outside the names given up can be reached from them |
| Cname.NetworksAreRanges | src/cowrie/core/network.py:9-21 | The eleven blocked networks are exactly these address ranges |
| Cname.CommunicationAllowed | src/cowrie/core/network.py:81-112 | Allowed exactly if the address, or the first one its aliases lead to, is an address outside the blocked ranges |
| Auth.MakeBounds | src/cowrie/core/auth.py:147-149 | The upper bound is never below the lower one |
| Auth.SameComboIff | src/cowrie/core/auth.py:189 | Without colons in logins, two attempts count as one combination exactly if login and password are the same |
| Auth.ColonsRunTogether | src/cowrie/core/auth.py:189 | With one they can be taken for each other |
| Auth.AuthRandom.CheckLogin | src/cowrie/core/auth.py:177-265 | The in-place bookkeeping of one attempt is `Check`, branch by branch |
| Auth.InOnTheDrawnAttempt | src/cowrie/core/auth.py:191-265 | Under any interleaving and for every draw of at least one, an address without cached combinations gets in exactly on the attempt that makes its distinct combinations the number drawn |
| Auth.KeepsAlways | src/cowrie/core/auth.py:177-265 | What is kept of such an address is determined by the set of combinations it presented |
| Auth.DrawsBelowOneNeverGetIn | src/cowrie/core/auth.py:238-265 | In no run does an address whose number was drawn below one get in by an uncached attempt, however many it makes |
| Auth.CacheIsRecent | src/cowrie/core/auth.py:243-250 | The cache is always the most recent combinations admitted by count, oldest first, without duplicates, at most `maxcache` |
| Auth.CachedGetsIn | src/cowrie/core/auth.py:195-220 | In every run, a combination among the latest `maxcache` that got in by count gets in, from whatever address |
| Auth.OpenForEveryone | src/cowrie/core/auth.py:195-220 | What got in by count lets every address in right after it |
| Auth.LastLoginKept | src/cowrie/core/auth.py:199-242 | In every run the login and password kept of an address are those it last got in with, by count or from the cache |
| Auth.AfterACacheHit | src/cowrie/core/auth.py:199-242 | After a cache hit the next uncached combination gets in by count exactly if nothing was counted before |
| Pipeline.PipelinesCompose | src/cowrie/shell/honeypot.py:541-587 | A pipeline behind another is one pipeline that starts on what the first one wrote |
| Pipeline.Link.OutReceived | src/cowrie/shell/honeypot.py:541-561 | Data goes to the next stage's stdin, else to the terminal, else aside, and nowhere else |
| Pipeline.Link.WriteAll | src/cowrie/shell/honeypot.py:541-561 | All writes of a stage arrive concatenated; a stage that never writes leaves stdin unset |
| Pipeline.Link.InsertCommand | src/cowrie/shell/honeypot.py:563-568 | What was a chain is one with the command second |
| Pipeline.InsertedRunsSecond | src/cowrie/shell/honeypot.py:563-587 | Running that chain runs the command once, on what the first stage wrote, and the rest on what the command wrote |
| Pipeline.Link.OutConnectionLost | src/cowrie/shell/honeypot.py:578-587 | The rest of the chain runs once, on what this stage wrote |
| Pipeline.Shell.CallCommand | src/cowrie/shell/protocol.py:197-205 | Running the first stage of a linked chain is composing all stages, and only the last one's output is seen |
| Pipeline.SplitAtPipes | src/cowrie/shell/honeypot.py:287-296 | Splitting at `|` loses nothing |
| Pipeline.SplitUnique | src/cowrie/shell/honeypot.py:287-296 | And there is only one way to do it |
| Pipeline.LineRunner.BuildChain | src/cowrie/shell/honeypot.py:310-374 | The chain built from right to left links the stages in order; the rightmost unknown command is reported |
| Pipeline.LineRunner.ParseStages | src/cowrie/shell/honeypot.py:287-308 | Names and arguments put together again are the words; an empty stage is the IndexError case |
| Pipeline.LineRunner.RunLine | src/cowrie/shell/honeypot.py:266-376 | A line with all commands known runs them once each, left to right, composed; otherwise nothing runs |
| TtyLog.UnpackPack | src/cowrie/core/ttylog.py:15-29 | The 24-byte header with its signed fields reads back |
| TtyLog.HeaderLayout | src/cowrie/core/ttylog.py:15-29 | The header in the file: six numbers of four bytes, lowest byte first, negative ones as two's complement |
| TtyLog.RecordsSay | src/cowrie/core/ttylog.py:20-58 | Op, length, direction, data and stamp of the record of each call |
| TtyLog.LogFile.TtylogWrite | src/cowrie/core/ttylog.py:32-47 | A write appends one record; a field that does not fit leaves the file alone |
| TtyLog.ReaderRecovers | src/cowrie/core/ttylog.py:20-86 | Readers get back exactly the records of the open, write and close calls |
| TtyLog.InputHash | src/cowrie/core/ttylog.py:62-92 | What is hashed is the data of all records that are not output, in order |
| TtyLog.HashedIsInput | src/cowrie/core/ttylog.py:62-92 | For a written log that is the data of the writes that were not output |
| TtyLog.TruncatedInput | src/cowrie/core/ttylog.py:74-90 | Of any truncated file the input bytes are a prefix of those of the whole |
| Players.Playlog | src/cowrie/scripts/playlog.py:16-71 | The loop over the file plays the parsed records one by one |
| Players.PlaylogShowsAllIff | src/cowrie/scripts/playlog.py:24-71 | Exactly when playing in both directions comes to its end: it never sleeps, or no write before the first close is stamped earlier than the write before it. Then the output is all that was written before the first close, each write in the colour of its direction if colours are asked for, and it has slept for the times between, at most `maxdelay` each |
| Players.PlaylogShowsOneDirection | src/cowrie/scripts/playlog.py:36-62 | By default the same of the writes in the direction of the first one, and with `-i` of those in the other |
| Players.FirstTtySettles | src/cowrie/scripts/playlog.py:38-41 | A player settles on the first terminal whose number is not 0, and plays what came before it and nothing of any other after |
| Players.ClockGoingBackRaises | src/cowrie/scripts/playlog.py:53-59 | On every written log in which a write before the first close is stamped earlier than the one before it, a sleeping player raises |
| Players.MakeCast | src/cowrie/scripts/asciinema.py:39-83 | The duration of a cast is the sum of its frame delays, on any file |
| Players.CastOfLog | src/cowrie/scripts/asciinema.py:39-83 | Of a stamped log: one frame per replayed write with its data and the time since the one before, and a duration from the first to the last |
| Players.ReplayedIsInDirection | src/cowrie/scripts/asciinema.py:55-58 | The writes replayed are those before the first close in the direction of the first of them |
| Players.CrlfMeaning | src/cowrie/scripts/asciinema.py:66 | A carriage return comes before every newline, and nothing else changes |
| Players.DelaysTelescope | src/cowrie/scripts/asciinema.py:59-75 | Delays between stamped writes add up to the time between the first and the last |
| Tail.LinesCut | src/cowrie/core/utils.py:64 | Lines are the bytes cut after every newline, only the last may lack one |
| Tail.BeforeDoesNotMatter | src/cowrie/core/utils.py:59-65 | What comes before more than n lines does not matter to the last n |
| Tail.TailScan | src/cowrie/core/utils.py:55-63 | The scan reads as few whole blocks from the end as hold more newlines than lines are wanted, or all of the file, over-read block or not |
| Tail.TailOf | src/cowrie/core/utils.py:51-65 | The lines at the end of the whole file, as many as asked for or all; for zero, all lines of the last blocks up to the first with a newline |

## Left out

- The adaptive managers and their database: `enabled` is false throughout, so attribute access is plain.
- File contents, setting `A_REALFILE`, `resolve_path_wc`, `utime`, `readlink`, `stat`, the SFTP descriptor table, and
  the commands that edit directory lists themselves.
- Fs.HoneyPotFilesystem.MkDir: after a second entry of a taken name the tree is no longer described; the contract
  says only that the directory then holds the name twice. The same for `MkDir2` and `Rename`.
- Fs.HoneyPotFilesystem.MkDir2: as for `MkDir`.
- Fs.HoneyPotFilesystem.Rename: where an entry equal to the node was taken out in its place, the contract says what
  left the tree and how the node was renamed, and stops before the node is hung in at a second place.
- FlatOps.ApplyKeepsInv: nothing is said after a second entry of a name, or after an equal entry was taken out;
  `Duplicate` and `Twin` end a run.
- Fs.HoneyPotFilesystem.GetFile: link targets are not empty (the program would raise IndexError), and the walk is
  assumed to end; `FlatLinks` says when it does.
- Fs.HoneyPotFilesystem.GetPath: the same.
- Fs.HoneyPotFilesystem.PathExists: the same.
- Fs.HoneyPotFilesystem.EnterByName: the step is assumed to end, and names to be unique in a directory, as they are
  until `Duplicate`.
- Fs.HoneyPotFilesystem.EnterFirst: the same.
- FlatLaws.RenameMeaning: paths are normalised with no link on the way or at the end; `RenameThroughLinks` is about
  all normalised paths, and other paths are covered by the refinement to `RenameOp` alone.
- Restarting the pool, and what stopping it does but closing the listeners: runs of the protocol end before the first
  request that stops the pool, and before the first restart.
- PoolService.PoolService.RequestVm: selection and update are one step, where the program locks them separately; the
  stopping of the pool is the outcome `NoAvailableVMs(true)`, on which `PoolServer` closes the listeners. That qemu
  destroys the guests and the producer is not called again is left out.
- PoolService.PoolService.DestroyTimedOut: whether qemu destroys a guest is an arbitrary answer; the libvirt
  backend swallows its errors, so there the answer is always yes.
- PoolModel.Reused: a guest that remembers no previous state gets `NoState` for Python's None; no run with lease
  discipline gets there.
- What `has_connectivity` means: an arbitrary answer per ip.
- Random drawing of MAC addresses: any set of them.
- PoolServer.PoolServer.DataReceived: strings are ASCII on the wire; a string that is not raises.
- AbuseIpdb.Start: nothing was saved before. Saving and loading of the AbuseIPDB state and of AuthRandom's file are
  left out: runs are those of one process.
- HTTP: a report is in flight until an answer to it comes; one with a Retry-After above 86340 seconds only repeats
  the request and changes no state. A negative Retry-After, for which `callLater` raises, is left out.
- Cname.ResolveCname: names are compared as strings, where the program's visited set holds the first name as str and
  the others as dns.Name; answers do not change during a search, in which each name is
  looked up at most once. A AAAA record raises, as in the program, and ends the records of its name.
- Rendering and parsing of ip addresses: a function from strings to addresses.
- AuthRandom's `str` of bytes: logins and passwords are taken as the strings they are rendered to.
- Pipeline.Shell.CallCommand: commands finish synchronously and write to stdout only; stages that insert a command
  while they run (`InsertCommand` is called between runs), redirection to files inside a command, stderr, prompts,
  `;` lists and command substitution are not modelled.
- Players.Playlog: the option that keeps waiting for more of the file.
- SHA-256, UTF-8 and JSON: the hash is any function, whether data decodes is any predicate, the dump is left out.
- TtyLog.LogFile.TtylogWrite: stamps are whole microseconds and the length passed is that of the data.
- User databases, number formatters, help texts, the other output plugins and the individual commands.
