# Verification of the provisioning state machine

This Dafny 4.11 project models the shared state of the netboot provisioner and proves what its steps keep. The state is
the client file, the published client index, the machine inventory, the files generated from it, and the cluster map.
The steps are repopulation, registration, the install callback, DHCP messages, and the background validation of clusters.
`dafny verify dfyconfig.toml` checks everything.

## How it is organised

| file | content |
|---|---|
| `Text.dfy`, `Orders.dfy`, `Csv.dfy` | the MAC-to-id rewrite, splitting, lines; orders of a key set; reading a row and printing a registration |
| `Templates.dfy` | machine records, generated paths, both boot-menu templates as functions to menu entries, seeds, URLs |
| `InventorySteps.dfy` | the inventory and its files as a machine with three atomic steps; theorems over every interleaving of them |
| `Inventory.dfy` | the same on the heap: machine objects shared by two maps and flagged in place |
| `Population.dfy` | one pass over the rows as folds: index, inventory, files, cluster groups, and the laws relating them |
| `World.dfy`, `FileData.dfy` | serialised runs of registrations, repopulations, callbacks and edits, and which of them the process survives; the worker object that refines them |
| `Publication.dfy` | the same operations cut into check, append, open, reset, scan-row, publish, with any number under way at once |
| `Serial.dfy` | those steps taken without interruption come to the serialised operations |
| `Versions.dfy` | which version of the file a concurrent run has published, and when the file stays distinct |
| `Agreement.dfy` | when a callback is accepted in a concurrent run, and when inventory and index agree |
| `Races.dfy` | concrete concurrent runs in which those conditions fail |
| `Clusters.dfy`, `KubeClient.dfy` | the cluster map over runs; the registry of shared cluster objects that refines it |
| `Validation.dfy` | every interleaving of one validation loop with the token fetches it spawns |
| `Overlap.dfy` | any number of validation loops at once, with write-backs and status queries in between |
| `Process.dfy` | the whole process: file side and background validation together, and what ends it |
| `Ansible.dfy` | finding credentials in playbook results |
| `ControlPlane.dfy` | reading a Kubernetes node, choosing the node to join, and how far the playbook handler gets |
| `Dhcp.dfy` | answering a message; conversations between repopulations; from a line of the file to the reply |

Pure functions say what a step does. The methods of the classes are proved equal to them. The theorems are about the
functions, so they hold of the methods. Loops over Go maps are loops over a set in an arbitrary order. Calls into code
outside the repository are parameters: JSON decoding, address parsing, the Kubernetes query, the playbook result.
Automatic induction is switched off in the lemmas cited below and wherever Dafny would otherwise try it.

## Where the code does less than its documentation says

Each of these is a theorem below, which says when the expected behaviour holds and when it does not.

- **Registration does not take effect, and stops the worker**, unless the request itself carries three commas. The handler
  appends four fields and the reader needs seven, so the repopulation that follows aborts before it publishes. The HTTP
  server recovers that panic. The watcher and process start do not, and the append itself wakes the watcher, so the
  process ends there and does not start again until the file is edited. Before the watcher runs, the index stays as it was
  and the same request is accepted again (`World.PrintedRegistrationFreezes`, `World.PrintedRegistrationEndsTheProcess`,
  `World.PrintedAcceptedTwice`). The requested MAC is served exactly when the address field carries a whole row of it
  (`World.PrintedServedIff`). An edit takes effect whatever came before (`World.EditTakesEffect`). The theorems about
  distinct addresses are stated for the seven-field line that the header and the sample rows call for.
- **Two things end the process.** One is a short line met by the watcher or at start. The other is a background token fetch
  that meets unparseable output, or finds credentials while a cluster with an entry fails to answer. A run of the modelled
  events survives exactly without these (`Process.SurvivesIff`, `World.ReadableIff`), and a perfectly good file does not
  help against the second (`Process.FailingQueryEnds`).
- **Repopulating forgets finished installs.** Readme.md promises local boot after the callback. Any later repopulation,
  even from an unchanged file, restores the installer entry (`Population.RepopulateForgetsCallbacks`).
- **Disk can disagree with memory.** MACs that differ only in `:` and `-` share their files
  (`InventorySteps.DiskAgreesIff`, `Population.CallbacksDiskAgreesIff`, `Population.CollidingRowsDisagree`).
- **A callback during a repopulation can be refused.** It is accepted exactly when some scan has read its row since a scan
  last began, indexed or not (`Agreement.CallbackAcceptedIff`, `Races.InventorySeenHalfBuilt`).
- **Inventory and index can disagree for good.** Rows that an overlapping scan reads from a replaced file stay in the
  inventory after everything has finished (`Agreement.AgreementIff`, `Agreement.LoneScanAgrees`,
  `Agreement.AbortedAgreementIff`, `Races.DisagreementLasts`).
- **A slow scan can publish an old version over a newer one**, exactly when the file changed between what the two scans
  read (`PublishedVersions.GoesBackIff`, `Races.OldVersionPublishedLast`).
- **Two registrations at once can take one address**, exactly when one of them is no longer new to the file as it
  appends (`PublishedVersions.DistinctIffAppendsWereNew`, `Races.UncoordinatedRegistrationsCollide`).
- **Stale cluster entries.** A cluster that loses its master keeps its old entry. If its old nodes are still listed
  elsewhere, their credentials go to two entries (`Clusters.AtMostOneReceiverIff`, `Clusters.StaleEntryReceivesToo`).
  A validation can erase what it has just fetched (`Validation.NothingLostIff`, `Validation.MovedWorkerLoses`).
- **An older validation can override a newer one**, since each repopulation starts a loop of its own
  (`Overlap.FollowsFileIff`, `Overlap.SerialLoopsFollowFile`, `Overlap.OlderLoopOverrides`).
- **Unlooked-at failures.** Playbook output that does not parse, a cluster map that does not exist yet, and a failed cluster
  query each crash a token fetch (`KubeClient.Registry.FetchToken`); the HTTP server recovers that for its own fetches
  only. The playbook handler uses a missing client before it checks for one (`ControlPlane.PrepareAnsible`).
- **Distinct address columns are not distinct addresses**, since every column that does not parse yields none
  (`Dhcp.NoSharedAddressIff`).

## Model

| member | source | states |
|---|---|---|
| Text.IDCollision | internal/inventory/inventory.go:103 | two MACs get the same id exactly when they agree up to swapping `:` and `-` at single positions |
| Text.IDShape | internal/inventory/inventory.go:103 | the rewrite keeps the length, is idempotent, and changes nothing exactly on MACs without `:` |
| Text.IDInjective | internal/inventory/inventory.go:103 | MACs without `-` and with equal ids are equal |
| Text.JoinOfSplit | internal/db/file.go:167 | joining the fields of a line gives the line back |
| Text.SplitOfJoin | internal/db/file.go:167 | splitting a joined list gives the list back exactly when no field holds the separator |
| Text.AppendAddsLineIff | internal/db/file.go:98-150 | appending a line to the file adds exactly that data line, after unchanged earlier ones, if and only if the file ended in a newline |
| Csv.PrintThenParse | internal/db/file.go:166-178 | a printed seven-field row reads back as itself exactly when its fields are comma-free and its cluster is not empty (an empty one reads as `unclaimed`) |
| Csv.ScanRowsConcat | internal/db/file.go:163-178 | scanning continues across readable lines, one row a line |
| Csv.RegistrationWidth | internal/db/file.go:98 | the printed registration line is wide enough for the reader exactly when the request itself carries at least three commas |
| Csv.PaddedLine | internal/db/file.go:98 | the line padded with three commas reads as the unclaimed row of the request |
| Csv.ColumnsInOrder | inputs/clients.csv:1 | a seven-field line is read into the columns that the header names, in that order, an empty cluster as `unclaimed` |
| Templates.PathsFollowLayout | Readme.md:77-99 | every generated file lies where the asset layout puts it, named after the id |
| Templates.RecordShowsRow | internal/inventory/inventory.go:105-112 | the record keeps address, cluster, template and role of its row, has the id of its MAC, the OS if it is a known one, and is not installed |
| Templates.PathInjective | internal/inventory/inventory.go:176-181 | generated paths of different kinds or ids never coincide: boot, seed and kubeconfig files |
| Templates.RenderingTotalIff | templates/grub.tmpl:20-44 | both templates go through on a fresh record exactly when the stored variant has the fields its OS type selects |
| Templates.MenusDetermine | templates/main.tmpl:13-31 | for one id, equal BIOS files mean equal OS types, and equal EFI files mean equal OS types and equal installed flags, and conversely |
| Templates.FirmwaresAgreeOnImages | templates/main.tmpl:13-31 | BIOS and EFI menus of a fresh machine boot the same kernel and ramdisk, both from the image directory of its OS, and none exactly for an unknown OS |
| Templates.ImagesProvided | Readme.md:96-99 | kernel and ramdisk are the two files that the asset layout provides for the OS, the title names its release, the ISO is the live-server one, no address is set, and an unknown OS has none of these |
| Templates.EntriesShowMachine | templates/grub.tmpl:20-50 | in the EFI and BIOS entries of a machine to be installed each field (name, id, kernel, ISO, data source, kickstart, repository, stage 2, preseed, ip, ramdisk) is the record's field of that name, so the firmwares agree on every field they share; the second EFI entry exits to disk |
| Templates.MirrorsServed | internal/inventory/inventory.go:114-140 | the ISO URL is served from the ubuntu ISO directory, repository and stage 2 from the centos mirror, the one being the other with a slash |
| Templates.DefaultEntry | templates/grub.tmpl:1-20 | entry 0 is the local chainload for the machine's id exactly for an installed machine, with the loader of its OS when that is known and none otherwise |
| Templates.URLServesSeed | internal/http/server.go:313-316 | the install URL in a fresh machine's BIOS and EFI menus is the same, and the static file server maps it to the path of the machine's seed |
| Templates.SeedFields | internal/inventory/debian.go:83-220 | a seed is named after its OS, makes the user of that name, and carries the key, MAC and callback host it was made for |
| Templates.SeedCallsBack | templates/debian.tmpl:54 | the callback URL of a seed is the provisioner's callback with the MAC the seed was made for |
| InventorySteps.RunWellFormed | internal/inventory/inventory.go:97-166 | over every interleaving each machine has its own id and the OS data its OS type calls for, and is flagged exactly when both maps share its object |
| InventorySteps.RenderingNeverFails | internal/inventory/inventory.go:114-157 | over every interleaving the OS data variant matches the OS type, both templates render, and no file with an aborted template is ever written |
| InventorySteps.InstalledIffCalledBack | internal/inventory/inventory.go:77-94 | over every interleaving a machine is flagged, and shared by both maps, exactly when a callback followed its last generation |
| InventorySteps.InstalledKeys | internal/inventory/inventory.go:77-94 | the installed map holds exactly the MACs called back since the last reset, and an entry is no longer the live object exactly when the machine was generated again afterwards |
| InventorySteps.DiskShowsLastWriter | internal/inventory/inventory.go:168-200 | both boot files of a machine always hold the rendering of the current object of whichever inventory MAC wrote that id last |
| InventorySteps.DiskAgreesIff | internal/inventory/inventory.go:77-200 | disk agrees with memory exactly when every machine has the OS type and flag of the last writer of its id |
| InventorySteps.DiskAgreesWithoutCollisions | internal/inventory/inventory.go:77-200 | disk agrees with memory after every interleaving when ids are distinct, in particular for MACs without `-` |
| InventorySteps.CallbackChangesOneFile | internal/inventory/inventory.go:77-94 | a callback changes no file but the two boot files of its id, and only the EFI file exactly when the last writer of the id has the same OS type |
| InventorySteps.SeedsReady | internal/inventory/debian.go:77-220 | every machine with a known OS has a seed (and, for ubuntu, meta-data) at its path, naming an inventory MAC with the same id |
| InventorySteps.SeedLetsFetchesIn | internal/inventory/debian.go:83-220 | over every interleaving the seed of each machine with a known OS carries the store's key, the OS as its user, and the host name of the OS |
| InventorySteps.ChainCloses | internal/http/server.go:112-129 | after every interleaving, the install URL in a machine's EFI file leads to an existing seed whose callback, unless its MAC is empty, is accepted and makes entry 0 of that same file the local chainload; the install URL in its BIOS file leads to an existing seed that names an inventory MAC with the same id |
| InventorySteps.ChainIsOwn | internal/inventory/inventory.go:114-157 | with distinct ids both boot files lead to the machine's own seed |
| InventorySteps.LocalBootIffCalledBack | templates/grub.tmpl:1-20 | with distinct ids the default EFI entry on disk is the local chainload exactly when the machine called back after it was last generated |
| Inventory.Store.Init | internal/inventory/inventory.go:202-210 | clears both maps and leaves the files |
| Inventory.Store.ReadSSHKey | internal/inventory/debian.go:54-74 | the key stored for the MAC is the last line of the key file, nothing when the file is missing |
| Inventory.Store.GenSeed | internal/inventory/debian.go:77-220 | writes exactly the seed files of the row; the seed carries the key read, the OS as user and in the host name, the MAC and the callback host |
| Inventory.LastKeyIsLastLine | internal/inventory/debian.go:54-74 | the key is the last line of the key file, whether or not it ends in a newline, and empty without a file |
| Inventory.Store.Generate | internal/inventory/inventory.go:97-166 | a new object with the columns of the row and its files replaces the entry of its MAC in the machine map only; the heap performs the Generate step |
| Inventory.Store.LogInstalledMachine | internal/inventory/inventory.go:77-94 | refuses an unknown MAC without effect; otherwise flags the object in place, shares it with the installed map and rewrites its boot files |
| Inventory.Store.HandleCallback | internal/http/server.go:112-129 | ignores an empty MAC, refuses an unknown one, otherwise performs the callback |
| Population.IndexIsLastWins | internal/db/file.go:190-198 | the index holds, for each MAC of the file, the client of its last row, and no other MAC |
| Population.InventoryMatchesIndex | internal/db/file.go:180-198 | after a pass inventory and index have the same keys, each client holds a copy of the machine record, and no machine is installed |
| Population.IndexAgreesWithInventory | internal/db/file.go:190-196 | after a pass and any callbacks, client and machine agree on every shared field except the flag; the OS columns differ exactly for an unknown OS; the flag is set exactly for the MACs called back |
| Population.InventoryShowsRow | internal/inventory/inventory.go:97-166 | after a pass and any callbacks a machine shows the columns of the last row of its MAC, the flag aside |
| Population.SeedUserIsFetchUser | internal/db/file.go:231-239 | then the user in the seed of a machine is the name its cluster's fetch logs in with, and has the store's key |
| Population.InstalledMapIsFlagged | internal/inventory/inventory.go:77-94 | after a pass and any callbacks, the keys of the installed map are exactly the flagged machines and alias their objects |
| Population.PassFiles | internal/db/file.go:163-213 | a pass leaves the old disk overlaid with files that depend on the rows and key only |
| Population.RepopulateForgetsCallbacks | internal/inventory/inventory.go:202-210 | a pass, any callbacks, and a second pass over the same rows end in the inventory and disk of the first pass; without callbacks, a second pass changes nothing |
| Population.PassDiskAgreesIff | internal/inventory/inventory.go:155-162 | after a pass disk agrees with memory exactly when the last row of each MAC and the last row of its id ask for the same operating system |
| Population.CallbacksDiskAgreesIff | internal/inventory/inventory.go:77-94 | after a pass and any callbacks, disk agrees with memory exactly when each MAC has the operating system of the row that its boot files were last written for, by an accepted callback or else by the pass, and both or neither of the two MACs called back |
| Population.CollidingRowsDisagree | internal/inventory/inventory.go:176-181 | two rows whose MACs differ in a separator only leave disk and memory in disagreement |
| Population.GroupIsFilter | internal/db/file.go:200-211 | the group of a cluster is the nodes of its rows in file order; a group exists exactly when a row names the cluster |
| Population.NodeIsRow | internal/db/file.go:200-238 | every fetch of a group goes to the address, with the OS name and for the MAC of one row of that cluster |
| Population.GroupingConserves | internal/db/file.go:156-213 | in any order of the clusters the groups together are a permutation of the rows |
| Population.ClientClusterIsItsGroup | internal/db/file.go:270 | the cluster a client reports is a group listing its MAC, and with distinct MACs the only one |
| World.ReplyMeans | internal/http/server.go:69-90 | an OS other than the three is refused first, then an indexed MAC, then an address that some client is offered, each without effect; otherwise exactly the line is appended and the file scanned, and the index changes exactly if all of it is readable |
| World.SurvivesIff | cmd/worker/main.go:43-72 | a run of registrations, repopulations, callbacks and edits alone, background fetches left aside, is survived exactly when no scan by the watcher meets a line with fewer than seven fields |
| World.ReadableIff | internal/db/file.go:73-174 | whether the next scan gets through, read off the events: it does exactly when the file was put in place without a short line and every registration accepted since carried three commas |
| World.EditTakesEffect | cmd/worker/main.go:51-53 | an edit and the watcher's repopulation end in the index and inventory of the new text, whatever was there before; the process survives that exactly when every line of it is readable |
| World.RunFollows | internal/db/file.go:113-253 | the inventory after any surviving run of registrations, repopulations, callbacks and edits is that of the inventory machine after these events' own steps: a reset and the rows read for each repopulation, aborted ones included, and the callbacks |
| World.FlaggedIff | internal/inventory/inventory.go:77-94 | over every surviving run from process start, a machine is flagged, and shared by both maps, exactly when it was called back since the last repopulation |
| World.DiskAgreesOverRuns | internal/inventory/inventory.go:77-200 | from a process with nothing in memory, after every surviving run the provisioning chain is closed for every machine, and disk agrees with memory when the MACs in the inventory have no `-` |
| World.PostKeepsSynced | internal/http/server.go:69-90 | a seven-field registration is accepted exactly when its OS is valid and no row has its MAC or address; then exactly its row is appended and served |
| World.PaddedAppendGoodIff | internal/db/file.go:73-111 | a seven-field line keeps a distinct readable file so exactly when its MAC and its address are new to the file |
| World.DistinctOverRuns | internal/db/file.go:73-111 | from a distinct file, every run of seven-field registrations, repopulations, callbacks and promptly reloaded distinct edits survives, keeps MACs and addresses distinct, loses no row but by an edit, and the index offers no address twice |
| World.PrintedReadableIff | internal/db/file.go:98-174 | after a registration as printed the file is readable exactly when it was before and the request carried three commas |
| World.PrintedRegistrationFreezes | internal/db/file.go:98-174 | an accepted registration as printed with fewer than three commas aborts its repopulation; after any further registrations and callbacks the process lives on with the index it had and accepts the same request again, while the next repopulation by the watcher and every process start from that file ends the process |
| World.PrintedServedIff | internal/db/file.go:73-198 | an accepted registration as printed into a published readable file is served exactly when its address has at least four comma-separated pieces, the second being its MAC; then the first piece is offered |
| World.PrintedRegistrationEndsTheProcess | cmd/worker/main.go:43-72 | every run that reaches the watcher after such a registration and before an edit ends there |
| World.PrintedAcceptedTwice | internal/http/server.go:76-90 | before the watcher runs, with only callbacks in between, the same request as printed is accepted twice and is on file twice |
| FileData.Worker.Populate | internal/db/file.go:113-253 | the scan loop yields the folds over the rows before the first short line, publishes the index only when there is none, and hands on the cluster groups |
| FileData.Worker.IPExists | internal/db/file.go:82-87 | true exactly when some client of the index is offered the address, in any map order |
| FileData.Worker.AddItemToFile | internal/db/file.go:73-111 | appends and repopulates exactly when MAC and address are new to the index; otherwise changes nothing |
| FileData.Worker.HandlePipeline | internal/http/server.go:52-110 | the POST branch performs the registration of the model and gives its reply |
| FileData.Worker.Watch | cmd/worker/main.go:43-72 | the watcher and process start repopulate as the model says and survive exactly a file without short lines |
| FileData.Worker.HandleCallback | internal/http/server.go:112-129 | the callback changes the inventory side only, as the model says |
| Publication.PublishedIndexIsComplete | internal/db/file.go:248-260 | in every interleaving of checks, appends, scans, aborts, publications, callbacks and file replacements, the published index is the complete index of a version the file went through |
| Publication.InventoryFollowsSteps | internal/db/file.go:153-198 | the inventory of any concurrent run is a run of the inventory machine, so the theorems over its interleavings apply |
| Publication.ChainClosesConcurrently | internal/http/server.go:112-129 | the provisioning chain is closed for every machine in the inventory at every moment of every concurrent run |
| Publication.OnlyRegistrationsAbort | internal/db/file.go:113-174 | a scan that aborts in a living process is that of a registration which has appended its line and not been published, aborted or replaced by a watcher's scan since |
| Serial.PassIsPopulate | internal/db/file.go:113-253 | an undisturbed repopulation in its atomic steps publishes the index of the whole current file and leaves the inventory of one pass over it |
| Serial.StepsArePost | internal/db/file.go:73-111 | an undisturbed registration in its atomic steps is refused exactly where the handler refuses it, and otherwise ends in the same file, index and inventory |
| PublishedVersions.VersionsAreChanges | internal/db/file.go:73-111 | versions of the file are counted by its changes; the last version of a file is the one before it was replaced |
| PublishedVersions.ShownVersion | internal/db/file.go:248-252 | in every interleaving the published version is the startup's before any publication, and afterwards the one the path showed when the last publisher's scan ended, or when the file it reads was replaced if that came first |
| PublishedVersions.ShownIsNewestIff | internal/db/file.go:248-252 | the published index is that of the newest version exactly when the file did not change after that point |
| PublishedVersions.GoesBackIff | internal/db/file.go:248-252 | a publication returns to an older version exactly when the file changed between the point its own scan followed the file to and that of the previous publisher's |
| PublishedVersions.DistinctIffAppendsWereNew | internal/db/file.go:73-111 | in every interleaving the file is distinct exactly when it was put in place distinct and each append since then met a file without its MAC and address |
| Agreement.CallbackAcceptedIff | internal/inventory/inventory.go:77-94 | in every interleaving a callback is accepted exactly when its MAC is not empty and some scan has read a row of it since a scan last began |
| Agreement.AgreementIff | internal/db/file.go:153-252 | in every interleaving inventory and index have the same MACs exactly when the MACs that the scan that began last has read, and those that others have read since, are together those of the published version; when that scan is through and its version is published, exactly when the others read no MAC outside it |
| Agreement.AbortedAgreementIff | internal/db/file.go:153-252 | if the last scan to begin aborted, exactly when the part of the file it had read and what others read since are those of the published version; only that part if it began alone |
| Agreement.LoneScanAgrees | internal/db/file.go:153-252 | if the last scan to begin found no other scan open and published last, inventory and index have the same MACs from then on |
| Agreement.LoneScanShowsPrefix | internal/db/file.go:153-198 | while such a scan is open the inventory has exactly the MACs of the part of the file it has read |
| Races.InventorySeenHalfBuilt | internal/inventory/inventory.go:202-210 | a run in which the inventory matches no version of the file and the callback of an indexed machine is refused |
| Races.DisagreementLasts | internal/db/file.go:153-252 | a run at whose end no process is under way and the watcher has rescanned after every change, while the inventory matches no version of the file and lists a machine that the index does not |
| Races.UncoordinatedRegistrationsCollide | internal/http/server.go:76-90 | two registrations that both check before either appends give one address to two MACs |
| Races.OldVersionPublishedLast | internal/db/file.go:248-252 | a run in which a registered and served client disappears because an older scan publishes last |
| Clusters.LastMasterIff | internal/kubernetes/kubernetes.go:82-93 | the master that names the kubeconfig exists exactly when some node is a master, and is the last one |
| Clusters.InitClusterMeans | internal/kubernetes/kubernetes.go:82-93 | without a master nothing changes; otherwise the entry of the id is new, lists the nodes, names its kubeconfig after the last master, and has no credentials and no report |
| Clusters.InitOrderIrrelevant | internal/db/file.go:220-224 | initialising all groups gives the same map in every order: old entries overlaid with one for each group that has a master |
| Clusters.ClusterEntries | internal/kubernetes/kubernetes.go:65-95 | over every run of repopulations, write-backs and queries, each initialisation loop done before the next event, the map holds exactly the ids that ever had a master, with the nodes of the last repopulation that gave them one and a kubeconfig named after the last master among those nodes; overlapping loops are the subject of Overlap |
| Clusters.EntryReport | internal/kubernetes/kubernetes.go:102-124 | over every such run an entry holds exactly the readiness and report last observed since it was made, at first not ready and none |
| Clusters.WriteBackTargets | internal/ansible/ansible.go:149-161 | a write-back changes exactly the claimed clusters that list the node, and in them the credentials only |
| Clusters.AtMostOneReceiverIff | internal/ansible/ansible.go:149-161 | with distinct MACs in the file no node's credentials go to two clusters exactly when no node of a stale entry is in a claimed cluster with a master or in another stale entry; in particular when no entry is stale |
| Clusters.StaleEntryReceivesToo | internal/kubernetes/kubernetes.go:82-93 | distinct MACs alone do not suffice: after two repopulations two clusters receive the credentials of one node |
| Clusters.WriteBacksCommuteIff | internal/ansible/ansible.go:149-161 | two write-backs commute exactly when their credentials are equal or no claimed cluster lists both nodes |
| KubeClient.Registry.InitCluster | internal/kubernetes/kubernetes.go:65-95 | the loop over the nodes leaves one fresh entry for the last master, or the map as it was |
| KubeClient.Registry.InitClusters | internal/db/file.go:218-224 | the validation loop adds exactly one fresh entry for each group with a master, whatever the map order, and creates the map exactly if there is a group |
| KubeClient.RefreshedMeans | internal/kubernetes/kubernetes.go:105-121 | a query makes an entry ready exactly when its kubeconfig can be used, stores the report exactly if there is one, and changes nothing else |
| KubeClient.Registry.GetClusters | internal/kubernetes/kubernetes.go:102-124 | panics exactly when there is no map yet, and gives a result exactly when every cluster whose kubeconfig can be used answers; then each entry is ready exactly when it can be used, and holds the report of its query, or its old one if it cannot; credentials stay, and after a failure each entry is refreshed or untouched |
| KubeClient.Registry.WriteBack | internal/ansible/ansible.go:152-161 | the nested loops over shared cluster objects perform the write-back |
| KubeClient.Registry.StoreCreds | internal/ansible/ansible.go:152-161 | the claimed clusters that list the node, and no others, take the token as token and the server as endpoint |
| KubeClient.Registry.FetchToken | internal/ansible/ansible.go:137-164 | fails exactly when the playbook does or no credentials are found; crashes exactly when its output does not parse, or there are credentials and either no cluster map or a cluster query that fails; otherwise refreshes the map and stores, as token and endpoint of the claimed clusters that list the node, token and server of a record decoded from a host of the earliest task with one |
| Validation.OwnCredentialsStay | internal/db/file.go:218-245 | in every interleaving, from any cluster map, once a node of a claimed cluster with a master was fetched, its entry lists its group and holds from then on the credentials that a write of this run fetched from a node it lists; with disjoint groups, fetched for this cluster |
| Validation.DistinctRowsDisjoint | internal/db/file.go:200-211 | distinct MACs in the file put every node in one group |
| Validation.FetchesEndOnce | internal/db/file.go:225-241 | every fetch is for a node of a cluster initialised before, and ends once |
| Validation.NothingLostIff | internal/db/file.go:218-245 | no interleaving erases credentials fetched by the same validation exactly when no entry about to be re-initialised lists a node of a different group; always so for an empty cluster map |
| Validation.UndisturbedIff | internal/db/file.go:218-245 | that condition read off the file versions: no node of a cluster that had and has a master moved to another cluster |
| Validation.MovedWorkerLoses | internal/db/file.go:218-245 | two distinct file versions that violate it, and so an interleaving that erases fetched credentials |
| Overlap.EntriesOverlapped | internal/db/file.go:218-245 | over every run of overlapping validation loops, write-backs and queries the map holds exactly the ids that some loop initialised with a master, each with the group of the last such initialisation and a kubeconfig named after the last master of that very group |
| Overlap.CredentialsOverlapped | internal/ansible/ansible.go:149-161 | in every such run an entry carries exactly the credentials last written, since it was made, for a node it lists, and none if there were none |
| Overlap.FollowsFileIff | internal/db/file.go:218-245 | in every run of overlapping loops an entry lists the nodes of the last repopulation that gave its cluster a master exactly when it was last made by the newest loop with a master for it, or by one with the same group; a missing entry is right exactly when no loop had one |
| Overlap.SerialLoopsFollowFile | internal/db/file.go:218-245 | this holds for every cluster when each loop starts after the others are done |
| Overlap.OlderLoopOverrides | internal/db/file.go:218-245 | two loops that overlap and both finish leave the entry with the node of the older file |
| Process.SurvivesIff | internal/db/file.go:218-245 | a process started from a file outlives a run of file events, initialisations, background fetches and requests exactly when the file is readable, no scan by the watcher meets a short line, and no background fetch meets unparseable output or finds credentials while some cluster, whose entry's last maker names a usable kubeconfig, fails to answer |
| Process.FailingQueryEnds | internal/ansible/ansible.go:142-152 | from every readable file with a cluster that has a master, one fetch that finds credentials while no cluster answers ends the process |
| Process.FileSideRuns | cmd/worker/main.go:43-72 | the file side of every surviving run is a run of registrations, repopulations, callbacks and edits alone |
| Process.ClusterSideRuns | internal/db/file.go:218-245 | its cluster side is a run of overlapping validation loops, one for each complete scan, and every background fetch finds a cluster map |
| Process.LoopPerScan | internal/db/file.go:218-224 | exactly a scan that gets through starts a loop, over the groups of the file it read |
| Process.FetchesEndOnce | internal/db/file.go:225-241 | a background fetch that can still end has not ended before |
| Process.FetchStores | internal/ansible/ansible.go:150-161 | what a background fetch leaves in the map is what the contract of FetchToken says |
| Ansible.SearchHosts | internal/ansible/ansible.go:75-89 | finds a result exactly when some host of the task has a non-empty string that decodes to a server and a token, and returns such a record as decoded, whatever the map order |
| Ansible.ExtractCreds | internal/ansible/ansible.go:71-94 | fails exactly when no message of any play and task decodes to a server and a token; otherwise returns such a record as decoded from the earliest task that has any |
| Ansible.PossibleMeans | internal/ansible/ansible.go:71-94 | what the results of extraction are, said of messages and decoding alone: some result exactly if some host of some task has a non-empty string that decodes to a server and a token, and then that record from the earliest such task |
| Ansible.PossibleIff | internal/ansible/ansible.go:71-94 | nothing, if no task offers credentials, otherwise any that the first offering task offers: exactly these results are produced by some order of the hosts |
| Ansible.ResultUniqueIff | internal/ansible/ansible.go:71-94 | all orders of the hosts produce one result exactly when the earliest task with usable credentials has only one kind of them |
| ControlPlane.ParseNode | internal/kubernetes/kubernetes.go:224-267 | status, roles and address of a node; "control-plane" is listed once exactly when labelled, in any label order; the address is the last one of kind InternalIP, empty if there is none |
| ControlPlane.LastControlIff | internal/http/server.go:217-222 | the node that counts is the last one with the control-plane role, none exactly if no node has it |
| ControlPlane.SelectNode | internal/http/server.go:217-250 | the selected node is the last control-plane node, with MAC and OS of some client at its address, or empty ones if there is none |
| ControlPlane.SelectedIff | internal/http/server.go:217-250 | the last control-plane node with any client at its address, or nobody's columns if there is none: exactly these selections are made by some map orders of the client searches |
| ControlPlane.SelectionUniqueIff | internal/http/server.go:217-250 | all map orders select the same node exactly when at most one client has the address of the last control-plane node, or there is no such node |
| ControlPlane.SelectionFromRows | internal/http/server.go:217-250 | with distinct rows the selection names the one row with that address, or nobody |
| ControlPlane.PrepareAnsible | internal/http/server.go:189-257 | the playbook is reached exactly when the MAC is indexed, the cluster query succeeded, and the client's cluster is in the map with a report; any other MAC but the empty one panics |
| ControlPlane.QueriedReaches | internal/http/server.go:207-257 | after a successful query the playbook is reached exactly for the clients whose cluster has an entry that can be reached by its kubeconfig, or had a report from before, and joins a node of the new report |
| ControlPlane.PlaybookFollowsRow | internal/http/server.go:197-257 | the playbook gets the columns of the client's last row and a node of the cluster in that row; a cluster that never had a master panics |
| Dhcp.IsLegacyPXEClient | internal/dhcp/server.go:61-95 | true exactly for the three legacy conditions |
| Dhcp.LegacyIff | internal/dhcp/server.go:61-95 | these are a vendor class containing one of three architectures, a broadcasting client without an address, and an architecture option that starts with two zero bytes |
| Dhcp.SetOptions | internal/dhcp/server.go:163-174 | sets exactly the seven network and boot options, each to the value named |
| Dhcp.Handle | internal/dhcp/server.go:97-195 | a reply is sent exactly to an indexed MAC on Discover (Offer) or Request (Ack), with the indexed address and boot file, broadcast exactly for legacy clients |
| Dhcp.OptionsRepeatReply | internal/dhcp/server.go:151-174 | in every answer the router option is its own gateway, the server identifier its own server, TFTP server and boot file options its own fields; gateway and server lie in one network under the mask sent; name server, mask and lease are 8.8.8.8, 255.255.255.0 and twelve hours; all other options are those of the base reply |
| Dhcp.SameOfferEveryTime | internal/dhcp/server.go:126-187 | between repopulations all Offers and Acks to one MAC carry the same address and boot file (sections 4.3.1 and 4.3.2 of RFC 2131) |
| Dhcp.NoSharedAddressIff | internal/dhcp/server.go:126-187 | no conversation gives two MACs the same address exactly when the indexed addresses are distinct as parsed |
| Dhcp.ServedAsWritten | internal/db/file.go:163-198 | after a repopulation a client is offered the address and boot file in the last line of the file that names its MAC |

## Left out

- The configuration package, flag parsing, the command-line DHCP and TFTP clients, and the TFTP server.
- HTTP plumbing: JSON encoding, response bodies, GET listings; percent-decoding and path cleaning of URLs, so MACs are
  taken to hold URL-safe characters only.
- Running Ansible: temporary files, SSH keys, playbook contents. A fetch is its outcome.
- The Kubernetes listings of pods, services, events and namespaces. A query returns a node list or fails.
- Template text: menus are lists of entries, seeds are records with the callback fields; constant lines are dropped.
- Line-length limits and carriage returns of the line scanner, clocks and the install time, write errors, and a failing
  lookup of the working directory. Paths are relative to it. A missing client file reads as an empty one.
- The two clients hard-coded in the scan, which never enter the index, and the unused helpers AddItem, GetTemplate and
  isPXEClient.
- Truncating the client file in place while it is scanned; replacing it by a new file is covered.
- Data races inside one named step. Two concurrent writes to one Go map are not modelled.
- DHCP library behaviour below the handler: the empty reply made from a request is a parameter. The handler ignores the
  address a Request asks for and never refuses one; nothing more of RFC 2131 is claimed.
- World.DistinctOverRuns: is about registrations padded to seven fields, with comma- and newline-free MAC and address,
  applied one at a time, and edits that the watcher sees before anything else; the printed four-field line and
  uncoordinated registrations have their own lemmas.
- Publication.PublishedIndexIsComplete: registrations append seven-field rows there, and a short line shows as an abort of
  a registration's scan; an abort of the watcher's scan or a crash of a background fetch ends the process and so the run.
  Any number of watcher scans may be open there, while the watcher itself runs one at a time.
- Validation.OwnCredentialsStay: a fetch that crashes the process is not a step; Process says when one does.
- Process.SurvivesIff: file events are applied one at a time there; queries and fetches are single steps.
