# Verified models of udev-113, simplefs and globalfifo

The project models the parts of the repository that keep real state, and proves what they promise.
Each part is a specification on values (states, steps, runs) with theorems about it, and, where the
source changes things in place, a class or methods whose loops are proved to compute that
specification.

| part | files | what is proved |
|---|---|---|
| udevd event scheduler | `EventQueue`, `Udevd` | serialisation of related events, markers, stalls and the child limit, over every run |
| simplefs | `SimpleFsModel`, `SimpleFs` | the disk refines a tree of names over every run of operations, from the mkfs image on |
| database file of a device | `DbRecord` | round trip of the written file, with the exact condition on what a single field may hold |
| database, name index, links | `DeviceDbModel`, `DeviceDb` | three stores stay in agreement through every sequence of events |
| relative links | `RelativeLink` | relativise and resolve are inverse, with the exact condition |
| rules: text, compiler, buffer | `RuleText`, `RulesCompiler`, `RulesBuffer` | compile and walk is the identity; room; labels |
| rules: interpreter | `RulesWalkModel`, `RulesEffect`, `RulesWalk` | which rules are applied and what each does, one name, final settings |
| globalfifo | `FifoModel`, `GlobalFifo` | conservation, wake-ups, mutex, progress, for any threads and any interleaving |
| volume_id | `VolumeIdBuffer`, `Unicode16`, `Utf8` | the two read buffers; UTF-16 conversion; shortest-form UTF-8 |
| strings and lists | `PathCoding`, `ReplaceChars`, `ListHead`, `NameList` | path escaping, character replacement, intrusive rings, sorted name lists |

`Basics` holds the few definitions that several modules share.

## How to read it

* Signals, process counts, results of fork, mknod and copies to user space, matching of rules,
  format substitution and the order of directory listings are inputs; the theorems hold for all of
  them. An `Env` or `Junk` parameter stands for what the model leaves open.
* Characters of a C string are a sequence without the terminating NUL; where the terminator matters
  (`PathCoding.PathEncode`, `Unicode16.SetUnicode16`) it is in the contract.
* Masks and shifts of the source are written as quotients and remainders by powers of two.
* `sizeof` values are those of a 64-bit build: a rule header has 752 bytes, aligned to 8; an inode
  and a directory record of simplefs have 40.

Some results say where the code does less than one would expect, each with the exact condition under
which it does not, and with a run or input that shows it:

* a suppressed remove leaves links behind that point to the removed device's node
  (`DeviceDbModel.SuppressedRemove`, `IgnoredRemoveLeavesLink`);
* a throttled pass with nothing running leaves queued events to wait for the next event
  (`EventQueue.DispatchStalls`, `ThrottledPassStalls`);
* clearing the FIFO wakes no writer (`FifoModel.WritersWaitKept`, `ClearStrandsWriter`);
* a GOTO takes an unlabelled rule for its target if that rule's first string is the label's text
  (`RulesBuffer.GotoFindsLabel`, `GotoMistakesARule`);
* a line of replaced values outgrows the area a rule is built in (`RulesBuffer.LineFits`,
  `RulesCompiler.LineOutgrowsArea`).

## Model

| member | source | states |
|---|---|---|
| `EventQueue.EventsAreSerialised` | kernel/driver/linux_driver_module_practise/c3/udev/udev-113/udevd.c:477-567 | in every legal run from the initial state, when an event without timeout starts, every earlier such event whose path (shorter than `PATH_SIZE`) is equal to, above or below its path has already finished, and for an "add" also every one whose path is equal to, above or below its physical device's |
| `EventQueue.NeverRunTogether` | kernel/driver/linux_driver_module_practise/c3/udev/udev-113/udevd.c:504-525 | two events without timeout whose paths are equal, above or below each other are never on the running list together, nor an "add" with an earlier event on or around its physical device |
| `EventQueue.MarkersAreExact` | kernel/driver/linux_driver_module_practise/c3/udev/udev-113/udevd.c:167-238 | in every reachable state the queue directory holds the marker of a path exactly when an event for it is queued or running, and the failed directory exactly when none is pending and the last finished one was a failed "add" |
| `EventQueue.PassLeavesOnlyBusy` | kernel/driver/linux_driver_module_practise/c3/udev/udev-113/udevd.c:530-567 | after a pass that was not throttled, whatever the forks returned, every event still queued is held back by `devpath_busy`, and a queue that is not empty has a running event to wait for |
| `EventQueue.OldestIsStarted` | kernel/driver/linux_driver_module_practise/c3/udev/udev-113/udevd.c:544-566 | with nothing running, no throttling and a successful fork, the oldest queued event becomes the first running one, with its process id |
| `EventQueue.PassIsThrottled` | kernel/driver/linux_driver_module_practise/c3/udev/udev-113/udevd.c:540-566 | a pass counts the processes it starts: with the session always full it takes at most as many events off the queue as there was room for, and exactly as many if it was throttled; with room in the session it is not throttled; an unknown number of processes counts as the limit |
| `EventQueue.StoppedQueueWaits` | kernel/driver/linux_driver_module_practise/c3/udev/udev-113/udevd.c:699-708 | from a stop message on nothing starts and nothing leaves the queue until a start message or an event with a timeout comes, over every run |
| `EventQueue.QueueResumes` | kernel/driver/linux_driver_module_practise/c3/udev/udev-113/udevd.c:704-708 | the pass of a start message, or of the main loop when it is due, leaves only busy events queued unless it is throttled |
| `EventQueue.PassIsAskedFor` | kernel/driver/linux_driver_module_practise/c3/udev/udev-113/udevd.c:1236-1241 | the main loop owes the queue a pass exactly from a new event or a reaped child on until it makes one; it is stopped exactly from a stop message on until a start message |
| `EventQueue.ChildIsReaped` | kernel/driver/linux_driver_module_practise/c3/udev/udev-113/udevd.c:806-823 | a child that exits is the first with its pid and is finished with its status; an unknown pid changes nothing |
| `EventQueue.FailedForkIsNoFailure` | kernel/driver/linux_driver_module_practise/c3/udev/udev-113/udevd.c:267-270 | an event whose process could not be forked leaves no failed marker and has not started |
| `EventQueue.LastLimitsHold` | kernel/driver/linux_driver_module_practise/c3/udev/udev-113/udevd.c:714-726 | after any run the two limits are the ones that were set last |
| `EventQueue.StalledOnlyIfThrottled` | kernel/driver/linux_driver_module_practise/c3/udev/udev-113/udevd.c:1237-1241 | in every run the queue stalls (events queued, nothing running, no flag set) only if the last pass over it was throttled |
| `EventQueue.DispatchStalls` | kernel/driver/linux_driver_module_practise/c3/udev/udev-113/udevd.c:544-566 | a pass from the main loop leaves the queue stalled exactly when nothing runs and the process counts stop it before any fork succeeds |
| `EventQueue.ThrottledPassStalls` | kernel/driver/linux_driver_module_practise/c3/udev/udev-113/udevd.c:546-552 | a legal run that ends stalled: with a limit of no processes, one event stays queued and nothing will bring the manager back to it |
| `EventQueue.ChildLimitHolds` | kernel/driver/linux_driver_module_practise/c3/udev/udev-113/udevd.c:504-509 | in every run without timeout events and changes of the limit, the running list stays within `max_childs + 2` (within 1 for a limit below -1) |
| `EventQueue.LimitIsReached` | kernel/driver/linux_driver_module_practise/c3/udev/udev-113/udevd.c:506 | that bound is met: with `max_childs + 1` running, a pass still starts an event that waits for none of them |
| `EventQueue.RelatedMeaning` | kernel/driver/linux_driver_module_practise/c3/udev/udev-113/udevd.c:451-474 | the comparison is non-zero exactly for equal paths, an ancestor or a descendant, unless both paths reach `PATH_SIZE`; and it tells the three apart |
| `EventQueue.RelatedSymmetric` | kernel/driver/linux_driver_module_practise/c3/udev/udev-113/udevd.c:451-474 | which of the two waits does not matter for being related |
| `EventQueue.BusyMeaning` | kernel/driver/linux_driver_module_practise/c3/udev/udev-113/udevd.c:477-527 | an event is busy exactly when an earlier queued event or a running one is on, above or below its path, or for an "add" its physical device's path, or when the running list is longer than the limit plus one |
| `EventQueue.BusyCode` | kernel/driver/linux_driver_module_practise/c3/udev/udev-113/udevd.c:477-527 | the code of a busy event is 1 only for too many children, 2 for an event near its own path, 3 for one near its physical device alone |
| `EventQueue.StepKeeps` | kernel/driver/linux_driver_module_practise/c3/udev/udev-113/udevd.c:227-318 | every step (arrival, manager pass, reaped child, stop, start, new limits) keeps the whole invariant: lists, bookkeeping of started and finished events, serialisation, markers |
| `EventQueue.RunKeeps` | kernel/driver/linux_driver_module_practise/c3/udev/udev-113/udevd.c:1168-1242 | the invariant holds after every legal run |
| `EventQueue.InitialState` | kernel/driver/linux_driver_module_practise/c3/udev/udev-113/udevd.c:1168-1242 | the empty daemon satisfies the invariant, is not stalled and is within its limit |
| `Udevd.CompareDevpaths` | kernel/driver/linux_driver_module_practise/c3/udev/udev-113/udevd.c:451-474 | the character loop computes 1 for equal paths, 2 for a parent, 3 for a child, 0 otherwise, cut off at `PATH_SIZE` |
| `Udevd.Daemon.DevpathBusy` | kernel/driver/linux_driver_module_practise/c3/udev/udev-113/udevd.c:477-527 | the two list walks with the child counter compute the busy code; on a queue in order it is non-zero exactly under the conditions of `BusyMeaning` |
| `Udevd.Daemon.ExportEventState` | kernel/driver/linux_driver_module_practise/c3/udev/udev-113/udevd.c:167-225 | markers are written, moved or removed as the queued and finished transitions of the model say; a path with pending events keeps its marker |
| `Udevd.Daemon.MsgQueueDelete` | kernel/driver/linux_driver_module_practise/c3/udev/udev-113/udevd.c:227-238 | removes a message from the running list and finishes it, as failed exactly for an "add" with an exit status |
| `Udevd.Daemon.UdevEventRun` | kernel/driver/linux_driver_module_practise/c3/udev/udev-113/udevd.c:240-277 | a forked child is recorded with its pid; a failed fork finishes the message at once |
| `Udevd.Daemon.MsgQueueInsert` | kernel/driver/linux_driver_module_practise/c3/udev/udev-113/udevd.c:279-318 | a new event gets its marker and goes to the queue, or with a timeout straight to a process |
| `Udevd.Daemon.MsgQueueManager` | kernel/driver/linux_driver_module_practise/c3/udev/udev-113/udevd.c:530-567 | the loop over the queue, with throttling, takes exactly the model's manager pass |
| `Udevd.Daemon.UdevDone` | kernel/driver/linux_driver_module_practise/c3/udev/udev-113/udevd.c:806-823 | a reaped pid finishes the first running message with that pid and asks for another pass; an unknown pid changes nothing |
| `Udevd.Daemon.Turn` | kernel/driver/linux_driver_module_practise/c3/udev/udev-113/udevd.c:684-733 | each thing the main loop waits for takes the model's step |
| `Udevd.MainLoop` | kernel/driver/linux_driver_module_practise/c3/udev/udev-113/udevd.c:1168-1242 | any legal sequence of turns ends in the model's state of that run, with the invariant kept and stalled only by throttling |
| `SimpleFsModel.LookupIsExact` | io/fs/simplefs/simple.c:691-748 | after any legal run of create, mkdir, unlink and write from the mkfs image, lookup finds exactly the names created and not unlinked, with their inode numbers and modes |
| `SimpleFsModel.StepKeeps` | io/fs/simplefs/simple.c:490-675 | every operation keeps the store invariant and does to the tree of names what it is meant to, also when dead inodes, their blocks and zeroed records are reused |
| `SimpleFsModel.RunKeeps` | io/fs/simplefs/simple.c:490-675 | the disk represents the tree after every legal run |
| `SimpleFsModel.RunsExtend` | io/fs/simplefs/simple.c:490-675 | a legal run can always go on with any operation that the VFS grants, so legality of runs hides no assumption about the disk |
| `SimpleFsModel.MkfsIsConsistent` | io/fs/simplefs/mkfs-simplefs.c:15-172 | the image mkfs writes, over any old contents of the device, satisfies the invariant and holds one file in the root |
| `SimpleFsModel.StoreIsConsistent` | io/fs/simplefs/simple.c:53-186 | in an invariant state slot identities (live or dead number) are distinct, data blocks are distinct and marked used, and every live inode but the root is named by exactly one record |
| `SimpleFsModel.OtherFilesUntouched` | io/fs/simplefs/simple.c:394-675 | no operation changes the inode or the data block of a file it is not aimed at |
| `SimpleFsModel.FileKept` | io/fs/simplefs/simple.c:394-675 | a file keeps its inode and bytes through every run of operations aimed at others, with slots and blocks reused meanwhile |
| `SimpleFsModel.WriteContents` | io/fs/simplefs/simple.c:394-464 | after a write the file is what was there before the position followed by the written bytes, ends there, and no name has changed |
| `SimpleFsModel.WriteKeeps` | io/fs/simplefs/simple.c:394-464 | a write keeps the invariant and the tree |
| `SimpleFsModel.CreatePlaces` | io/fs/simplefs/simple.c:533-675 | create gives the new inode a slot, number and block of its own and one record in the directory, whether it reuses a dead inode, a zeroed record, both or neither |
| `SimpleFsModel.PlacedKeepsInv` | io/fs/simplefs/simple.c:600-667 | a so placed inode keeps the store invariant |
| `SimpleFsModel.PlacedRepresents` | io/fs/simplefs/simple.c:600-667 | a so placed inode adds exactly the new entry to the tree |
| `SimpleFsModel.UnlinkRemoves` | io/fs/simplefs/simple.c:490-524 | unlink zeroes the one record with the name and turns the inode's number into its dead number |
| `SimpleFsModel.RemovedKeepsInv` | io/fs/simplefs/simple.c:490-524 | a so removed file keeps the store invariant |
| `SimpleFsModel.InodeSearch` | io/fs/simplefs/simple.c:53-72 | the search returns the first slot with the number, the slot behind the last one included, and none only if there is none |
| `SimpleFs.Disk.SearchInode` | io/fs/simplefs/simple.c:53-72 | the loop finds what the search function finds, by live or dead number |
| `SimpleFs.Disk.GetDeadInodeNo` | io/fs/simplefs/simple.c:73-99 | the number and block of the first dead inode, if there is one |
| `SimpleFs.Disk.InodeAdd` | io/fs/simplefs/simple.c:100-140 | overwrites the dead slot with the inode's number, or appends a slot; all other slots stay |
| `SimpleFs.Disk.GetAFreeblock` | io/fs/simplefs/simple.c:150-186 | the first free block from 3 on becomes used; with none free nothing changes |
| `SimpleFs.Disk.GetInode` | io/fs/simplefs/simple.c:270-308 | a copy of the first slot with the number, none exactly if no slot has it |
| `SimpleFs.Disk.InodeSave` | io/fs/simplefs/simple.c:355-390 | overwrites the slot found for the inode and no other; fails exactly if none is found |
| `SimpleFs.Disk.CreateFsObject` | io/fs/simplefs/simple.c:533-675 | the step-by-step update of store, bitmap, superblock and directory block makes the model's create, errors included |
| `SimpleFs.Disk.LookupName` | io/fs/simplefs/simple.c:691-748 | the scan of the directory block returns the model's lookup |
| `SimpleFs.Disk.UnlinkFile` | io/fs/simplefs/simple.c:490-524 | the scan and the two updates make the model's unlink |
| `SimpleFs.Disk.WriteFile` | io/fs/simplefs/simple.c:394-464 | the copy into the block and the saved size make the model's write |
| `DbRecord.ParsePrint` | kernel/driver/linux_driver_module_practise/c3/udev/udev-113/udev_db.c:146-168 | reading back the file written for a storable record gives the same record: name, links and environment in order, device number, priority (negative ones too), partitions, ignore_remove |
| `DbRecord.AtoiDecimal` | kernel/driver/linux_driver_module_practise/c3/udev/udev-113/udev_db.c:160-165 | an int written with %u is read back by atoi with its sign, on a machine with 64-bit longs |
| `DbRecord.AtoiSigned` | kernel/driver/linux_driver_module_practise/c3/udev/udev-113/udev_rules_parse.c:588-592 | a number written with or without a sign is read back by atoi, whatever follows its digits |
| `DbRecord.PrintInjective` | kernel/driver/linux_driver_module_practise/c3/udev/udev-113/udev_db.c:146-168 | different storable records have different files |
| `DbRecord.FileLooksSo` | kernel/driver/linux_driver_module_practise/c3/udev/udev-113/udev_db.c:152-166 | the letters, order and form of the lines in the file |
| `DbRecord.LineEndsAtText` | kernel/driver/linux_driver_module_practise/c3/udev/udev-113/udev_utils_file.c:156-172 | a printed field is cut off exactly at its end if and only if it survives the escape rule, whatever follows |
| `DbRecord.SurvivesMeaning` | kernel/driver/linux_driver_module_practise/c3/udev/udev-113/udev_utils_file.c:161-171 | a field survives exactly when each newline in it follows a backslash and it does not end in a backslash |
| `DbRecord.BufGetLine` | kernel/driver/linux_driver_module_practise/c3/udev/udev-113/udev_utils_file.c:156-172 | the loop with the escape flag returns the length of the line |
| `DbRecord.ReadLine` | kernel/driver/linux_driver_module_practise/c3/udev/udev-113/udev_db.c:224-274 | the switch on the first character updates the field that the line is for |
| `DbRecord.ReadRecord` | kernel/driver/linux_driver_module_practise/c3/udev/udev-113/udev_db.c:213-281 | the line loop returns the parsed record, none for one without a name |
| `DbRecord.PrintRecord` | kernel/driver/linux_driver_module_practise/c3/udev/udev-113/udev_db.c:146-168 | writes the lines of the record in order |
| `DeviceDbModel.StoresAgree` | kernel/driver/linux_driver_module_practise/c3/udev/udev-113/udev_device.c:143-266 | through any sequence of add, change and remove events that are not suppressed, with names for nodes kept apart from names for links, the index is the inverse of the database and each link points to a claimant of highest priority, or is not there when nobody claims it; devices may share node names |
| `DeviceDbModel.IndexIsInverse` | kernel/driver/linux_driver_module_practise/c3/udev/udev-113/udev_db.c:48-78 | after any sequence of add, change and remove events from empty stores, suppressed and failing ones and colliding names included, a device is listed under a name exactly when its record has it as node or link |
| `DeviceDbModel.IndexKept` | kernel/driver/linux_driver_module_practise/c3/udev/udev-113/udev_device.c:143-266 | every such event keeps the index the exact inverse of the database |
| `DeviceDbModel.EventMeans` | kernel/driver/linux_driver_module_practise/c3/udev/udev-113/udev_device.c:143-266 | what any event does to records and nodes, whatever the names: an add replaces the device's record and leaves its node under its name; a remove takes its record away, and takes its node name away exactly if the name is a device of the number in the record's file, or of any number if that is not known; other records and names stay; a suppressed remove, a failed mknod and an ignored add touch no node |
| `DeviceDbModel.NodeRemovedMeaning` | kernel/driver/linux_driver_module_practise/c3/udev/udev-113/udev_node.c:391-415 | the name goes exactly if links lead from it to a device of that number, or of any number if the number is 0:0; otherwise it is what it was; no other name changes |
| `DeviceDbModel.NodeUnlinked` | kernel/driver/linux_driver_module_practise/c3/udev/udev-113/udev_node.c:406-413 | where the name is a node itself, it goes exactly if the number is 0:0 or the node's own, and stays as it is otherwise |
| `DeviceDbModel.AddSparesNode` | kernel/driver/linux_driver_module_practise/c3/udev/udev-113/udev_node.c:124-143 | the node of another device stays where only the device of an add claims a link |
| `DeviceDbModel.ForeignNodeStays` | kernel/driver/linux_driver_module_practise/c3/udev/udev-113/udev_node.c:124-143 | through any list of updates a node stays under a link's name if every device that could have the link has its own, different node |
| `DeviceDbModel.EventKeeps` | kernel/driver/linux_driver_module_practise/c3/udev/udev-113/udev_device.c:147-266 | each such event keeps that agreement, for every order in which directories may be listed |
| `DeviceDbModel.AddKeeps` | kernel/driver/linux_driver_module_practise/c3/udev/udev-113/udev_device.c:164-190 | a successful add or change keeps index, database and links in agreement, also when it replaces an older record or takes a node name that another device has |
| `DeviceDbModel.OwnWinsTies` | kernel/driver/linux_driver_module_practise/c3/udev/udev-113/udev_node.c:215-224 | after an add or change, a link the device claims points to it unless another claimant has a strictly higher priority |
| `DeviceDbModel.RemoveKeeps` | kernel/driver/linux_driver_module_practise/c3/udev/udev-113/udev_device.c:235-265 | a remove that is not suppressed keeps the stores in agreement and hands links over, whether or not the node was still the device's own |
| `DeviceDbModel.UpdatesDecide` | kernel/driver/linux_driver_module_practise/c3/udev/udev-113/udev_node.c:261-310 | where names for nodes and for links are apart, updating names one after the other decides each link name of the list and changes no name outside it |
| `DeviceDbModel.SuppressedRemove` | kernel/driver/linux_driver_module_practise/c3/udev/udev-113/udev_device.c:239-258 | a remove stopped by ignore_remove or ignore_device keeps the stores in agreement exactly when each of the device's links that points to its node has another claimant of that node with the highest priority among the others |
| `DeviceDbModel.SuppressedRemoveOfOwnNode` | kernel/driver/linux_driver_module_practise/c3/udev/udev-113/udev_device.c:239-258 | if no other device has the node, that is exactly when no link of the device points to it |
| `DeviceDbModel.IgnoredRemoveLeavesLink` | kernel/driver/linux_driver_module_practise/c3/udev/udev-113/udev_device.c:239-244 | an add and a remove, marked ignore_remove, after which a link points to the node of a device that is gone |
| `DeviceDbModel.SharedNodeIsLost` | kernel/driver/linux_driver_module_practise/c3/udev/udev-113/udev_node.c:307-308 | node names are not protected like link names: updating a given-up node name that another device still has leaves a link to itself there |
| `DeviceDbModel.RefsAreIndexed` | kernel/driver/linux_driver_module_practise/c3/udev/udev-113/udev_db.c:80-118 | listing and decoding the directory of a name yields exactly the devices indexed under it |
| `DeviceDbModel.AddKeepsIndex` | kernel/driver/linux_driver_module_practise/c3/udev/udev-113/udev_db.c:120-175 | storing a device lists it under exactly its node and link names, and changes no other device |
| `DeviceDbModel.DeleteKeepsIndex` | kernel/driver/linux_driver_module_practise/c3/udev/udev-113/udev_db.c:284-300 | deleting a record removes exactly its entries from the index, and no other record |
| `DeviceDbModel.StoredBack` | kernel/driver/linux_driver_module_practise/c3/udev/udev-113/udev_db.c:131-169 | what is stored can be read, with the same name and links; the file form gives back every field |
| `DeviceDb.Devices.NameIndex` | kernel/driver/linux_driver_module_practise/c3/udev/udev-113/udev_db.c:48-78 | adds or removes the one entry for name and device |
| `DeviceDb.Devices.GetDevicesByName` | kernel/driver/linux_driver_module_practise/c3/udev/udev-113/udev_db.c:80-118 | returns the devices of the name's directory without repetition, hidden entries left out |
| `DeviceDb.Devices.AddDevice` | kernel/driver/linux_driver_module_practise/c3/udev/udev-113/udev_db.c:120-175 | writes the symlink or the file and the index entries |
| `DeviceDb.Devices.GetDevice` | kernel/driver/linux_driver_module_practise/c3/udev/udev-113/udev_db.c:177-282 | reads either form back, none if there is no entry or no name |
| `DeviceDb.Devices.DeleteDevice` | kernel/driver/linux_driver_module_practise/c3/udev/udev-113/udev_db.c:284-300 | removes the database entry and every index entry of the record |
| `DeviceDb.Devices.MakeLink` | kernel/driver/linux_driver_module_practise/c3/udev/udev-113/udev_node.c:124-179 | makes the link, keeps a correct one, and leaves another device's node alone |
| `DeviceDb.Devices.UpdateLink` | kernel/driver/linux_driver_module_practise/c3/udev/udev-113/udev_node.c:182-259 | removes the name when no device is indexed under it; otherwise links it to a device of highest priority, the event's own device winning ties, for any order of the listing |
| `DeviceDb.Devices.NodeAdd` | kernel/driver/linux_driver_module_practise/c3/udev/udev-113/udev_node.c:312-358 | the name becomes a node with the device's number and nothing else changes |
| `DeviceDb.Devices.NodeRemove` | kernel/driver/linux_driver_module_practise/c3/udev/udev-113/udev_node.c:391-415 | removes the name exactly if it is a device of the number, or of any number if that is 0:0; otherwise it stays as it is, and so does every other name |
| `DeviceDb.Devices.UpdateSymlinks` | kernel/driver/linux_driver_module_practise/c3/udev/udev-113/udev_node.c:261-310 | updates, in order, the present links, the former ones no longer claimed and a changed node name, whatever stands under them; no other name changes |
| `DeviceDb.Devices.DeviceEvent` | kernel/driver/linux_driver_module_practise/c3/udev/udev-113/udev_device.c:143-266 | the handler takes the model's event step from every store with an exact index, suppressed and failing events and colliding names included; it keeps the index exact and does to records and nodes what `EventMeans` says |
| `RelativeLink.RelativeRoundTrip` | kernel/driver/linux_driver_module_practise/c3/udev/udev-113/udev_sysfs.c:130-143 | for absolute paths below `PATH_SIZE`, resolving the link that `node_symlink` makes gives back the node exactly when the target fits its buffer and the rest of the node path does not begin with "../" |
| `RelativeLink.NormalisedRoundTrip` | kernel/driver/linux_driver_module_practise/c3/udev/udev-113/udev_node.c:111-122 | so every node path without ".." components gets through if its target fits |
| `RelativeLink.BuildTarget` | kernel/driver/linux_driver_module_practise/c3/udev/udev-113/udev_node.c:111-122 | the two loops build one "../" for each directory of the link below the common one, then the rest of the node path, cut off at `PATH_SIZE` |
| `RelativeLink.ResolveLink` | kernel/driver/linux_driver_module_practise/c3/udev/udev-113/udev_sysfs.c:114-144 | the counting and stripping loops compute the resolved path, and fail when there are not enough components |
| `PathCoding.DecodeEncode` | kernel/driver/linux_driver_module_practise/c3/udev/udev-113/udev_utils_string.c:53-94 | decoding an encoded path gives it back, for every path |
| `PathCoding.EncodingsAreExactly` | kernel/driver/linux_driver_module_practise/c3/udev/udev-113/udev_utils_string.c:53-94 | a string is the encoding of some path exactly when it has the escaped form, and decoding finds that path |
| `PathCoding.EncodedIsFileName` | kernel/driver/linux_driver_module_practise/c3/udev/udev-113/udev_utils_string.c:53-74 | an encoding holds no '/', is between one and four times as long as the path, and has no NUL |
| `PathCoding.EncodeInjective` | kernel/driver/linux_driver_module_practise/c3/udev/udev-113/udev_utils_string.c:53-74 | two paths never have the same file name |
| `PathCoding.EscapesAreHex` | kernel/driver/linux_driver_module_practise/c3/udev/udev-113/udev_utils_string.c:58-66 | the two escaped characters are written as their codes in hexadecimal, all others as themselves |
| `PathCoding.PathEncode` | kernel/driver/linux_driver_module_practise/c3/udev/udev-113/udev_utils_string.c:53-74 | the buffer gets the encoding, NUL padded; it stays terminated exactly when the encoding is shorter than the buffer, and nothing behind the buffer changes |
| `PathCoding.PathDecode` | kernel/driver/linux_driver_module_practise/c3/udev/udev-113/udev_utils_string.c:76-94 | decoding in place gives the decoded string with its terminator and changes nothing behind the input |
| `Utf8.AcceptsShortestForms` | kernel/driver/linux_driver_module_practise/c3/udev/udev-113/extras/volume_id/lib/util.c:122-152 | a multi-byte sequence is accepted with its length exactly when it begins with the shortest form, by section 3 of RFC 3629, of a code point in the allowed range |
| `Utf8.RangeMeaning` | kernel/driver/linux_driver_module_practise/c3/udev/udev-113/extras/volume_id/lib/util.c:108-119 | the allowed range is Unicode without surrogates, the noncharacters from U+FDD0 on and the last code point of each plane |
| `Utf8.RefusesTheRest` | kernel/driver/linux_driver_module_practise/c3/udev/udev-113/extras/volume_id/lib/util.c:122-152 | a byte below 0x80 counts as one, and whatever is neither that nor an accepted sequence is refused |
| `Utf8.AcceptsLocally` | kernel/driver/linux_driver_module_practise/c3/udev/udev-113/udev_utils_string.c:187-217 | acceptance depends on the bytes of the sequence alone, which all lie in the string |
| `Utf8.DecodesBack` | kernel/driver/linux_driver_module_practise/c3/udev/udev-113/extras/volume_id/lib/util.c:32-105 | an encoded code point decodes to itself, whatever follows, with the length that both length helpers tell |
| `Unicode16.ConvertsAsMuchAsFits` | kernel/driver/linux_driver_module_practise/c3/udev/udev-113/extras/volume_id/lib/util.c:154-187 | the converted units fit with their terminator, stop before the first zero unit, and stop early only if the next character would not fit |
| `Unicode16.DecodesToUnits` | kernel/driver/linux_driver_module_practise/c3/udev/udev-113/extras/volume_id/lib/util.c:154-187 | reading the result back character by character yields exactly the converted units |
| `Unicode16.UnitsReadBack` | kernel/driver/linux_driver_module_practise/c3/udev/udev-113/extras/volume_id/lib/util.c:154-185 | stored units are found again in either byte order, and an odd last byte is left out |
| `Unicode16.SetUnicode16` | kernel/driver/linux_driver_module_practise/c3/udev/udev-113/extras/volume_id/lib/util.c:154-187 | the loop writes the encodings of those units and a NUL, less than `len` bytes and the NUL, and leaves the rest of the buffer alone, for both byte orders and odd counts |
| `ReplaceChars.ResultIsClean` | kernel/driver/linux_driver_module_practise/c3/udev/udev-113/udev_utils_string.c:220-270 | the result has the length of the input and consists of accepted tokens and '_'; with '_' whitelisted nothing in it would be replaced again |
| `ReplaceChars.ResultIsTokens` | kernel/driver/linux_driver_module_practise/c3/udev/udev-113/udev_utils_string.c:220-270 | whatever the input, the result is a row of tokens and '_': bytes of the whitelist, digits and letters, starts of a hex escape, and characters of several bytes in their shortest form |
| `ReplaceChars.AcceptedMeaning` | kernel/driver/linux_driver_module_practise/c3/udev/udev-113/udev_utils_string.c:228-253 | what is accepted is such a token, the whitelist first; what is not accepted begins with none |
| `ReplaceChars.BytesReplaced` | kernel/driver/linux_driver_module_practise/c3/udev/udev-113/udev_utils_string.c:255-266 | each byte stays, or becomes a blank if it is white space and blanks are allowed, or '_' |
| `ReplaceChars.ReplaceIsIdempotent` | kernel/driver/linux_driver_module_practise/c3/udev/udev-113/udev_utils_string.c:220-270 | a second run changes nothing, for every whitelist |
| `ReplaceChars.LeftAlone` | kernel/driver/linux_driver_module_practise/c3/udev/udev-113/udev_utils_string.c:220-270 | nothing is counted exactly when the string consists of accepted tokens; nothing changes exactly when it consists of them and '_' |
| `ReplaceChars.ReplaceInPlace` | kernel/driver/linux_driver_module_practise/c3/udev/udev-113/udev_utils_string.c:220-270 | the loop in place computes the replaced string and the number of replacements |
| `VolumeIdBuffer.ReadSucceeds` | kernel/driver/linux_driver_module_practise/c3/udev/udev-113/extras/volume_id/lib/util.c:338-412 | after any calls and frees, a read of positive length succeeds exactly when its range lies in the device and fits a buffer; the empty read is decided too |
| `VolumeIdBuffer.ReadIsKept` | kernel/driver/linux_driver_module_practise/c3/udev/udev-113/extras/volume_id/lib/util.c:345-412 | after any calls, what a successful read hands out is covered by its buffer at the position for its offset, so the same read again finds it there and changes nothing |
| `VolumeIdBuffer.NothingAfterFree` | kernel/driver/linux_driver_module_practise/c3/udev/udev-113/extras/volume_id/lib/util.c:414-426 | after a free neither buffer is there or covers anything, whatever came before |
| `VolumeIdBuffer.SuperblockGrows` | kernel/driver/linux_driver_module_practise/c3/udev/udev-113/extras/volume_id/lib/util.c:358-382 | until the buffers are freed, the part of the device that the superblock buffer covers never shrinks |
| `VolumeIdBuffer.VolumeId.Buffer` | kernel/driver/linux_driver_module_practise/c3/udev/udev-113/extras/volume_id/lib/util.c:338-412 | the bytes handed out are the device's bytes; the superblock buffer stays the same object and bytes it already covered do not change |
| `VolumeIdBuffer.VolumeId.FreeBuffers` | kernel/driver/linux_driver_module_practise/c3/udev/udev-113/extras/volume_id/lib/util.c:414-426 | both buffers are dropped and the lengths of those there were are reset |
| `ListHead.RingInserted` | kernel/driver/linux_driver_module_practise/c3/udev/udev-113/list.h:60-68 | a ring with one node linked in at a position is the ring of the longer sequence, next and prev inverse all around |
| `ListHead.RingWithout` | kernel/driver/linux_driver_module_practise/c3/udev/udev-113/list.h:103-107 | a ring with one node bridged is the ring of the shorter sequence |
| `ListHead.RingJoined` | kernel/driver/linux_driver_module_practise/c3/udev/udev-113/list.h:164-176 | linking all nodes of one ring behind the head of another makes the ring of both sequences |
| `ListHead.AddTail` | kernel/driver/linux_driver_module_practise/c3/udev/udev-113/list.h:91-94 | inserts the node in front of the given place; before the head that is at the end |
| `ListHead.Add` | kernel/driver/linux_driver_module_practise/c3/udev/udev-113/list.h:78-81 | inserts the node as the first |
| `ListHead.Delete` | kernel/driver/linux_driver_module_practise/c3/udev/udev-113/list.h:115-120 | removes the entry from the sequence and leaves it without neighbours |
| `ListHead.MoveTail` | kernel/driver/linux_driver_module_practise/c3/udev/udev-113/list.h:148-153 | takes the entry out of its list and appends it to the other; both stay well formed and apart |
| `ListHead.Splice` | kernel/driver/linux_driver_module_practise/c3/udev/udev-113/list.h:164-176 | puts the nodes of one list in front of those of another |
| `ListHead.SpliceInit` | kernel/driver/linux_driver_module_practise/c3/udev/udev-113/list.h:196-203 | as splice, and leaves the first list empty; an empty list changes nothing |
| `ListHead.IsEmpty` | kernel/driver/linux_driver_module_practise/c3/udev/udev-113/list.h:159-162 | tells exactly the empty sequence |
| `NameList.SortedListIsASet` | kernel/driver/linux_driver_module_practise/c3/udev/udev-113/udev_utils.c:57-85 | a list built by sorted additions is strictly ascending and holds exactly the names added |
| `NameList.OrderMeaning` | kernel/driver/linux_driver_module_practise/c3/udev/udev-113/udev_utils.c:70-74 | the order of the list is that of strcmp: a name comes first if the other goes on from it, or by the smaller character where they first differ |
| `NameList.UnsortedAtEnd` | kernel/driver/linux_driver_module_practise/c3/udev/udev-113/udev_utils.c:76-82 | without sorting a new name goes to the end of the list |
| `NameList.OrderOfAdditions` | kernel/driver/linux_driver_module_practise/c3/udev/udev-113/udev_utils.c:57-85 | so sorted lists of the same names are equal, in whatever order they were added |
| `NameList.NameListAdd` | kernel/driver/linux_driver_module_practise/c3/udev/udev-113/udev_utils.c:57-85 | the two walks over the ring insert a new name at its sorted place or at the end, return the node there is for a known one, and keep the ring well formed |
| `RulesBuffer.CompileThenWalk` | kernel/driver/linux_driver_module_practise/c3/udev/udev-113/udev_rules_parse.c:81-258 | rules printed as lines, compiled and packed are met by the walk in order, each at an aligned offset, each key with its operator and with what stands for its value at its offset, mode, options and attributes as written; a rule fits the area it is built in exactly when its line's room does |
| `RulesBuffer.WalkMeetsAllRules` | kernel/driver/linux_driver_module_practise/c3/udev/udev-113/udev_rules_parse.c:620-634 | walking any packed rules meets them all, in order, aligned, with header and padded strings unchanged |
| `RulesBuffer.OffsetsAreOld` | kernel/driver/linux_driver_module_practise/c3/udev/udev-113/udev_rules_parse.c:39-57 | the offsets a walk visits increase strictly and lie in the buffer, so it ends |
| `RulesBuffer.GotoFindsLabel` | kernel/driver/linux_driver_module_practise/c3/udev/udev-113/udev_rules_parse.c:59-79 | a GOTO leads to the first rule with the label exactly when no unlabelled rule before it has the label's text as its first string |
| `RulesBuffer.GotoMistakesARule` | kernel/driver/linux_driver_module_practise/c3/udev/udev-113/udev_rules_parse.c:70-77 | two lines that compile to a buffer in which the search for the second rule's label stops at the first rule, which has none |
| `RulesBuffer.LineFits` | kernel/driver/linux_driver_module_practise/c3/udev/udev-113/udev_rules_parse.c:235-245 | the padded rule of an accepted line fits its area, and its strings never leave it, exactly when the room of the line's keys is at most `LINE_SIZE`; without replaced values that is so for every line short enough to be read |
| `RulesBuffer.Rules.AddToRules` | kernel/driver/linux_driver_module_practise/c3/udev/udev-113/udev_rules_parse.c:233-641 | a line is parsed key by key and the rule appended to the buffer, or the line refused and the buffer left as it was; a printed line is accepted exactly when its items make a rule, and the appended rule means them |
| `RulesBuffer.Rules.AppendRule` | kernel/driver/linux_driver_module_practise/c3/udev/udev-113/udev_rules_parse.c:620-634 | the rule is padded to the alignment and copied behind the rules there are |
| `RulesBuffer.Rules.IterInit` | kernel/driver/linux_driver_module_practise/c3/udev/udev-113/udev_rules_parse.c:33-37 | the walk starts at the first rule |
| `RulesBuffer.Rules.IterNext` | kernel/driver/linux_driver_module_practise/c3/udev/udev-113/udev_rules_parse.c:39-57 | returns the rule at the position and moves behind it, none exactly at the end |
| `RulesBuffer.Rules.IterLabel` | kernel/driver/linux_driver_module_practise/c3/udev/udev-113/udev_rules_parse.c:59-79 | moves forward to the rule that a GOTO leads to, or to the end, and never back |
| `RulesCompiler.CompileLineOfPrinted` | kernel/driver/linux_driver_module_practise/c3/udev/udev-113/udev_rules_parse.c:233-258 | a printed line is accepted exactly when its match-only keys are compared, no kind of pair occurs more than `PAIRS_MAX` times and it has more than names; in the rule then compiled, the last value of each key, the pairs of each kind, the attributes, the last mode and the options are those printed, where a user or group that is looked up stands as its number and the names of buses as one text; its strings take the line's room |
| `RulesCompiler.CompilesPrinted` | kernel/driver/linux_driver_module_practise/c3/udev/udev-113/udev_rules_parse.c:245-258 | compiling a printed line adds its items one after the other and nothing else |
| `RulesCompiler.StoredStandsFor` | kernel/driver/linux_driver_module_practise/c3/udev/udev-113/udev_rules_parse.c:299-311 | a user name that is looked up is stored as the number of the user, a group name as that of the group, the three names of buses as one text, and any other value as it is written |
| `RulesCompiler.NumberMeaning` | kernel/driver/linux_driver_module_practise/c3/udev/udev-113/udev_rules_parse.c:524-563 | a value is not looked up if it is a numeral: blanks, a sign and digits up to its end, or nothing |
| `RulesCompiler.SpellingIgnored` | kernel/driver/linux_driver_module_practise/c3/udev/udev-113/udev_rules_parse.c:252-560 | capital and small letters of a key's name make no difference |
| `RulesCompiler.OlderNames` | kernel/driver/linux_driver_module_practise/c3/udev/udev-113/udev_rules_parse.c:337-375 | ID, BUS and SYSFS are other names of three keys |
| `RulesCompiler.StringsTakeRoom` | kernel/driver/linux_driver_module_practise/c3/udev/udev-113/udev_rules_parse.c:197-231 | the strings of an accepted line take exactly the room of its keys: stored value, attribute of a pair, terminators |
| `RulesCompiler.InsideMeaning` | kernel/driver/linux_driver_module_practise/c3/udev/udev-113/udev_rules_parse.c:250-258 | while a line is compiled its strings stay inside the area if its room does, for an accepted line only if |
| `RulesCompiler.PlainLineFits` | kernel/driver/linux_driver_module_practise/c3/udev/udev-113/udev_rules_parse.c:197-231 | a line in which no value is replaced has at most its own length of room |
| `RulesCompiler.StringsFit` | kernel/driver/linux_driver_module_practise/c3/udev/udev-113/udev_rules_parse.c:197-231 | for any line, unless a value was replaced by another, the strings of its rule take no more room than the line |
| `RulesCompiler.LineOutgrowsArea` | kernel/driver/linux_driver_module_practise/c3/udev/udev-113/udev_rules_parse.c:299-311 | with replaced values the condition can fail: there is a line short enough for the reader whose strings outgrow `LINE_SIZE` |
| `RuleText.GetKeyReadsBack` | kernel/driver/linux_driver_module_practise/c3/udev/udev-113/udev_rules_parse.c:81-173 | a printed key, operator and value is read back, with or without the separator before it, and the rest of the line is left |
| `RuleText.TokenTakes` | kernel/driver/linux_driver_module_practise/c3/udev/udev-113/udev_rules_parse.c:81-173 | a token takes at least its key, one character, its value and two quotes off any line, so parsing ends |
| `RuleText.GetKeyAt` | kernel/driver/linux_driver_module_practise/c3/udev/udev-113/udev_rules_parse.c:81-173 | the scan with the moving pointer reads the token and stops at the rest of the line |
| `RulesWalkModel.AppliedWhenMatching` | kernel/driver/linux_driver_module_practise/c3/udev/udev-113/udev_rules.c:982-1123 | a visited rule is applied exactly when it matches the device as it is by then and does not name a device already named; so the first matching naming rule decides |
| `RulesEffect.GetNameMeans` | kernel/driver/linux_driver_module_practise/c3/udev/udev-113/udev_rules.c:982-1137 | for every buffer of rules and every way of matching: each visit is where the one before leads (behind its rule, or at the first rule found under the label of an applied GOTO); its rule is applied exactly if it matches the device as it is by then and sets no name that is set; it then does what its keys say and nothing else; and the walk ends behind the rules, with an applied last rule, or with a rule that makes the device ignored |
| `RulesEffect.ApplyMeans` | kernel/driver/linux_driver_module_practise/c3/udev/udev-113/udev_rules.c:995-1111 | what a rule does to a device that matches, key by key: owner, group and name become the text of the rule's own value, "+=" keeps the links and programs there are, in order, and adds the new ones, "=" and ":=" leave exactly the rule's, ":=" makes a setting final, a final setting and everything else stays; the text is filled in for the device as the keys before left it |
| `RulesEffect.AddNamesMeaning` | kernel/driver/linux_driver_module_practise/c3/udev/udev-113/udev_utils.c:57-85 | adding names one by one keeps the old list in front, has every name once, and new ones in the order in which they first occur |
| `RulesEffect.WordsReadBack` | kernel/driver/linux_driver_module_practise/c3/udev/udev-113/udev_rules.c:1061-1078 | the links found in a text are the words it was made of, whatever white space is before, between and behind them |
| `RulesEffect.OctalReadsBack` | kernel/driver/linux_driver_module_practise/c3/udev/udev-113/udev_rules_parse.c:566-571 | a mode written in octal is read as that mode, whatever follows |
| `RulesEffect.PriorityMeaning` | kernel/driver/linux_driver_module_practise/c3/udev/udev-113/udev_rules_parse.c:574-592 | the link priority is the number behind the first "link_priority=" in the last option that has one |
| `RulesEffect.GetRunMeans` | kernel/driver/linux_driver_module_practise/c3/udev/udev-113/udev_rules.c:1139-1192 | the walk that collects programs, in the same way: rules with a key for the node are passed over, an applied rule adds or replaces the programs by its own operator and changes nothing else, and the walk ends behind the rules, with a last rule or a ":=" among the programs, or with a rule that makes the device ignored |
| `RulesEffect.LineIsSaid` | kernel/driver/linux_driver_module_practise/c3/udev/udev-113/udev_rules_parse.c:184-195 | from the line to the walk: what the walk reads for a key of a packed rule is the operator of its line and what stands for the value there |
| `RulesWalkModel.NamesAreDecidedOnce` | kernel/driver/linux_driver_module_practise/c3/udev/udev-113/udev_rules.c:971-1137 | for every buffer and every way of matching: visited offsets increase, final settings never change again, at most one visit sets the name, and the name in the end is that one or else the kernel name |
| `RulesWalkModel.FinalSettingsStay` | kernel/driver/linux_driver_module_practise/c3/udev/udev-113/udev_rules.c:1018-1118 | once a rule with ":=" was applied, the mode (if not 0), owner, group, links or programs it assigns are the same at every later visit and in the end |
| `RulesWalkModel.DecidedNameIsText` | kernel/driver/linux_driver_module_practise/c3/udev/udev-113/udev_rules.c:1081-1100 | the name in the end is the text of the NAME value of the rule that decided it, filled in for the device as that rule's other settings left it |
| `RulesWalkModel.RunsOnlyCollect` | kernel/driver/linux_driver_module_practise/c3/udev/udev-113/udev_rules.c:1139-1192 | collecting programs visits increasing offsets, changes nothing that names or protects the node, and leaves a final list alone |
| `RulesWalkModel.FinalRunIsLast` | kernel/driver/linux_driver_module_practise/c3/udev/udev-113/udev_rules.c:1167-1176 | a ":=" among the programs is the last rule applied |
| `RulesWalk.Udevice.ApplyRule` | kernel/driver/linux_driver_module_practise/c3/udev/udev-113/udev_rules.c:995-1111 | the field updates of a matching rule have together the model's effect, which is what the rule's keys say |
| `RulesWalk.Udevice.AddLinks` | kernel/driver/linux_driver_module_practise/c3/udev/udev-113/udev_rules.c:1061-1078 | the text is cut at its blanks and each piece not yet there is added to the links, in order of first occurrence; the links there were stay in front |
| `RulesWalk.Udevice.GetName` | kernel/driver/linux_driver_module_practise/c3/udev/udev-113/udev_rules.c:971-1137 | the loop with early return, break and forward jumps leaves the device as a walk of the meaning of `GetNameMeans` does |
| `RulesWalk.Udevice.GetRun` | kernel/driver/linux_driver_module_practise/c3/udev/udev-113/udev_rules.c:1139-1192 | the loop that collects programs leaves the device as a walk of the meaning of `GetRunMeans` does |
| `FifoModel.BytesAreConserved` | song/kernel/drivers/globalfifo/ch12/globalfifo.c:99-209 | in every run of interleaved calls, what the successful reads have got since the last clear, in the order in which they had the mutex, followed by the bytes held, is what the successful writes have accepted of their data, by the count they return; and the buffer never overflows |
| `FifoModel.ReturnsExplained` | song/kernel/drivers/globalfifo/ch12/globalfifo.c:99-209 | in every run a finished call has a result that fits it: a read returns the number of bytes it got, at most as many as asked for; EAGAIN only without waiting; ERESTARTSYS only with a signal; no bytes with an error |
| `FifoModel.RunConserves` | song/kernel/drivers/globalfifo/ch12/globalfifo.c:99-209 | the same from any state, with the bytes moved before counted in |
| `FifoModel.ReaderGets` | song/kernel/drivers/globalfifo/ch12/globalfifo.c:111-138 | with the mutex held: an empty buffer sends a reader away or to sleep, a fault loses nothing, and otherwise it gets the first bytes held, as many as it asked for and there are, and the others stay |
| `FifoModel.WriterPuts` | song/kernel/drivers/globalfifo/ch12/globalfifo.c:164-193 | with the mutex held: a full buffer sends a writer away or to sleep, a fault changes nothing, and otherwise the first bytes of its data, as many as there is room for, stand behind those held |
| `FifoModel.ResultStays` | song/kernel/drivers/globalfifo/ch12/globalfifo.c:140-147 | a result does not change any more, whatever other calls and signals do, until the thread's next call |
| `FifoModel.SignalsAreSent` | song/kernel/drivers/globalfifo/ch12/globalfifo.c:120-123 | after any run a call has a signal pending exactly if one was sent to it and not before it began |
| `FifoModel.CallGoesOn` | song/kernel/drivers/globalfifo/ch12/globalfifo.c:99-209 | every step of a call brings it nearer to its end unless it falls asleep, which it does only at an empty or full buffer |
| `FifoModel.SleepingReaderMeansEmpty` | song/kernel/drivers/globalfifo/ch12/globalfifo.c:111-126 | whenever the mutex is free, a sleeping reader that was not woken waits for an empty buffer, in all runs |
| `FifoModel.SleepingWriterMeansFull` | song/kernel/drivers/globalfifo/ch12/globalfifo.c:164-180 | whenever the mutex is free, in runs without clear, a sleeping writer that was not woken waits for a full buffer, and no reader sleeps beside it |
| `FifoModel.WritersWaitKept` | song/kernel/drivers/globalfifo/ch12/globalfifo.c:60-68 | every other step keeps sleeping writers in front of a full buffer; the clearing step does so exactly when no writer is asleep |
| `FifoModel.ClearStrandsWriter` | song/kernel/drivers/globalfifo/ch12/globalfifo.c:60-68 | a legal run with the ioctl after which a writer sleeps although the buffer is empty and the mutex free |
| `FifoModel.MutexIsBalanced` | song/kernel/drivers/globalfifo/ch12/globalfifo.c:99-209 | every finished call has released the mutex exactly as often as it took it and does not hold it |
| `FifoModel.MutualExclusion` | song/kernel/drivers/globalfifo/ch12/globalfifo.c:99-209 | two calls never hold the mutex together |
| `FifoModel.Progress` | song/kernel/drivers/globalfifo/ch12/globalfifo.c:99-209 | without clear, some call can always go on unless all unfinished ones are readers asleep at an empty buffer or all are writers asleep at a full one |
| `FifoModel.RunKeeps` | song/kernel/drivers/globalfifo/ch12/globalfifo.c:54-209 | the device invariant holds after every legal run |
| `FifoModel.ShapeKept` | song/kernel/drivers/globalfifo/ch12/globalfifo.c:54-209 | each enabled step keeps the size of the memory and the bound on the length, so legality of runs hides no assumption |
| `GlobalFifo.Device.TakeBytes` | song/kernel/drivers/globalfifo/ch12/globalfifo.c:128-138 | the first bytes go out, the others move to the front, and both together are the bytes held before |
| `GlobalFifo.Device.PutBytes` | song/kernel/drivers/globalfifo/ch12/globalfifo.c:182-189 | the bytes are put behind those held; the others stay |
| `GlobalFifo.Device.ClearBytes` | song/kernel/drivers/globalfifo/ch12/globalfifo.c:62-65 | the buffer is zeroed and empty |
| `GlobalFifo.Device.ReadLocked` | song/kernel/drivers/globalfifo/ch12/globalfifo.c:111-143 | a reader holding the mutex takes the model's step; on success it has the first bytes held, as many as it asked for and there are, returns their number, and the others stay; otherwise the buffer is as it was |
| `GlobalFifo.Device.WriteLocked` | song/kernel/drivers/globalfifo/ch12/globalfifo.c:164-201 | a writer holding the mutex takes the model's step; on success the first bytes of its data, as many as there is room for, are behind those held, and it returns their number; otherwise the buffer is as it was |
| `GlobalFifo.Device.WakeUp` | song/kernel/drivers/globalfifo/ch12/globalfifo.c:140 | every sleeper of the role is woken and no other thread changes |
| `GlobalFifo.Device.Step` | song/kernel/drivers/globalfifo/ch12/globalfifo.c:99-209 | what a thread does between two scheduling points is the model's step |
| `GlobalFifo.Schedule` | song/kernel/drivers/globalfifo/ch12/globalfifo.c:54-209 | any legal schedule ends in the model's state of that run, with the invariant kept and the bytes conserved |

## Left out

- udevd: debug tracing, sockets, signals, the parsing of kernel messages, the sequence number file;
  events with a timeout bypass the queue and are outside the order theorems. An event whose fork
  fails counts as finished, as the daemon treats it. Sequence numbers arrive in increasing order.
- EventQueue.MarkersAreExact: marker names are whole encodings; the source cuts them, with the
  directory in front, at `PATH_SIZE`, so that very long paths may share a marker.
- Udevd.Daemon.ExportEventState: names of marker files are not cut at `PATH_SIZE`, as above.
- simplefs: `simplefs_read`, directory iteration, VFS caches, locks interrupted by signals and
  crash recovery. Operations are atomic and the in-memory inode equals its slot. A data block has
  two readings, records and bytes; writing one disturbs the other in a way the model leaves open.
- SimpleFsModel.LookupIsExact: data blocks stay below 31, where the driver's masks have one bit, a
  directory fits its block, and names are shorter than 25 characters; VFS guarantees that a created
  name is absent and that only files are unlinked.
- SimpleFsModel.WriteContents: a write ends inside its 4096-byte block; the driver does not check
  that, and what it does beyond the block is outside the model.
- SimpleFsModel.WriteKeeps: writes inside the block, as above.
- SimpleFs.Disk.WriteFile: writes inside the block, as above.
- SimpleFs.Disk.CreateFsObject: below block 31 there is always room, so the exits for a full store or
  bitmap are not reached; from there on the shift in the driver's masks has no portable meaning.
- DbRecord.ParsePrint: fields fit their buffers, lists have no duplicates, numbers fit their C types;
  a device number that cannot be read and a line too short for its key are not files the writer
  makes, and reading them gives none in the model.
- Device events: partition nodes of all_partitions, ownership and SELinux labels, renaming of
  network interfaces, devices with major number 0, several event processes at once.
- DeviceDbModel.StoredBack: the symlink form does not keep priority and device number, as in the
  source; no link needs them, because only devices without links are stored so.
- DeviceDbModel.StoresAgree: names for nodes and names for links are disjoint, events are not
  suppressed and node creation succeeds; without these the index is still exact (`IndexIsInverse`).
- PathCoding.PathEncode: the encoding fits three times the buffer, the size of the temporary copy.
- Rules: reading of files, comments and continued lines; the automatic choice of an IMPORT type; the
  MODE and OPTIONS values and the attributes in braces are kept as text and interpreted when a rule is
  applied. The header of a rule is a typed value at its offset; its bytes in the buffer are filler.
  Values are not cut at `PATH_SIZE`; those of a line that the reader accepts are shorter.
- RulesWalk: matching and format substitution are parameters; buffers are unbounded strings; the
  temporary node is not modelled. A MODE is octal digits; a sign in front of them, or a number beyond
  32 bits, is not modelled.
- globalfifo: poll, asynchronous notification and the module's set-up; the overlapping copy is a
  move. A failed copy leaves the bytes behind the length as they were.
- volume_id: the label and uuid setters, the probers, failing allocations and reads with I/O errors,
  and offsets whose sum with the length wraps around.
- Lists: failing allocations. The poisoned pointers of a deleted entry are null.
