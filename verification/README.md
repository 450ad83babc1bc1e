# Verified models of the Trusted Firmware-A boot and runtime core

This project models, in Dafny, the parts of Trusted Firmware-A that carry its
hardest guarantees, and proves those guarantees for every input and every run:

- the firmware-update (FWU) state machine of BL1;
- the block I/O layer, which turns an aligned block device into a byte file;
- authentication of images along a chain of trust, with anti-rollback counters;
- the EL3 exception priorities of BL31;
- GPT loading, CRC-32, firmware image packages (FIP) and the I/O handle pool;
- the runtime-service dispatch table;
- the SMT channel lock of the SCMI server, and the busy-wait delay timer.

`dafny verify dfyconfig.toml` checks everything.

## How the models are built

Code that changes state in place is a class whose methods are proved against
functions or relations on values; the properties over whole runs are lemmas about
those. A failed `assert`, a `panic()` or a call of `plat_error_handler()` ends a run:
it is an outcome of its own (`Halted`, `Stopped`, `Halt`), and the lemmas say where
a run can end that way. Sizes, addresses and counters are natural numbers; wrap-around
is written out wherever the C type would wrap.

What the code cannot decide is left open. Platform hooks, crypto, image parsers,
storage and the interrupt controller answer as they like, through parameters or
non-deterministic choice. Where a device may fail, a constant `reliable` marks one that
serves every request in full, and the contracts say that the operation then succeeds.

Some properties that the code suggests are false of it. In each case the model keeps
the code as it is, the first member named gives an input or a run that fails, and the
last says exactly when the property holds:

- the overlap check of FWU stops the machine on a loaded one-byte image
  (`OneByteImageStops`, `CopyStopsIff`);
- resetting an interrupted secure image makes a later resume stop the machine
  (`ResetRunStops`, `StepKeeps`);
- after a nested deactivation the exception framework leaves the mask at the priority
  just dropped, so that priority cannot be activated again (`ReactivationRun`,
  `ActivationMaskIff`);
- a level left under a value below that of the last activation or deactivation reaches
  the mask panic (`NonCanonicalHalts` and `NonSecureRun`, `RunHaltsOnDeactivationMaskIff`);
- an SMT message of bad length or status leaves its channel busy for good
  (`ShortMessageSticks`, `StuckIff`);
- a leaving SMT context marks a channel free that is in use (`RefusedMarksFree` and
  `ServedMarksFree`, `MarksFreeWhileHeldIff`);
- the counter decoder takes integers that are not DER (`RedundantZeroAccepted`,
  `AcceptedIsDerIff`);
- the lookup of an authentication parameter follows a NULL type pointer
  (`UnusedSlotFaults`, `FindSlotMeaning`);
- reads of a package file of 4 GiB or more return its start again (`ReadPastFourGib`,
  `TraceExactIff`);
- a delay polled too rarely waits a whole turn of the counter more (`LongerGapMisses`,
  `SafeIff`);
- a GPT entry so far out that its byte offset overflows is published in the wrong place
  (`FarPartitionWraps`, `FoundPlacement`);
- a GPT header that puts its array as far out has it read from the wrong place
  (`FarArrayWraps`, `OffsetExactIff`).

## Files

| file | content |
|---|---|
| `Words.dfy`, `Bits.dfy` | machine words and bytes; bitwise operations on numbers |
| `FwuModel.dfy`, `FwuInvariants.dfy`, `FwuContent.dfy`, `FwuTransfer.dfy`, `FwuEffects.dfy`, `FwuService.dfy` | firmware update: handlers, what runs keep, what lies in memory, what was sent, which requests are accepted and what is wiped, the service as a class |
| `Alignment.dfy`, `BlockDevices.dfy`, `BlockIo.dfy` | block arithmetic, stretches of bytes and devices, the block layer |
| `Der.dfy`, `AuthModel.dfy`, `AuthModule.dfy`, `CotForest.dfy`, `ImageLoad.dfy` | counters, histories of the authentication module, the module, acyclic chains, loading |
| `Ehf.dfy` | exception priorities |
| `Crc32.dfy`, `CrcConstants.dfy`, `Streams.dfy`, `Gpt.dfy`, `IoStorage.dfy`, `Fip.dfy`, `FipPackage.dfy` | CRC-32 and its constants, opened images, partition tables, I/O handles, packages and what is in them |
| `RuntimeSvc.dfy` | runtime-service dispatch |
| `SmtChannel.dfy`, `DelayTimer.dfy` | SCMI channel lock, delays |

## Model

| member | source | states |
|---|---|---|
| FwuModel.Find | bl1/bl1_fwu.c:120-158 | the first slot that holds an id, or the table's length exactly when none does |
| FwuModel.TakeSlot | bl1/bl1_fwu.c:334-353 | getting a slot for a copy changes nothing but the table, also when the platform refuses the image |
| FwuModel.Clipped | bl1/bl1_fwu.c:324-332 | the block written never passes the declared size and is non-empty when bytes remain |
| FwuInvariants.BootInv | bl1/bl1_fwu.c:106-114 | the state in which BL1 starts the update satisfies the invariant of all runs |
| FwuInvariants.AddLoadedCounts | bl1/bl1_fwu.c:120-139 | adding an absent image fails exactly when there is no free slot, and otherwise puts in one occurrence and changes no other image's count |
| FwuInvariants.RemoveLoadedCounts | bl1/bl1_fwu.c:145-158 | removing a loaded image takes out exactly one occurrence and changes no other image's count |
| FwuInvariants.AddThenRemove | bl1/bl1_fwu.c:120-158 | removing what was just added gives back the very same table |
| FwuInvariants.LoadedIff | bl1/bl1_fwu.c:120-158 | under the invariant every image but the booted one is in the table exactly once if its state is not RESET and not at all otherwise |
| FwuInvariants.OverlapNeverStale | bl1/bl1_fwu.c:187-195 | the overlap check never meets a RESET image, so its state assertion cannot fail |
| FwuInvariants.CopyKeeps | bl1/bl1_fwu.c:227-366 | every copy keeps the invariant, and can stop the machine only at the end-address assertion of the overlap check |
| FwuInvariants.AuthKeeps | bl1/bl1_fwu.c:371-502 | every authentication, in place or after a copy, passing or failing, keeps the invariant; it stops the machine exactly when it passes and the post-load hook fails |
| FwuInvariants.SwitchKeeps | bl1/bl1_fwu.c:507-618 | execute and resume keep the invariant; only a non-secure resume of an image that is not INTERRUPTED stops the machine, and it always does |
| FwuInvariants.DoneKeeps | bl1/bl1_fwu.c:623-675 | none of the assertions of SEC_IMAGE_DONE can fail in a reachable state |
| FwuInvariants.ResetKeeps | bl1/bl1_fwu.c:696-749 | reset keeps the invariant and stops the machine exactly for the image that BL1 booted; its security assertion cannot fail |
| FwuInvariants.StepKeeps | bl1/bl1_fwu.c:58-100 | one request of any kind keeps the invariant; the complete list of places where it may stop the machine, and for every request the exact condition under which it does |
| FwuInvariants.FirstBlocked | bl1/bl1_fwu.c:185-219 | the first table entry that does not pass decides the overlap check |
| FwuInvariants.OverlapEndIff | bl1/bl1_fwu.c:197-210 | the end-address assertion fails exactly when a one-byte or wrapping image is in the table and every entry before it is empty, the image itself, of size zero or apart from the requested region |
| FwuInvariants.CopyStopsIff | bl1/bl1_fwu.c:227-366 | exactly which copy requests stop the machine: first copies that pass the argument checks, with such an image in the table |
| FwuInvariants.RunKeeps | bl1/bl1_fwu.c:58-100 | over every sequence of requests from boot the invariant holds: table, copy progress, world and executed image |
| FwuInvariants.SecureWorldIffExecuted | bl1/bl1_fwu.c:507-675 | in every reachable state a secure image is EXECUTED exactly when the secure world runs and `sec_exec_image_id` names it |
| FwuInvariants.SecureWorldHasImage | bl1/bl1_fwu.c:507-675 | in every reachable state the secure world runs exactly when some secure image is EXECUTED |
| FwuInvariants.RunHaltsOnlyAt | bl1/bl1_fwu.c:58-100 | no run ends at any other assertion than the listed ones |
| FwuInvariants.CopyAdvances | bl1/bl1_fwu.c:324-362 | an accepted copy strictly advances the copied size, up to the image size, and the state says whether it is complete |
| FwuInvariants.ResumeRoundTrip | bl1/bl1_fwu.c:556-618 | interrupting the secure image and resuming it gives back the very same state |
| FwuInvariants.ExecuteThenDone | bl1/aarch64/bl1_context_mgmt.c:70-117 | an accepted execute makes this image the running one; when it reports done, all that is left changed is its own state and its freed slot |
| FwuInvariants.OneByteImageStops | bl1/bl1_fwu.c:197-210 | a concrete platform and run: copying a one-byte image and then another stops the machine at the end-address assertion |
| FwuInvariants.ResetThenResumeStops | bl1/bl1_fwu.c:586-590 | in every reachable state with an interrupted image, resetting that image and resuming stops the machine |
| FwuInvariants.ResetRunStops | bl1/bl1_fwu.c:586-590 | on every platform with a secure executable image, a run of six requests from boot that ends so |
| FwuContent.ReadAfterAppend | bl1/bl1_fwu.c:355-358 | a block appended to a region reads back as the concatenation |
| FwuContent.ClearMeansApart | bl1/bl1_fwu.c:164-222 | a clear overlap check means the image is disjoint from every loaded secure image |
| FwuContent.CopyContent | bl1/bl1_fwu.c:227-366 | a copy keeps disjointness and keeps every loaded image equal to its accepted blocks |
| FwuContent.AuthContent | bl1/bl1_fwu.c:371-502 | an authentication keeps them too, unless the secure world gets a secure image authenticated outside its own region; what was copied is recorded as verified |
| FwuContent.ControlContent | bl1/bl1_fwu.c:507-749 | so do execute, resume, done and reset: what a reset wipes belongs to no other loaded image (that it is wiped: `FwuEffects.ResetWipes`) |
| FwuContent.RunContent | bl1/bl1_fwu.c:58-100 | over every run without such an authentication the content invariant holds |
| FwuContent.LoadedImagesDisjoint | bl1/bl1_fwu.c:164-222 | in every such run two loaded secure images occupy disjoint regions |
| FwuContent.ExecutedImageIsVerified | bl1/bl1_fwu.c:227-550 | in every such run a secure image that is EXECUTED holds exactly the concatenation of its accepted blocks, the bytes that authentication verified |
| FwuTransfer.CopyTakesPrefix | bl1/bl1_fwu.c:324-362 | an accepted copy takes in the block sent from its first byte on, all of it unless it completes the image |
| FwuTransfer.RunKeepsSent | bl1/bl1_fwu.c:58-100 | over every such run what a loaded secure image took in is a prefix of what was sent for it, and all of it while the copy goes on |
| FwuTransfer.ImageIsWhatWasSent | bl1/bl1_fwu.c:227-550 | in every such run the memory of a loaded secure image holds the first bytes that were sent for it, as many as its size once the copy is complete; if it executes, those are the bytes that were authenticated |
| FwuEffects.CopyAcceptedIff | bl1/bl1_fwu.c:227-366 | in every reachable state exactly which copies are accepted: arguments, mapping, room in the table and, for a first copy, a region apart from all loaded ones and the platform's consent |
| FwuEffects.CopyRefusals | bl1/bl1_fwu.c:227-366 | a refused copy answers EPERM or ENOMEM, and exactly when it is ENOMEM |
| FwuEffects.AuthAcceptedIff | bl1/bl1_fwu.c:371-502 | exactly which authentications succeed and exactly which answer EAUTH |
| FwuEffects.AuthRefusals | bl1/bl1_fwu.c:371-440 | exactly which authentications answer ENOMEM; all others that do not reach the module answer EPERM |
| FwuEffects.InPlaceEffect | bl1/bl1_fwu.c:413-501 | an image authenticated where it lies gets the size and the verified bytes of the request, a slot and its flag, and no memory is touched |
| FwuEffects.ExecuteAcceptedIff | bl1/bl1_fwu.c:507-550 | the normal world can start exactly an authenticated, executable, secure image |
| FwuEffects.ResumeRefusedIff | bl1/bl1_fwu.c:556-618 | a resume is refused exactly when the normal world asks and no image was started; otherwise it passes the argument on and changes worlds |
| FwuEffects.ResetAcceptedIff | bl1/bl1_fwu.c:696-749 | a reset succeeds exactly from the normal world and for any image but the booted one |
| FwuEffects.DoneAcceptedIff | bl1/bl1_fwu.c:623-675 | done succeeds exactly from the secure world |
| FwuEffects.ResetWipes | bl1/bl1_fwu.c:720-741 | resetting a loaded secure image zeroes exactly the bytes copied for it, leaves every other byte alone, takes it out of the table and clears its flag |
| FwuEffects.FailedAuthWipes | bl1/bl1_fwu.c:448-474 | a failed authentication of a copied image zeroes exactly the image, and unloads it |
| FwuEffects.RunWipes | bl1/bl1_fwu.c:58-100 | over every such run nothing copied to a secure image outlives its reset or its failed authentication |
| FwuService.Service.constructor | bl1/bl1_fwu.c:106-114 | the service starts in the boot state with an empty table |
| FwuService.Service.IndexOf | bl1/bl1_fwu.c:120-158 | the search loop of the table finds the first occurrence |
| FwuService.Service.AddLoadedId | bl1/bl1_fwu.c:120-139 | updates the array as the model's table |
| FwuService.Service.RemoveLoadedId | bl1/bl1_fwu.c:145-158 | updates the array as the model's table |
| FwuService.Service.ImageCheckOverlaps | bl1/bl1_fwu.c:164-222 | the loop computes the model's overlap result, the assertions included |
| FwuService.Service.ImageCopy | bl1/bl1_fwu.c:227-366 | the whole new state and the reply are those of the model's copy step |
| FwuService.Service.GetSlot | bl1/bl1_fwu.c:334-353 | mapping, table slot and announcement of a copy, as in the model |
| FwuService.Service.CommitBlock | bl1/bl1_fwu.c:355-362 | memory, copied size and state after an accepted block, as in the model |
| FwuService.Service.ImageAuth | bl1/bl1_fwu.c:371-502 | the whole new state and the reply are those of the model's authentication step |
| FwuService.Service.Judge | bl1/bl1_fwu.c:445-501 | what a passing and a failing verdict do to image, table, flags and memory |
| FwuService.Service.ImageExecute | bl1/bl1_fwu.c:507-550 | the whole new state and the reply are those of the model's execute step |
| FwuService.Service.ImageResume | bl1/bl1_fwu.c:556-618 | the whole new state and the reply are those of the model's resume step |
| FwuService.Service.ImageDone | bl1/bl1_fwu.c:623-675 | the whole new state and the reply are those of the model's done step |
| FwuService.Service.ResetImage | bl1/bl1_fwu.c:696-749 | the whole new state and the reply are those of the model's reset step, which `FwuEffects.ResetWipes` and `FwuEffects.ResetAcceptedIff` say in full |
| FwuService.Service.Serve | bl1/bl1_fwu.c:58-100 | any request takes the service from one model state to the next, so the run lemmas apply to it |
| FwuService.Service.ServeAll | bl1/bl1_fwu.c:58-100 | any requests from boot run as in the model up to one that stops the machine; otherwise the invariant holds in the end, and loaded secure images lie apart and hold their content |
| Alignment.RequestFits | drivers/io/io_block.c:336-368 | the masks and rounding give a request that starts on the block boundary below the position, is a positive number of whole blocks, fits the bounce buffer and does not pass the end of the region |
| Stretches.PrefixWritten | drivers/io/io_block.c:538-553 | writing any prefix of a prepared bounce buffer changes exactly the bytes that the user's data covers |
| Stretches.OverlayIsMixed | drivers/io/io_block.c:507-536 | user data laid over blocks as read is such a prepared buffer |
| Stretches.SplicedJoin | drivers/io/io_block.c:455-554 | two adjacent writes are one write of the concatenation |
| BlockDevices.Device.Read | drivers/io/io_block.c:369 | a device is asked only for whole aligned blocks of the opened region, and returns some prefix of them |
| BlockDevices.Device.Write | drivers/io/io_block.c:538 | likewise for writes, which change exactly the prefix transferred |
| BlockIo.DevOpen | drivers/io/io_block.c:567-598 | a device is accepted exactly when its block size is a power of two and its bounce buffer is non-empty, aligned and made of whole blocks |
| BlockIo.BlockFile.Open | drivers/io/io_block.c:129-156 | a region is accepted exactly when it is non-empty, made of whole blocks and addressable; the cursor is then at its start |
| BlockIo.BlockFile.DoSeek | drivers/io/io_block.c:159-189 | the cursor moves exactly as on a flat file, refusals included, despite 64-bit wrap-around |
| BlockIo.BlockFile.Plan | drivers/io/io_block.c:336-368 | the next request is well-formed for the device, and is refused only if its block number does not fit an `int` |
| BlockIo.BlockFile.ReadChunk | drivers/io/io_block.c:327-395 | one turn delivers a non-empty stretch of what the disk holds at the cursor, or fails and moves nothing |
| BlockIo.BlockFile.ReadLoop | drivers/io/io_block.c:326-397 | the loop ends and has delivered exactly what the disk holds from the cursor on |
| BlockIo.BlockFile.DoRead | drivers/io/io_block.c:280-400 | a read is the read of the flat file: all of it, or an exact prefix on failure; it succeeds in range on a reliable disk |
| BlockIo.BlockFile.WholeBlocks | drivers/io/io_block.c:514-519 | a short read is cut to whole blocks |
| BlockIo.BlockFile.Overlay | drivers/io/io_block.c:529-536 | after the copy the bounce buffer holds the user's bytes and elsewhere the disk's |
| BlockIo.BlockFile.Fill | drivers/io/io_block.c:498-536 | with or without reading first, the bounce buffer is prepared so that any prefix may be written |
| BlockIo.BlockFile.Flush | drivers/io/io_block.c:538-553 | a short write puts exactly the user's first bytes on the disk, or changes nothing |
| BlockIo.BlockFile.WriteChunk | drivers/io/io_block.c:455-554 | one turn writes a non-empty prefix of the remaining data at the cursor and nothing else, or changes nothing |
| BlockIo.BlockFile.WriteLoop | drivers/io/io_block.c:454-556 | the loop ends and has written exactly a prefix of the data |
| BlockIo.BlockFile.DoWrite | drivers/io/io_block.c:408-559 | a write is the write of the flat file: all of it, or an exact prefix on failure, with no other byte changed; it succeeds in range on a reliable disk |
| BlockIo.BlockFile.Perform | drivers/io/io_block.c:159-559 | one seek, read or write is one step of the flat file |
| BlockIo.BlockFile.PerformAll | drivers/io/io_block.c:159-559 | any sequence of operations is a run of the flat file |
| BlockIo.RunKeepsOutside | drivers/io/io_block.c:408-559 | over any run no byte of the disk outside the opened region changes and the region stays where it is |
| BlockIo.SeekMeaning | drivers/io/io_block.c:159-189 | a seek succeeds exactly when it goes forward and stays in the region, and moves only the cursor; from the current position it is a seek from the start to the sum |
| BlockIo.WriteThenReadBack | drivers/io/io_block.c:159-559 | writing, seeking back and reading returns what was written |
| BlockIo.RetryCompletes | drivers/io/io_block.c:408-559 | writing the rest after a failed write gives the disk and the cursor of one successful write |
| Der.Decode | drivers/auth/auth_mod.c:346-379 | the decoder accepts exactly the tagged integers of one to four bytes with a clear top bit, and returns their big-endian value |
| Der.AcceptedBelow31Bits | drivers/auth/auth_mod.c:360-379 | no value of 2^31 or more is accepted |
| Der.RoundTrip | drivers/auth/auth_mod.c:346-379 | decoding inverts the DER encoding of every integer below 2^31 (section 8.3 of X.690) |
| Der.AcceptedIsDerIff | drivers/auth/auth_mod.c:346-379 | what is accepted is the DER encoding of its value exactly when it has no redundant leading zero |
| Der.RedundantZeroAccepted | drivers/auth/auth_mod.c:346-379 | a concrete input: 5 with a leading zero is accepted and is not DER |
| AuthModel.FindSlotMeaning | drivers/auth/auth_mod.c:44-63 | the lookup follows a NULL type pointer exactly when an unused slot comes before every match, finds nothing exactly when all slots are of other types, and otherwise finds the first match |
| AuthModel.UnusedSlotFaults | drivers/auth/auth_mod.c:44-63 | a concrete input that follows the NULL pointer |
| AuthModel.PassingIsChecked | drivers/auth/auth_mod.c:90-414 | an image passes exactly when it is sound and every one of its methods was checked, spelled out: its hash against the parent's, its signature with the parent's key or, for a root, with its own key that the platform's root key is, hashes to or is not deployed for, and its counter not below the platform's |
| AuthModel.AllChecksMade | drivers/auth/auth_mod.c:499-530 | in every legal history each image that passed had every one of these checks made |
| AuthModel.AcceptsIff | drivers/auth/auth_mod.c:469-595 | exactly when an image is accepted: these checks, the platform's answers, a counter that can be written if it is to be raised, and every parameter for the children there, fitting and, if a key, published |
| AuthModel.PendingIff | drivers/auth/auth_mod.c:392-409 | a counter write is pending exactly when the last counter that is newer than the platform's may be upgraded |
| AuthModel.PendingValue | drivers/auth/auth_mod.c:499-544 | and it is of the value of the last counter method |
| AuthModel.NewerIsRaised | drivers/auth/auth_mod.c:532-544 | an image with a signature method whose last counter is newer and upgradable has that counter written with the certificate's value |
| AuthModel.PendingIsCarried | drivers/auth/auth_mod.c:499-544 | the counter write left pending after the methods is of a value one of the certificate's counters carries, not below the platform's |
| AuthModel.CountersNeverDecrease | drivers/auth/auth_mod.c:532-544 | over any history of verifications no platform counter ever goes down |
| AuthModel.CounterChangeIsAuthorised | drivers/auth/auth_mod.c:499-544 | a counter that changed holds the value that a well-formed certificate counter carried for it; the certificate's image has a signature method, and the certificate had passed all the image's methods before |
| AuthModel.BufferByteIsVerified | drivers/auth/auth_mod.c:546-589 | if no two images share a buffer, every byte of a buffer that was ever copied to was extracted from content of its one owner that had passed all the owner's methods |
| AuthModel.UncoveredIsInitial | drivers/auth/auth_mod.c:546-589 | every other byte of a buffer is what it was at first |
| AuthModel.BufferStartIsWhole | drivers/auth/auth_mod.c:546-589 | a buffer that was ever copied to starts with one whole parameter of its one owner's verified content, the last that was copied |
| AuthModel.HashCheckRestsOnParent | drivers/auth/auth_mod.c:90-127 | if parents are flagged first, the data of any image accepted by hash hashes to what its parent's buffer held, which started with one whole parameter of verified content of the parent |
| AuthModel.KeyRestsOnParent | drivers/auth/auth_mod.c:207-214 | likewise the signature of an image with a parent was verified over its data with such a key |
| AuthModel.AllChecksRest | drivers/auth/auth_mod.c:90-307 | so every hash and every key that an image with a parent was checked against came from verified content of the parent |
| AuthModel.ParentsStayFirst | drivers/auth/auth_mod.c:428-450 | verifying an image whose parent is flagged keeps it true that every image passed after its parent was flagged |
| AuthModel.FlagMeansVerified | drivers/auth/auth_mod.c:592 | a flag was set only for content that had passed all methods and had been copied to every parameter buffer |
| AuthModel.FlaggedIsFilled | drivers/auth/auth_mod.c:44-63 | what a lookup in a flagged image finds starts with one whole parameter of verified content of that image |
| AuthModule.Auth.GetParamOf | drivers/auth/auth_mod.c:44-63 | the loop is the model's lookup |
| AuthModule.Auth.AuthHash | drivers/auth/auth_mod.c:90-127 | passes exactly when the image's data hashes to what was kept from its parent |
| AuthModule.Auth.FindKey | drivers/auth/auth_mod.c:204-293 | the key is the parent's, or the image's own once the platform's root key vouches for it; fails exactly otherwise |
| AuthModule.Auth.AuthSignature | drivers/auth/auth_mod.c:156-307 | passes exactly as the model's signature check, which `AuthModel.PassingIsChecked` spells out, and for a root only if the key could be measured |
| AuthModule.Auth.AuthNvCtr | drivers/auth/auth_mod.c:324-414 | passes exactly when the certificate's counter is well-formed and not below the platform's, and reports whether it is newer |
| AuthModule.Auth.CheckMethods | drivers/auth/auth_mod.c:499-530 | succeeds exactly when every method does, and leaves the pending counter write and the signature flag of the model |
| AuthModule.Auth.UpgradeCounter | drivers/auth/auth_mod.c:537-538 | the counter write is a legal effect: verified, signed for and not a decrease |
| AuthModule.Auth.RecordAndUpgrade | drivers/auth/auth_mod.c:532-544 | a counter is written exactly when that is pending and the platform can write it |
| AuthModule.Auth.Store | drivers/auth/auth_mod.c:569-571 | a parameter is copied to the start of its buffer, after its content was verified |
| AuthModule.Auth.ExtractOne | drivers/auth/auth_mod.c:550-588 | succeeds exactly when the parameter is there, fits and, for a key, could be published |
| AuthModule.Auth.Extract | drivers/auth/auth_mod.c:546-589 | succeeds exactly when all do, and all are then stored |
| AuthModule.Auth.VerifyImg | drivers/auth/auth_mod.c:469-595 | exactly when it succeeds; exactly which counter it writes and when; flags the image exactly on success; adds only legal effects of this content of this image, and none if a method fails |
| AuthModule.Auth.Commit | drivers/auth/auth_mod.c:532-594 | the same from the point where all methods have passed |
| AuthModule.Auth.MarkAuthenticated | drivers/auth/auth_mod.c:591-592 | sets the flag and nothing else |
| AuthModule.Auth.GetParentId | drivers/auth/auth_mod.c:428-450 | the parent, exactly when there is one that is not yet authenticated |
| CotForest.PathEnds | common/bl_common.c:179-214 | in a finite chain of trust without cycles every way up ends within the number of images |
| CotForest.AncestorsFlagged | drivers/auth/auth_mod.c:428-450 | if every flagged image's parent is flagged, so is every ancestor |
| CotForest.AcyclicIsForest | common/bl_common.c:179-214 | such a chain can be ranked by depth, which is what the recursion needs |
| ImageLoad.ImageInfo.LoadImage | common/bl_common.c:73-172 | succeeds exactly when the image is there, fits and is read in full, and then holds exactly its bytes; an image that is too big touches no memory |
| ImageLoad.Loader.LoadAndVerify | common/bl_common.c:194-213 | succeeds and flags the image exactly when it loads and verification accepts it; a failed verification leaves the image's bytes zero |
| ImageLoad.Loader.LoadRecursive | common/bl_common.c:179-214 | terminates by depth; authenticates the parent first; keeps the parent of every flagged image flagged; success flags the requested image; only it and images above it are newly flagged; with the parent ready it succeeds exactly when the image loads and is accepted |
| ImageLoad.Loader.LoadAuthImage | common/bl_common.c:236-273 | the same over all retries: a failure other than of the measurement does not flag the image, and with the parent ready it means that no instance was there in full and sure to be accepted |
| ImageLoad.Loader.LoadAll | common/bl_common.c:236-273 | on any finite chain of trust without cycles and over any sequence of loads: a flagged image has all its ancestors flagged, every successful load flagged its image, every image that passed had its hash, signature and counter checks made, every hash and key from a parent came from verified content of that parent, and if the images go to separate places each place holds in the end the verified image or, after a failed verification, zeroes |
| PriorityBitmap.TopIsLowestBit | bl31/ehf.c:80-87 | the lowest set bit of the bitmap is the top of the stack it stands for |
| PriorityBitmap.SetBitPushes | bl31/ehf.c:131-132 | setting a bit below all others is a push |
| PriorityBitmap.ClearLowestPops | bl31/ehf.c:198-199 | clearing the lowest bit is a pop |
| Ehf.StepConservesNsMask | bl31/ehf.c:99-369 | every operation that does not stop the machine conserves the normal world's mask, wherever it is kept |
| Ehf.RunConservesNsMask | bl31/ehf.c:99-369 | so does every run |
| Ehf.NormalWorldGetsItsMaskBack | bl31/ehf.c:284-323 | after any run, entering the normal world with nothing active programs its own mask |
| Ehf.AllowedMeansOwnMask | bl31/ehf.c:375-398 | after any run, preemption is reported as allowed only while the mask programmed is the one the normal world had |
| Ehf.ExitMasksNormalWorld | bl31/ehf.c:241-271 | after any run, leaving the normal world with nothing active programs 0x80, keeps the normal world's own mask and makes preemption not allowed |
| Ehf.AllowingRestoresMask | bl31/ehf.c:336-369 | after any run, allowing preemption programs the normal world's own mask and is reported |
| Ehf.RunKeepsMasked | bl31/ehf.c:284-323 | in every run from a state with no mask kept aside, the normal world is masked with 0x80 as long as its mask is kept, so the panic on an unexpected mask is unreachable |
| Ehf.PriorityBits | include/bl31/ehf.h:24-25 | the level index and the security of a priority are what the masks and the shift compute |
| Ehf.StepIsStackOperation | bl31/ehf.c:99-228 | an activation pushes a level above all others, a deactivation pops that very level, nothing else touches the stack |
| Ehf.RunRefinesStack | bl31/ehf.c:99-228 | over any run the bitmap is the stack of the stack machine |
| Ehf.StepKeepsMaskBelowTop | bl31/ehf.c:166-228 | with canonical priorities the hardware mask never exceeds the top active priority |
| Ehf.RunNeverHaltsOnDeactivationMask | bl31/ehf.c:221-225 | so in every run the mask panic of a deactivation is unreachable |
| Ehf.DeactivationMaskIff | bl31/ehf.c:221-225 | after any run from a state with nothing active, a deactivation ends in the mask panic exactly when it passes the other checks and its value is below that of the last activation or deactivation |
| Ehf.RunHaltsOnDeactivationMaskIff | bl31/ehf.c:221-225 | a run ends in that panic exactly when it contains such a drop |
| Ehf.SecureDropIff | bl31/ehf.c:221-225 | with secure priorities only, a drop is a level left under a smaller value than it was just entered under |
| Ehf.RunGoverns | bl31/ehf.c:99-228 | over any run the last level entered or left determines the mask and bounds the top level |
| Ehf.NonCanonicalHalts | bl31/ehf.c:221-225 | a concrete run with a non-canonical priority reaches it |
| Ehf.NonSecureRun | bl31/ehf.c:221-225 | a concrete run with priorities of 0x80 and above that reaches the panic after a deactivation |
| Ehf.UnwindingRestoresMask | bl31/ehf.c:99-228 | whatever happens between a first activation and the last deactivation, world switches included, the mask held before comes back |
| Ehf.NestedDeactivationMask | bl31/ehf.c:201-219 | after a nested deactivation the mask is the priority just dropped, below that of the level now on top |
| Ehf.ReactivationHalts | bl31/ehf.c:139-144 | that priority can then not be activated again |
| Ehf.ReactivationRun | bl31/ehf.c:139-144 | a concrete run of four operations that panics so |
| Ehf.ActivationMaskIff | bl31/ehf.c:139-144 | after any run that leaves some level active, an activation ends in its mask panic exactly when it passes the other checks and its value is not below that of the last activation or deactivation |
| Ehf.LevelOpDoneIff | bl31/ehf.c:99-228 | after any run that leaves some level active, exactly which activations and deactivations go through |
| Ehf.SecureActivationMask | bl31/ehf.c:139-144 | with secure priorities only, that needs a nested deactivation just before |
| Ehf.Pe.ActivatePriority | bl31/ehf.c:99-154 | the whole per-CPU state and the mask change as in the model, panics included |
| Ehf.Pe.DeactivatePriority | bl31/ehf.c:166-228 | the whole per-CPU state and the mask change as in the model, panics included |
| Ehf.Pe.ExitedNormal | bl31/ehf.c:241-271 | the whole per-CPU state and the mask change as in the model, assertions included; `Ehf.ExitMasksNormalWorld` says what that is |
| Ehf.Pe.EnteringNormal | bl31/ehf.c:284-323 | the whole per-CPU state and the mask change as in the model, panics included |
| Ehf.Pe.AllowPreemption | bl31/ehf.c:336-369 | the whole per-CPU state and the mask change as in the model, panics included |
| Ehf.Pe.Perform | bl31/ehf.c:99-369 | any operation is one step of the model, so the run lemmas apply |
| Ehf.Pe.PerformAll | bl31/ehf.c:99-369 | any operations run as in the model, up to one that stops the machine |
| Ehf.Pe.PerformThenAsk | bl31/ehf.c:375-398 | after any operations, a yes to whether preemption is allowed means that the mask programmed is the one the normal world had |
| Crc32.Compute | common/tf_crc32.c:26-44 | the loop computes the bit-serial reflected CRC of the buffer on top of the given one; `CrcConstants.CheckValue` and `CrcConstants.Residue` show that it is CRC-32 |
| Crc32.CrcConcat | common/tf_crc32.c:26-44 | chaining over two chunks is one pass over their concatenation |
| Crc32.BitStepInjective | common/tf_crc32.c:37-41 | one bit of the register maps different 32-bit states to different states |
| Crc32.ByteStepBijective | common/tf_crc32.c:37-41 | each byte step is a bijection: every 32-bit state has exactly one state before it |
| Crc32.FoldInjective | common/tf_crc32.c:37-41 | so any sequence of bytes maps different states to different states |
| Crc32.BurstDetected | common/tf_crc32.c:26-44 | two buffers that differ only within four adjacent bytes, hence in any one byte, never share a CRC |
| CrcConstants.CheckValue | common/tf_crc32.c:26-44 | the CRC of the text "123456789" is 0xCBF43926, the check value of CRC-32 |
| CrcConstants.Residue | common/tf_crc32.c:26-44 | for every message, the message followed by its CRC, lowest byte first, has the CRC 0x2144DF1C, the residue of CRC-32 |
| CrcConstants.RunIsSteps | common/tf_crc32.c:37-41 | the register on numbers is the shift register on 32-bit vectors with the polynomial 0xEDB88320 |
| Gpt.LowBytesIsAscii | drivers/partition/gpt.c:17-42 | the converted name is the characters up to the first NUL |
| Gpt.CheckHighBytes | drivers/partition/gpt.c:28-33 | the first loop accepts exactly names without high bytes |
| Gpt.CopyLowBytes | drivers/partition/gpt.c:34-40 | the second loop copies exactly the characters up to the first NUL |
| Gpt.UnicodeToAscii | drivers/partition/gpt.c:17-42 | conversion succeeds exactly for names without high bytes |
| Gpt.EmptyIffZeroBytes | drivers/partition/gpt.c:71-78 | an entry counts as unused exactly when all its 128 bytes are zero |
| Gpt.ParseIff | drivers/partition/gpt.c:64-104 | from the raw bytes of an entry, exactly when it holds a partition and which, whatever its attributes, and exactly when its empty name stops the loader |
| Gpt.OffsetExactIff | drivers/partition/partition.c:252 | the array is looked for where the header says exactly when that is below 2^63 |
| Gpt.FarArrayWraps | drivers/partition/partition.c:252 | a concrete header whose array is read from byte 0 instead of where it is |
| Gpt.FoundIsUsable | drivers/partition/gpt.c:80-94 | an accepted entry lies in the header's usable range and carries its own non-empty name |
| Gpt.FoundPlacement | drivers/partition/gpt.c:95-99 | the byte range is the one the entry means exactly when neither product overflows 64 bits |
| Gpt.FarPartitionWraps | drivers/partition/gpt.c:95-99 | a concrete header and entry whose partition is published at byte 0 instead of where it is |
| Gpt.RunningCrcNext | drivers/partition/partition.c:289-293 | feeding one more entry keeps the accumulated value the CRC of everything so far |
| Gpt.PublishedAreUsable | drivers/partition/partition.c:250-331 | after a successful load every published partition is the entry at its place and lies in the usable range |
| Gpt.PartitionTable.LoadEntry | drivers/partition/partition.c:228-244 | an entry is either read in full from its place or refused |
| Gpt.PartitionTable.ParseGptEntry | drivers/partition/gpt.c:64-104 | the result is the model's parse, the assertion on an empty name included |
| Gpt.PartitionTable.ScanUsed | drivers/partition/partition.c:265-294 | the first loop keeps the longest prefix of valid entries and the CRC of exactly those |
| Gpt.PartitionTable.LoadUsed | drivers/partition/partition.c:265-294 | on an unused entry the cursor is put back before it; each other way out names its cause |
| Gpt.PartitionTable.StepBack | drivers/partition/partition.c:280-285 | the seek goes back to the unused entry |
| Gpt.PartitionTable.LoadRest | drivers/partition/partition.c:307-322 | the second loop extends the CRC to all entries of the header, each once and in order |
| Gpt.PartitionTable.LoadPartitionGpt | drivers/partition/partition.c:250-331 | on success the header's CRC is that of all its entries and the published list is the longest non-empty run of used entries that fits; every failure names what is wrong with the table or the device |
| Gpt.PartitionTable.LoadPrimary | drivers/partition/partition.c:158-162 | the clamp and the load together: never more partitions than there is room for, and if fewer than both the room and the header's count, the next entry is unused |
| Gpt.PartitionTable.GetByTypeIndex | drivers/partition/partition.c:540-560 | returns the entry of the type with exactly `index` such entries before it, or nothing when there are not that many |
| IoStorage.EntityPool.constructor | drivers/io/io_storage.c:15-31 | all handles are free |
| IoStorage.EntityPool.FindFirst | drivers/io/io_storage.c:92-103 | the first slot with the given content, or none |
| IoStorage.EntityPool.Allocate | drivers/io/io_storage.c:107-122 | fails exactly when every handle is out; otherwise hands out a free one; the count stays the number of slots in use |
| IoStorage.EntityPool.AllTakenIff | drivers/io/io_storage.c:107-122 | the count equals the capacity exactly when every slot is in use, so the search for a free one cannot fail |
| IoStorage.EntityPool.Free | drivers/io/io_storage.c:126-139 | undoes an allocation and reports exactly whether there was one |
| IoStorage.EntityPool.Open | drivers/io/io_storage.c:209-231 | a failed open of the device gives the handle back |
| IoStorage.EntityPool.Close | drivers/io/io_storage.c:332-349 | gives the handle back whatever the device's close function answers, and passes that answer on |
| IoStorage.EntityPool.OpenThenClose | drivers/io/io_storage.c:209-231 | opening and closing leaves the pool and its count as they were |
| Fip.FirstMatchUnique | drivers/io/io_fip.c:363-394 | a first match is unique, and the table neither ends nor runs out before it |
| Fip.EndDecides | drivers/io/io_fip.c:363-394 | a table that ends does not run out |
| Fip.PositionIsTotal | drivers/io/io_fip.c:529-532 | the position is the number of bytes returned modulo 2^32 |
| Fip.TraceExactIff | drivers/io/io_fip.c:529-532 | the pieces that successive reads return are, put together, a prefix of the payload whatever is read exactly when the payload is below 4 GiB |
| Fip.LargeIsReread | drivers/io/io_fip.c:529-532 | for every larger payload, such pieces that are no prefix of it |
| Fip.FipDevice.OpenBackend | drivers/io/io_fip.c:345-352 | takes one free handle, or none on failure |
| Fip.FipDevice.ScanToc | drivers/io/io_fip.c:363-394 | the scan ends; it finds the first entry with the identifier, or the table ended or ran out before one |
| Fip.FipDevice.OpenFrom | drivers/io/io_fip.c:354-433 | only a payload inside the package is accepted, and such a payload is accepted; each refusal names its cause |
| Fip.FipDevice.FileOpen | drivers/io/io_fip.c:306-443 | opens the first match inside the package; refuses exactly while a file with non-zero offset is open; gives its backend handle back on every path; on failure no file is open, and with a working backend each code names its cause in the table |
| Fip.FipDevice.ReadFrom | drivers/io/io_fip.c:483-532 | returns exactly the next bytes of the payload or nothing; refuses exactly what passes its end |
| Fip.FipDevice.FileRead | drivers/io/io_fip.c:459-540 | the same, and gives its backend handle back on every path |
| Fip.FipDevice.ReadMany | drivers/io/io_fip.c:459-540 | any number of reads: each returns the payload at the bytes returned so far modulo 2^32; below 4 GiB they put together the payload up to the position reached, and all of it on a reliable backend when the lengths add up to its size |
| Fip.FipDevice.ReadPastFourGib | drivers/io/io_fip.c:459-540 | reading 4 GiB of a larger file and then one byte returns the first byte of the file again |
| Fip.FipDevice.Reopen | drivers/io/io_fip.c:544-557 | after a close no open is refused because a file is open, and a file that is there is opened |
| FipPackage.DecodeLayout | include/tools_share/firmware_image_package.h:103-108 | an entry is the identifier, the offset, the size and the flags, in this order and little-endian |
| FipPackage.DecodeEntry | include/tools_share/firmware_image_package.h:103-108 | reading back an entry gives what was written |
| FipPackage.EntryFound | drivers/io/io_fip.c:363-394 | in a package assembled from a header, entries and payloads, entry `k` lists file `k` at its place, and the end marker follows the last |
| FipPackage.FileFound | drivers/io/io_fip.c:396-426 | an identifier finds the first file that has it, it can be opened exactly if it is not empty, and the payload found is that file's bytes |
| FipPackage.FileMissing | drivers/io/io_fip.c:427-431 | an identifier that no file has is not found |
| FipPackage.OpenAndRead | drivers/io/io_fip.c:306-540 | on a working backend, opening a file of such a package and reading its length gives exactly its bytes |
| RuntimeSvc.MasksAndShifts | include/common/runtime_svc.h:109-124 | the header's masks and shifts extract owning entity and call type and combine them without collision |
| RuntimeSvc.LastServing | common/runtime_svc.c:387-452 | the last initialised descriptor that covers a call: it does, and no later one does |
| RuntimeSvc.Dispatcher.Fill | common/runtime_svc.c:436-450 | writing a service's range of indices makes the table agree with the search over one more descriptor |
| RuntimeSvc.Dispatcher.Init | common/runtime_svc.c:387-452 | panics exactly when some descriptor has a bad range, a bad call type or neither init function nor handler; otherwise the table agrees with the last-to-first search over all descriptors |
| RuntimeSvc.Dispatcher.SkipKeeps | common/runtime_svc.c:427-434 | a service whose initialisation failed is left out of both |
| RuntimeSvc.Dispatcher.GetHandler | common/runtime_svc.c:39-58 | for every function identifier the table lookup is that linear search |
| RuntimeSvc.SearchMeaning | common/runtime_svc.c:39-58 | unknown exactly when every service that covers the identifier's type bit and owning entity has an init function that failed; otherwise the last one that started, with or without an init function |
| RuntimeSvc.SveHintIrrelevant | common/runtime_svc.c:226 | clearing the SVE hint bit never changes the route |
| SmtChannel.RunKeeps | drivers/scmi-msg/smt.c:75-177 | over every interleaving the lock, channel and buffer invariants hold |
| SmtChannel.ApplyKeepsLock | drivers/scmi-msg/smt.c:75-90 | only the context inside the locked section holds the lock, and what it read of `busy` stays true |
| SmtChannel.ApplyKeepsChannel | drivers/scmi-msg/smt.c:75-95 | a context inside has its channel busy, and is the only one |
| SmtChannel.MutualExclusion | drivers/scmi-msg/smt.c:108-189 | for any number of cores and any interleaving two contexts are never both between acquiring and releasing a channel |
| SmtChannel.SizeAcceptedIff | drivers/scmi-msg/smt.c:132-138 | with the subtraction wrapping in `size_t`, the size check lets through exactly lengths from 4 to 96 |
| SmtChannel.CopyStaysInRow | drivers/scmi-msg/smt.c:155-156 | a copy fills the start of the row of its own core and kind and leaves every other row alone |
| SmtChannel.PayloadIsPrivate | drivers/scmi-msg/smt.c:64-69 | over every interleaving no copy runs past its array, and until it is processed a context's row holds what that context copied |
| SmtChannel.PayloadHasItsLength | drivers/scmi-msg/smt.c:132-156 | over every interleaving a copied payload is as long as the length field that its context read, less the four bytes of the message header |
| SmtChannel.RejectedByCheck | drivers/scmi-msg/smt.c:132-144 | a context is turned away exactly when the length is outside 4 to 96, or the status loaded on entry has FREE or ERROR |
| SmtChannel.StatusIsThatOnEntry | drivers/scmi-msg/smt.c:125 | the status that is checked is the one the channel had when the context entered |
| SmtChannel.RejectionSticks | drivers/scmi-msg/smt.c:132-144 | such a message leaves the channel busy with nobody to release it |
| SmtChannel.StuckForever | drivers/scmi-msg/smt.c:75-177 | such a channel is never acquired again, whatever happens |
| SmtChannel.StuckIff | drivers/scmi-msg/smt.c:75-177 | in every run from the start a channel is stuck exactly when some message on it was bad |
| SmtChannel.BusyIff | drivers/scmi-msg/smt.c:75-177 | a channel is busy exactly when a context holds it or some message on it was bad |
| SmtChannel.LeaveReports | drivers/scmi-msg/smt.c:170-176 | over every interleaving a leaving context marks its own channel free and no other, and adds the error mark exactly when its message was not processed |
| SmtChannel.StatusWriters | drivers/scmi-msg/smt.c:170-176 | nothing else in the server writes a status |
| SmtChannel.ShortMessageSticks | drivers/scmi-msg/smt.c:132-138 | on every machine, a run of six statements after which one message of length 3 has taken its channel out of use |
| SmtChannel.MarksFreeWhileHeldIff | drivers/scmi-msg/smt.c:170-176 | a leaving context marks a channel free that another holds exactly when it was refused, or released the channel before the other acquired it |
| SmtChannel.RefusedMarksFree | drivers/scmi-msg/smt.c:127-130 | on every machine with two contexts, a run in which a refused context does so |
| SmtChannel.ServedMarksFree | drivers/scmi-msg/smt.c:167-176 | and one in which a served context does so, after an agent has posted a message |
| DelayTimer.ReduceRatio | drivers/delay_timer/generic_delay_timer.c:66-83 | the loop ends, keeps the ratio of multiplier and divider and leaves no common factor ten |
| DelayTimer.DeltaIsElapsed | drivers/delay_timer/generic_delay_timer.c:41-50 | the difference of two values of the inverted counter is the time passed modulo 2^32, wherever it started |
| DelayTimer.Udelay | drivers/delay_timer/delay_timer.c:23-58 | stops at an assertion exactly under its conditions; when it returns, more than the time asked for has passed; read at least every 1000 ticks, it returns at the first reading for which enough ticks have passed, before the counter has come round |
| DelayTimer.NeverEarly | drivers/delay_timer/delay_timer.c:37-57 | so many ticks take longer than the time asked for, wherever within their ticks the readings fall |
| DelayTimer.OneTickFewer | drivers/delay_timer/delay_timer.c:37-40 | for every delay, two readings one tick fewer apart with less than the time asked for between them |
| DelayTimer.DeltaIsLeast | drivers/delay_timer/delay_timer.c:37-40 | a number of ticks is enough, wherever within their ticks the readings fall, exactly when it is at least the one that is waited for |
| DelayTimer.EnoughIsLate | drivers/delay_timer/delay_timer.c:37-57 | a reading at which the wrapped difference suffices comes after the time asked for |
| DelayTimer.ExitsBeforeWrap | drivers/delay_timer/delay_timer.c:41-57 | readings at most `gap` ticks apart with `total + gap` within the counter: the loop leaves before the counter comes round, at the first reading that is enough |
| DelayTimer.OftenEnough | drivers/delay_timer/delay_timer.c:41-57 | read at least every 1000 ticks, the wrapped difference tells the time passed |
| DelayTimer.LongerGapMisses | drivers/delay_timer/delay_timer.c:41-57 | for every longer gap, readings that keep to it for which the loop misses the end and waits a whole turn more |
| DelayTimer.SafeIff | drivers/delay_timer/delay_timer.c:41-57 | a gap between readings is safe, whatever the readings, exactly when `total + gap` is at most 2^32 |

## Left out

Assumed of the platform:

- Firmware update: the platform has no descriptor for the invalid id, and `bl1_plat_set_ep_info` leaves an image's security attribute alone.
- Firmware update: the descriptors start in RESET with nothing copied, and the image that BL1 boots is non-secure.
- Firmware update: the verdict of the authentication module is an input here; the chain of trust is modelled on its own.
- Firmware update: BL1 is the only writer of the memory of secure images.
- FwuContent.RunContent: does not cover runs in which the secure world gets a secure image authenticated where it lies, because that checks memory outside the image's own region; the other FWU properties do cover them.
- FwuContent.LoadedImagesDisjoint: assumes that no image's region runs over the end of the address space.
- Exception priorities: between one and seven priority bits; the assertion in `ehf_init` on their number joins its bounds with `||` and so accepts any number.
- Exception priorities: the build without `GIC600_ERRATA_WA_2384374`.
- Block I/O: the user's buffer, the bounce buffer and the device are separate, and a device transfers exactly a prefix of what it is asked for.

Not modelled:

- Block I/O: the user's buffer is a value (the bytes given or returned), not memory written in place; the bytes of it beyond those returned are not mentioned.
- Block I/O: `block_len`, `block_close` and the pool of block devices.
- Authentication: builds with authentication disabled, measured boot beyond its success or failure, and the contents of crypto and image parsers.
- AuthModule.Auth.AuthHash: a hash method of an image without a parent and the NULL type pointer of an unused slot are both treated as stopping the machine.
- ImageLoad.Loader.LoadAuthImage: the retry loop runs over a finite list of instances, one for each that the platform offers.
- GPT: reading and checking the header, the backup table, the MBR, lookups by name and identifier, and names of 36 characters, which the source leaves unterminated.
- FIP: `fip_dev_init`, the pool of FIP devices and the file length query.
- I/O storage: device registration and the forwarding of seek, read, write and size.
- Exception priorities: the interrupt handler, handler registration and the check of the running priority against the interrupt controller beyond the value it reports.
- Runtime services: the entry code around the lookup, whose further checks reject identifiers and compute flags; a NULL handler is a result of the lookup here, where the source asserts.
- SMT: SCMI message processing itself, and cores that stop in the middle.
- Delay timer: `mdelay` and the timeout helpers.
- AArch32 builds, cache maintenance, context save and restore, logging, and all other parts of the repository, most of which drives hardware or forwards calls.
