# Hoot: a verified model of its storage, protocols and arithmetic

Hoot is a small operating system without a heap for a handheld with a 160 x 128
display and a Wi-Fi radio. This project models the parts of it whose correctness
does not show in any one function, and proves what they promise.

* **Flash.** NOR flash is an array of bytes: erasing sets every bit, programming
  only clears bits. A power cut may fall between two operations or inside one; then
  any of the bits on their way may have moved (`Flash.dfy`).
* **The config record** is encoded, decoded, protected by a CRC-32 and stored in two
  sectors in turn (`Record.dfy`, `Decoding.dfy`, `RecordLaws.dfy`, `CrcAlgebra.dfy`,
  `Crc32.dfy`, `ConfigStore.dfy`, `Cells.dfy`, `StorageRuns.dfy`, `Storage.dfy`).
  The one assumption is `StorageRuns.TornDetected`: a sector caught in the middle
  of an erase or program reads as nothing, as the record that was there, or as the
  one being written. It is a theorem as long as a readable sector differs in at most
  four consecutive bytes outside the length field from what it held
  (`Storage.SmallTearsAreDetected`), and again as soon as it differs no more than that
  from the new record (`Storage.SmallGapsAreDetected`). It is an assumption in between,
  and for a sector that holds no record to begin with
  (`Storage.AnUnreadableRecordMayWake`).
* **Blob slots and what streams into them**: the writer, the HTTP body loops, the
  Wi-Fi task's service of one request, and the firmware image writer (`Blob.dfy`,
  `Http.dfy`, `Serving.dfy`, `Ota.dfy`). The flash driver and the updater count the
  calls they refused, so that an error is reported only for one of those.
* **The photo protocol** on top of both: two slots, a config that names one of
  them, and a time stamp that makes the next fetch conditional (`Photo.dfy`,
  `PhotoFrame.dfy`, `PhotoRuns.dfy`, `PhotoSteps.dfy`, `SettingSteps.dfy`).
* **The slideshow's photo cache**: six more slots, whose headers say what they hold
  (`Album.dfy`, `AlbumFlash.dfy`, `AlbumRuns.dfy`, `Slideshow.dfy`,
  `SlideshowSteps.dfy`).
* **The request lanes** between the shell and the Wi-Fi task, with the apps and the
  agent as clients, under every interleaving (`Net.dfy`, `LaneRuns.dfy`, `Agent.dfy`).
* **The server trial** over every run of the device, with writes that are refused or
  cut short and the boots after them (`Trial.dfy`, `TrialRuns.dfy`, `TrialSteps.dfy`,
  `Agent.dfy`, `Shell.dfy`).
* **Civil time**, **Snake**, **the frame buffer**, **the tone synthesiser**, **form
  bodies** and **the pet** (`Time.dfy`, `Snake.dfy`, `Painting.dfy`, `Enlarging.dfy`,
  `Framebuffer.dfy`, `Audio.dfy`, `Form.dfy`, `Utf8.dfy`, `Pets.dfy`).

Objects the original updates in place are classes here; each method is proved
against a function or an explicit description of the new state, and the promises
are lemmas about those functions and about runs. Bytes and words are integers with
their range; wrapping is written out. Arithmetic follows the release profile, which
does not check for overflow (`Cargo.toml:18`). `Veils.Veil` only keeps a definition
away from proofs that pass its value along.

## What turned out not to hold

Each of these is proved, with the exact condition where there is one.

* An outcome on the app lane need not be returned: if one app leaves before its answer
  comes and the next one fetches, the answer is overwritten (`LaneRuns.LostIff`,
  `LaneRuns.OutcomeMayBeLost`). On the system lane every outcome is returned.
* Expiry of a server trial does not restore an empty half of the previous pair if that
  half was changed (`TrialRuns.ExpiryRestores`, `Trial.EmptyServerIsNotRestored`), and no trial
  starts in the one second in which its end wraps to zero (`Trial.TrialStartsIff`).
* A settings change whose storing was reported as failed may still be in force after a
  reboot (`TrialRuns.RefusedMayTakeEffect`); the trial's promises hold all the same.
* From a score of 41 on the step time of Snake wraps to nearly 2^32 ms and every step is
  due in the very next frame (`Snake.StepTimeInRangeIff`, `Snake.PastFortyEveryStepIsDue`).
* `civil_from_days` gives the calendar's date exactly for the days -784353015833 to
  784351576776, whose year fits 32 bits (`Time.YearFitsIff`, `Time.CivilFromDaysIff`).
* A photo whose config write is reported as failed survives all that may follow if and
  only if the spare config sector does not read as the record that was being written
  (`PhotoRuns.ReportedFailureIff`). The app goes on either way, and a driver may report a
  failure after writing the record in full (`PhotoRuns.ReportedFailureLosesThePhoto`).
  Power cuts cost no photo. The stamp may then come to stand beside another picture, if
  and only if the photo came with one (`PhotoRuns.StampFailureIff`).
* A cache clearing that the driver refuses half-way leaves the photo frame asking only for
  news of a photo that it no longer has, until it is entered again
  (`PhotoRuns.FailedClearingSpoils`).
* Two slots of the slideshow may come to hold the same photo: an erase or program of a
  header that power or the driver breaks off can leave it reading as another id. This is
  so exactly if the header then reads as what another slot holds
  (`AlbumRuns.StepKeepsIff`), and it can be told beforehand which ids that may be
  (`AlbumFlash.TornMayClashIff`): for an erase those that have every bit of the erased one
  (`AlbumFlash.EmptyingMayReadAsIff`), as 3 has those of 1 (`AlbumRuns.TwoSlotsOnePhoto`).
* Text at a large scale is the small text enlarged if and only if each dot of its cells,
  drawn with wrapping coordinates, covers the pixels of the frame that it is meant to
  cover: a matter of the scale and the number of characters only (`Enlarging.EnlargesIff`,
  `Enlarging.WithoutBackground`). It is so while no coordinate leaves 32 bits
  (`Enlarging.ScaledText`), at some scales beyond that (`Enlarging.OneLargeCharacter`), and
  not at others (`Enlarging.TooLargeIsNotEnlarged`).
* Ticking a goal of the pet by mistake and taking it back changes its energy or its count
  if either was at its end (`Pets.TickedByMistake`).
* The head of `os/src/storage/blob.rs` speaks of slots of 64 KiB; they are of 44, with room for
  40960 bytes behind the header sector (`os/src/board.rs:38`, `Blob.SlotsApart`).
* The comment on `update_config` speaks of unchanged configs; equality of the strings in
  a config includes bytes past their length (`FixedStrs.EqualIffTextAndTail`), so the
  portal may call a server moved whose text is the same (`Trial.Moved`).

## Model

| member | source | states |
|---|---|---|
| Crc32.Digest.Update | proto/src/crc32.rs:21-30 | the nested loops leave the register that folding the whole message leaves |
| Crc32.Checksum | proto/src/crc32.rs:38-42 | the CRC of a buffer is that of streaming it |
| Crc32.RegisterSplit | proto/src/crc32.rs:21-30 | a message fed in pieces, cut anywhere, leaves the register it leaves when fed whole |
| Crc32.StepInjective | proto/src/crc32.rs:21-30 | for every byte, one step never maps two registers to one |
| Crc32.BurstChangesCrc | proto/src/crc32.rs:21-40 | equally long messages that differ, but only within four consecutive bytes, have different CRCs |
| Crc32.ResidueIff | proto/src/crc32.rs:32-40 | four bytes at the end are the CRC of what precedes them exactly if the register over everything is the constant residue |
| Crc32.CheckValue | proto/src/crc32.rs:4-40 | the digits 1 to 9 have the CRC 0xCBF43926 of IEEE 802.3 |
| Utf8.BoundaryIffValidPrefix | proto/src/record.rs:42-52 | in valid text the character boundaries are exactly the places where a cut leaves valid text on both sides |
| Utf8.ValidIff | proto/src/record.rs:185-195 | a text passes as UTF-8 if and only if it is the encoding of some scalar values, six bits to a continuation byte: no surrogates, no overlong forms, nothing past 0x10FFFF |
| FixedStrs.PushStr | proto/src/record.rs:42-52 | appends the longest run of whole characters that fits; says so exactly if nothing was cut; the rest of the buffer stays |
| FixedStrs.Set | proto/src/record.rs:36-39 | the same from an empty text, over the stale bytes |
| FixedStrs.PushedIs | proto/src/record.rs:42-52 | what is put in is the longest piece of whole characters that fits, right behind the text; the bytes behind it are the old ones |
| FixedStrs.ReplacedIs | proto/src/record.rs:36-52 | and so for a text that is replaced |
| FixedStrs.EqualIffTextAndTail | proto/src/record.rs:10-15 | equality means equal text and equal stale bytes |
| Record.Cursor.Put | proto/src/record.rs:144-152 | writes the bytes and moves on, or changes nothing and fails exactly if they do not fit |
| Record.Encode | proto/src/record.rs:218-258 | writes exactly the record of 574 bytes, or fails exactly if the buffer is shorter |
| Decoding.Reader.Take | proto/src/record.rs:166-171 | takes the next bytes, or fails without moving exactly if they are not there |
| Decoding.Reader.Str | proto/src/record.rs:185-195 | a stored string is read with its length and all its bytes, and refused if the length or the text is not valid |
| Decoding.Decode | proto/src/record.rs:265-310 | the reader computes the parse that the laws below speak of: nothing without an intact record, and otherwise every field from its own bytes or its default |
| RecordLaws.RoundTrip | proto/src/record.rs:218-310 | every well-formed config and sequence number is read back, whatever follows the record |
| RecordLaws.PayloadIsFields | proto/src/record.rs:218-252 | the payload is the list of documented fields in order, nothing between them |
| RecordLaws.OlderRecordsDecode | proto/src/record.rs:260-310 | a record cut at any field boundary, with length and CRC redone, decodes to the fields before the cut and the defaults after it, the pet all or nothing |
| RecordLaws.FirstFirmware | proto/src/record.rs:284-308 | in numbers: a record of the first firmware keeps its seven fields, and has the sound at 8, the alarm off at minute 420, and all else zero or empty; without the poll interval, that is 15 seconds |
| RecordLaws.RecordBegins | proto/src/record.rs:218-226 | a record has 574 bytes and begins with "SPCF", version 1, that length and the number, lowest byte first |
| RecordLaws.ParsesIff | proto/src/record.rs:265-283 | a buffer is accepted exactly if it begins so, with a length from 16 to 574 that it has, and the last four of these bytes are the CRC of the others |
| RecordLaws.BurstRejected | proto/src/record.rs:265-277 | an accepted record changed within four consecutive bytes outside its length field is rejected, windows across the CRC included |
| ConfigStore.Load | os/src/storage/config.rs:20-38 | finds the newer of the two records, with a comparison that survives wrap-around |
| ConfigStore.Store | os/src/storage/config.rs:42-52 | erases and programs one sector; an error is reported exactly if a driver call failed, and the flash is then one that a cut could have left |
| ConfigStore.StoreOpsAre | os/src/storage/config.rs:42-52 | even numbers go to the sector at 0x1F0000, odd ones to the next: it is erased, and three pages are programmed, the record and erased bytes behind it |
| ConfigStore.OwnSectorBetween | os/src/storage/config.rs:42-52 | between the operations the sector reads as before, as erased, and as the new page: erasing first is what makes programming exact |
| ConfigStore.OtherSectorKept | os/src/storage/config.rs:42-52 | no cut of a store touches the other sector |
| Cells.SpareIsNotHome | os/src/storage/config.rs:42-52 | the sector about to be erased is never the one of the current record, at any sequence number |
| Cells.LoadsCurrentOrAttempt | os/src/storage/config.rs:20-38 | a boot finds the current record or one that was begun since, never an older one, also across the wrap of the number |
| Cells.NewerIff | os/src/storage/config.rs:25-34 | a record is newer as long as its number is less than half the way round ahead, across zero too |
| Storage.ConfigCodecIsLawful | os/src/storage/config.rs:10-52 | the record format has the three laws that atomicity needs |
| Storage.SmallTearsAreDetected | os/src/storage/config.rs:20-52 | while a sector that holds a record differs from it in at most four consecutive bytes outside the length field, it reads as that record or as nothing |
| Storage.SmallGapsAreDetected | os/src/storage/config.rs:42-52 | once a sector differs from the new record in at most four consecutive bytes outside the length field, it reads as the new record or as nothing |
| Storage.AnUnreadableRecordMayWake | os/src/storage/config.rs:42-52 | where the assumption is one: a sector with one wrong bit holds no record, and an erase caught after raising that bit makes it a third one |
| StorageRuns.StepKeeps | os/src/storage/mod.rs:68-101 | every update, error, cut and reboot keeps the invariant and explains the value in RAM |
| StorageRuns.Atomicity | os/src/storage/mod.rs:68-101 | in every run, once a config was stored a boot finds a record: the one in RAM or one begun since; never an older one, never none |
| StorageRuns.ErrorFreeRunsLoadExactly | os/src/storage/mod.rs:68-101 | without driver errors a boot finds exactly the config in RAM, and a cut leaves the last completed one or the one being written |
| StorageRuns.FlashedAfter | os/src/storage/mod.rs:68-101 | what a boot would start from after each step: a refused or cut write leaves the old value, what flash had, or the new one, and the new one exactly if it reads back |
| StorageRuns.WrittenButRefused | os/src/storage/mod.rs:90-101 | a write may be refused although the record was written in full, and the next boot then starts from it |
| Storage.Storage.constructor | os/src/storage/mod.rs:70-73 | starts from the newest record, or from the defaults with number 0 |
| Storage.Storage.UpdateConfig | os/src/storage/mod.rs:90-101 | success, the only outcome without a failed driver call, is one completed step of the runs; after an error RAM keeps the old config and the flash is one a cut could leave |
| Storage.Storage.EraseBlobs | os/src/storage/mod.rs:78-80 | empties the slots in order; it stops exactly if a driver call fails, and the slots behind that one and the config sectors stay |
| Storage.Storage.FactoryReset | os/src/storage/mod.rs:77-83 | without a failed driver call every slot reads as empty, nothing but headers and config changed, and the defaults are stored; after one the config in RAM stays |
| Blob.HeaderRoundTrip | os/src/storage/blob.rs:28-48 | a header reads back as written |
| Blob.HeaderIff | os/src/storage/blob.rs:28-48 | a header is accepted exactly if it begins with the magic and version 1 and its length is at most 40960; kind, length, CRC and number stand behind, lowest byte first |
| Blob.SlotsApart | os/src/board.rs:37-41 | eight slots of a header sector and 40960 bytes, one after the other from 0x190000, do not overlap each other or the config sectors |
| Blob.EraseHeader | os/src/storage/blob.rs:68-76 | the slot reads as empty unless the driver call failed; nothing else changes, and an empty slot stays empty even if the erase fails half-way |
| Blob.Begin | os/src/storage/blob.rs:96-113 | a writer is handed out over an erased header, unless the erase failed |
| Blob.BlobWriter.Write | os/src/storage/blob.rs:115-127 | takes in every byte in order, however the input is cut, and touches only the data of its slot; fails only with a driver call or when the slot is full |
| Blob.BlobWriter.FlushSector | os/src/storage/blob.rs:129-148 | moves the buffer to flash and into the CRC; refuses exactly if the slot is full, and fails otherwise exactly with a driver call |
| Blob.BlobWriter.Finish | os/src/storage/blob.rs:151-168 | without a failed driver call it succeeds exactly if the body fits, and then the slot reads as the whole body with its CRC, its last sector filled up with erased bytes; nothing outside the slot changes |
| Blob.EmptyWhileWriting | os/src/storage/blob.rs:80-113 | a cut at any point before the header is written leaves the slot reading as empty and the rest of the flash alone |
| Blob.CutStaysWithin | os/src/storage/blob.rs:96-168 | a cut at any point of operations on one slot, inside one included, leaves the rest of the flash alone |
| Http.CompleteBody | os/src/net/http.rs:145-200 | a body that counts as complete is what arrived, in order, exactly as long as declared |
| Http.ChunkingIrrelevant | os/src/net/http.rs:145-200 | however a body of the declared length is cut into reads, it is accepted as that body |
| Http.UndeclaredBody | os/src/net/http.rs:145-200 | without a declared length a body ends with the peer's closing and with nothing else |
| Http.ShortBody | os/src/net/http.rs:145-200 | a body that ends before it is as long as declared is refused, however it ends |
| Http.StreamBlob | os/src/net/http.rs:155-170 | the read loop hands the writer the bytes of the body, in order, and stops where the body ends; a storage error means a failed driver call |
| Http.FetchBlob | os/src/net/http.rs:145-175 | it succeeds exactly if the body is complete and fits and no driver call failed, and then the slot holds the body under its header; else it fails with a driver call, or as the reading does with the slot empty |
| Serving.ServeBlob | os/src/net/wifi.rs:230-249 | a request is answered well exactly if the whole body arrived and no driver call failed; whatever happens, even to the power, the other slots stay |
| Http.StreamImage | os/src/net/http.rs:185-195 | the same for the firmware image |
| Http.FetchFirmware | os/src/net/http.rs:176-200 | it succeeds exactly if the body is complete and fits and no updater call failed, and then the image is handed over and marked; otherwise it is not marked |
| Ota.ImageWriter.Write | os/src/ota.rs:82-94 | takes in every byte; whole sectors go to the updater in order; fails only with an updater call or past the partition |
| Ota.ImageWriter.Flush | os/src/ota.rs:96-113 | pads a page and makes one write; fails exactly with the updater call or to stay in the partition |
| Ota.ImageWriter.Finish | os/src/ota.rs:115-119 | without a failed updater call it succeeds exactly if the image fits; the updater got exactly the writes of the image, and then the mark |
| Ota.WritesInRange | os/src/ota.rs:96-113 | every write is on a page of 256 bytes, a whole number of pages, inside the partition of 0xA1000 bytes |
| Ota.WritesPlaceImage | os/src/ota.rs:82-119 | the writes put the image, padded with 0xFF to whole pages, at the start of the partition and leave the rest |
| Ota.ImageInPlace | os/src/ota.rs:82-119 | byte for byte, pages of 256 bytes |
| Photo.ShowsIs | os/src/apps/photo_frame.rs:195-204 | a slot is shown exactly if its header says a whole photo; its data is then the photo |
| PhotoFrame.ShowSlot | os/src/apps/photo_frame.rs:195-204 | returns the pixels of the slot, or nothing if it is not shown |
| PhotoFrame.ClearCache | os/src/apps/photo_frame.rs:57-65 | empties both headers before the stamp is forgotten, leaves the data, stops at the first failed driver call; the rest is one update of the config, completed or refused |
| PhotoFrame.ClearWhileWriting | os/src/apps/photo_frame.rs:57-65 | clearing the cache between two pieces of a photo on its way leaves its writer intact |
| PhotoFrame.PhotoFrame.OnEnter | os/src/apps/photo_frame.rs:312-325 | the first fetch is unconditional exactly if no complete photo is there |
| PhotoFrame.PhotoFrame.StartFetch | os/src/apps/photo_frame.rs:206-221 | asks for a photo into the slot that is not named; the request carries the stamp of the config, or none exactly if the fetch is forced or there is no stamp; waits for it only if the request was accepted, and else tries again in 5 seconds |
| PhotoFrame.PhotoRequestIs | os/src/apps/photo_frame.rs:206-212 | what a request for a photo says, in the fields of the config |
| PhotoFrame.PhotoFrame.Finish | os/src/apps/photo_frame.rs:231-267 | status 200, 40960 bytes and a complete photo in the slot it was fetched into, whichever slot that is, make that slot and that stamp current; nothing else changes the config; a refused config write is not looked at; the pause until the next fetch and the count of failures follow the outcome |
| PhotoFrame.PhotoFrame.Update | os/src/apps/photo_frame.rs:327-400 | an answer that is there is taken in, and a complete photo adopted unless the driver refuses; while none is waited for, a photo is asked for exactly when it is time and the link is up; L held for two seconds makes it time and the fetch unconditional |
| PhotoFrame.PhotoFrame.HoldL | os/src/apps/photo_frame.rs:333-342 | a fetch is forced, and due at once, exactly when L has been down for two seconds and none was forced before |
| PhotoSteps.Enter | os/src/apps/photo_frame.rs:312-325 | opening the app is the runs' step |
| PhotoSteps.Fetch | os/src/apps/photo_frame.rs:206-221 | asking for a photo is the runs' step, or nothing without a link |
| PhotoSteps.Poll | os/src/apps/photo_frame.rs:378-389 | taking the answer is the runs' step, or the one for a config write reported as failed |
| PhotoSteps.FrameWaiting | os/src/apps/photo_frame.rs:327-400 | a frame of the app while it waits is at most the runs' step for L, and then the one for the answer, if it is there |
| PhotoSteps.FrameIdle | os/src/apps/photo_frame.rs:327-400 | a frame while it does not wait is at most the step for L, and then the fetch, exactly when it is time and the link is up |
| PhotoSteps.FrameInRun | os/src/apps/photo_frame.rs:206-221 | in every run a request that is conditional carries the stamp that came with the very bytes in the named slot, a complete photo unless one was spoiled |
| PhotoSteps.Clear | os/src/apps/photo_frame.rs:57-65 | clearing the cache is the runs' step, or the one for an erase or a config write that the driver refused |
| PhotoSteps.Reset | os/src/storage/mod.rs:77-83 | a factory reset is the runs' clearing with the built-in config, or the one that the driver refused |
| PhotoSteps.BeginSlot | os/src/storage/blob.rs:96-113 | emptying the slot is the runs' step, or ends the fetch |
| PhotoSteps.WritePiece | os/src/storage/blob.rs:115-127 | a piece of the body is the runs' step, or ends the fetch |
| PhotoSteps.CompleteSlot | os/src/storage/blob.rs:151-168 | writing the header is the runs' step, or ends the fetch |
| PhotoSteps.Serve | os/src/net/wifi.rs:230-249 | a whole photo request is the runs' begin and complete, or their one end; power going anywhere in it leaves the other slots |
| PhotoSteps.ServeAndTake | os/src/apps/photo_frame.rs:231-267 | from the server to the screen: a whole photo that arrives without a refused driver call is, after the next frame, in the slot that the config names, under its stamp and on screen; anything else leaves the config alone |
| SettingSteps.AgentFrame | os/src/agent.rs:152-213 | every frame of the agent, but for the command to clear the cache, is a list of the runs' changes of settings, made or refused |
| SettingSteps.PortalSaved | os/src/ui/shell.rs:433-456 | so is what is saved on the portal page |
| SettingSteps.LedIsSteps | os/src/storage/mod.rs:90-101 | events of the trial's runs that make or refuse settings are steps of the photo's runs |
| PhotoRuns.FirstBootStarts | os/src/storage/mod.rs:70-73 | a device without a config record starts a run |
| PhotoRuns.StepKeeps | os/src/apps/photo_frame.rs:57-65 | every step, cuts and refusals inside every flash operation included, keeps the protocol's invariant; the exception is a refused write of a new photo with a stamp that can be read back |
| PhotoRuns.PhotoSurvives | os/src/apps/photo_frame.rs:195-267 | without cache clearing or a reset, and with that exception, once the named slot holds a complete photo it always does; its bytes change only to a newer complete photo adopted with its stamp |
| PhotoRuns.PhotoIsAdopted | os/src/apps/photo_frame.rs:231-267 | in every run a complete photo that arrives for the waiting app is adopted by the next poll, in either slot: that slot and its stamp are named, and its bytes are shown |
| PhotoRuns.StampNamesItsBytes | os/src/apps/photo_frame.rs:231-267 | in every run, cache clearing cut anywhere included, a non-empty stamp is kept only with the bytes it was received with, but for that exception |
| PhotoRuns.ConditionalFetchHasItsPhoto | os/src/apps/photo_frame.rs:206-221 | in every such run a conditional fetch sends the stamp of the bytes in the named slot, and the slot holds a complete photo exactly if no refused clearing or recording took it |
| PhotoRuns.StampFailureIff | os/src/apps/photo_frame.rs:241-247 | after a config write reported as failed, stamps belong to their bytes whatever follows if and only if the record does not read back or has no stamp |
| PhotoRuns.FalseStamp | os/src/apps/photo_frame.rs:241-247 | the other case does happen: a run after which a stamp stands beside any other picture |
| PhotoRuns.FailedClearingSpoils | os/src/apps/photo_frame.rs:57-65 | from every world with a photo on screen, a clearing refused half-way that leaves a conditional fetch without its photo |
| PhotoRuns.ReportedFailureIff | os/src/apps/photo_frame.rs:241-247 | after a config write reported as failed the photo survives whatever follows if and only if the spare sector does not read as the record being written |
| PhotoRuns.ReportedFailureLosesThePhoto | os/src/apps/photo_frame.rs:241-247 | the other case does happen: from every world about to adopt a photo, a write reported as failed but done, and a run that loses the photo |
| Net.Shared.FetchOn | os/src/net/mod.rs:366-383 | refuses without a radio or link, or while the lane is pending; otherwise queues the request |
| Net.Shared.TakeJobOn | os/src/net/mod.rs:386-394 | hands out a finished job and frees the lane; leaves others alone |
| Net.Shared.SmallBodyOn | os/src/net/mod.rs:397-400 | the bytes kept of the lane's last small answer |
| Net.Shared.NextRequest | os/src/net/wifi.rs:219-228 | takes the system lane's request before the apps' |
| Net.Shared.PostOutcome | os/src/net/wifi.rs:236-249 | finishes the lane's job; a small body is stored, cut to what fits |
| LaneRuns.StepKeeps | os/src/net/mod.rs:366-398 | every interleaved step keeps the invariant of the lanes |
| LaneRuns.OneFate | os/src/net/mod.rs:366-394 | an accepted request is open, returned or overwritten, and exactly one of these |
| LaneRuns.AnsweredOnce | os/src/net/wifi.rs:219-249 | an outcome is posted once, for the request the lane is waiting for |
| LaneRuns.ReturnedOnce | os/src/net/mod.rs:386-394 | a finished outcome is handed out once and nothing else is |
| LaneRuns.OwnOutcomeOnly | os/src/net/mod.rs:356-394 | an app takes only the outcome of a request it issued since it was last opened |
| LaneRuns.MineIsTheAcceptedRequest | os/src/net/mod.rs:356-394 | what an app calls its own is the request last accepted from it while it was on screen |
| LaneRuns.LostIff | os/src/net/mod.rs:366-383 | an outcome is overwritten exactly when an app's fetch is accepted over a finished job, and never on the system lane |
| LaneRuns.OutcomeMayBeLost | os/src/net/mod.rs:366-383 | a run in which that happens |
| LaneRuns.PendingIff | os/src/net/mod.rs:366-394 | a lane is pending exactly while its request is queued or being served, never both |
| LaneRuns.AgentNeverWaitsInVain | os/src/agent.rs:173-198 | the agent has a job exactly while the system lane is not idle, and then something is or will be there to take |
| LaneRuns.SystemFirst | os/src/net/wifi.rs:219-228 | at most one app request completes while a system request waits |
| LaneRuns.SmallBodyIsTheReplys | os/src/net/mod.rs:397-400 | after a small fetch its body is what can be read |
| LaneRuns.SmallBodyStays | os/src/net/mod.rs:397-400 | it stays until the lane's next request completes |
| Bytes.DueAfter | os/src/agent.rs:116-118 | on the wrapping millisecond counter a timer is due from its time on and not before, for the next twenty-four days |
| Agent.Agent.Update | os/src/agent.rs:152-213 | a frame begins with the expiry of a trial that is over; the answer to a heartbeat, and nothing else, confirms one that then still runs; a finished job is taken and followed up; without one and with the link up the most urgent thing there is reason for is begun; without a failed driver call the config is what expiry, answer and command make of it |
| Agent.Agent.CheckServerTrial | os/src/agent.rs:217-244 | an expiry happens exactly when a trial is running and its time is over: by the clock if both ends are known, else after half an hour of uptime; without a failed driver call the device is then back at the previous pair |
| Agent.Agent.FinishHeartbeat | os/src/agent.rs:328-359 | exactly an answer from 200 to 299 or 304 ends a running trial, before the command is obeyed; without a failed driver call both are in force; failures are counted up to 255 and forgotten with an answer; goal names are asked for exactly after a new stamp |
| Agent.Agent.RunCommand | os/src/agent.rs:362-430 | without a failed driver call a command has its whole effect, field by field: its own setting reads as what was sent, cut to what fits, a trial is begun for a server or a name, the photo is asked for afresh, and every other setting stays; else all of it or none; it never confirms a trial |
| Agent.CommandsDo | os/src/agent.rs:362-430 | what is stored for each command, field by field |
| Agent.Agent.StartNext | os/src/agent.rs:201-213 | starts the most urgent job there is reason for (version, heartbeat, goal names, warnings), or none if there is reason for none; its own timer moves on by its own interval and its own wish is cleared, those of the others stay |
| Agent.Agent.FinishJob | os/src/agent.rs:176-187 | the answer to a heartbeat confirms a running trial before its command is obeyed, goal names are stored, and nothing else changes the config; firmware is fetched exactly after a differing version, and the device restarts exactly after a non-empty image |
| Agent.FollowUps | os/src/agent.rs:293-311 | which answers lead to a firmware download, to a restart and to new goal names; other answers but that to a heartbeat leave the config alone |
| Agent.Agent.PollJob | os/src/agent.rs:173-198 | a finished job is taken exactly when it is there, and followed up; a failed heartbeat is tried again soon; an unfinished job changes nothing |
| Agent.Agent.FinishGoals | os/src/agent.rs:293-311 | goal names and their stamp are stored together, exactly for a good answer without a failed driver call |
| Agent.Agent.FinishFailure | os/src/agent.rs:185-196 | the count of failures grows until it stays at 255; after a failed heartbeat the next is due from fifteen seconds on and not before, whatever the clock reads, and other jobs leave that timer alone |
| Agent.Obey | os/src/agent.rs:362-430 | the stored part of a command is a list of events of the trial's runs, none a verdict on the trial, and only settings unless the cache is cleared; without a failed driver call it is in force |
| TrialSteps.Apply | os/src/storage/mod.rs:90-101 | a change is made and stored, or refused, and refused only with a failed driver call; either way it is one event of the trial's runs |
| TrialSteps.Reset | os/src/storage/mod.rs:77-83 | a factory reset is flash traffic and one event of the trial's runs |
| TrialSteps.FramesContinue | os/src/agent.rs:152-213 | the events of a frame continue the run that led to it |
| Agent.Agent.Start | os/src/agent.rs:246-251 | the job is on exactly if the request was accepted |
| Shell.PortalSaved | os/src/ui/shell.rs:433-456 | the portal's settings are one event of the trial's runs, and field by field in force unless a driver call failed; the trial is timed anew exactly if server or name moved |
| TrialRuns.TrialRemembersBase | os/src/agent.rs:371-393 | in every run of stored, refused and cut changes, reboots and other flash traffic, a trial remembers the pair in force when none was running, and without a trial the pair in force is that pair |
| TrialRuns.BaseIsThePairBefore | os/src/agent.rs:371-393 | the pair to go back to is the one in force at the last moment without a trial |
| TrialRuns.ExpiryRestores | os/src/agent.rs:217-244 | in every such run expiry restores exactly that pair if and only if each half was non-empty or unchanged |
| Trial.EmptyServerIsNotRestored | os/src/agent.rs:231-236 | with an empty server to begin with, the unreachable one stays |
| TrialRuns.StackedChanges | os/src/agent.rs:371-393 | after any number of changes, refusals, cuts and reboots since, expiry goes back to the pair before them all |
| TrialRuns.TrialLasts | os/src/agent.rs:217-244 | in every run a trial lasts, whatever is changed, refused, cut or rebooted, until a change that ends one is begun |
| TrialRuns.TrialEndsBy | os/src/agent.rs:217-244 | every step of a run that ends a trial, boots included, makes or adopts such a change, begun in that step or refused earlier on the same config |
| Trial.EndsIff | os/src/agent.rs:217-359 | a change ends a running trial exactly if it is an answer, an expiry, a reset, or a move whose new end wraps to zero |
| TrialRuns.StepKeepsInv | os/src/storage/mod.rs:68-101 | what RAM holds and what the flash would boot to both come from one config in force, so a boot that adopts a refused change keeps the pair to go back to |
| TrialRuns.RefusedMayTakeEffect | os/src/storage/mod.rs:90-101 | every possible change may be refused and yet be in force after the next boot |
| TrialRuns.FirstBootStarts | os/src/storage/mod.rs:70-73 | a device without a config record starts a run |
| TrialRuns.ChainContinues | os/src/agent.rs:152-213 | events that lead from the end of a run to another state of the device extend the run to it |
| Trial.ChangeKeepsBase | os/src/agent.rs:371-393 | no change moves the pair to go back to while a trial runs or begins |
| Trial.ChangeKeepsPhoto | os/src/agent.rs:362-430 | no answer, expiry, move or setting changes the slot of the photo, and its stamp is kept or cleared |
| Trial.TrialStartsIff | os/src/agent.rs:371 | a change starts a trial unless its end wraps to zero |
| Trial.CommandsTakeEffect | os/src/agent.rs:371-398 | a command's text, if it fits, is what its own setting then holds; the other half of the pair stays |
| Trial.PortalAndAnswer | os/src/ui/shell.rs:434-453 | all five settings of the portal are in force; an unmoved save leaves trial and stamp alone; an answer keeps the pair in force |
| Time.SuccessorDay | proto/src/time.rs:59-72 | every day number has a valid date, and the next one has the calendar's next date |
| Time.DateOfDayIsCounted | proto/src/time.rs:59-72 | the closed formula is the day-by-day Gregorian count from 1970-01-01, in both directions |
| Time.EraBounds | proto/src/time.rs:62-65 | the year formula finds the year the day lies in |
| Time.DaysFromDate | proto/src/time.rs:59-72 | the day number is recovered from the date, so dates are never shared |
| Time.DateFromDays | proto/src/time.rs:59-72 | every valid date is reached |
| Time.CivilFromDaysIff | proto/src/time.rs:59-72 | with machine words the result is the calendar's date exactly for the days -784353015833 to 784351576776 |
| Time.YearFitsIff | proto/src/time.rs:59-72 | these are exactly the days of the calendar whose year fits 32 bits |
| Time.CivilFromSecsRecombines | proto/src/time.rs:37-56 | for the seconds of these days, and no others, the date is the calendar's, and with the time of day it recombines to the seconds it came from |
| Time.WeekdaysFollow | proto/src/time.rs:45-46 | weekdays follow one another from a Thursday |
| Snake.Game.PlaceFood | os/src/apps/snake.rs:78-96 | finds a free cell whenever there is one, whatever the random numbers: the first free one of 64 throws, if there is one among these |
| Snake.FullIffLong | os/src/apps/snake.rs:74-96 | there is a free cell exactly until the snake is as long as the board |
| Snake.Game.Start | os/src/apps/snake.rs:98-112 | a new game is a snake of three in the middle heading right, with free food, no score and the first step time |
| Snake.Game.Step | os/src/apps/snake.rs:114-147 | the game ends exactly on a wall or the body; otherwise the snake moves by one cell and grows exactly if it ate |
| Snake.AdvancedIsSnake | os/src/apps/snake.rs:114-147 | a step keeps distinct adjacent cells on the board |
| Snake.Game.Steer | os/src/apps/snake.rs:169-173 | the next direction is never the reverse of the current one |
| Snake.KeysMove | os/src/apps/snake.rs:115-173 | each key turns the head its own way: w lessens y, s raises it, a lessens x, d raises it; no key turns it back |
| Snake.ReverseComesBack | os/src/apps/snake.rs:169-173 | the direction that is refused is the one that would lead back |
| Snake.Game.Update | os/src/apps/snake.rs:163-193 | the keys turn the snake, begin, pause and resume the game; then the snake takes one step, or crashes, exactly if a game is on and its step is due, and otherwise nothing on the board changes |
| Snake.Game.PressL | os/src/apps/snake.rs:174-185 | starts a new game, or resumes the paused one with its next step put off; a game that was on keeps its whole board |
| Snake.Game.PressK | os/src/apps/snake.rs:186-190 | pauses and resumes with the next step put off, nothing else |
| Snake.Game.OnEnter | os/src/apps/snake.rs:155-161 | coming back to a running game pauses it |
| Snake.StepTimeInRangeIff | os/src/apps/snake.rs:142 | the step time stays in its range, and never rises, exactly up to a score of 40 |
| Snake.PastFortyEveryStepIsDue | os/src/apps/snake.rs:142 | past 40 every step is due in the next frame |
| Snake.NeverStuck | os/src/apps/snake.rs:65-72 | the generator never reaches zero |
| Snake.FirstNumbers | os/src/apps/snake.rs:65-72 | it is the 32-bit xorshift generator: 1 is followed by 270369, 67634689 and 2647435461 |
| Album.FindSlot | os/src/apps/slideshow.rs:73-75 | the first slot that holds the id, or none if no slot does |
| Album.FirstMissing | os/src/apps/slideshow.rs:116-118 | a wanted id that no slot holds, or none if all are held |
| Album.NextMissingIff | os/src/apps/slideshow.rs:116-122 | a fetch is found exactly while a wanted photo is missing, and its slot holds no wanted photo |
| Album.NewestMissing | os/src/apps/slideshow.rs:93-122 | what is fetched is the newest of the six newest listed photos that no slot holds, and its slot holds none of these |
| Album.NothingMissing | os/src/apps/slideshow.rs:93-122 | nothing is fetched exactly while these are all held |
| Album.MissingLeavesRoom | os/src/apps/slideshow.rs:116-122 | the pigeonhole behind it |
| Album.FetchMakesProgress | os/src/apps/slideshow.rs:116-122 | every photo fetched lowers the number missing |
| Album.FetchingSettles | os/src/apps/slideshow.rs:205-219 | with a server that answers, fetching ends with every listed photo that is still wanted in flash |
| AlbumRuns.StepKeepsIff | os/src/apps/slideshow.rs:166-219 | a step keeps two slots from holding the same photo, except if it breaks a header off so that it reads as what another slot holds or will hold, and then exactly not |
| AlbumRuns.NoPhotoTwice | os/src/apps/slideshow.rs:166-219 | in every run, erases and programs cut or failed half-way included, no two slots hold the same photo as long as no broken header reads so |
| AlbumRuns.FirstClashIsABrokenHeader | os/src/apps/slideshow.rs:166-219 | when two slots do, a broken header that read so came before |
| AlbumRuns.TwoSlotsOnePhoto | os/src/apps/slideshow.rs:166-180 | a run in which that happens |
| AlbumFlash.TornReadsAsIff | os/src/storage/blob.rs:28-48 | an operation caught on a header can leave it reading as an id if and only if its bytes pass through those of that id |
| AlbumFlash.TornMayClashIff | os/src/apps/slideshow.rs:67-75 | whether that can make two slots hold the same photo is known beforehand: exactly if another slot holds such an id |
| AlbumFlash.EmptyingMayReadAsIff | os/src/storage/blob.rs:68-76 | for an erase these are the ids with every bit of the erased one |
| AlbumFlash.ReadsAsIff | os/src/apps/slideshow.rs:67-75 | a header reads as a photo exactly if it agrees with the photo's header in twenty places |
| SlideshowSteps.FetchMissing | os/src/apps/slideshow.rs:166-180 | asking for a missing photo is the runs' step; nothing is asked if nothing is missing or the lane refuses |
| SlideshowSteps.TakePhoto | os/src/apps/slideshow.rs:205-219 | an answer that is no photo is the runs' refusal |
| SlideshowSteps.TakeList | os/src/apps/slideshow.rs:182-203 | a list from the server is the runs' step |
| SlideshowSteps.Enter | os/src/apps/slideshow.rs:262-273 | opening the app is the runs' step |
| SlideshowSteps.Serve | os/src/net/wifi.rs:230-249 | a whole photo request is the runs' begin and complete, or their one end; power going anywhere in it leaves the other slots |
| SlideshowSteps.EraseBlobs | os/src/storage/mod.rs:78-80 | emptying all slots is the runs' reset, or their broken one |
| Album.SeededIs | os/src/apps/slideshow.rs:99-113 | the list seeded from flash is a descending permutation of the ids held |
| Slideshow.Slideshow.SeedFromCache | os/src/apps/slideshow.rs:99-113 | the insertion loop computes that list in place |
| Slideshow.Slideshow.InsertId | os/src/apps/slideshow.rs:103-111 | shifting from the end inserts in order |
| Slideshow.Slideshow.FetchMissing | os/src/apps/slideshow.rs:116-122 | asks for the newest of the six newest listed photos that no slot holds, into a slot that holds none of these, and for nothing if all six are held; waits for it exactly if the request was accepted |
| Slideshow.Slideshow.FinishPhoto | os/src/apps/slideshow.rs:205-219 | what was no photo leaves the list; the newest photo is shown if none was on screen and it is held, and otherwise what is on screen stays |
| Slideshow.Slideshow.Step | os/src/apps/slideshow.rs:136-148 | shows the first cached photo in the direction, or changes nothing if none is cached |
| Slideshow.FirstCachedIs | os/src/apps/slideshow.rs:136-148 | it is the nearest of the six newest listed photos that a slot holds |
| Slideshow.PlaceIs | os/src/apps/slideshow.rs:136-148 | onwards is to the next older photo, back to the next newer one, and both go round |
| Slideshow.Slideshow.OnEnter | os/src/apps/slideshow.rs:262-273 | opening the app shows the newest photo that flash holds |
| Slideshow.Slideshow.FinishList | os/src/apps/slideshow.rs:182-203 | the photo on screen keeps its place in the new order exactly if it is still wanted |
| Slideshow.Slideshow.DropPhoto | os/src/apps/slideshow.rs:211-218 | a refused photo leaves the list, the others keep their order |
| Framebuffer.Framebuffer.constructor | gfx/src/framebuffer.rs:32-34 | a new frame is black and clean |
| Framebuffer.Framebuffer.FillRect | gfx/src/framebuffer.rs:99-117 | for all arguments exactly the pixels of the frame inside the unbounded rectangle change; dirty exactly if there are any |
| Framebuffer.Framebuffer.Clear | gfx/src/framebuffer.rs:63-75 | both branches paint the whole frame |
| Framebuffer.Framebuffer.Set | gfx/src/framebuffer.rs:78-86 | one pixel, or nothing outside the frame |
| Framebuffer.Framebuffer.Get | gfx/src/framebuffer.rs:89-96 | the pixel stored high byte first, nothing outside the frame |
| Framebuffer.Framebuffer.LoadRaw | gfx/src/framebuffer.rs:42-45 | the frame is the given bytes |
| Framebuffer.Framebuffer.TakeDirty | gfx/src/framebuffer.rs:53-55 | a clean frame still holds the bytes of the last call |
| Framebuffer.Framebuffer.DrawBitmap | gfx/src/framebuffer.rs:144-156 | paints the bitmap's dots, mirrored on request, for all arguments: coordinates wrap at 32 bits |
| Framebuffer.Framebuffer.DrawBitmapScaled | gfx/src/framebuffer.rs:160-170 | the same with blocks, for all arguments and scales |
| Framebuffer.ScaleOneIsPlain | gfx/src/framebuffer.rs:144-170 | both calls at scale 1, each on its own frame, leave equal frames equal, for all arguments |
| Framebuffer.Framebuffer.DrawChar | gfx/src/framebuffer.rs:181-209 | paints cell and glyph, scale at least 1, and returns the advance, for all arguments: coordinates wrap |
| Framebuffer.Framebuffer.DrawTextScaled | gfx/src/framebuffer.rs:217-231 | paints the characters one advance apart, for all arguments, and returns the wrapped width |
| Enlarging.EnlargesIff | gfx/src/framebuffer.rs:181-231 | every text of n characters, in every font and colour, with a background or without, is enlarged at scale s if and only if n and s are true to scale, given that they are at scale 1 |
| Enlarging.WithoutBackground | gfx/src/framebuffer.rs:181-209 | without a background, true to scale says that each of the 35 dots of each character, as drawn, covers the pixels of the frame that it is meant to cover |
| Enlarging.SmallIsTrueIff | gfx/src/framebuffer.rs:217-231 | at scale 1 that is so exactly up to 715827882 characters |
| Enlarging.TextSeen | gfx/src/framebuffer.rs:181-231 | what a text makes of a point: the colour of a dot that no later background hides, else of a background |
| Enlarging.ScaledText | gfx/src/framebuffer.rs:181-231 | as long as no coordinate leaves 32 bits, text at scale s on a blank frame shows at (x, y) what scale 1 shows at (x / s, y / s), clipping included, for any font |
| Enlarging.OneLargeCharacter | gfx/src/framebuffer.rs:181-209 | a scale at which coordinates leave 32 bits and one character is enlarged all the same |
| Enlarging.TooLargeIsNotEnlarged | gfx/src/framebuffer.rs:217-231 | a scale at which texts of two characters are not |
| Enlarging.ScaledTextMayWrap | gfx/src/framebuffer.rs:217-231 | at that scale, whose sixfold wraps to two, the second character is drawn where the small text has nothing |
| Painting.InWordsDrawnAsMeant | gfx/src/framebuffer.rs:144-231 | rectangles that stay within 32 bits are drawn as they are meant |
| Painting.BitmapShows | gfx/src/framebuffer.rs:144-170 | a bitmap colours a point exactly if the bit under it is set, in a row there are bytes for |
| Painting.MirroredShows | gfx/src/framebuffer.rs:144-156 | a mirrored bitmap shows at each place what the plain one shows at the opposite place |
| Painting.StrideIs | gfx/src/framebuffer.rs:144-150 | a row takes as many bytes as its bits need, unless that sum leaves 32 bits |
| Painting.CharShows | gfx/src/framebuffer.rs:181-209 | a character gives a point its colour where the bit under it is set, in five columns of seven rows, lowest bit on top; its background fills the rest of a cell of six by eight |
| Painting.BitsFollow | gfx/src/framebuffer.rs:144-209 | the bits are those of the binary number |
| Painting.GlyphIs | gfx/src/font.rs:20-28 | a printable character has its own glyph of the 95, every other one that of the question mark |
| Painting.PixelsDetermine | gfx/src/framebuffer.rs:78-96 | equal pixels mean equal bytes |
| Audio.FramesCount | os/src/audio.rs:113-116 | a sound lasts 24 frames a millisecond |
| Audio.SampleBound | os/src/audio.rs:142-149 | no intermediate leaves 32 bits and no sample exceeds the level, for every phase and level |
| Audio.LevelReached | os/src/audio.rs:142-149 | and the level is reached, both ways, in the middle of each half of the wave |
| Audio.LevelsRise | os/src/audio.rs:133-136 | eleven levels from silence to 30000, each from 30 to 47 per cent above the one before |
| Audio.FrameWithinLevel | os/src/audio.rs:260-284 | every frame is one such sample, twice |
| Audio.NoteStartsSilent | os/src/audio.rs:260-284 | every note starts at silence |
| Audio.EnvelopeShape | os/src/audio.rs:260-284 | a note rises for 4 ms, and fades over its last quarter but no longer than 60 ms; in between it is as loud as can be |
| Audio.PitchIs | os/src/audio.rs:236-247 | in a second the phase goes round as often as the frequency says, but for rounding down |
| Audio.WaveMirrors | os/src/audio.rs:142-149 | the lower half of the wave mirrors the upper one |
| Audio.WaveShape | os/src/audio.rs:142-149 | it rises and falls the same way, and is at its peak exactly from phase 4799 to 27969 |
| Audio.Synth.constructor | os/src/audio.rs:221-234 | a new synthesiser has the whole sound before it, at the test level or the chosen one |
| Audio.Synth.Load | os/src/audio.rs:236-247 | starts a note from its beginning, or ends the sound after the last |
| Audio.Synth.Next | os/src/audio.rs:260-284 | each call gives the next frame of the sound, then zeros; done exactly from the first of these |
| Audio.Synth.Fill | os/src/audio.rs:253-257 | buffers of any length hold the sound in order, then zeros |
| Audio.Play | os/src/audio.rs:183-212 | what is sent is the sound in chunks, cut short only by a new request, and a chunk of silence |
| Form.PercentDecode | proto/src/form.rs:20-51 | the longest valid UTF-8 prefix of the decoded bytes that fits |
| Form.Unpack | proto/src/form.rs:20-46 | as many decoded bytes as fit |
| Form.HexIff | proto/src/form.rs:53-61 | the sixteen digits, in small letters or capitals, and nothing else |
| Form.DecodedPlain | proto/src/form.rs:20-46 | a plus stands for a space, everything else but a percent sign for itself |
| Form.DecodedEscape | proto/src/form.rs:20-46 | a percent sign and two digits stand for the byte they spell, high digit first |
| Form.DecodedStray | proto/src/form.rs:20-46 | any other percent sign stands for itself |
| Form.DecodedEncoded | proto/src/form.rs:20-61 | decoding undoes the form encoder on every byte string |
| Form.DecodesWhatFits | proto/src/form.rs:20-51 | a valid text that fits comes out whole |
| Form.FormReadsBack | proto/src/form.rs:6-17 | every list of fields that fit is read back key by key, value by value |
| Form.ReadFields | proto/src/form.rs:6-17 | the loop finds exactly the fields of the body, in order |
| Form.BodyIsPieces | proto/src/form.rs:6-17 | every body is read piece by piece between its ampersands, and empty pieces are skipped |
| Form.PieceIs | proto/src/form.rs:11-16 | a piece is a key and, behind the first equals sign, the encoded value, cut to 160 bytes; without a sign the value is empty |
| Form.HtmlEscape | proto/src/form.rs:64-82 | writes the escaped text; fails exactly if it is longer than the buffer |
| Form.UnescapedEscaped | proto/src/form.rs:64-82 | unescaping gives the text back |
| Form.EntitiesAre | proto/src/form.rs:64-82 | which entity stands for which character; every other byte stands for itself |
| Form.EscapedIsSafe | proto/src/form.rs:64-82 | no markup character is left raw |
| Pets.Hoot.constructor | proto/src/pet.rs:215-230 | a new pet satisfies ledger, window and wardrobe |
| Pets.Hoot.Complete | proto/src/pet.rs:293-301 | a goal counts once, with 20 energy up to a full bar of 100; ledger, count of today's goals and window are kept |
| Pets.Hoot.Uncomplete | proto/src/pet.rs:304-312 | taking back takes 20 energy as far as there is any, and keeps them too |
| Pets.Hoot.NewDay | proto/src/pet.rs:268-282 | histories are the last seven days of the log of days that ended, zeros in front; days without a clock are not logged |
| Pets.Hoot.CheckIn | proto/src/pet.rs:315-322 | once a day, 1 to 5; it ticks the first goal, with energy and count, unless that was ticked, and nothing else |
| Pets.TickedByMistake | proto/src/pet.rs:293-312 | ticking a goal and taking it back undoes it exactly if it was not ticked before and neither bar nor count was at its end |
| Pets.Hoot.Adventure | proto/src/pet.rs:329-336 | exactly a full bar is spent; what adventures cost was earned by goals and hugs |
| Pets.Hoot.Hug | proto/src/pet.rs:343-345 | ten more, capped at a hundred, entered in the ledger |
| Pets.Hoot.NextOutfit | proto/src/pet.rs:249-259 | the first outfit on the way round for which there were enough adventures: 0, 1, 3, 5, 10 or 15 |
| Pets.LastSevenShifts | proto/src/pet.rs:272-277 | shifting by one is taking the last seven of the longer log |

## Left out

- StorageRuns.Atomicity: rests on `TornDetected` for sectors caught inside an operation; a CRC cannot exclude every torn pattern.
- RecordLaws.OlderRecordsDecode: cuts inside a field are not covered, because the reader does not move on failure and may then read the rest as the next field.
- PhotoRuns.PhotoSurvives: a config write of a new photo that the driver reports as failed but that can be read back ends what is promised; `ReportedFailureIff` shows that it must.
- PhotoRuns.StampNamesItsBytes: the exception is a config write of a new photo with a stamp, reported as failed but readable; `StampFailureIff` shows that it must be.
- PhotoRuns.StampFailureIff: supposes that some picture has not come with that stamp yet, and that the slot on its way is not the named one, which only clearing the cache can bring about.
- SettingSteps.AgentFrame: the command to clear the cache is `PhotoSteps.Clear`, the steps of the runs for it; what other apps do on the lane and in other slots is foreign traffic to them.
- AlbumRuns.NoPhotoTwice: a broken header that reads as what another slot holds ends what is promised; `StepKeepsIff` shows that it must.
- Album.NextMissingIff: wanted means the list the request was made from; reopening the app while it is under way makes a new list.
- TrialRuns.TrialRemembersBase: an answered heartbeat confirms whichever server it was sent to, because a request queued before a portal save may be answered after it.
- Framebuffer.Framebuffer.DrawBitmap: slices longer than a 32-bit machine can hold are not excluded; row offsets are unbounded.
- Snake.Game.Update: the best score is kept in the object; writing it to the config is an ordinary `UpdateConfig`.
- FixedStrs.PushStr: strings are values handed back, not updated in place.
- Pets.Hoot.Complete: the pet's record is a value in a mutable cell, as it is also part of the config.
- TrialRuns.ChainContinues: a refused write whose torn sector reads as a third record (`Undetected`) ends the run; this is the one assumption again.
- Agent.Agent.Update: commands, goal names and the published version arrive parsed; the wall clock after an answer is a parameter; reboot, portal, hug and reset commands have no effect on the config and are one case.
- Motion frames of live photos, which only go to RAM: on the app lane they are foreign traffic.
- Radio, sockets, DNS, timeouts, HTTP heads and URLs: a fetch is a list of reads.
- The updater's swap and rollback: only its two calls and their order are modelled.
- Drawing in the apps, menus, LEDs, logging, power modes, durations and the uptime clock.
- Parsers of album lists, weather and messages; DHCP and DNS replies; colours; the alarm, the stopwatch and the pomodoro timer.
