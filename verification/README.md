# Flash record store, LED effects and board buttons — a Dafny model

This project models the core of a Nordic nRF5 sensor firmware:

- **Word codec** (`codec.dfy`, module `Codec`). Data records are kept as byte arrays. The FDS flash library stores 32-bit words, so the store packs the bytes little-endian into words and unpacks them again. `bytes2words` and `words2bytes` round-trip.
- **Data tables** (`data_settings.dfy`, `data_extended.dfy`, `data_colors.dfy`). The device's data records are numbered 1..115:
  - device settings, 1..29;
  - colour calibration, 30..101;
  - extended data, 102..115.
  
  Each index has a byte size and a default value. Indices 10..101 are "one-word" records of 4 bytes.
- **FDS library** (`fds.dfy`, module `Fds`). The flash file system the driver calls. Flash is a map from (file id, record key) to a word array. Each asynchronous call's acceptance and completion come from an *outcome script*: a sequence of `Nominal` or `Fault(code)`. An empty script means fault-free flash.
- **FDS driver** (`drv_storage.dfy`, module `DrvStorage`). It keeps one record configuration and six completion flags. It wraps the asynchronous FDS calls in blocking waits. When a completion event reports a failure, the flag stays clear and the wait never returns. The model calls that outcome `Hang`.
- **Record store** (`storage.dfy`, `storage_props.dfy`, modules `Storage` and `StorageProps`). Four layers:
  1. byte-array set/get/delete, with one garbage collection and retry when a write is refused;
  2. a one-byte tag (`0xAA` default, `0xBB` changed) in front of the payload;
  3. single records addressed by data index, in three files `0xAAAA`/`0xABBB`/`0xACCC`, under record key `0x1000 + index`;
  4. initialising all records to defaults, and checking that every record still holds its default tag.
- **LED effects** (`led_effects.dfy`, module `LedEffects`). It registers, runs, stops, clears and unregisters one of seven effects:
  - five GPIO colour effects;
  - two PWM ramp effects, whose duty-cycle sequences are filled by loops.
- **Board** (`board.dfy`, module `Board`):
  - the button-index lookup `BOARD_PIN_TO_IDX`;
  - the push / long-push / release state machine of the button handler;
  - event assignment to buttons;
  - the wrappers that guard LED effects behind the "LEDs initialised" flag.

Every operation is a pure function over an explicit state value, or a method on sequences. Module-level C state becomes a record the operation takes and returns. Results come back as datatypes that carry the C status code.

## Model

| member | source | states |
|---|---|---|
| Codec.CalWordArraySize | Application/Modules/Flash/storage.h:96 | the word count is the ceiling of a / b, and b · r covers a with less than one word to spare |
| Codec.WordCount | Application/Modules/Flash/storage.h:96 | the number of 32-bit words a byte array of n bytes occupies is the least r with 4r >= n |
| Codec.Bytes2Words | Application/Modules/Flash/storage.c:27-58 | the word array has WordCount(n) words; byte i of the input is lane i mod 4 of word i div 4; the unused lanes of the last word are zero |
| Codec.Words2Bytes | Application/Modules/Flash/storage.c:61-99 | the byte array has the requested size, and byte i is lane i mod 4 of word i div 4 |
| Codec.BytesRoundTrip | Application/Modules/Flash/storage.c:27-99 | unpacking the packed words of any array of at most 255 bytes gives the array back |
| Codec.WordsRoundTrip | Application/Modules/Flash/storage.c:27-99 | a word array of WordCount(size) words whose last word has zero upper lanes is rebuilt exactly by unpacking `size` bytes and packing them again |
| Codec.Words2BytesPrefix | Application/Modules/Flash/storage.c:61-99 | extra words after the ones a size needs do not change the unpacked bytes |
| Codec.LaneRoundTrip | Application/Modules/Flash/storage.c:61-99 | every lane of every word survives unpacking followed by packing |
| Codec.WordCountValue | Application/Modules/Flash/storage.h:96 | the word count is n/4, plus one when n is not a multiple of 4 |
| Codec.ByteOfPack | Application/Modules/Flash/storage.c:34-55 | lane k of a word packed from four bytes is the k-th byte (little-endian) |
| Codec.PackByteOf | Application/Modules/Flash/storage.c:66-96 | packing the four lanes of a word rebuilds the word |
| DataSettings.GetDevSizeInfo | Application/Modules/Data/data_settings.c:61-72 | 29 entries, one per settings index; the device-information entries are 1..40 bytes and the one-word entries are 0 |
| DataSettings.GetDevInfo | Application/Modules/Data/data_settings.c:28-58 | one default per device-information index, all zero and exactly as long as its size-table entry |
| DataSettings.GetOwSetInfo | Application/Modules/Data/data_settings.c:75-104 | 20 defaults, one per one-word settings index 10..29, each the one-word default |
| DataSettings.UnionBytes | Application/Modules/Data/data_settings.h:106-110 | four bytes whose little-endian packing is the 32-bit value |
| DataSettings.Zeros | Application/Modules/Data/data_settings.h:72-94 | an all-zero default of the requested length |
| DataSettings.SettingsLayout | Application/Modules/Data/data_settings.h:19-51 | the device-info, DFU, device-setting, system and sensor ranges tile 1..29, and the one-word block starts at 10 |
| DataExtended.GetManSizeInfo | Application/Modules/Data/data_extended.c:98-101 | three manufacturing sizes, for indices 102..104, each 1..40 bytes |
| DataExtended.GetManInfo | Application/Modules/Data/data_extended.c:103-107 | manufacturing defaults, all zero and each as long as its size |
| DataExtended.GetUsrSizeInfo | Application/Modules/Data/data_extended.c:109-112 | one user size, for index 105, of 1..40 bytes |
| DataExtended.GetUsrInfo | Application/Modules/Data/data_extended.c:114-118 | the user default is all zero and as long as its size |
| DataExtended.GetReservedSizeInfo | Application/Modules/Data/data_extended.c:120-123 | ten reserved sizes, for indices 106..115, each 1..40 bytes |
| DataExtended.GetReservedInfo | Application/Modules/Data/data_extended.c:125-128 | reserved defaults, all zero and each as long as its size |
| DataExtended.ExtendedLayout | Application/Modules/Data/data_extended.h:18-55 | the manufacturing, user and reserved ranges tile 102..115 |
| DataColors.ColorLayout | Application/Modules/Data/data_colors.h:19-52 | the colour sub-ranges tile 30..101, 72 records in all |
| DrvStorage.SetFlag | Application/Modules/Flash/drv_storage.c:387-415 | setting one completion flag changes that flag and no other |
| DrvStorage.EventHandlerDefault | Application/Modules/Flash/drv_storage.c:26-82 | a successful event sets exactly the flag of its kind; a failed event changes nothing |
| DrvStorage.HandlerNeverClears | Application/Modules/Flash/drv_storage.c:26-82 | no event clears a flag that is already set |
| DrvStorage.FdsResetVars | Application/Modules/Flash/drv_storage.c:87-99 | every flag is cleared, the wait function returns to low-power wait and the search token is zeroed; flash and configuration are kept |
| DrvStorage.FdsSetAsynFun | Application/Modules/Flash/drv_storage.c:368-370 | the given wait function is installed; the flash, flags, record configuration and page size are untouched |
| DrvStorage.FdsRecConfig | Application/Modules/Flash/drv_storage.c:102-128 | accepted iff the file id is at most 0xBFFF, the key is in 1..0xBFFF and the data fits a page less the 5-word header; a refusal leaves the driver unchanged; acceptance targets exactly that record |
| DrvStorage.Wait | Application/Modules/Flash/drv_storage.c:19-23 | the wait returns iff the flag is set, and returns the state unchanged |
| DrvStorage.RunAsync | Application/Modules/Flash/drv_storage.c:170-194 | on success the flash shows the mutation and the flag is set; on refusal nothing changes; an accepted call whose completion fails hangs; fault-free flash always succeeds |
| DrvStorage.FdsRecWrite | Application/Modules/Flash/drv_storage.c:170-194 | success stores the configured words under the target; failure leaves flash unchanged; accepted but failed completion hangs |
| DrvStorage.FdsRecFind | Application/Modules/Flash/drv_storage.c:197-217 | success means the target is in flash and the descriptor points at it; on fault-free flash a present record is found and an absent one reports not-found |
| DrvStorage.FindIgnoresToken | Application/Modules/Flash/drv_storage.c:197-217 | the search result does not depend on the search token left from an earlier search |
| DrvStorage.FdsRecRead | Application/Modules/Flash/drv_storage.c:220-278 | success copies the stored words into the front of the buffer and keeps the rest; flash is never changed; a failed search is returned as it is with the buffer untouched; a failed open is returned with the buffer untouched; after a successful open the words are copied and the length recorded, and a failed close is then the returned code; fault-free flash reads a present record |
| DrvStorage.FdsRecUpdate | Application/Modules/Flash/drv_storage.c:281-311 | success replaces the target's words with the configured data; failure changes nothing; a search that does not succeed is returned as it is, with no update issued; on fault-free flash an existing record is updated and a missing one gives FDS_ERR_NOT_FOUND with flash unchanged |
| DrvStorage.FdsRecDelete | Application/Modules/Flash/drv_storage.c:314-343 | success removes the target record; failure changes nothing; a failed search is returned as it is, with no deletion issued; fault-free flash deletes a present record and gives FDS_ERR_NOT_FOUND for a missing one |
| DrvStorage.FdsGC | Application/Modules/Flash/drv_storage.c:346-365 | garbage collection never changes record contents, and its success sets the GC flag |
| DrvStorage.FdsInit | Application/Modules/Flash/drv_storage.c:131-167 | as written: a refused registration is returned as its error code; after a successful registration it hangs exactly when fds_init is refused or its completion fails; an accepted initialisation sets the init flag and succeeds |
| DrvStorage.FdsInitRefusedHangs | Application/Modules/Flash/drv_storage.c:152-163 | as written: whenever registration succeeds and fds_init refuses, the wait on the init flag never returns |
| DrvStorage.FdsInitChecked | Application/Modules/Flash/drv_storage.c:131-167 | corrected: it hangs only when an accepted initialisation fails to complete |
| DrvStorage.FdsInitCheckedReportsRefusal | Application/Modules/Flash/drv_storage.c:158-163 | corrected: whenever registration succeeds and fds_init refuses, the refusal is returned to the caller as that error code |
| Storage.MapIndexToRecId | Application/Modules/Flash/storage.h:101 | the key is 0x1000 + index, wrapped to 16 bits |
| Storage.MapIndexInjective | Application/Modules/Flash/storage.h:101 | distinct indices map to distinct keys |
| Storage.StoreKeysValid | Application/Modules/Flash/storage.h:101 | every data index 1..115 maps to a key in 0x1001..0x1073, which the driver accepts |
| Storage.FileIdsValid | Application/Modules/Flash/storage.h:89-91 | the three file ids are distinct and valid FDS file ids |
| Storage.GetDataSection | Application/Modules/Flash/storage.c:278-310 | out of range iff the index is outside 1..115; otherwise the index lies within the section returned |
| Storage.SectionPartition | Application/Modules/Flash/storage.h:134-145 | an index belongs to a section iff it lies between that section's bounds, so the sections partition 1..115 |
| Storage.RecordFile | Application/Modules/Flash/storage.c:426-476 | settings indices live in file 0xAAAA, colour indices in 0xABBB, extended indices in 0xACCC |
| Storage.RecordSize | Application/Modules/Flash/storage.c:426-476 | every record has 1..40 payload bytes, and one-word and colour records have 4 |
| Storage.RecordOfInjective | Application/Modules/Flash/storage.c:426-476 | two distinct data indices are stored under two distinct records |
| Storage.DefaultPayload | Application/Modules/Flash/storage.c:416-477 | the default has the record's size; colour records take the colour table entry; every other default is the data table's entry, which is all zero bytes |
| Storage.ZeroWordBytes | Application/Modules/Data/data_settings.h:106-110 | the zero word's four bytes are zero |
| Storage.Store | Application/Modules/Flash/storage.c:124-155 | success puts the configured words under the target; failure changes nothing |
| Storage.StoreWithGcRetry | Application/Modules/Flash/storage.c:124-155 | statuses are success, GC error or write error; GC error exactly when the first store and the garbage collection were both refused; write error exactly when the first store was refused, the garbage collection succeeded and the second store was refused; success stores the configured words; anything else leaves flash unchanged; fault-free flash succeeds |
| Storage.SetByteArray | Application/Modules/Flash/storage.c:105-161 | success stores the packed bytes under (file, key of index); invalid ids give a setup error with nothing changed; a faulted search gives a lookup error with nothing changed, and a lookup error only comes from a faulted search; a nominal search goes to the write-with-GC-retry of an update when the record exists and of a create when it does not; failure changes nothing; fault-free flash succeeds |
| Storage.Pad | Application/Modules/Flash/storage.c:172-177 | the read buffer has the allocated length, and its front holds the stored words |
| Storage.GetByteArray | Application/Modules/Flash/storage.c:164-199 | success returns the first `size` bytes of the stored words; on fault-free flash success iff the record is present and not-found iff absent; flash never changes |
| Storage.DelByteArray | Application/Modules/Flash/storage.c:202-216 | success removes the record; failure changes nothing; invalid ids give a setup error |
| Storage.SetOneByteArrayData | Application/Modules/Flash/storage.c:223-242 | success stores the tag followed by the payload |
| Storage.GetOneByteArrayData | Application/Modules/Flash/storage.c:245-273 | success splits the stored bytes into the leading tag and the following `size` payload bytes |
| Storage.TaggedRoundTrip | Application/Modules/Flash/storage.c:223-273 | reading back a tagged record returns the same tag and payload, and succeeds on fault-free flash |
| Storage.ReadImage | Application/Modules/Flash/storage.c:313-413 | the bytes a record-level read sees are one tag byte plus the record's size |
| Storage.ReadImageOfTagged | Application/Modules/Flash/storage.c:313-413 | a record stored as tag + payload reads back exactly as tag + payload |
| Storage.GetOneRecordStatus | Application/Modules/Flash/storage.c:313-413 | out-of-range index gives OutOfRangeErr; unchanged / changed / tag error are reported exactly for tags 0xAA / 0xBB / other; fault-free flash reports the stored tag |
| Storage.InitOneRecord | Application/Modules/Flash/storage.c:416-477 | success stores the default tag and default payload under the index's record; failure changes nothing |
| Storage.SetOneRecord | Application/Modules/Flash/storage.c:480-526 | success stores the changed tag and the first RecordSize bytes of the input; out-of-range gives OutOfRangeErr with nothing changed |
| Storage.GetOneRecord | Application/Modules/Flash/storage.c:529-567 | success returns the stored payload without its tag; fault-free flash reads every present record |
| Storage.DelOneRecord | Application/Modules/Flash/storage.c:570-591 | success removes that index's record; failure changes nothing |
| Storage.InitStep | Application/Modules/Flash/storage.c:595-605 | initialising index i and then i+1.. leaves records below i alone and defaults i.. |
| Storage.InitFrom | Application/Modules/Flash/storage.c:595-605 | success means every index from the start on holds its default; records of lower indices and foreign records are untouched; a failure returns a setup, lookup, GC or write error, and there is an index where the loop stopped such that the indices before it hold their defaults and every other record, that index's included, is untouched; fault-free flash succeeds |
| Storage.InitFailStep | Application/Modules/Flash/storage.c:597-602 | a failure after index i was initialised is a failure of the loop started at i |
| Storage.InitAllRecords | Application/Modules/Flash/storage.c:595-605 | success means every record 1..115 holds its default; nothing else in flash changes; a failure returns the failing record's setup, lookup, GC or write error with the records before it at their defaults and every record from it on untouched; fault-free flash succeeds |
| Storage.AllDefaultStep | Application/Modules/Flash/storage.c:608-618 | all records from i on are default iff record i is and all from i+1 on are |
| Storage.UnchangedMeansDefaultTag | Application/Modules/Flash/storage.c:399-404 | an "unchanged" status means the stored tag is 0xAA, and on fault-free flash the converse holds |
| Storage.ValidFrom | Application/Modules/Flash/storage.c:608-618 | a "valid" answer means every record from the start on carries the default tag; on fault-free flash that is iff |
| Storage.IsAllRecordValid | Application/Modules/Flash/storage.c:608-618 | true means every record 1..115 still carries the default tag; on fault-free flash it is true iff that holds |
| StorageProps.StoreFitsAfterPut | Application/Modules/Flash/storage.c:480-526 | writing a record keeps every stored record within its reader's buffer |
| StorageProps.SetThenGet | Application/Modules/Flash/storage.h:270-305 | after a successful setOneRecord, getOneRecord returns the bytes written, and does succeed on fault-free flash |
| StorageProps.SetThenStatus | Application/Modules/Flash/storage.h:270-305 | after a successful setOneRecord, the record's status is "changed" |
| StorageProps.InitThenGet | Application/Modules/Flash/storage.h:270-305 | after a successful initOneRecord, the record reads back its default and reports "unchanged" |
| StorageProps.DeleteThenGet | Application/Modules/Flash/storage.h:270-305 | after a successful delOneRecord, no read of that index succeeds; on fault-free flash it is not found |
| StorageProps.SetLeavesOthers | Application/Modules/Flash/storage.c:480-526 | setOneRecord of one index leaves every other index's record as it was |
| StorageProps.InitLeavesOthers | Application/Modules/Flash/storage.c:416-477 | initOneRecord of one index leaves every other index's record as it was |
| StorageProps.DelLeavesOthers | Application/Modules/Flash/storage.c:570-591 | delOneRecord of one index leaves every other index's record as it was |
| StorageProps.InitAllThenValid | Application/Modules/Flash/storage.h:319-330 | after initAllRecords succeeds, isAllRecordValid on fault-free flash answers true |
| StorageProps.SetBreaksValidity | Application/Modules/Flash/storage.h:319-330 | after any successful setOneRecord, isAllRecordValid answers false |
| StorageProps.SetLookupFailure | Application/Modules/Flash/storage.c:157-160 | a failed search (other than not-found) is a lookup error and writes nothing |
| StorageProps.SetRetriesAfterGc | Application/Modules/Flash/storage.c:124-137 | a refused write is retried after garbage collection and the retry can succeed |
| StorageProps.SetGcFailure | Application/Modules/Flash/storage.c:125-129 | a failed garbage collection ends the write with a GC error and nothing written |
| StorageProps.SetRewriteFailure | Application/Modules/Flash/storage.c:125-133 | a refused retry is a write error; there is no third attempt |
| StorageProps.SetUpdateRetriesAfterGc | Application/Modules/Flash/storage.c:141-155 | for an existing record, a refused update is retried after garbage collection and the retry can succeed |
| StorageProps.SetUpdateGcFailure | Application/Modules/Flash/storage.c:142-146 | for an existing record, a failed garbage collection ends the update with a GC error and nothing written |
| StorageProps.SetUpdateRewriteFailure | Application/Modules/Flash/storage.c:142-150 | for an existing record, a refused second update is a write error |
| StorageProps.AsynFunPersists | Application/Modules/Flash/drv_storage.c:96 | the wait function fdsSetAsynFun installs stays through later writes, reads and deletions; fdsInit puts the low-power wait back |
| StorageProps.SetCompletionFailureHangs | Application/Modules/Flash/drv_storage.c:170-194 | an accepted write whose completion fails never returns |
| LedEffects.IsRegistered | Application/Modules/LED/app_led_effects.c:413-416 | on a consistent state, registered iff there is a current effect |
| LedEffects.IsRunning | Application/Modules/LED/app_led_effects.c:402-410 | running implies registered; when registered it reports the running flag |
| LedEffects.Register | Application/Modules/LED/app_led_effects.c:166-243 | re-registering the current effect changes nothing; a new GPIO or PWM effect becomes current and sets its own flag; NONE leaves nothing registered; consistency is preserved |
| LedEffects.Run | Application/Modules/LED/app_led_effects.c:246-336 | a stopped, registered effect starts running, and a GPIO effect lights its colour pattern; running or empty states are left alone |
| LedEffects.Stop | Application/Modules/LED/app_led_effects.c:339-361 | a running effect stops; GPIO pins are toggled; the effect stays registered |
| LedEffects.Clear | Application/Modules/LED/app_led_effects.c:364-386 | a running effect stops and GPIO pins go dark |
| LedEffects.Unregister | Application/Modules/LED/app_led_effects.c:389-399 | afterwards nothing is registered or running |
| LedEffects.InitialConsistent | Application/Modules/LED/app_led_effects.c:17-27 | the power-up state is consistent, with nothing registered or running |
| LedEffects.RegisterThenRun | Application/Modules/LED/app_led_effects.c:166-336 | registering a real effect and running it leaves that effect running, GPIO effects lit in their pattern |
| LedEffects.StaleRunningFlag | Application/Modules/LED/app_led_effects.c:166-243 | registering NONE does not clear the running flag, so a later registration reports running before Run |
| LedEffects.MixedFlags | Application/Modules/LED/app_led_effects.c:166-243 | registering a GPIO effect after a PWM one leaves both kind flags set |
| LedEffects.StopInvertsPattern | Application/Modules/LED/app_led_effects.c:339-361 | Stop after Run of a GPIO effect leaves the inverse of its pattern lit, and that equals the earlier LEDs exactly when they were already that inverse |
| LedEffects.StopFromDarkLightsOthers | Application/Modules/LED/app_led_effects.c:353-358 | from power-up, Run and Stop of RED_ON leave green and blue lit instead of dark |
| LedEffects.StopRestoring | Application/Modules/LED/app_led_effects.h:108-116 | a running GPIO effect's LEDs go back to what was lit before Run, as remembered by `RunSaving`; for other effects it is ledEffectStop |
| LedEffects.StopRestoringRestores | Application/Modules/LED/app_led_effects.h:108-116 | with the corrected Stop, Run then Stop leaves every LED as it was, from any stopped state |
| LedEffects.ClearDarkensGpio | Application/Modules/LED/app_led_effects.c:364-386 | Clear after Run turns every GPIO pin off |
| LedEffects.U16 | Application/Modules/LED/app_led_effects.c:41 | a sequence entry is the value truncated to 16 bits |
| LedEffects.AppendRamp | Application/Modules/LED/app_led_effects.c:73-163 | entries lo..hi of the sequence follow the linear ramp start + step·(i − lo), truncated to 16 bits, and earlier entries are kept |
| LedEffects.FillFirst | Application/Modules/LED/app_led_effects.c:77-130 | the first effect's three 300-entry sequences equal their closed-form ramps and stay within 0..10000 |
| LedEffects.FillSecondChannel | Application/Modules/LED/app_led_effects.c:133-161 | the second effect's 200-entry sequence equals its closed-form ramp and stays within 0..10000 |
| LedEffects.FillSeq | Application/Modules/LED/app_led_effects.c:73-163 | GPIO effects fill nothing; each PWM effect's sequences match their ramps and never exceed the top value |
| LedEffects.RampsSymmetric | Application/Modules/LED/app_led_effects.c:73-163 | each ramp rises and falls symmetrically about its peak |
| LedEffects.SequencesStartAndEndDark | Application/Modules/LED/app_led_effects.c:73-163 | every sequence starts and ends at duty 0 |
| Board.InitialButtons | Application/Modules/Board/app_board.c:23-35 | at start every button's events are "nothing" and no long push is pending |
| Board.PinToIdxFrom | Application/Modules/Board/app_board.h:96-99 | the index is the first position from i holding the pin, or 0xFF iff no position holds it |
| Board.PinToIdx | Application/Modules/Board/app_board.h:96-99 | 0xFF iff the pin is not a button; otherwise the first index holding that pin |
| Board.ButtonEventHandler | Application/Modules/Board/app_board.c:152-228 | a push reports the push event and arms the long-push timer; a long push reports its event and marks the release as "after long push"; a release reports the right event for that mark and clears it; unknown pins and other actions report nothing; the callback fires iff there is an event and a callback |
| Board.ButtonTimerExpired | Application/Modules/Board/app_board.c:231-235 | timer expiry is a long push of the pin that armed it |
| Board.ButtonEventAssign | Application/Modules/Board/app_board.c:294-344 | success iff the pin is a button and the action is assignable; it sets exactly that binding; failure changes nothing |
| Board.AssignThenPush | Application/Modules/Board/app_board.c:152-344 | after assigning an event to a push, pushing that button fires it |
| Board.PushThenRelease | Application/Modules/Board/app_board.c:152-228 | a push followed by a release reports the push event, then the release event |
| Board.PushLongPushRelease | Application/Modules/Board/app_board.c:152-235 | push, long push and release report push, long-push, then release-after-long-push events |
| Board.RebindBeforeRelease | Application/Modules/Board/app_board.c:152-344 | when the release binding is changed between push and release, the release selects no event and nothing fires, because the release event remembered at push no longer matches the binding |
| Board.LongPushFlagShared | Application/Modules/Board/app_board.c:152-228 | the after-long-push mark is global: one button's long push changes which event another button's release reports |
| Board.BoardLedEffectRun | Application/Modules/Board/app_board.c:246-253 | without initialised LEDs or a registered effect nothing happens; otherwise the effect runs |
| Board.BoardLedEffectStop | Application/Modules/Board/app_board.c:255-262 | with LEDs initialised, a registered effect stops and stays registered |
| Board.BoardLedEffectClear | Application/Modules/Board/app_board.c:264-272 | with LEDs initialised, the effect is cleared and unregistered, and GPIO LEDs go dark |
| Board.BoardLedEffect | Application/Modules/Board/app_board.c:274-286 | with LEDs initialised, the old effect is cleared and the new one is registered and run |
| Board.InitialLedInv | Application/Modules/Board/app_board.c:102 | the power-up LED state satisfies the wrapper invariant |
| Board.LastEffectWins | Application/Modules/Board/app_board.c:274-286 | after two calls the second effect is current, and running iff it is not NONE |

## Left out

- FDS internals: pages, the garbage collector's copying, CRC and the event queue are left out. The library is an outcome script over a map of records.
- Interrupts and waiting: `fds_wait`'s power-management wait and the custom wait function are not modelled. A wait either returns or hangs, according to the completion event, whichever wait function is installed; the driver records which one is (`waitFn`).
- Record descriptors: a record is identified by its (file id, key) pair. Duplicate records with one key, and `fds_record_write`'s descriptor output, are not modelled.
- `fdsInit`'s custom event handler argument: only the default handler is modelled, since the custom one is code outside this model.
- Driver getters and setters (drv_storage.c:375-415): these are plain field reads and writes of the driver state. Flags are reached through `FlagOf` / `SetFlag`.
- Heap allocation: `malloc`/`free` are left out, and so are the leaks on the error paths of storage.c (157-160, 254-256). The read buffer's uninitialised contents are the parameter `fill`.
- `FDS_VIRTUAL_PAGE_SIZE` comes from an SDK configuration that is not part of this model. It is the driver field `pageSize`, and `RoomyPages` states that every record fits.
- Logging (`NRF_LOG_*`) and `APP_ERROR_CHECK`'s reset are left out. These are side effects that do not change the returned values.
- data_colors.c is not part of this model. The colour defaults are floating-point constants converted to bytes, so they are the parameter `colors`, and `WellFormedColors` fixes their sizes.
- Storage.GetByteArray: requires that the stored record fits the reader's buffer. drv_storage.c:239-244 copies the header's word count into a buffer sized from the caller's `size`, so a longer record overruns the heap. The model rules that input out instead of modelling the overrun.
- Storage.GetOneRecord: carries the same fit precondition (`RecordFits`), for the same reason.
- Storage.GetOneRecordStatus: carries the same fit precondition (`RecordFits`), for the same reason.
- Storage.GetOneByteArrayData: requires that the stored record fits a buffer of the payload size plus the tag (`Fits`), for the same reason.
- Storage.IsAllRecordValid: requires every record of the store to fit its reader's buffer (`StoreFits`), for the same reason.
- Storage.ValidFrom: requires `StoreFits`, for the same reason.
- Storage.SetOneByteArrayData: requires a payload of at most 254 bytes. The documented 255-byte limit at storage.h:154 includes the tag, and `bytes_size + 1` in 8 bits wraps at 255.
- Storage.SetOneRecord: requires the caller's array to hold at least the record's size. The C code reads that many bytes from the pointer it is given.
- LedEffects.Clear: for a PWM effect the LEDs tracked in `lit` are left as they were, because `lit` follows GPIO writes only; the PWM driver switching the pins off (drv_pwm.c) is not modelled.
- LedEffects.Run: the PWM peripheral (drv_pwm) and pin polarity (`LEDS_ACTIVE_STATE`) are not modelled. The contract says which GPIO pins are lit, but not what the PWM hardware plays.
- Board.ButtonEventHandler: app_timer start and stop are not modelled. Whether the timer started is the parameter `timerOk`, and its expiry is `ButtonTimerExpired`.
- `boardConfig`, `boardButtonEnable`/`Disable`/`EnableAll`/`DisableAll`, `boardReadPinState`, `boardLedIsOn` and `boardButtonIsPressed` are SDK glue around GPIO and app_button, and are left out.
- The model follows the code in two places where it disagrees with the comments:
  - the `@Return` lines of `isAllRecordValid` (storage.h:331-332) are swapped;
  - the comments at storage.c:399-404 label the unchanged and changed branches the wrong way round.
  
  The code returns true when every tag is the default tag.

## Findings

| source | as written | input that shows it | evidently intended | confidence | as-written member | corrected member |
|---|---|---|---|---|---|---|
| Application/Modules/Flash/drv_storage.c:152-163 | `fdsInit` calls `fds_wait` on the init flag before checking whether `fds_init()` was accepted | `fds_register` succeeds and `fds_init()` returns an error: no init event arrives, the flag stays clear and the wait never returns, so the error branch at 158-163 is unreachable | check the return code of `fds_init()` before waiting, and return the error | medium, not executed | DrvStorage.FdsInit (counterexample DrvStorage.FdsInitRefusedHangs) | DrvStorage.FdsInitChecked (DrvStorage.FdsInitCheckedReportsRefusal) |
| Application/Modules/LED/app_led_effects.c:353-358 | `ledEffectStop` toggles the three GPIO pins, although its declaration (app_led_effects.h:108-113) says it restores the pin states from before the effect ran | from power-up, register RED_ON, run, stop: red goes dark but green and blue come on, while all three were dark before the run | Run remembers the pin states it overwrites and Stop writes them back | low, not executed (the same comment also says the pins are toggled) | LedEffects.Stop (counterexample LedEffects.StopFromDarkLightsOthers) | LedEffects.RunSaving + LedEffects.StopRestoring (LedEffects.StopRestoringRestores) |
