# FlashDB and the OLED frame buffer, modelled in Dafny

The firmware keeps its settings and logs in FlashDB: two log-structured stores on NOR flash. This
project models both, down to the bytes on flash, and proves that they behave as the data
structures they stand for, through garbage collection, rollover and power loss. It also covers
the primitives under them and the rectangle fill of the display. The write granularity is one bit
(`main/system/flashdb/inc/fdb_cfg.h:31`); the proofs hold for every geometry with at least two
sectors.

How the model is built:

- Flash is a sequence of sectors of bytes. `erase` sets a sector to 0xFF, `write` ANDs bytes onto
  what is there. One write or erase is atomic, and the model of the device records its contents
  after each, so a claim about every element of that history is a claim about every point where
  power can fail.
- The **key-value store** is a stack. `KvLog.Log` does single flash writes, reads records, walks
  sectors and keeps the sector cache; its ghost view (a list of sectors, each a list of records)
  is tied to the bytes by `Faithful`, and `trace` is that view after each write. `Kvdb.Kvdb` adds
  the address cache, allocation, garbage collection, set, delete, get and recovery. `Stored` is
  the map a reader sees; `Recovered` is the map the next boot restores. `AllSame` says that every
  point of power loss recovers to the same map, `AllOldOrNew` that it recovers to the old or the
  new value of one key and leaves the others alone.
- The **time-series store** is the class `Tsdb.Tsdb` over a view of sectors with entries;
  `Valid` ties it to the bytes, to the RAM cursors and to the history of accepted appends.
- `KvLaws`, `TsLaws` and `Formats` say the same things once more in other terms: where a record goes and
  when a sector is opened, closed or collected, from the sectors alone, and the formats on flash byte by
  byte, down to contents written out in full that power-up serves.
- Proofs are small lemmas over views. Most bodies begin with a `hide` statement naming the
  definitions the step does not need.

Power loss. `KvPower.SetThenCut` is the end-to-end statement: a set or delete, the power cut after
any of its writes, and the boots that follow; the store then holds the old or the new value of that
key and every other value unchanged. The boots come to an end if the key was deleted, or no collection
was due and the key is new or three sectors were empty. `KvPower.CutDuringBoot` cuts the power once
more during the recovery; that ends if there were two more empty sectors than half-deleted records, and
one more is not enough (`KvHang.OneMoreIsNotEnough`). Otherwise a pass may find no room, see below.
Both rest on `AllRestart`, which every operation on the store ensures: the contents after each of its
writes, read afresh, are fit for a boot, except while a sector is marked for collection. The words used
in their conditions:

- A cut between the first status byte and the header of a record leaves one programmed byte that no
  walk sees. `Lag` counts such bytes in a sector, `AllEven` says that there are none. `SectorExact` is the
  condition under which the traversal still finds the end of the sector; the invariant `Valid` has it
  for each sector, and nothing is asked of the values in other sectors.
- A new record behind left-over bytes must not end in 0xFF (`FirmValue`, `Solid`); without them any
  value can be written. `Layable` asks this of the sector the record will be laid in only. Records are
  moved only by a collection and by recovery: `Movable` is asked for only if a collection is due,
  `Placeable` only for half-deleted records.
- `Tame`: the part of a record that a cut leaves holds no magic word and, once it has lost erased bytes to
  left-over ones, does not pass the CRC check by chance. In a store without left-over bytes only the
  first half matters (`KvCrash.EvenTame`).

What the code does not do:

- **Overlapping records.** Behind a left-over status byte the traversal misses the end of a sector
  exactly when its last record ends in an erased byte, and the next record is laid over it
  (`KvCrash.TraversalExact`). `KvCrash.MisleadingFails` gives the bytes of such a sector: the traversal ends one
  byte early and the next status byte destroys a live value.
- **One boot is not always enough.** A recovery pass ends at the first record that was cut short.
  A half-deleted record behind that point stays half-deleted and its key is not found until a
  later boot (`KvRecovery.LeftForNextBoot`, with the bytes of such a store in `KvPower.MissedAtFirst`). Unless it
  runs out of room, a boot completes exactly if nothing was cut short (`Kvdb.Kvdb.Load`).
- **A boot can go on for ever.** A recovery pass ends without room exactly at a half-deleted record for
  which no sector has any (`Kvdb.Kvdb.RecoverOne`), even if the new value is already stored and the old one
  only has to be deleted: room is looked for first. The code then collects the dirty sectors and tries
  again. If no sector is dirty that changes nothing, and it tries again without end (`Kvdb.Kvdb.Retry`,
  `Kvdb.Kvdb.Retries`). One cut is enough: with two sectors, a short value set over one that fills more than
  half of a sector, and the power cut right behind the first write (`KvHang.HangsAfterCut`). With more
  empty sectors than half-deleted records no pass runs out of room. A retry with a dirty sector is not
  part of this model.
- **A wrong hit in the address cache.** Entries are found by 16 bits of a CRC and confirmed by a
  prefix test that does not stop at the end of the stored key. The names `e` and `e|o` share their 16
  bits, so with only `e|o` stored a search for `e` finds its record (`NameCache.ClashIsTaken`). A search goes
  wrong exactly in the case `Misled` (`Kvdb.Kvdb.FindKv`, `Kvdb.Kvdb.GetKv`); `NoClash` excludes it, and
  distinct CRCs imply that.
- **Collection may stop early.** It ends when the sector collected before the last one has more
  than the wanted bytes free, but allocation asks for 88 bytes more. The store then reports itself full
  although dirty sectors are left (`KvFull.EndsEarly`, for every sector size and number of dirty sectors).
  A refusal means that nothing was left to collect if and only if at most one sector was dirty or the
  record fits no sector at all (`KvFull.RefusalMeansNothingLeft`).
- **Status tables of more than 8 states** lose the multiples of 8 (`Status.DecodeEncode`).
- **Rectangles with a top row past 248** paint rows from 0 (`Oled.PaintsRectangleExactlyUnlessWrapped`).

Conditions on use, all stated as preconditions: a key has at most 63 characters or more than 64
(the 64th byte of a name is overwritten on reading); sizes fit 32 bits; a time stamp is positive
and below 2^31; `max_len + 16 + 32` is at most the sector size (the code asserts less, at
`main/system/flashdb/src/fdb_tsdb.c:1043`).

## Model

| member | source | states |
|---|---|---|
| `Bytes.ProgramErased` | main/system/flashdb/src/fdb_utils.c:299-320 | A write on erased bytes reads back as written and touches nothing else. |
| `Bytes.ProgramOnlyClears` | main/system/flashdb/src/fdb_utils.c:299-320 | No write ever sets a bit. |
| `Status.SetStatus` | main/system/flashdb/src/fdb_utils.c:91-124 | In place, for tables of any size: the table is the encoding of the status; the result names the byte to program, or none for status 0. |
| `Status.GetStatus` | main/system/flashdb/src/fdb_utils.c:126-145 | The scan from the end finds the highest cleared bit. |
| `Status.DecodeEncode` | main/system/flashdb/src/fdb_utils.c:91-145 | Reading undoes setting if and only if the status is 0 or no multiple of 8, so always for at most 8 states. |
| `Status.DecodeProgrammed` | main/system/flashdb/src/fdb_utils.c:91-171 | Programming one table over another decodes to the higher of the two statuses. |
| `Status.LadderNeverGoesBack` | main/system/flashdb/src/fdb_utils.c:91-180 | After any run of status writes between erases the status is the highest of them. |
| `NorFlash.Flash.WriteStatus` | main/system/flashdb/src/fdb_utils.c:147-171 | Status 0 writes nothing; any other is one AND-write of one byte. |
| `NorFlash.Flash.ContinueFf` | main/system/flashdb/src/fdb_utils.c:185-210 | For any contents, bounds and chunk boundaries: from the result on all is erased, and the byte before it is not. |
| `NorFlash.ErasedTailIsLeast` | main/system/flashdb/src/fdb_utils.c:185-210 | That result is the least start with an erased tail. |
| `NorFlash.FlatAddrSplits` | main/system/flashdb/inc/fdb_low_lvl.h:35-39 | A byte address determines sector and offset, and aligning down gives the sector. |
| `Crc32.TableEntry` | main/system/flashdb/src/fdb_utils.c:21-66 | Each of the 256 table entries is its index shifted bit by bit through the register of RFC 1952, section 8. |
| `Crc32.CalcCrc32` | main/system/flashdb/src/fdb_utils.c:77-89 | The table-driven loop equals the bit-serial CRC-32 on every byte string. |
| `Crc32.ContinueSplit` | main/system/flashdb/src/fdb_utils.c:77-89 | Chaining over any split equals one pass. |
| `Formats.CheckValue` | main/system/flashdb/src/fdb_utils.c:77-89 | The check value of CRC-32: the digits 1 to 9 give 0xCBF43926. |
| `Oled.FrameBuffer.DrawPx` | main/hardware/oled/oled.c:94-105 | Exactly one pixel takes the mode: bit y mod 8 of byte y / 8 of the column, counted from the lowest, all other bytes unchanged. |
| `Oled.FrameBuffer.DrawRect` | main/hardware/oled/oled.c:150-168 | With its byte-wise shortcut the fill sets exactly the painted rows of the columns to the mode, every other bit stays; also byte by byte, with the mask of each. |
| `Oled.MaskReads` | main/hardware/oled/oled.c:94-105 | Bit k of the mask of byte i stands for row 8 i + k. |
| `Oled.PaintsRectangleExactlyUnlessWrapped` | main/hardware/oled/oled.c:150-168 | The painted rows are y1 to y2 if and only if not (y1 past 248 and y2 at least 8). |
| `KvImage.SetRecStatusBytes` | main/system/flashdb/src/fdb_kvdb.c:941-1002 | One AND-write of a higher status turns the bytes of a sector into those of the sector with that record restated. |
| `KvImage.WithLastBytes` | main/system/flashdb/src/fdb_kvdb.c:1036-1053 | Each further stretch of a record lands on erased bytes and yields the record at its later stage, all other records intact. |
| `Formats.SectorHeaderBytes` | main/system/flashdb/src/fdb_kvdb.c:102-115 | The sixteen bytes of a sector header for each pair of statuses, with the magic word 46 44 42 30. |
| `KvImage.SoundHeaderBytes` | main/system/flashdb/src/fdb_kvdb.c:439-447 | A header passes the check if and only if bytes 4 to 7 are 46 44 42 30 and the next four all erased or all zero. |
| `Formats.RecordBytes` | main/system/flashdb/src/fdb_kvdb.c:1195-1253 | Every byte of a complete record: status, magic word, length, CRC of lengths, name and value, then these. |
| `Formats.StoredBytes` | main/system/flashdb/src/fdb_kvdb.c:1195-1253 | The 26 bytes of the value 3 under the key `y`, CRC included. |
| `Formats.MarkedBytes` | main/system/flashdb/src/fdb_kvdb.c:360-370 | What reading a record without a length leaves: status byte 07, all else erased. |
| `KvWalk.ScanFindsNext` | main/system/flashdb/src/fdb_kvdb.c:280-346 | Behind a good record, or one byte into a bad one, the first magic word belongs to the next visible record, whatever the values hold. |
| `KvLog.Log.ScanMagic` | main/system/flashdb/src/fdb_kvdb.c:294-309 | The 32-byte windows miss no magic word up to 32 bytes before the end, and report none before the start. |
| `KvLog.Log.GetNextKv` | main/system/flashdb/src/fdb_kvdb.c:312-346 | The next record is found, and only a sector's last record has none. |
| `KvLog.Log.ReadCrc` | main/system/flashdb/src/fdb_kvdb.c:377-388 | Reading in 32-byte chunks chains to the CRC of the whole body. |
| `KvLog.Log.BuildHeader` | main/system/flashdb/src/fdb_kvdb.c:1195-1231 | The header written carries the CRC the reader computes. |
| `KvLog.Log.ReadKv` | main/system/flashdb/src/fdb_kvdb.c:348-414 | Status, length, CRC verdict, name and value position of a record; only a header-less record is changed, to the error mark. |
| `KvLog.Log.UpdateSectorCache` | main/system/flashdb/src/fdb_kvdb.c:151-172 | One slot changes: the sector's own, or a free one for a valid sector not cached yet. |
| `KvLog.Log.Traverse` | main/system/flashdb/src/fdb_kvdb.c:461-489 | The traversal computes the true end of the records and the true free space of every sector that is exact, the invariant of the store. |
| `KvLog.Log.ReadSectorInfo` | main/system/flashdb/src/fdb_kvdb.c:416-502 | Cached or fresh, the information agrees with flash; a known empty address is the true one. |
| `KvLog.Log.UpdateSecStatus` | main/system/flashdb/src/fdb_kvdb.c:829-861 | Only EMPTY to USING ever happens: for an allocated record the branch that fills a sector is dead. |
| `KvLog.Log.CreateRecord` | main/system/flashdb/src/fdb_kvdb.c:1206-1257 | Any value in a sector without left-over bytes, and any that does not end in 0xFF behind such: the record is appended complete and live; every write on the way leaves a recognised stage; the sector cache agrees with flash again. |
| `KvLog.Log.CopyRecord` | main/system/flashdb/src/fdb_kvdb.c:1032-1061 | The same for a record copied in chunks from another place. |
| `KvLog.Log.DeleteRecord` | main/system/flashdb/src/fdb_kvdb.c:959-1001 | The record's status rises and a clean sector becomes dirty, on flash and in the cache; nothing else changes. |
| `KvLog.Log.FormatSector` | main/system/flashdb/src/fdb_kvdb.c:769-827 | The sector is empty and forgotten by the cache; the points of power loss are the erased and the formatted sector. |
| `KvCrash.TraversalExact` | main/system/flashdb/src/fdb_kvdb.c:461-489 | The traversal finds the true end if and only if the stated lengths lead there or the last byte is not erased; otherwise it ends inside a record. |
| `KvCrash.MisleadingFails` | main/system/flashdb/src/fdb_kvdb.c:461-489 | Concrete flash contents on which it ends at byte 68 instead of 69, and the status byte written there destroys a live value. |
| `KvCrash.LeftOverBytes` | main/system/flashdb/src/fdb_kvdb.c:461-489 | In a chain of records none of which lost its end, the stated lengths lead to the end if and only if no status byte without a header is among them. |
| `KvCrash.StageRereads` | main/system/flashdb/src/fdb_kvdb.c:1206-1257 | Whatever stage of adding a record a cut leaves, read afresh the store is exact again, in every sector; a record cut short gives up erased bytes to the next one. |
| `KvCrash.EvenTame` | main/system/flashdb/src/fdb_kvdb.c:280-346 | In a store without left-over bytes a cut-short record is harmless as soon as it holds no magic word. |
| `KvModel.PrepareDelete` | main/system/flashdb/src/fdb_kvdb.c:959-962 | Half-deleting a live record leaves what a boot recovers. |
| `KvModel.AddRecord` | main/system/flashdb/src/fdb_kvdb.c:1206-1257 | At every stage before WRITE the map is unchanged; at WRITE exactly one key changes. |
| `KvModel.FinishDelete` | main/system/flashdb/src/fdb_kvdb.c:963-984 | Deleting the half-deleted record changes nothing once the new one is live. |
| `KvModel.DirectDelete` | main/system/flashdb/src/fdb_kvdb.c:963-984 | Deleting a live record removes its key and no other. |
| `NameCache.UpdateRights` | main/system/flashdb/src/fdb_kvdb.c:207-246 | An update leaves at most one live entry per CRC, each pointing at a live record. |
| `NameCache.UpdateKnown` | main/system/flashdb/src/fdb_kvdb.c:212-217 | A known entry takes the address and keeps its activity, those before it are one less active, those behind it stay. |
| `NameCache.UpdateDeleted` | main/system/flashdb/src/fdb_kvdb.c:230-235 | A deleted name leaves its entry empty and nothing else changed. |
| `NameCache.UpdateUnknown` | main/system/flashdb/src/fdb_kvdb.c:218-245 | A new name takes the first free of the 64 slots, else the first of the least active ones, with activity 64; all others are one less active. |
| `NameCache.HitIsRight` | main/system/flashdb/src/fdb_kvdb.c:251-274 | Without a clash the prefix test accepts exactly the record of the name. |
| `NameCache.ClashIsTaken` | main/system/flashdb/src/fdb_kvdb.c:251-274 | Concrete flash contents with the record of `e|o` only: a search for `e` is answered with it. |
| `NameCache.ClashingNames` | main/system/flashdb/src/fdb_kvdb.c:251-274 | The names `e` and `e|o` have the same 16 bits, 0xEFDA, and one is a prefix of the other. |
| `Kvdb.Kvdb.UpdateKvCache` | main/system/flashdb/src/fdb_kvdb.c:207-246 | The whole new table: the first entry of the CRC takes the address, or is emptied; else the first empty slot before the least active one; all others age as in the code. |
| `Kvdb.Kvdb.KvFromCache` | main/system/flashdb/src/fdb_kvdb.c:251-274 | A hit is the first entry of that CRC with an address that passes the prefix test, and it becomes more active up to the limit; without a hit there is none, and nothing changes. |
| `Kvdb.Kvdb.FindKvNoCache` | main/system/flashdb/src/fdb_kvdb.c:528-583 | The search from any oldest sector finds the live record of the key if there is one. |
| `Kvdb.Kvdb.FindKv` | main/system/flashdb/src/fdb_kvdb.c:585-607 | The answer is that of the full search if and only if the table does not know another record by that name. |
| `Kvdb.Kvdb.GetKv` | main/system/flashdb/src/fdb_kvdb.c:622-644 | The value cut to the buffer, and its full length; nothing for an absent key; if the table is misled, the value of another key. |
| `Kvdb.Kvdb.AllocKv` | main/system/flashdb/src/fdb_kvdb.c:898-939 | The nearest sector in use that takes the record, if there is one; else the nearest empty one, if another empty one remains or a collection runs; refusal exactly if there is none; exactly when a collection is requested. |
| `KvLaws.ChosenGoes` | main/system/flashdb/src/fdb_kvdb.c:898-939 | The same from the sectors alone: more than 88 bytes stay free behind it, the sector is not marked, and sectors in use go before empty ones. |
| `KvLaws.PutLands` | main/system/flashdb/src/fdb_kvdb.c:898-939 | A put for which a sector in use has room is accepted, lands in the nearest such sector, and opens none. |
| `KvLaws.PutOpens` | main/system/flashdb/src/fdb_kvdb.c:924-935 | Without one, and with two empty sectors, the record is the first of the nearest empty one that takes it. |
| `KvRestart.ChosenLeaves` | main/system/flashdb/src/fdb_kvdb.c:916-939 | Ordinary allocation never takes the last empty sector. |
| `Kvdb.Kvdb.DelKv` | main/system/flashdb/src/fdb_kvdb.c:941-1002 | The new view, the writes in order, and which cache entry is dropped. |
| `Kvdb.Kvdb.PlaceMove` | main/system/flashdb/src/fdb_kvdb.c:1017-1067 | The half-deleted record is copied and deleted, or during recovery only deleted when its replacement is live. |
| `Kvdb.Kvdb.MoveKv` | main/system/flashdb/src/fdb_kvdb.c:1007-1068 | The map is the same before, after and at every write between; it fails if and only if no sector has room; each point of power loss is fit for a boot. |
| `KvGc.RoomIsChoice` | main/system/flashdb/src/fdb_kvdb.c:898-939 | While a sector is collected there is room for each of its records, so a move is never refused. |
| `KvGc.MoveKeepsRoom` | main/system/flashdb/src/fdb_kvdb.c:1126-1138 | After each move there is room for the rest of the sector, with no more than one empty sector spent. |
| `Kvdb.Kvdb.CollectRecords` | main/system/flashdb/src/fdb_kvdb.c:1124-1138 | Every live record moves out of the sector before it is erased. |
| `Kvdb.Kvdb.CollectSector` | main/system/flashdb/src/fdb_kvdb.c:1121-1139 | Collecting a sector keeps the map at every write, never lowers the number of empty sectors, and leaves exactly what the functional form `Collected` says. |
| `Kvdb.Kvdb.DoGc` | main/system/flashdb/src/fdb_kvdb.c:1112-1153 | It ends the collection if and only if it collected this sector and the one collected before has more than the wanted bytes free; walks then begin at the sector that follows, and this one counts as the last. |
| `Kvdb.Kvdb.GcCollect` | main/system/flashdb/src/fdb_kvdb.c:1155-1173 | The same for a whole collection: which sectors it takes, where walks begin afterwards and why it ended; it leaves exactly the store of `GcRun`; without a dirty sector that is the store as it was. |
| `KvLaws.GcLaw` | main/system/flashdb/src/fdb_kvdb.c:1112-1173 | From the marks alone: the dirty sectors nearest behind the oldest one are collected, walks begin behind the last of them, or where they did if there was none; it ends early only if the sector collected before the last one has more than the wanted bytes free. |
| `KvLaws.DirtyFirst` | main/system/flashdb/src/fdb_kvdb.c:1137-1141 | After it, walks meet every sector that is still dirty before any that was collected. |
| `Kvdb.Kvdb.NewKv` | main/system/flashdb/src/fdb_kvdb.c:1070-1090 | The store once room was looked for, as a function of the one before, with the collection in it as `GcLaw` has it; refusal if and only if that store has no room; the map is kept throughout, and every write outside a collection leaves a store fit for a boot. |
| `KvCollect.NothingLeft` | main/system/flashdb/src/fdb_kvdb.c:1112-1173 | With at most one dirty sector, or a record that fits no sector, a collection leaves nothing to collect. |
| `KvFull.EndsEarly` | main/system/flashdb/src/fdb_kvdb.c:1112-1173 | For every sector size and number of dirty sectors from two on: a store whose collection ends after the first of them and still refuses the record. |
| `KvFull.RefusalMeansNothingLeft` | main/system/flashdb/src/fdb_kvdb.c:1070-1090 | A refusal means that no dirty sector was left if and only if there was at most one, or the record fits no sector. |
| `Kvdb.Kvdb.CreateKv` | main/system/flashdb/src/fdb_kvdb.c:1186-1267 | Too long a name is refused before anything is written; otherwise old value before WRITE, new value from then on, and each write leaves a store fit for a boot. |
| `Kvdb.Kvdb.Replace` | main/system/flashdb/src/fdb_kvdb.c:1310-1321 | Half-delete, write, delete: exactly one key changes, and every write leaves a store fit for a boot with the old or the new value. |
| `Kvdb.Kvdb.SetKv` | main/system/flashdb/src/fdb_kvdb.c:1297-1329 | On success exactly this key has the new value, otherwise nothing changed; the whole next store as a function of the one before, in the nearest sector in use that takes the record if there is one; each error if and only if its cause holds; old or new value at every point of power loss, each fit for a boot unless a sector is marked for collection; at most one record is ever half-deleted and at most one empty sector taken. |
| `Kvdb.Kvdb.DelKey` | main/system/flashdb/src/fdb_kvdb.c:1277-1295 | The key is gone and no other; the name error exactly for an absent key; old value or none at every point of power loss, each fit for a boot, with nothing half-deleted. |
| `Kvdb.Kvdb.CheckHeaders` | main/system/flashdb/src/fdb_kvdb.c:1564-1580 | Exactly the sectors whose header bytes fail the check are formatted and counted, whatever they hold; the others are untouched at every write, each of which leaves a store fit for a boot. |
| `Kvdb.Kvdb.SetDefault` | main/system/flashdb/src/fdb_kvdb.c:1387-1431 | From any contents: an empty map and an empty cache; at each write a sector is as before, erased or formatted. |
| `Kvdb.Kvdb.RecoverOne` | main/system/flashdb/src/fdb_kvdb.c:1597-1626 | One record is settled for good; the pass is interrupted exactly at a record that was cut short, which gets the error status, and out of room exactly at a half-deleted one for which no sector has room. |
| `Kvdb.Kvdb.RecoverPass` | main/system/flashdb/src/fdb_kvdb.c:1597-1661 | A pass keeps the map at every write, each fit for a boot; finished, nothing is half done; interrupted, everything before that record is settled, the rest as it was, and less is pending; out of room, everything before the record it names is settled; a pass over a store that is stuck at its first unsettled record leaves it as it was. |
| `KvRecovery.LeftForNextBoot` | main/system/flashdb/src/fdb_kvdb.c:1612-1618 | A half-deleted record behind the interruption stays so: its key is not found, while the next boots bring its value back. |
| `KvRecovery.RoomForAll` | main/system/flashdb/src/fdb_kvdb.c:1597-1661 | With more empty or unformatted sectors than half-deleted records, recovery never runs out of room. |
| `KvPower.MissedAtFirst` | main/system/flashdb/src/fdb_kvdb.c:1597-1667 | Concrete flash contents, both records of one key, on which the first boot ends with a recoverable key not found. |
| `Kvdb.Kvdb.Load` | main/system/flashdb/src/fdb_kvdb.c:1633-1667 | One boot up to a pass without room: completed, it serves exactly what was recoverable; short of running out of room it completes if and only if no record was cut short; never out of room with more empty sectors than half-deleted records; each write leaves a store fit for a boot; no sector with a sound header loses a record. |
| `Kvdb.Kvdb.Retry` | main/system/flashdb/src/fdb_kvdb.c:1654-1661 | The retry after a pass without room, in a store without a dirty sector: the collection does nothing and the pass ends at the same record. |
| `Kvdb.Kvdb.Retries` | main/system/flashdb/src/fdb_kvdb.c:1654-1661 | So after any number of retries. |
| `KvHang.HangsAfterCut` | main/system/flashdb/src/fdb_kvdb.c:1297-1329 | A concrete store, a set, and a point of power loss behind which the boot is stuck in that way. |
| `Kvdb.Kvdb.Boot` | main/system/flashdb/src/fdb_kvdb.c:1633-1667 | Repeated boots come to an end with the recoverable map, or at a pass without room for a half-deleted record that was there from the start, never with more empty sectors than such records; each write leaves a store fit for a boot, with no new half-deleted record and at most one empty sector less to spare. |
| `KvCrash.CrashPoint` | main/system/flashdb/src/fdb_kvdb.c:1206-1257 | The bytes after any write, read afresh, spell out a settled view with the same complete records. |
| `KvRun.Reboot` | main/system/flashdb/src/fdb_kvdb.c:1743-1817 | Power-up on contents fit for a boot ends ready for use with exactly the recoverable map, or at a pass without room for a half-deleted record, which more empty sectors than such records rule out. |
| `Formats.Serves` | main/system/flashdb/src/fdb_kvdb.c:1743-1817 | Power-up on two sectors written out in full, 42 and 16 bytes of them programmed, serves the value they hold. |
| `KvPower.FoundAgain` | main/system/flashdb/src/fdb_kvdb.c:1743-1817 | Contents of a point fit for a boot, read afresh, are what power-up needs, with the same recoverable map. |
| `KvPower.PowerUp` | main/system/flashdb/src/fdb_kvdb.c:1743-1817 | The same from the flash contents at any point of power loss at which no sector is marked for collection. |
| `KvPower.SetThenCut` | main/system/flashdb/src/fdb_kvdb.c:1297-1329 | A set or delete, the power cut at any write of it, and power-up: old or new value of the key, all other keys untouched. Without a collection every point is covered, and the boots finish if it was a delete, or the key is new, or three sectors were empty. |
| `KvPower.CutDuringBoot` | main/system/flashdb/src/fdb_kvdb.c:1633-1667 | Power-up, the power cut again at any write of the recovery, and power-up: still exactly the recoverable map; it finishes with two more empty sectors than half-deleted records, and otherwise ends at one of these that finds no room. |
| `KvHang.OneMoreIsNotEnough` | main/system/flashdb/src/fdb_kvdb.c:1007-1068 | With one more it does not: a store and a point of its recovery from which the next boot is stuck. |
| `KvSpare.SetRoom` | main/system/flashdb/src/fdb_kvdb.c:1297-1329 | At each point of power loss of a set without a collection, or a delete, what the next boot has in reserve against what it has to move. |
| `KvRun.NewStore` | main/system/flashdb/src/fdb_kvdb.c:1633-1667 | The first boot of a device without a sound header, whatever else it holds, ends ready for use, empty, all sectors formatted, with no condition left. |
| `KvRun.Run` | main/system/flashdb/src/fdb_kvdb.c:559-644 | Every sequence of put, delete and get, with any collections inside, gives the outcomes of a plain map, where a put is refused exactly if no room can be made for it; each store on the way is a function of the one before. |
| `KvRun.OneOutcome` | main/system/flashdb/src/fdb_kvdb.c:559-644 | The store at the start settles every outcome: there is no second explanation. |
| `KvRun.OpensLate` | main/system/flashdb/src/fdb_kvdb.c:924-931 | Anywhere in a run an empty sector is opened only if no sector in use takes the record. |
| `KvRun.RunMarked` | main/system/flashdb/src/fdb_kvdb.c:959-1001 | Anywhere in a run from a new device records that were deleted lie in sectors marked dirty only. |
| `KvRun.RunFromNew` | main/system/flashdb/src/fdb_kvdb.c:559-644 | The same from a new device on, with an empty map and all sectors empty at the start. |
| `KvRun.NewTakesAll` | main/system/flashdb/src/fdb_kvdb.c:898-939 | Such a store refuses a first record if and only if it fits no sector. |
| `KvIterate.AllLiveOnce` | main/system/flashdb/src/fdb_kvdb.c:504-557 | The ring order lists every live record exactly once, from any oldest sector. |
| `KvIterate.LiveFromOrder` | main/system/flashdb/src/fdb_kvdb.c:504-557 | Sectors come in the order of the ring from the oldest one, records of a sector in the order of writing. |
| `KvIterate.KvIterator.Iterate` | main/system/flashdb/src/fdb_kvdb.c:1863-1899 | A call delivers the next live record and counts it, or reports the end when none remains. |
| `KvIterate.IterateAll` | main/system/flashdb/src/fdb_kvdb.c:1841-1899 | Calls until the end deliver every live record exactly once, in that order; the counters are the sums over them. |
| `TsLayout.DataApart` | main/system/flashdb/src/fdb_tsdb.c:350-377 | The data of different entries never overlap. |
| `TsImage.EntryAdded` | main/system/flashdb/src/fdb_tsdb.c:350-377 | Index and data on erased bytes make the sector one entry longer, all else intact. |
| `TsImage.CloseBytes` | main/system/flashdb/src/fdb_tsdb.c:387-412 | The end information and FULL turn a sector in use into the closed one. |
| `Formats.TsHeaderBytes` | main/system/flashdb/src/fdb_tsdb.c:98-116 | The 32 bytes of a header in each state of the sector, with the magic word 54 53 4C 30. |
| `Formats.TsIndexBytes` | main/system/flashdb/src/fdb_tsdb.c:119-134 | The 16 bytes of an index slot: status 3F, time, length, address. |
| `Formats.TwoEntriesBytes` | main/system/flashdb/src/fdb_tsdb.c:350-377 | A sector of 80 bytes with two entries, written out in full. |
| `Tsdb.Tsdb.ReadTsl` | main/system/flashdb/src/fdb_tsdb.c:147-175 | An index slot reads back as the entry it was written for. |
| `Tsdb.Tsdb.ReadBlob` | main/system/flashdb/src/fdb_utils.c:237-249 | The data behind a description are the bytes appended, cut to the buffer. |
| `Tsdb.Tsdb.Traverse` | main/system/flashdb/src/fdb_tsdb.c:282-306 | The traversal recomputes every cursor, also where it reports an error because the sector is exactly full. |
| `Tsdb.Tsdb.NextCurrent` | main/system/flashdb/src/fdb_tsdb.c:387-432 | Closing moves on to an empty sector, or overwrites the oldest and drops exactly its entries, or refuses at the end without rollover. |
| `Tsdb.Tsdb.Append` | main/system/flashdb/src/fdb_tsdb.c:451-499 | Which error when; on success the history grows by this entry, and the whole new view: it joins its sector if it fits, else the sector is closed and the next one opened, which gives up the oldest only when nothing is empty. |
| `TsLaws.AcceptedIs` | main/system/flashdb/src/fdb_tsdb.c:379-449 | That rule from the sectors alone: an entry fits as long as header, indices and data leave room for one index and its bytes. |
| `Tsdb.Tsdb.DeliversHistory` | main/system/flashdb/src/fdb_tsdb.c:379-449 | The log on flash is a suffix of the accepted appends, in order, with strictly increasing times and intact data. |
| `Tsdb.Tsdb.Iter` | main/system/flashdb/src/fdb_tsdb.c:556-597 | Forward iteration delivers exactly that log. |
| `Tsdb.Tsdb.IterReverse` | main/system/flashdb/src/fdb_tsdb.c:606-649 | Backward iteration delivers exactly its reverse. |
| `Tsdb.Tsdb.SearchStart` | main/system/flashdb/src/fdb_tsdb.c:654-680 | The halving ends at the first entry that is not earlier than the wanted time. |
| `Tsdb.Tsdb.IterByTime` | main/system/flashdb/src/fdb_tsdb.c:691-769 | The query delivers exactly the entries of the log within the range, one stretch of it. |
| `TsLaws.QueryIsStretch` | main/system/flashdb/src/fdb_tsdb.c:691-769 | In a list in order of time the entries from `from` to `to`, both included, are one stretch, and the query is that stretch. |
| `Tsdb.Tsdb.Clean` | main/system/flashdb/src/fdb_tsdb.c:904-917 | Whatever the flash held, an empty store. |
| `Tsdb.Tsdb.Init` | main/system/flashdb/src/fdb_tsdb.c:1046-1095 | Start-up recomputes the oldest and the current sector, the last time and, for a sector in use, every cursor as the running store had them. |
| `Tsdb.Tsdb.ScanHeaders` | main/system/flashdb/src/fdb_tsdb.c:866-893 | Reading the headers by address finds the current sector and never reports a fault; the last empty or else the current one precedes the oldest. |
| `Tsdb.Tsdb.FillUp` | main/system/flashdb/src/fdb_tsdb.c:814-827 | On a cleaned store without rollover, for entries of any one length, exactly the computed number is accepted. |
| `Tsdb.Tsdb.MaxBlobCount` | main/system/flashdb/src/fdb_tsdb.c:814-827 | The number for entries of the greatest length. |

## Left out

- File mode, the partition layers under the flash calls, locks, logging and printing, control commands, the other write granularities, the automatic update of default settings: replaced by the flash model or compiled out here.
- Errors of the flash device: reads, writes and erases succeed.
- Addresses are pairs of sector and offset in the key-value store; `NorFlash.FlatAddrSplits` relates them to byte addresses. The time-series store keeps byte addresses where the flash holds them.
- The field `combined` is always "not combined", as every format writes it; with 0 the walk over the sectors would not advance.
- The scan for the oldest sector at start-up: the proofs hold for every sector the walks may begin at. With a zeroed structure that scan reads the sector cache before it is cleared and yields 0.
- The table of default settings: `SetDefault` creates none.
- Keys of exactly 64 characters, on which `read_kv` overwrites the last byte, and keys with a zero byte.
- The string wrappers around get and set, and the integrity check `fdb_kvdb_check`.
- A power cut inside one flash write: a write is atomic. A record that may be cut short is assumed not to contain the magic word of a record, and behind left-over bytes not to pass the CRC check with its end missing (`Tame`); with four or more of those in one sector no record can be sure of that.
- Sector headers whose magic word is sound and whose status bytes are none the code ever wrote: other faulty headers are covered.
- `Kvdb.Kvdb.Load`: a boot with a sector marked for collection (resuming an interrupted collection) is not covered, nor is the retry after a pass without room in a store with a dirty sector, which would collect half-deleted records; without one, see `Kvdb.Kvdb.Retry`.
- `KvPower.PowerUp`: ends where that retry would begin, as do `Kvdb.Kvdb.Boot` and `KvRun.Reboot`.
- `Kvdb.Kvdb.SetKv`: at a point of power loss at which a sector is marked for collection the map is shown to be recoverable, but no boot from there; `KvPower.SetThenCut` leaves these points out.
- `Kvdb.Kvdb.Boot`: after an interrupted boot the code already serves set, get and delete. Here boots are repeated first; operations on a store with half-deleted records left are not covered.
- `Kvdb.Kvdb.RecoverPass`: says that everything behind an interruption is unchanged, not how many further boots a given key needs.
- `KvRun.Reboot`: needs an erased or empty sector, which every point of power loss outside a collection has.
- `Kvdb.Kvdb.CreateKv`: the address enters the table after the record is finished, while the code enters it before the value is written; nothing reads the table in between.
- `KvRun.Run`: for stores without left-over bytes, which runs keep.
- `KvFull.RefusalMeansNothingLeft`: sectors of more than 200 bytes, and records of at least 26, the shortest with a name and a value.
- `Tsdb.Tsdb.Init`: contents between appends with the current sector not full; a store whose sectors are all closed leaves the current sector unset in the code. Contents with a faulty header are what `Clean` is for.
- `Tsdb.Tsdb.IterByTime`: the backward direction, from later to earlier, reads data bytes as an index entry where a sector is exactly full.
- `Tsdb.Tsdb.Iter`: the callback collects; one that stops early cuts the list short. The same holds for the other two iterators.
- `Tsdb.Tsdb.ReadTsl`: the status byte is read first and the rest of the slot only for a written entry, where the code reads all 16 bytes at once.
- Changing the status of an entry (`fdb_tsl_set_status`) and counting entries by status; time stamps of 64 bits and fixed blob sizes are compiled out.
- Power loss inside an append of the time-series store.
- `oled_draw_line`, text, fonts and views; the scheduler of the user interface.
