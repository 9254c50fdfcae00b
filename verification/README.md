# Verified models of the instrument firmware's storage, protocol and bootloader

This project models, and proves properties of, the parts of the firmware that keep data across
power losses and that take commands from a serial line:

* **The key-value database** (`KvRecord`, `KvFlash`, `KvDisk`, `SectorCache`, `KvCache`, `KvCrash`,
  `KvMoves`, `KvCollect`, `KvLookup`, `KvWalk`, `Kvdb`, `KvBoot`, `KvCrowded`, `KvRun`, `KvIterate`): a log-structured map on
  flash that is programmed by 32-bit words and erased by 2 KB pages. A sector holds a list of
  records; every change of the flash is one `Op`, that is one word program or one page erase, and
  is carried out by `Kvdb.Exec`, which appends the flash it leaves to a ghost `log` and its bytes to
  a ghost `trail`. The entries of `log` are therefore exactly the states a power loss can leave, and
  each step of `trail` is one page erased or one word that the flash takes. `Recoverable(flash)` is
  the map a restart can read: each key's WRITE record, else its PRE_DELETE record. The class
  `Kvdb` has the caches, the allocator, copying garbage collection, replacement, deletion and the
  load at boot as methods over that flash. A slot starts where a traversal of the bytes found the
  free space when it was begun (`KvFlash.Off`), also behind slots that a power loss cut short.
* **Its bytes** (`Numbers`, `Words`, `Crc32`, `KvLayout`, `KvScan`, `KvProgram`, `KvTape`, `FalPort`): the
  record and header layout, the checksum, the magic-word scan and sector traversal, and the proof
  that every record-level change is one word program that the flash driver accepts and whose
  bytes represent the changed records.
* **The time series database** (`TsRing`, `TsWalk`, `Tsdb`): a ring of sectors whose index grows up
  and whose data grows down, with eviction of the oldest sector, iteration both ways, the range
  query by binary search, and the rebuilding of the lost memory at boot.
* **The command frames** (`Crc16`, `Frames`, `Registers`, `Process`, `Folding`): the serializer, the
  byte-by-byte receiver with its in-place decoding, the checksum, the register table and its
  chained hash index.
* **The bootloader** (`Boot`): backup, upgrade and rollback over flash pages, cut off anywhere.

Code that updates state step by step is modelled by classes and methods; each is specified by a
function or predicate about which the lemmas speak.

Where a promise of the design is not kept by the code, the model keeps the code and states when the
promise holds: `KvLayout.KeyComesBackIff` (keys of 64 bytes are accepted but come back cut),
`KvLookup.CacheRightIff` with `KvLookup.ClashAnswers` (the key cache can answer with another key's
record), `KvScan.KeptIff` with `KvScan.LossExample` (behind a slot that a power loss cut short before its
magic word, a record that ends in an erased word is overwritten by the next one), `KvBoot.Boot` with
`KvBoot.StoppedExample` (a boot stops at an unfinished record and lookups miss the one being replaced), with
`KvCrowded.TwinsExample` (a collection during recovery can leave two old records of one key) and with
`KvCrowded.SpinningExample` (a boot that finds no room and nothing dirty does not end),
`Kvdb.Kvdb.KvDel` (a deletion after a boot that stopped early is undone by the next one when the key has a
record being replaced), `Tsdb.Tsdb.Boot` with `Tsdb.GhostSlot` (a boot can take data for an index slot),
`Boot.BackupKeptIff` and `Boot.RestoredIff` (long upgrades).

A collection that copies a replacement while the record it replaces is still there has, for a while, two
PRE_DELETE records of one key, and no pair of indexes describes that flash. The ghost variable `care` then
has a `veil`: the replacement is disregarded, its key has the old value, and the invariants speak of the
flash without it (`KvCrash.Seen`), until the copy is finished and the original deleted.

## Model

| member | source | states |
|---|---|---|
| KvRun.Run | application/flashdb/src/fdb_kvdb.c:1297-1350 | any run of sets, deletes and gets ends in the map those commands make, refused ones changing nothing; every get answers from the map after the commands before it; every set stored its record in the first place there was, or was refused for the reasons that `KvCollect.Refused` names; every word program or page erase inside the run leaves a flash from which exactly the map after the commands already committed can be recovered, and leaves the bytes of the flash changed by one erased page or one word that the flash takes |
| KvRun.LastStays | application/flashdb/src/fdb_kvdb.c:618-640 | the map that gets answer from has, for each key, the value last set, or none if it was deleted last |
| KvRun.AtomicNext | application/flashdb/src/fdb_kvdb.c:1297-1350 | atomicity of a run extends by one command whose power losses before its commit point leave the old map and after it the new one |
| KvRun.Restart | application/flashdb/src/fdb_kvdb.c:1652-1835 | power lost anywhere in such a run, then a boot: the database holds the map after the commands that had taken effect; lookups find all of it when the boot loads everything, and, with no collection in the run or the boot, exactly when the record being replaced is rescued |
| KvRun.Session | application/flashdb/src/fdb_kvdb.c:1758-1835 | boot, run, power loss, boot: after a boot that recovered every record a run is answered and carried out as above, and wherever power is lost, from the start of the boot to the end of the run, outside a collection or inside one of the run with a spare sector left, what is left can be booted again and holds the map after the commands that had taken effect; so this goes on over any number of power losses, also when the first flash was left in the middle of a collection |
| Kvdb.Kvdb.SetKv | application/flashdb/src/fdb_kvdb.c:1317-1350 | a successful set makes the map `m[key := val]`, a refused one leaves it; there is one commit point such that power lost before it leaves the old map recoverable and after it the new one; the record is in the first sector in ring order with room, after a collection only if there was none, and an older one is deleted and nothing else changed; with room, or when every dirty sector is garbage, one is EMPTY and the record fits, the set is not refused for space; a spare EMPTY sector remains, the key cache knows the record, and no later slot can reach into a live record |
| Kvdb.Kvdb.ReplaceKv | application/flashdb/src/fdb_kvdb.c:1325-1344 | replacing a record by PRE_DELETE, new record, DELETED is atomic at every word: old value before the commit word, new value from it on; the flash then is the old one with these three changes |
| Kvdb.Kvdb.InsertKv | application/flashdb/src/fdb_kvdb.c:1330-1336 | setting a new key is atomic at its commit word, and a name that is too long changes nothing |
| Kvdb.Kvdb.KvDel | application/flashdb/src/fdb_kvdb.c:1297-1315 | the key has no WRITE record any more, or had none and the name error is returned; that record is DELETED, its sector dirty, and nothing else has changed; also after a boot that stopped early: the deletion is still there at the next boot if and only if the key has no PRE_DELETE record, whose value it has otherwise; every state left behind already holds the new map |
| Kvdb.Kvdb.GetKv | application/flashdb/src/fdb_kvdb.c:618-640 | also after a boot that stopped early: returns the bytes of the WRITE record of the key, cut to the buffer, and their full length; nothing for a key without one |
| Kvdb.Kvdb.NewKv | application/flashdb/src/fdb_kvdb.c:1065-1085 | with room nothing is collected; without room and with exactly one EMPTY sector left, dirty sectors are collected for the size wanted, and then the space is looked for once more; the space returned is the first that holds the record and leaves a spare EMPTY sector; no space is returned only when the record is refused as `KvCollect.Refused` says; the map is untouched |
| Kvdb.Kvdb.AllocKv | application/flashdb/src/fdb_kvdb.c:894-934 | finds room exactly when a USING sector has it, or an EMPTY one that may be used: the first one in ring order, and an EMPTY one only when no USING one has room; asks for a collection exactly when the only EMPTY sector would be taken |
| Kvdb.Kvdb.SearchSpace | application/flashdb/src/fdb_kvdb.c:859-909 | the sector found can hold the record with more than the reserve left, and no earlier one in ring order can; none found means none can |
| Kvdb.Kvdb.CountEmpty | application/flashdb/src/fdb_kvdb.c:881-892 | counts exactly the EMPTY sectors and returns the last one in ring order, whatever the sector cache holds |
| Kvdb.Kvdb.ReadSectorInfo | application/flashdb/src/fdb_kvdb.c:413-498 | what is returned from the cache or read afresh equals the sector's header, and the free offset and remaining size that a traversal of its bytes finds, lost slots included; what the cache has is returned as it is, and what was read is cached unless the cache is full |
| Kvdb.Kvdb.FindKvNoCache | application/flashdb/src/fdb_kvdb.c:524-579 | finds the key's one WRITE record, or there is none |
| Kvdb.Kvdb.FindKv | application/flashdb/src/fdb_kvdb.c:581-603 | lookup through the cache returns the same record as the walk over the flash; a hit only raises the activity of its slot, and after a walk the record is cached |
| Kvdb.Kvdb.GetKvFromCache | application/flashdb/src/fdb_kvdb.c:248-271 | answers with the first active slot of that hash whose record shows the key in the 64 bytes behind its header, raises that slot's activity and changes no other slot; a miss changes nothing |
| KvLookup.ProbeRight | application/flashdb/src/fdb_kvdb.c:248-271 | with no clashing key a cache hit is the key's own live record |
| KvLookup.CacheRightIff | application/flashdb/src/fdb_kvdb.c:248-271 | in every state the cache can be in it answers with the right key, if and only if no live record of another key has the same name hash and shows this key in the 64 bytes behind its header, which run on into the next slot or erased flash |
| KvTape.ShownIs | application/flashdb/src/fdb_kvdb.c:248-271 | in the bytes of the flash, what the cache compares a key with is the name and value of the record, then the mark of the next slot, or erased flash |
| KvLookup.ClashFree | application/flashdb/src/fdb_kvdb.c:248-271 | a condition on the map alone keeps every other key from answering for this one, wherever the records lie |
| KvLookup.ClashExample | application/flashdb/src/fdb_kvdb.c:258-264 | two concrete keys, one a prefix of the other, for which that condition fails |
| KvLookup.ClashAnswers | application/flashdb/src/fdb_kvdb.c:248-271 | a concrete flash and cache, both well formed, in which the lookup of one of them, which has no record, answers with the record of the other |
| Kvdb.Kvdb.CacheInsert | application/flashdb/src/fdb_kvdb.c:204-243 | after an insert every active slot still points at a live record with its hash, and the hash answers with the new record |
| KvCache.Cache.Choose | application/flashdb/src/fdb_kvdb.c:209-229 | the slot chosen is the first with the hash, else the first free one, else the first least active one, and exactly the active slots passed on the way age by one |
| KvCache.Cache.Insert | application/flashdb/src/fdb_kvdb.c:204-243 | the whole table after recording a record under a hash; a hash keeps at most one active slot, the first with that hash; no other entry changes |
| KvCache.Cache.Remove | application/flashdb/src/fdb_kvdb.c:230-235 | the hash no longer answers with anything: its first slot keeps the hash alone, and no other slot changes |
| KvCache.Cache.Touch | application/flashdb/src/fdb_kvdb.c:258-264 | only the used slot's activity rises, saturating at its maximum |
| KvCache.Cache.Clear | application/flashdb/src/fdb_kvdb.c:1811-1813 | a boot drops every address and keeps the hashes, whatever the table held at power-on |
| SectorCache.Cache.Clear | application/flashdb/src/fdb_kvdb.c:1806-1810 | a boot forgets every sector, whatever the table held at power-on |
| SectorCache.Cache.Find | application/flashdb/src/fdb_kvdb.c:174-185 | returns the slot caching the sector, or nothing is cached for it |
| SectorCache.Cache.Update | application/flashdb/src/fdb_kvdb.c:148-172 | the cache still agrees with the flash; the sector's entry is replaced or dropped, a new one is ignored only when the table is full, and other sectors' entries stay |
| SectorCache.Cache.SetEmpty | application/flashdb/src/fdb_kvdb.c:187-194 | after a record was written the cached free offset and remaining size are again those of a fresh traversal |
| SectorCache.Cache.SetStore | application/flashdb/src/fdb_kvdb.c:196-202 | the cached store status follows the flash |
| SectorCache.Cache.SetDirty | application/flashdb/src/fdb_kvdb.c:980-991 | the cached dirty status follows the flash |
| Kvdb.Kvdb.UpdateSecStatus | application/flashdb/src/fdb_kvdb.c:825-857 | EMPTY becomes USING; the FULL transition is never taken for space the allocator returned |
| Kvdb.Kvdb.OpenRecord | application/flashdb/src/fdb_kvdb.c:1206-1268 | an unfinished record now ends the sector and nothing recoverable changed at any word |
| Kvdb.Kvdb.CloseRecord | application/flashdb/src/fdb_kvdb.c:1269-1287 | finishing a record changes the map at its last word only |
| Kvdb.Kvdb.CreateKvBlob | application/flashdb/src/fdb_kvdb.c:1206-1287 | the record ends its sector, both caches agree with the flash again, the map gains the value at the last word and at no earlier one |
| Kvdb.Kvdb.PrepareDel | application/flashdb/src/fdb_kvdb.c:957-991 | marking a record PRE_DELETE and its sector dirty changes nothing recoverable |
| Kvdb.Kvdb.Delete | application/flashdb/src/fdb_kvdb.c:959-991 | completing a deletion removes the key, or only the old record when its replacement exists, and keeps both caches right: the key cache forgets the key unless it is being replaced |
| Kvdb.Kvdb.MarkDeleted | application/flashdb/src/fdb_kvdb.c:959-963 | the one word that completes a deletion of a WRITE record removes the key exactly when it has no PRE_DELETE record, and else gives it that one's value; of a replaced record it changes nothing |
| Kvdb.Kvdb.MoveKv | application/flashdb/src/fdb_kvdb.c:1002-1063 | a live record is in its new place and the old one DELETED, or no sector had room; the map is the same after every word, and no later slot can reach into the copy; a replacement whose original is still there is moved too, through states that hold the map but for that key's value, old or new |
| Kvdb.Kvdb.Relocate | application/flashdb/src/fdb_kvdb.c:1014-1060 | during recovery a PRE_DELETE record is only deleted exactly when its replacement exists, and copied otherwise |
| KvMoves.RoomHolds | application/flashdb/src/fdb_kvdb.c:1108-1140 | while a sector is collected there is always a sector that takes its next live record |
| KvMoves.MovedRoom | application/flashdb/src/fdb_kvdb.c:1108-1140 | and after that record moved there is one that takes the next |
| KvMoves.MovedLagless | application/flashdb/src/fdb_kvdb.c:1002-1063 | a move begins the copy where a traversal counts to, if that held for every sector before |
| KvMoves.LivePlaceable | application/flashdb/src/fdb_kvdb.c:448-485 | when every live record ends in a word that does not look erased, or no slot was lost before its magic word, a live record can be copied to any sector |
| KvMoves.LiveMovable | application/flashdb/src/fdb_kvdb.c:1108-1128 | a record that a collection moves has an older PRE_DELETE record only if the collection met it before that one, and only in a boot |
| KvMoves.MarkingIff | application/flashdb/src/fdb_kvdb.c:957-958 | marking a WRITE record PRE_DELETE leaves records that can be told apart if and only if its key has no PRE_DELETE record yet |
| KvMoves.MisorderedIff | application/flashdb/src/fdb_kvdb.c:1108-1140 | what can be read off the flash is exactly whether a collection meets some replacement before the record it replaces |
| KvMoves.TwinMixed | application/flashdb/src/fdb_kvdb.c:957-958 | moving such a replacement leaves, at its first mark, a flash that no pair of indexes describes; every state until the original is deleted holds the map without the replacement, with the old or the new value of its key |
| KvMoves.MarksEnd | application/flashdb/src/fdb_kvdb.c:1149-1167 | a collection of every dirty sector has left such a flash if and only if it had a replacement to meet first |
| KvCrash.CalmOld | application/flashdb/src/fdb_kvdb.c:1108-1128 | and such states are left only while a sector has the mark of a collection; any other state holds the map |
| KvMoves.PdGone | application/flashdb/src/fdb_kvdb.c:1149-1167 | a collection that is not cut short leaves PRE_DELETE records only in sectors that were never marked dirty |
| Kvdb.Kvdb.CollectSector | application/flashdb/src/fdb_kvdb.c:1108-1128 | with one EMPTY sector at the start every live record finds room, the sector ends freshly formatted, other sectors' headers keep their marks and other dirty sectors everything, there are not fewer EMPTY sectors than before and one more if it held no live record, and the recoverable map is the same after every word program and page erase, but for replacements met before their originals |
| Kvdb.Kvdb.GcStep | application/flashdb/src/fdb_kvdb.c:1108-1147 | collects exactly dirty sectors, moves the oldest mark on, and stops exactly when the sector emptied before has more than the wanted bytes free |
| Kvdb.Kvdb.GcCollect | application/flashdb/src/fdb_kvdb.c:1149-1167 | does nothing while two sectors are EMPTY or nothing is dirty; else it collects, from the oldest sector on, exactly the dirty sectors up to the one where it stops, and stops there if and only if the sector emptied before that one, at first the last EMPTY one, has the wanted space; the oldest mark is behind the last one collected; an EMPTY sector exists at the end and the map is the same; a collection of every dirty sector leaves two PRE_DELETE records of a key, at some word, if and only if it meets the replacement of one first, and otherwise the map is the same after every word |
| KvCollect.CameNext | application/flashdb/src/fdb_kvdb.c:1108-1147 | one step of a collection extends that description by one sector: no sector emptied earlier gets more free space, so that the stop is decided by what stands at the end |
| KvCollect.CollectsLess | application/flashdb/src/fdb_kvdb.c:1149-1167 | a collection leaves fewer dirty sectors, none at all unless it stopped, and one more EMPTY sector for each sector collected that held no live record |
| KvCollect.RefusedWhen | application/flashdb/src/fdb_kvdb.c:1065-1085 | a record that fits a sector and is refused after a collection was refused because every sector collected held live records, and all dirty ones were collected or the collection stopped at a sector with room for the record but not for the 104 bytes of reserve behind it |
| KvCollect.GarbageTaken | application/flashdb/src/fdb_kvdb.c:1065-1085 | so it is never refused while all that is dirty is garbage and one EMPTY sector is left |
| KvCollect.OutOfSpaceIff | application/flashdb/src/fdb_kvdb.c:894-934 | out of space means, in bytes: no sector in use has more than the size and 104 bytes free, and fewer than two sectors are EMPTY, unless the record would not fit into one either |
| Kvdb.Kvdb.FormatSector | application/flashdb/src/fdb_kvdb.c:765-823 | a sector without live records becomes EMPTY and clean through an erase and three header words, none of which changes the map |
| Kvdb.Kvdb.FindOldest | application/flashdb/src/fdb_kvdb.c:1784-1801 | run before the tables are cleared: over zeroed ones it gets no further than sector 0, which it takes; else it takes the last USING sector that follows an EMPTY one, or sector 0 |
| Kvdb.Kvdb.ClearTables | application/flashdb/src/fdb_kvdb.c:1805-1814 | after the search for the oldest sector nothing is cached, so that both caches agree with the flash |
| Kvdb.Kvdb.RepairHeaders | application/flashdb/src/fdb_kvdb.c:1585-1601 | exactly the sectors with an unfinished header are formatted, and the map is the same after every word |
| Kvdb.Kvdb.ResumeGc | application/flashdb/src/fdb_kvdb.c:1603-1615 | a collection that was cut off, if at most one sector is EMPTY, goes on until no sector is dirty, without changing the map; without a mark, or with two EMPTY sectors, nothing happens |
| Kvdb.Kvdb.RecoverOld | application/flashdb/src/fdb_kvdb.c:1621-1630 | a PRE_DELETE record is resolved without changing the map and without touching unfinished slots; it stays exactly when there is no room, and then nothing changed and a collection is asked for if one EMPTY sector is left |
| Kvdb.Kvdb.RecoverSlot | application/flashdb/src/fdb_kvdb.c:1617-1650 | the walk goes past a slot exactly when it is no unfinished record and any PRE_DELETE record in it is resolved; stopping gives up that unfinished record or changes nothing; a WRITE record it passes is cached |
| Kvdb.Kvdb.RecoverSector | application/flashdb/src/fdb_kvdb.c:524-553 | all slots of the sector are handled, including those the walk itself appends |
| Kvdb.Kvdb.RecoveryWalk | application/flashdb/src/fdb_kvdb.c:1652-1685 | what the walk leaves, at every stop: the PRE_DELETE records behind the slot where it stopped and no others, no unfinished slot before it, and the reason why it stopped |
| Kvdb.Kvdb.Load | application/flashdb/src/fdb_kvdb.c:1652-1685 | loading ends with the recoverable map it began with; a walk that finds no room collects and walks again, until everything is recovered, an unfinished record stops it, or no sector is left to collect into; the map is kept at every word if and only if no collection leaves two PRE_DELETE records of a key, which with one such record at the start happens if and only if it starves and its replacement is met first |
| Kvdb.Kvdb.CollectAndWalk | application/flashdb/src/fdb_kvdb.c:1674-1680 | one turn of that loop: every dirty sector is collected and the walk starts over, with the map kept at every word if and only if the collection meets no replacement first |
| KvWalk.LoadShrinks | application/flashdb/src/fdb_kvdb.c:1674-1680 | each turn leaves fewer records to recover or fewer dirty sectors, so that the loop ends unless nothing is dirty |
| KvWalk.WalkRepeats | application/flashdb/src/fdb_kvdb.c:1674-1680 | a walk that asks for a collection that changes nothing ends the next time at the same record with nothing changed: the loop does not end |
| KvWalk.LoneResolved | application/flashdb/src/fdb_kvdb.c:1617-1685 | with one PRE_DELETE record, the walk resolves it if and only if no unfinished slot comes before it in ring order and a sector in use or two EMPTY ones take its size |
| KvWalk.WalkRescues | application/flashdb/src/fdb_kvdb.c:1617-1685 | so the WRITE records left hold every key if and only if that record is rescued or has its replacement; and the walk asks for a collection if and only if it starves with one EMPTY sector left |
| KvBoot.Boot | application/flashdb/src/fdb_kvdb.c:1758-1835 | booting any flash a power loss left keeps the map it held; a collection that was cut off is finished unless two sectors are EMPTY; lookups find all of it when everything is loaded; with at most one PRE_DELETE record and no collection they find it if and only if that record comes before the first unfinished slot in ring order and has room, and a collection is needed if and only if it starves with one spare sector; with nothing dirty the boot then does not end, and it does not end only when that record's sector was not marked dirty in time; it gives up for want of space only when it could not collect; power losses during the boot leave the same map, if and only if no collection meets a replacement first, and what is left outside collections can be booted again |
| KvBoot.SpinsWhen | application/flashdb/src/fdb_kvdb.c:1674-1680 | with at most one PRE_DELETE record and nothing dirty a boot goes on for ever if and only if that record starves; whenever it does, the record stands in a clean sector |
| KvBoot.StoppedExample | application/flashdb/src/fdb_kvdb.c:1632-1637 | a concrete flash, left by one power loss in a set: the boot succeeds and still holds the old value, and a lookup finds nothing |
| KvBoot.StoppedLost | application/flashdb/src/fdb_kvdb.c:1632-1637 | the record of that flash is not rescued, although there is room for its copy |
| KvCrowded.SpinningStarved | application/flashdb/src/fdb_kvdb.c:1617-1680 | the record being replaced in a partition filled by sets of distinct keys, power lost between its PRE_DELETE mark and the dirty mark of its sector, starves with nothing dirty |
| KvCrowded.SpinningExample | application/flashdb/src/fdb_kvdb.c:1674-1680 | so the boot over that flash does not end |
| KvCrowded.TwinsBootable | application/flashdb/src/fdb_kvdb.c:1317-1350 | a flash that a power loss in a set of a smaller value can leave, behind a record deleted before: it can be booted and holds the new value |
| KvCrowded.TwinsMisordered | application/flashdb/src/fdb_kvdb.c:1108-1140 | its old record starves, and a collection meets the new one first |
| KvCrowded.TwinsExample | application/flashdb/src/fdb_kvdb.c:1674-1680 | so the boot over it leaves, at some word, a flash with two PRE_DELETE records of that key; if power stays, it ends with every value in place |
| KvLookup.LookupIff | application/flashdb/src/fdb_kvdb.c:524-579 | lookups answer from the whole recoverable map if and only if every PRE_DELETE record has its replacement |
| KvBoot.IndexedWritesHold | application/flashdb/src/fdb_kvdb.c:1617-1650 | once no PRE_DELETE record is left, plain lookup of WRITE records is the recoverable map |
| KvFlash.RecoverableIsMapOf | application/flashdb/src/fdb_kvdb.c:1617-1650 | the map read from the flash alone equals the map of the per-key indexes that the operations keep |
| KvFlash.ShapeStep | application/flashdb/src/fdb_kvdb.c:894-934 | every word program and page erase keeps the sectors well formed, each slot beginning where a traversal then found the free space and leaving the reserve free behind it |
| KvFlash.EndReserved | application/flashdb/src/fdb_kvdb.c:894-909 | a well-formed sector always has more than the reserve threshold left |
| KvFlash.WholeStep | application/flashdb/src/fdb_kvdb.c:448-485 | a finished record that was begun where a traversal counts to, or ends in a word that does not look erased, keeps all its bytes: the next slot starts behind it |
| KvFlash.CommitStep | application/flashdb/src/fdb_kvdb.c:1276-1280 | the word that completes a record makes its value the key's value and changes no other key |
| KvFlash.PreDeleteStep | application/flashdb/src/fdb_kvdb.c:957-958 | the PRE_DELETE mark changes nothing a restart would read |
| KvFlash.DeleteWriteStep | application/flashdb/src/fdb_kvdb.c:959-961 | the DELETED mark on a WRITE record removes that key and no other if and only if it has no PRE_DELETE record; else the key has that record's value again |
| KvFlash.DeleteOldStep | application/flashdb/src/fdb_kvdb.c:959-961 | the DELETED mark on a replaced record changes nothing |
| KvFlash.QuietStep | application/flashdb/src/fdb_kvdb.c:765-857 | header words, words of an unfinished record, error marks and erasing a sector without live records change nothing recoverable |
| KvIterate.Iterator.Next | application/flashdb/src/fdb_kvdb.c:1882-1920 | hands out the next WRITE record in ring order with running counts and sizes of those handed out; ends after exactly all of them |
| KvIterate.Iterator.ScanSector | application/flashdb/src/fdb_kvdb.c:1894-1912 | the next WRITE record of the sector behind the current one, or there is none |
| KvIterate.EachKeyOnce | application/flashdb/src/fdb_kvdb.c:1882-1920 | the records handed out are distinct and are exactly one per key of the map |
| KvLayout.CreateCrc | application/flashdb/src/fdb_kvdb.c:1235-1251 | the checksum built piece by piece with 0xFF padding is the checksum of the padded length, name and value in one go |
| KvLayout.ChunkedCrc | application/flashdb/src/fdb_kvdb.c:369-387 | the checksum recomputed in 32-byte chunks is the checksum of the stretch, for every length |
| KvLayout.ReadKv | application/flashdb/src/fdb_kvdb.c:345-411 | the chunked reader returns what the bytes say with the checksum taken in one go, including bad lengths and bad checksums |
| KvLayout.ReadWritten | application/flashdb/src/fdb_kvdb.c:345-411 | bytes written for a key and value read back with a good checksum, the value whole and the key cut at its maximum |
| KvLayout.KeyComesBackIff | application/flashdb/src/fdb_kvdb.c:404-409 | a stored key comes back as it was if and only if it is shorter than 64 bytes |
| KvLayout.GetStatus | application/flashdb/src/fdb_utils.c:125-144 | the search from the end of a status table finds its last written word |
| KvScan.FindNextKvAddr | application/flashdb/src/fdb_kvdb.c:277-307 | the 32-byte window scan returns the first magic word at or behind the start, up to its early stop; it returns at once when the cached free offset is the start |
| KvScan.GetNextKvAddr | application/flashdb/src/fdb_kvdb.c:309-343 | nothing in an EMPTY sector, the first slot when there is no previous record; else the search starts behind a good record, or one word on |
| KvScan.ShortcutAgrees | application/flashdb/src/fdb_kvdb.c:283-289 | at the free offset the scan finds nothing, so the shortcut through the sector cache returns what the scan returns |
| KvScan.ScanFinds | application/flashdb/src/fdb_kvdb.c:277-343 | the scan finds every later record that a reader can see and nothing else, although it stops short of the sector's end |
| KvScan.ReadSlot | application/flashdb/src/fdb_kvdb.c:345-411 | a finished record is read as it is, one cut off before its length as a bad header, any other with its status and length |
| KvScan.Traverse | application/flashdb/src/fdb_kvdb.c:448-485 | the traversal of a sector never meets a record it would stop at, and returns the free offset and remaining size that the records account for, also behind slots that were lost |
| KvScan.ContinueFfAddr | application/flashdb/src/fdb_utils.c:184-209 | the loop over 32-byte blocks returns the start of the erased run that reaches the sector's end |
| KvScan.FreeFromIs | application/flashdb/src/fdb_kvdb.c:473-485 | putting the count right by the erased rest of the sector gives the start of the next slot: where the traversal has counted to, or behind the last byte that does not look erased |
| KvScan.KeptIff | application/flashdb/src/fdb_kvdb.c:448-485 | the mark of the next record, programmed where the traversal finds the free space, leaves the last finished record readable if and only if no slot before it was lost before its magic word or it ends in a word that does not look erased |
| KvScan.WholeIff | application/flashdb/src/fdb_kvdb.c:448-485 | and that is exactly when the next slot starts behind the record |
| KvScan.LossExample | application/flashdb/src/fdb_kvdb.c:448-485 | a concrete sector, with a lost slot and a value of four 0xFF bytes behind it, in which the next record destroys that value |
| KvRecord.SolidIff | application/flashdb/src/fdb_kvdb.c:1206-1275 | a record with a value ends in such a word if and only if the last word of the value has a byte other than 0xFF |
| KvRecord.BodyFields | application/flashdb/src/fdb_kvdb.c:1206-1268 | where each field of a record stands behind its status table, and that numbers and the checksum are spelled least significant byte first |
| KvProgram.WriteOnce | application/flashdb/src/fdb_kvdb.c:751-823 | every change but an erase programs one word that is still erased or already holds it, so the driver's read-back succeeds, and the bytes then represent the changed records |
| KvTape.TapeNext | application/flashdb/src/fdb_kvdb.c:751-823 | the bytes along a run: each change of the records is one page erased or one word programmed that the flash takes, and the bytes then represent the changed records |
| KvTape.UntouchedAfter | application/flashdb/src/fdb_kvdb.c:1206-1268 | the words that open a record follow each other without a reader in between, so that none has marked the slot as a bad header |
| KvTape.PassedKeeps | application/flashdb/src/fdb_kvdb.c:357-365 | the mark that a reader puts on a slot without a length word is one that the flash takes, and the bytes represent the same records |
| KvProgram.AlignWrite | application/flashdb/src/fdb_kvdb.c:1179-1204 | writing any number of bytes into erased flash leaves them followed by erased padding, through whole words the driver accepts |
| FalPort.Flash.WriteWord | application/fal/src/fal_port.c:47-64 | programming can only clear bits; the read-back check succeeds exactly when the word needs no bit set |
| FalPort.LandedIs | application/fal/src/fal_port.c:47-64 | programming a word clears the bits that are zero in it and touches only its four bytes |
| FalPort.Flash.Write | application/fal/src/fal_port.c:34-69 | succeeds exactly when every byte of the words that hold the size can be programmed, then the bytes are there and nothing else changed; each word leaves its own prefix behind |
| FalPort.Flash.Erase | application/fal/src/fal_port.c:71-94 | whole pages covering the size become erased and no other byte changes; power losses leave a number of them erased and the others as they were |
| FalPort.ErasedTakesAll | application/fal/src/fal_port.c:47-64 | erased flash takes any bytes |
| Crc32.CalcCrc32 | application/flashdb/src/fdb_utils.c:76-88 | the table loop computes the bit-serial reflected CRC-32 of section 8 of RFC 1952 |
| Crc32.TableIsShift8 | application/flashdb/src/fdb_utils.c:21-68 | each of the 256 table entries is eight bit-serial steps on its index |
| Crc32.CrcAppend | application/flashdb/src/fdb_utils.c:76-88 | a checksum continued over a second part is the checksum of both parts together |
| Crc32.SharedHash | application/flashdb/src/fdb_kvdb.c:207-207 | two concrete names with one 16-bit name hash |
| Tsdb.Tsdb.Append | application/flashdb/src/fdb_tsdb.c:325-426 | a log that is too long or not newer is refused and nothing changes; any other becomes the last one retained: when header, index slots and data with it still fit the sector in use nothing is lost and only that sector changes; else that sector is closed and the next one taken, and what is lost is exactly the oldest sector's logs when the next one is not EMPTY, and nothing otherwise |
| Tsdb.PlacedIs | application/flashdb/src/fdb_tsdb.c:325-426 | that condition, read off the flash alone, decides where the log goes and what is lost |
| Tsdb.Tsdb.UpdateSecStatus | application/flashdb/src/fdb_tsdb.c:325-383 | a log that does not fit closes the sector with its end mark and takes the next one, erasing it only when it is not EMPTY and moving the oldest mark with it |
| Tsdb.Tsdb.WriteTsl | application/flashdb/src/fdb_tsdb.c:304-323 | the log's index slot and data land right behind the others and no other log changes |
| Tsdb.Concluded | application/flashdb/src/fdb_tsdb.c:385-426 | what is retained stays a suffix of everything ever appended, with strictly rising times |
| Tsdb.Appended | application/flashdb/src/fdb_tsdb.c:325-426 | lost logs followed by the retained ones are the logs retained before followed by the new one |
| TsRing.AppendHere | application/flashdb/src/fdb_tsdb.c:385-426 | a log in the sector in use extends what is retained |
| TsRing.AppendNext | application/flashdb/src/fdb_tsdb.c:340-383 | so does the first log of the next EMPTY sector, once the old one is closed |
| TsRing.AppendOver | application/flashdb/src/fdb_tsdb.c:340-383 | rolling over loses exactly the oldest sector's logs |
| TsRing.AreasApart | application/flashdb/src/fdb_tsdb.c:304-323 | two logs of a sector share no byte of data and no data reaches into an index slot |
| TsRing.EndsAtCurrent | application/flashdb/src/fdb_tsdb.c:133-147 | the ring read from the oldest sector on ends with the sector in use |
| Tsdb.Tsdb.Iter | application/flashdb/src/fdb_tsdb.c:482-523 | the callback is handed the retained logs in order of age, all of them or up to the first it stops at |
| Tsdb.Tsdb.IterReverse | application/flashdb/src/fdb_tsdb.c:532-575 | the callback is handed exactly the reverse |
| Tsdb.Tsdb.SearchStart | application/flashdb/src/fdb_tsdb.c:580-606 | the binary search returns the slot of the first log not older than the start of the span, one past the end if all are |
| Tsdb.Tsdb.IterByTime | application/flashdb/src/fdb_tsdb.c:617-695 | the range query hands out exactly the retained logs inside the span, oldest first |
| Tsdb.Tsdb.QueryCount | application/flashdb/src/fdb_tsdb.c:697-731 | the count is the number of logs in the span with that status |
| TsWalk.CountIs | application/flashdb/src/fdb_tsdb.c:697-731 | the count is the size of the set of positions with that status |
| Tsdb.OlderSplits | application/flashdb/src/fdb_tsdb.c:580-606 | in rising logs everything before the slot searched for is older than the span and nothing behind it is |
| TsWalk.FilterIs | application/flashdb/src/fdb_tsdb.c:617-695 | the specification's filter keeps exactly the logs in the span |
| TsWalk.FilterAppend | application/flashdb/src/fdb_tsdb.c:617-695 | filtering sector by sector is filtering the whole ring |
| Tsdb.Tsdb.SetStatus | application/flashdb/src/fdb_tsdb.c:742-752 | the status of that one retained log becomes the later of the two, and no other log, sector or status changes |
| Tsdb.Tsdb.Boot | application/flashdb/src/fdb_tsdb.c:922-1006 | boot finds the oldest and current sector, and rebuilds the whole lost memory if and only if the next free index slot does not look written; else its free index address is wrong |
| Tsdb.FindCurrent | application/flashdb/src/fdb_tsdb.c:770-795 | one pass over the headers finds the sector in use and the sector before the oldest one |
| Tsdb.ReadTraversal | application/flashdb/src/fdb_tsdb.c:198-263 | counting the index slots of the sector in use restores its memory exactly under that condition |
| Tsdb.RebuildableIff | application/flashdb/src/fdb_tsdb.c:232-262 | that condition in bytes: no gap is left, or none of the five status words where the next index slot would be begins with a zero, be it a byte of a log's data or the byte behind the sector |
| Tsdb.WideGap | application/flashdb/src/fdb_tsdb.c:232-262 | the condition holds when the free gap is nothing, or as wide as a status table |
| Tsdb.GhostSlot | application/flashdb/src/fdb_tsdb.c:232-262 | a concrete sector for which it fails |
| Frames.SerializeCommFrame | application/registers/pu_table.c:398-430 | the buffer is the frame's header, items and checksum, all high byte first |
| Frames.SerializedHeader | application/registers/pu_table.c:398-410 | address, function and count of a frame stand in its first four bytes, high byte first |
| Frames.SerializedItem | application/registers/pu_table.c:411-422 | the fields of the k-th item stand in the eight bytes from 4 + 8k on, high byte first |
| Frames.SerializedDispatches | application/dataprocess/process.c:232-368 | from idle, the bytes of an acceptable frame dispatch that frame once and end idle |
| Frames.StreamDispatches | application/dataprocess/process.c:232-368 | any sequence of acceptable frames is dispatched frame by frame |
| Frames.DispatchIff | application/dataprocess/process.c:232-368 | on any byte stream, a byte dispatches a frame if and only if it completes exactly that frame's serialization, begun while idle |
| Frames.PendingIsTail | application/dataprocess/process.c:232-368 | the bytes kept are the last ones received, begun while idle, and always the start of some frame |
| Frames.DecodeSerialized | application/registers/pu_table.c:398-430 | decoding a serialized frame gives the frame, and its checksum is accepted |
| Frames.SerializeDecoded | application/registers/pu_table.c:398-430 | serializing what was decoded from accepted bytes gives the bytes |
| Frames.BurstRejected | application/dataprocess/process.c:337-350 | a frame damaged within 16 consecutive bits outside function and count is dropped |
| Frames.ItemRoundTrip | application/registers/pu_table.c:411-422 | an item survives its eight bytes |
| Frames.ItemsOfBody | application/registers/pu_table.c:411-422 | so does a list of items of any length |
| Frames.BodyOfItems | application/registers/pu_table.c:411-422 | and any bytes survive being read as items |
| Process.Receiver.ParseReceivedData | application/dataprocess/process.c:232-368 | after every byte of any stream the receiver has dispatched exactly the frames of the specification and performed each on the registers (`Process.Receiver.FramesDone`); all indices stay in bounds |
| Process.FramesStand | application/dataprocess/process.c:107-179 | after any frames, a register that may be written holds the data of the last 0x03 item that leads to it, or what it held when there is none, its status is 10 after that item unless a later 0xC0 item left 1, nothing else of it changes, registers that no item leads to stay as they are, and the upgrade flag is set if and only if it was or a 0x5E frame was among them |
| Process.Receiver.FramesDone | application/dataprocess/process.c:107-179 | so the registers and the upgrade flag stand, after every byte received, as the frames dispatched say |
| Process.Receiver.OnDataLength | application/dataprocess/process.c:271-305 | the count is taken high byte first, and a count outside 1 to 3 drops the frame |
| Process.Receiver.OnData | application/dataprocess/process.c:306-318 | a data byte is kept in both buffers; the last one fixes the checksum of all bytes so far |
| Process.Receiver.CrcLow | application/dataprocess/process.c:319-368 | the last byte dispatches the frame exactly when the checksums agree, and the receiver starts over |
| Process.DecodeInPlace | application/dataprocess/process.c:325-335 | swapping bytes inside the received buffer through the item view leaves exactly the items the bytes spelled |
| Process.DecodeEntry | application/dataprocess/process.c:325-335 | decoding one item changes no byte of another |
| Process.CheckDecides | application/dataprocess/process.c:337-350 | comparing the two checksums decides what the last byte does |
| Process.Receiver.ProcessReply | application/dataprocess/process.c:107-179 | a dispatched frame reads, writes or asks for an upgrade according to its function code, as `Process.FramesStand` spells out |
| Process.Receiver.ResetReception | application/dataprocess/process.c:83-100 | the receiver is idle with nothing pending and every field and byte of the buffer zero |
| Process.ReadOnlyStays | application/dataprocess/process.c:153-163 | no sequence of frames ever changes a register that may not be written, but for the status a read leaves |
| Crc16.CalculateCrc16 | application/registers/pu_table.c:348-364 | the byte loop computes the specified CRC-16 |
| Crc16.KnownAnswer | application/registers/pu_table.c:348-364 | the checksum of the nine digits from 1 to 9 is 0x29B1 |
| Crc16.FeedsBits | application/registers/pu_table.c:348-364 | feeding bytes is feeding their bits, high bit first |
| Crc16.BurstDetected | application/registers/pu_table.c:348-364 | two messages of one length, however long, that differ only inside 16 consecutive bits have different checksums |
| Crc16.SelfCheckIff | application/registers/pu_table.c:348-364 | a message with two more bytes has checksum 0 if and only if those are its checksum, high byte first |
| Crc16.WindowInjective | application/registers/pu_table.c:348-364 | up to 16 bits act on the register through one exclusive or |
| Crc16.TailInjective | application/registers/pu_table.c:348-364 | a common ending never hides a difference |
| Registers.Table.Initialize | application/registers/pu_table.c:246-270 | each call appends every register's index to the chain of its hash, so repeated calls repeat the chains |
| Registers.Table.Append | application/registers/pu_table.c:252-269 | the new node ends its chain and no other chain changes |
| Registers.Table.Free | application/registers/pu_table.c:272-285 | all chains are empty again |
| Registers.Table.Search | application/registers/pu_table.c:287-301 | the search is the linear search for the first register of that name, or 0 when there is none, after any positive number of initialisations |
| Registers.WalkIsLookup | application/registers/pu_table.c:287-301 | walking a key's chain is looking the name up in the whole table |
| Registers.WalkMembers | application/registers/pu_table.c:246-270 | a chain holds its registers in table order |
| Registers.KeyInjective | application/registers/pu_table.c:241-244 | different names have different keys |
| Registers.Table.ProcessWrite | application/dataprocess/process.c:153-163 | the registers become what writing the items one by one means (`Registers.WriteReaches`) |
| Registers.Table.ProcessRead | application/dataprocess/process.c:122-146 | the registers read are marked and the answer carries their values (`Registers.ReadReaches`, `Registers.AnswerIs`) |
| Registers.WriteKeeps | application/dataprocess/process.c:153-163 | a write command keeps every name and kind, changes no register that may not be written and none that no item leads to |
| Registers.WriteChangesOnly | application/dataprocess/process.c:153-163 | a register that changed is writable, and the first one with the 16-bit address and offset of some item, or register 0 if that item names no register |
| Registers.WriteReaches | application/dataprocess/process.c:153-163 | after a write command a writable register has the data of the last item whose 16-bit address and offset are first found at it, register 0 that of items that name no register, with status 10; any other register is unchanged |
| Registers.ReadReaches | application/dataprocess/process.c:122-146 | a read command gives status 1 to exactly the registers so named, and changes nothing else |
| Registers.AnswerIs | application/dataprocess/process.c:122-146 | its answer carries for each item the data of the register so named |
| Registers.LastWriteWins | application/dataprocess/process.c:153-163 | a writable register holds the last value sent to it |
| Registers.WriteOnly | application/dataprocess/process.c:153-163 | a write touches only value and status |
| Registers.ReadMarks | application/dataprocess/process.c:122-146 | a read marks exactly the registers its items lead to |
| Boot.Bootloader.HandleUpgrade | application/upgrade/boot.c:212-248 | what each boot does and what a power loss inside it can leave, page by page: an upgrade leaves the new blocks, the old application in the backup, and the two mark pages, and no other change; from the end of the backup until the type word is written a rollback to the old image is due, and afterwards the new image stands |
| Boot.RollbackSurvives | application/upgrade/boot.c:145-167 | any number of rollbacks cut off anywhere leaves the image protected or restored |
| Boot.NextBootRestores | application/upgrade/boot.c:145-167 | and the next one that completes restores the image as it was before the upgrade |
| Boot.BackupKeptIff | application/upgrade/boot.c:76-118 | an upgrade of n blocks never touches the backup if and only if n is at most 112 |
| Boot.RestoredIff | application/upgrade/boot.c:120-167 | a rollback restores everything an upgrade of n blocks overwrote if and only if n is at most 25 |
| Boot.Bootloader.BackupApplication | application/upgrade/boot.c:120-143 | the backup pages equal the application's and nothing else changes, at any word |
| Boot.Bootloader.RecoverApplication | application/upgrade/boot.c:145-167 | the application's first pages equal the backup and nothing else changes, at any word |
| Boot.Bootloader.RunUpgrade | application/upgrade/boot.c:76-118 | the received blocks replace the application page by page and nothing else changes, at any word |
| Boot.Bootloader.WritePage | application/upgrade/boot.c:177-210 | the page becomes the words followed by erased ones; power losses leave a prefix of them |

## Left out

- Kvdb.Kvdb.SetKv: is not stated for keys of exactly 64 bytes, which the code accepts and cannot read back (`KvLayout.KeyComesBackIff`); needs that no other key answers for this one in the cache (`KvLookup.CacheRightIff` is exact); and needs that the value does not end in an erased word, or that no sector has a slot lost before its magic word (`KvScan.KeptIff` is exact, for each record).
- Kvdb.Kvdb.InsertKv: is not stated for keys of exactly 64 bytes.
- Kvdb.Kvdb.CreateKvBlob: is not stated for keys of exactly 64 bytes.
- Kvdb.Kvdb.KvDel: needs that no other key answers for this one in the cache.
- Kvdb.Kvdb.FindKv: needs that no other key answers for this one in the cache.
- Kvdb.Kvdb.GetKv: needs that no other key answers for this one in the cache.
- KvRun.Run: asks that the keys in use have different name hashes, which implies that condition for every map of the run.
- KvRun.Restart: asks that no live record of the run ends in an erased word, or that the power loss left no slot cut short before its magic word behind other slots, and that a power loss inside a collection left a spare sector.
- KvRun.Session: asks the same, and that a collection under way on the first flash left at most one EMPTY sector, so that the boot finishes it.
- KvBoot.Boot: a collection resumed without a spare sector can run out of room and is not covered; nor is a boot over a flash with two PRE_DELETE records of one key, which a power loss inside a collection that meets a replacement first leaves. With several PRE_DELETE records, as only collections inside boots leave them, the map is kept but the exact condition for lookups is not stated.
- Kvdb.Kvdb.Load: the model stops where the code walks for ever (`Spins`).
- Setting after a boot that stopped early: the database then may have a PRE_DELETE record, and only lookups and deletions are modelled (`Kvdb.Kvdb.Served`).
- KvTape.TapeNext: the marks that readers put on slots without a length word are no steps of the tape; `KvTape.PassedKeeps` covers each one.
- KvScan.ScanFinds: assumes that the bytes of an unfinished record do not contain the magic word, and that one into which a later record reaches does not check out (`KvScan.CleanTorn`).
- KvLayout.ReadKv: reads inside the given bytes; a damaged length that points past them is not modelled.
- Record level: an address is a pair of sector and position in it; `KvFlash.Off` gives the byte offset.
- Sector status FULL: never written for space the allocator returned (`Kvdb.Kvdb.UpdateSecStatus`), so no sector of the model is FULL.
- Combined sectors, write granularities other than 32 bits, file mode, the lookup of flash partitions, flash and allocation failures, control commands, locks and printing.
- Default values, automatic update of values, and setting a value to nothing, which is a deletion.
- The text wrapper for values and the consistency check of the whole database.
- Tsdb.Tsdb.Boot: clean reboots only, with rollover on; a header that fails its check makes the code format everything, which is not modelled.
- Tsdb.Tsdb.IterByTime: forward spans only; a reverse span may read past the last index slot.
- Tsdb.Tsdb.QueryCount: forward spans only, as the range query it runs.
- Tsdb.Tsdb.Append: the time is a parameter; the bytes behind the unaligned end of a log's data are given with it; logs are bounded so that header, slot and data fit one sector.
- Boot.Bootloader.HandleUpgrade: the blocks received are a parameter; the serial transfer, the jump into the application, the check word of the image and allocation failures are left out. Power lost during the backup is outside the claim, because the code announces the rollback before the backup is complete.
- The bootloader's backup and the databases share an address range in the source; they are modelled apart.
- Frames.SerializeCommFrame: frames with more than 8190 items, whose 16-bit size would wrap.
- Registers.Table.ProcessRead: returns the answer that the code builds and never sends; sending by DMA and the command interface to the analog boards are left out.
- Process.Receiver.ParseReceivedData: two names that the source spells in two ways (process.c:283 and process.c:346) are taken as the one that is meant.
- The contents of the register table, the drivers of the peripherals, the clock and the main loop.
