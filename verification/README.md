# Verified models of wpa_supplicant and hostapd

This project models the stateful core of wpa_supplicant and three algorithms of hostapd in Dafny, and proves what that code keeps and promises over every input and every run.

- **BSS table** (`wpa_supplicant/bss.c`; files `elements.dfy`, `bss_*.dfy`). The table of scanned access points holds entries in two linked lists, and the record of the last scan, the current BSS and the queued connect works all point into it. `BssModel` gives every operation as a function on values, in which a pointer is an address that is never reused, so that a dangling pointer can be told from a good one. `BssTerms` says in plain words what the questions of the table mean: in elements of a buffer, places in a list, and microseconds. `BssInvariant`, `BssRuns`, `BssPointers`, `BssFollow`, `BssWorks`, `BssFiling`, `BssHistory`, `BssExpiry`, `BssLimits`, `BssContents` and `BssScans` prove properties of all runs of those functions, and `BssWitnesses` gives runs from the empty table on which something expected fails. `BssObjects`, `BssTables` and `BssRound` are the table in memory: entry objects with the list by id threaded through them, the class over them, and a whole scan. Each operation is proved to do what the model says.
- **Network configuration** (`wpa_supplicant/config.c`, `config_file.c`; `prio_order.dfy`, `prio_list.dfy`, `freq_list.dfy`, `psk_line.dfy`, `text.dfy`). The priority index threaded through the network nodes; frequency lists and passphrases written and read back.
- **Background scans** (`bgscan_learn.c`, `bgscan_simple.c`; `bgscan_*.dfy`, `rotation.dfy`). The timer and budget of the simple module as a state machine, with its interval, last scan and next deadline read off the events (`bgscan_signals.dfy`); the probe cursor, the neighbour graph and its file of the learning module.
- **HLR/AuC gateway** (`hostapd/hlr_auc_gw.c`; `sqn.dfy`, `aka.dfy`, `gsm_triplets.dfy`). Sequence numbers by the profile of section C.3.2 of 3GPP TS 33.102, the numbers of many subscribers under any interleaving of requests and resynchronisations, and the cursor over GSM triplets.
- **Internet checksum and MAC lists** (`hostapd/ctrl_iface.c`, `hostapd/config_file.c`; `checksum.dfy`, `mac_acl.dfy`, `mac_lines.dfy`). The checksum against RFC 1071; what a file of address lines leaves of a list.

Code that updates objects, arrays and lists step by step is modelled by classes and methods with loops, each proved against a function on values; the laws are lemmas about those functions.

## Where the code falls short

Some expected properties are false of the code. For each there is a lemma with a failing input and a lemma that says exactly when the property holds.

| property | fails | holds if and only if |
|---|---|---|
| the current BSS pointer stays good | `BssWitnesses.CurrentCanBeStranded` | no result evicts the current entry (`BssPointers.StepCurrent`, over whole runs `BssPointers.RunCurrent`); so while the entry is known or a WPS candidate (`BssPointers.RunWanted`) |
| every connect work's pointer stays good | `BssWitnesses.SecondWorkIsStranded` | no entry is taken away or moved that a work other than the pending one names (`BssWorks.StepWorks`, over whole runs `BssWorks.RunWorks`) |
| the table holds no more entries than its limit, and none that missed as many scans as the expiration count | `BssWitnesses.LimitBelowSize`, `BssWitnesses.CountBelowMisses` | neither count is set below what the table holds (`BssLimits.StepBounded`, over whole runs `BssLimits.RunBounded`) |
| flushing by age removes all old entries | `BssWitnesses.OldEntryStays` | no old idle entry stands behind a fresh idle one (`BssContents.FlushByAgeComplete`) |
| the neighbour relation stays symmetric | `BgscanLearn.FiftyOneBreak` | what overflows the buffer of 50 addresses was known before (`BgscanLearn.ScanSymmetry`) |
| a frequency list survives writing and reading | `FreqList.TenDigitsLost` | the text fits into ten characters a number (`FreqList.RoundTrip`) |
| the triplets of a response differ | `GsmTriplets.OneTripletRepeats` | the subscriber has as many triplets as the response (`GsmTriplets.ResponseDistinct`) |
| as many requests of a subscriber as it has triplets get each of them once, also with other subscribers' requests in between | `GsmTriplets.OthersDisturb` | for every two of them, another of its triplets lies between the cursor at the later one and the triplet of the earlier one, going round (`GsmTriplets.WindowFull`; for any number of requests `GsmTriplets.WindowDistinct`) |
| a later SQN of a subscriber is larger | `Sqn.LastStartsOver` | SEQ has room for the numbers issued since the last resynchronisation (`Aka.IssuedRise`) |
| a loaded neighbour file names each BSS once | `BgscanFile.DuplicatesLoad` | its readable BSS lines do (`BgscanFile.LoadedGood`) |
| a burst of short scans is bounded | `BgscanSimple.EqualIntervals` | the two intervals differ (`BgscanSimple.BurstIsBounded`) |
| the 32-bit sum gives the Internet checksum | `Checksum.OverflowLoses` | the overflow is a multiple of 65535 and the wrapped sum is not zero by accident (`Checksum.ComputedIsInternetChecksum`) |

The row on the 32-bit sum is about the function for buffers of any length. The program calls it for a header of 20 octets only (hostapd/ctrl_iface.c:1712), for which the checksum is right (`Checksum.ShortBuffers`).

The comment above `wpa_bss_flush_by_age` promises that all old entries go; the model follows the code, which stops at the first fresh one.

## Model

| member | source | states |
|---|---|---|
| `Elements.DecodeEncode` | wpa_supplicant/bss.c:1078-1095 | walking the encoding of any list of elements gives back the list |
| `Elements.EncodeDecode` | src/common/ieee802_11_common.c:1275-1296 | for any bytes, what was walked is the encoding of the elements found, and the walk stops only where no whole element starts |
| `Elements.CarriesDecode` | src/common/ieee802_11_common.c:1275-1296 | a walk over any buffer visits exactly the elements whose encoding it starts with and behind which no whole element starts |
| `Elements.LookupId` | src/common/ieee802_11_common.c:1275-1296 | a lookup by id finds the first element with the id, and none exactly if there is none |
| `Elements.LookupVendor` | wpa_supplicant/bss.c:1078-1095 | a lookup of a vendor element finds the first whose data starts with the four octets, and none exactly if there is none |
| `Elements.FirstIsFirst` | wpa_supplicant/bss.c:1078-1095 | the lookup finds nothing exactly when nothing matches, and otherwise the first match |
| `Elements.GetIe` | wpa_supplicant/bss.c:1078-1095 | the pointer walk over any bytes ends at the first matching element, or finds none if there is none |
| `Elements.GetVendorIeMulti` | wpa_supplicant/bss.c:1145-1173 | the reassembled payload is that of all matching vendor elements, and fits the buffer allocated |
| `Elements.GatherIsPayload` | wpa_supplicant/bss.c:1157-1168 | payloads are appended in the order of the elements |
| `Elements.MultiOfEncoded` | wpa_supplicant/bss.c:1145-1173 | for an encoded list, the result is the concatenation of the vendor payloads, or nothing if that is empty |
| `Elements.FragmentsRejoin` | wpa_supplicant/bss.c:1145-1173 | data split over vendor elements is put together again |
| `BssModel.UpdateTime` | wpa_supplicant/bss.c:270-285 | the time of reception is the fetch time less the age, and normalised |
| `BssModel.Evictee` | wpa_supplicant/bss.c:381-419 | there is nothing to evict exactly when every entry is wanted and in use |
| `BssTables.Accept` | wpa_supplicant/bss.c:691-748 | the pointer walks over the bytes of a result decide, as the model does on elements, whether it is filed and under which SSID |
| `BssTerms.FiledUnless` | wpa_supplicant/bss.c:698-741 | a result is ignored if and only if it was received before the scan was asked for, has no SSID or one over 32 octets, has no P2P element on a P2P interface, or is of a P2P device that only listens |
| `BssTerms.FiledByName` | wpa_supplicant/bss.c:746-748 | otherwise its name is the first Mesh ID if that has at most 32 octets, else the first SSID |
| `BssFiling.ResultIsIgnored` | wpa_supplicant/bss.c:698-741 | an ignored result changes nothing |
| `BssFiling.OneName` | wpa_supplicant/bss.c:746-748 | any other result has exactly one name |
| `BssFiling.ResultUpdates` | wpa_supplicant/bss.c:746-784 | a result for an entry with its BSSID and name, not hidden by the filter, leaves that entry last, with its id, in the record of the scan, and with the BSSID, radio data and reception time of the result |
| `BssFiling.ResultAdds` | wpa_supplicant/bss.c:746-784 | without such an entry it leaves a new one with the next id in the same way, or nothing changes for want of memory |
| `BssTerms.WantedIs` | wpa_supplicant/bss.c:307-361 | eviction spares an entry in its first search exactly if a network is configured for its nonempty SSID, or there is WPS data with a pushed button, or for this station, and the first network for it by WPS takes that way |
| `BssTerms.IdleIs` | wpa_supplicant/bss.c:364-378 | an entry is not in use exactly if it is not the current one and the current one has another SSID, or its BSSID is zero or neither the one associated with nor the one pending |
| `BssTerms.ScannedIs` | wpa_supplicant/bss.c:788-826 | a scan covers an entry exactly if some frequency of its list, or the lack of one, and some SSID of its list that is equal or empty, or the lack of one, fits it |
| `BssInvariant.KeepIsFilter` | wpa_supplicant/bss.c:220-236 | forgetting entries keeps exactly the others of the last scan, without repeats |
| `BssInvariant.KeepInOrder` | wpa_supplicant/bss.c:220-236 | the ones kept stay in their order |
| `BssInvariant.RemoveKeeps` | wpa_supplicant/bss.c:217-243 | removing an entry keeps the invariant: unique ids and addresses, update order, the exact record of the last scan, no misses for entries of this round, current HESSIDs, pointers that were handed out |
| `BssInvariant.AddKeeps` | wpa_supplicant/bss.c:422-459 | adding an entry, with any eviction, keeps the invariant |
| `BssInvariant.UpdateKeeps` | wpa_supplicant/bss.c:592-660 | refreshing an entry, moved or not, keeps the invariant |
| `BssInvariant.RefreshedHessid` | wpa_supplicant/bss.c:604-659 | a refreshed entry has the HESSID of its elements, although it is only looked at when they differ |
| `BssInvariant.ScanResultKeeps` | wpa_supplicant/bss.c:691-784 | a scan result, filed or ignored, keeps the invariant |
| `BssInvariant.EndKeeps` | wpa_supplicant/bss.c:839-862 | the end of a round keeps the invariant |
| `BssInvariant.FlushKeeps` | wpa_supplicant/bss.c:916-930 | a flush keeps the invariant |
| `BssInvariant.FlushByAgeKeeps` | wpa_supplicant/bss.c:873-893 | a flush by age keeps the invariant |
| `BssInvariant.StartKeeps` | wpa_supplicant/bss.c:672-678 | the start of a round keeps the invariant |
| `BssRuns.StepKeepsInv` | wpa_supplicant/bss.c:217-930 | every operation, and every change of connection, configuration, works or counts around the table, keeps the invariant |
| `BssRuns.RunKeepsInv` | wpa_supplicant/bss.c:217-930 | every reachable table satisfies the invariant; so the table is in update order, and the last scan is exactly the entries stamped this round, without repeats |
| `BssPointers.ShrinkWorks` | wpa_supplicant/bss.c:192-243 | when the table is cut down, all work pointers are good afterwards if and only if no work but the pending one names an address that is gone |
| `BssPointers.MoveWorks` | wpa_supplicant/bss.c:592-660 | after an entry is moved all work pointers are good if and only if no work but the pending one named it |
| `BssPointers.StepOnePointer` | wpa_supplicant/bss.c:192-243 | while only the pending work holds a pointer, no operation leaves it dangling |
| `BssPointers.RunOnePointer` | wpa_supplicant/bss.c:192-243 | the same over every run |
| `BssWorks.StepWorks` | wpa_supplicant/bss.c:192-930 | an operation leaves all work pointers good if and only if, in the table before it, no work but the pending one names an entry that it takes away or moves: the evictee or outgrown target of a result, an expiring entry at the end of a round, an idle one at a flush, a stale one before the first fresh one at a flush by age |
| `BssWorks.RunWorks` | wpa_supplicant/bss.c:192-930 | the work pointers are good all through a run if and only if no step of it strands one |
| `BssPointers.ScanResultCurrent` | wpa_supplicant/bss.c:381-459 | a result leaves the current pointer good if and only if it does not evict the current entry, and says when it does |
| `BssPointers.EndSparesCurrent` | wpa_supplicant/bss.c:839-862 | expiry never removes the current entry |
| `BssPointers.FlushSparesCurrent` | wpa_supplicant/bss.c:916-930 | a flush never removes the current entry |
| `BssPointers.FlushByAgeSparesCurrent` | wpa_supplicant/bss.c:873-893 | a flush by age never removes the current entry |
| `BssPointers.WantedIsNotEvicted` | wpa_supplicant/bss.c:381-419 | a current entry that is known or a WPS candidate is not evicted |
| `BssPointers.StepCurrent` | wpa_supplicant/bss.c:381-930 | an operation leaves the current pointer good if and only if it is not a result that evicts the current entry |
| `BssPointers.RunCurrent` | wpa_supplicant/bss.c:381-930 | the current pointer is good after every prefix of a run if and only if no result of the run evicts the current entry |
| `BssPointers.RunWanted` | wpa_supplicant/bss.c:381-419 | so it is good throughout if the current entry is known or a WPS candidate whenever a result arrives |
| `BssPointers.RunKnown` | wpa_supplicant/bss.c:348-361 | and throughout every run that stays on configured networks |
| `BssFollow.StepFollows` | wpa_supplicant/bss.c:192-660 | an operation leaves the current pointer and the pending work with the entry of the same id, wherever it is moved; a work whose entry is gone has no pointer and is told so; no other work changes |
| `BssFollow.GoneForGood` | wpa_supplicant/bss.c:217-459 | an entry that has left never comes back under its id |
| `BssFollow.RunFollows` | wpa_supplicant/bss.c:217-660 | through every run in which the station does not go elsewhere its pointer is to the same entry for as long as that is there |
| `BssHistory.LatestReport` | wpa_supplicant/bss.c:286-304 | in every run from the empty table each entry has an operation that reported it last, and shows what that one reported |
| `BssHistory.ShowsLastReport` | wpa_supplicant/bss.c:286-304 | the BSSID, the radio data and the time of reception of an entry are those of the last result that reported it, and the elements of that result give its name |
| `BssHistory.ElementsStored` | wpa_supplicant/bss.c:604-652 | the elements it stores are those of the last result that could replace them: one with a P2P element, or onto ones without, and one that fits or was given a larger block |
| `BssHistory.FlushSparesHeard` | wpa_supplicant/bss.c:873-893 | a flush by age never removes an entry whose last report is not older than the limit |
| `BssExpiry.HistoryAgrees` | wpa_supplicant/bss.c:602-603 | in every run from the empty table, an entry's miss count and stamp are what the history of operations alone says |
| `BssExpiry.FinishRemoves` | wpa_supplicant/bss.c:839-862 | the end of a round removes exactly the entries that expire |
| `BssExpiry.EndDoes` | wpa_supplicant/bss.c:839-862 | the end of a new and complete scan gives an idle entry that it covers and did not see one miss more, or removes it if these are too many, and leaves every other as it is |
| `BssExpiry.EndWithout` | wpa_supplicant/bss.c:845-847 | an aborted or old scan changes nothing |
| `BssExpiry.ExpiryIsExact` | wpa_supplicant/bss.c:788-862 | in every run, whatever the expiration count was set to and when, an entry is removed at the end of a round exactly when it is idle, the scan is new, complete and covers it, and with this one it missed at least as many such scans in a row as the count says now; with the count zero also if it was seen |
| `BssLimits.NthMissExpires` | wpa_supplicant/bss.c:788-862 | as long as the counts set fit the table, that is exactly the N-th scan in a row that missed it |
| `BssLimits.StepSize` | wpa_supplicant/bss.c:442-452 | a table grows only up to its limit, and one that is over it does not grow |
| `BssLimits.StepMisses` | wpa_supplicant/bss.c:849-859 | no operation leaves an entry charged beyond the expiration count |
| `BssLimits.StepBounded` | wpa_supplicant/config.c:4377-4379 | an operation keeps the entries within the limit and the misses below the expiration count if and only if it does not set either count below what the table holds |
| `BssLimits.RunBounded` | wpa_supplicant/config.c:4377-4379 | they are kept all through a run if and only if the counts set in it always fit |
| `BssLimits.RunWithinPeaks` | wpa_supplicant/config.c:4377-4379 | whatever counts are set, the table stays within the highest limit and the highest expiration count that were ever in force |
| `BssWitnesses.LimitBelowSize` | wpa_supplicant/ctrl_iface.c:530-534 | from the empty table: after two beacons a limit of one is set, and the table holds two |
| `BssWitnesses.CountBelowMisses` | wpa_supplicant/wpa_supplicant.c:3044-3057 | from the empty table: after a missed scan an expiration count of one is set, and the entry stays until another scan ends |
| `BssContents.ScanResultKeys` | wpa_supplicant/bss.c:254-267 | a result keeps keys unique if and only if it is not one that the filter rejects while an entry has its key |
| `BssContents.RunKeys` | wpa_supplicant/bss.c:254-267 | in every run whose results pass the filter, keys are unique |
| `BssScans.RoundKeys` | wpa_supplicant/scan.c:2119-2144 | a round on raw results, which are filtered first, keeps keys unique |
| `BssScans.DeliveryKeys` | wpa_supplicant/wnm_sta.c:1078-1100 | so do the filtered results handed in for a transition request |
| `BssScans.KeysStayUnique` | wpa_supplicant/scan.c:2119-2144 | whatever happens to the table, with any filter and any change of it, no two entries have the same BSSID and SSID |
| `BssScans.AcceptedAre` | wpa_supplicant/scan.c:1880-1903 | the results handed in are those whose BSSID the filter lists, or all without a filter |
| `BssContents.FullTable` | wpa_supplicant/bss.c:381-459 | a full table evicts the least recently updated unwanted entry, else the least recently updated idle one, and raises its limit only if all are wanted and in use |
| `BssContents.StepLimit` | wpa_supplicant/bss.c:442-452 | unless it is set, the limit never falls, and rises only in that case |
| `BssContents.FlushLeaves` | wpa_supplicant/bss.c:916-930 | a flush leaves exactly the entries that are not idle |
| `BssContents.FlushByAgeRemovesStale` | wpa_supplicant/bss.c:873-893 | a flush by age removes nothing but old idle entries |
| `BssContents.FlushByAgeComplete` | wpa_supplicant/bss.c:873-893 | it removes all of them if and only if none stands behind a fresh idle entry |
| `BssWitnesses.OldEntryStays` | wpa_supplicant/bss.c:873-893 | from the empty table: of two beacons in a round the second is old, and a flush by age leaves it behind the fresh one |
| `BssWitnesses.CurrentCanBeStranded` | wpa_supplicant/bss.c:381-394 | from the empty table: connected, with one network configured without an SSID, a beacon of another network evicts the current entry of a full table |
| `BssWitnesses.SecondWorkIsStranded` | wpa_supplicant/bss.c:192-214 | from the empty table: with an authentication and an association work pending for an entry, a flush clears the first and leaves the second with a pointer to nothing |
| `BssChanges.RawDecides` | wpa_supplicant/bss.c:500-509 | comparing the bytes of two elements is comparing the elements |
| `BssChanges.AreIesEqual` | wpa_supplicant/bss.c:462-516 | two buffers agree on an element kind exactly when both lack it or their first, or joined, elements are equal |
| `BssChanges.CompareRes` | wpa_supplicant/bss.c:518-555 | ending early on equal buffers gives the flags that all comparisons would |
| `BssChanges.RadioChanges` | wpa_supplicant/bss.c:518-534 | the flags for frequency, level, privacy bit and IBSS bit are set exactly if these differ |
| `BssChanges.SecurityChanges` | wpa_supplicant/bss.c:541-548 | those for WPA, RSN and WPS exactly if the first elements, or all WPS data, differ |
| `BssChanges.RateChanges` | wpa_supplicant/bss.c:536-552 | those for rates and elements exactly if the first elements of either rate list, or any octet, differ |
| `BssObjects.SegmentLinks` | src/utils/list.h:14-17 | an object-by-object chain of links is the same as each link naming the neighbour in the sequence, forwards and backwards |
| `BssObjects.AddId` | src/utils/list.h:27-33 | an object is linked in behind another or at the head, and the list is that sequence with it inserted |
| `BssObjects.DelId` | src/utils/list.h:40-46 | an object is unlinked, its own links are cleared, and the list is the sequence without it |
| `BssTables.RepointWorks` | wpa_supplicant/bss.c:192-214 | the first sme-connect work, or else the first connect work, takes the new pointer if it had the old one, and loses it if there is no new one; no other work changes |
| `BssTables.BssTable.UpdatePendingConnect` | wpa_supplicant/bss.c:229-229 | on removal only the pending connect work loses its pointer |
| `BssTables.BssTable.Remove` | wpa_supplicant/bss.c:217-243 | the object leaves both lists and the last scan, and memory stays in step with the model |
| `BssTables.IsKnown` | wpa_supplicant/bss.c:348-361 | known exactly if a configured network has this nonempty SSID |
| `BssTables.IsWpsCandidate` | wpa_supplicant/bss.c:307-345 | the loop decides what the model calls a WPS candidate |
| `BssTables.BssTable.IsInUse` | wpa_supplicant/bss.c:364-378 | the pointer test agrees with the test on addresses |
| `BssTables.BssTable.RemoveOldest` | wpa_supplicant/bss.c:381-419 | the entry removed is the model's, and failure means there is none |
| `BssTables.BssTable.EnsureRoom` | wpa_supplicant/bss.c:442-452 | room is made as the model says, by eviction or by raising the limit |
| `BssTables.BssTable.Add` | wpa_supplicant/bss.c:422-459 | a new object at the end of both lists, and the value the model gives |
| `BssTables.BssTable.Relocate` | wpa_supplicant/bss.c:630-640 | the new object takes the place of the old in the table, the last scan, the current pointer and the pending work, while it is on no list by id |
| `BssTables.BssTable.Regrow` | wpa_supplicant/bss.c:627-651 | the entry is unlinked, reallocated and linked in again behind the object that was before it; the links of the list by id are whole and in order of id whatever the allocator answers |
| `BssTables.BssTable.Update` | wpa_supplicant/bss.c:592-660 | the entry goes to the end of the table, refreshed as the model says |
| `BssTables.BssTable.SetHessid` | wpa_supplicant/bss.c:34-47 | the HESSID is that of the stored elements |
| `Elements.HessidIs` | wpa_supplicant/bss.c:34-47 | the HESSID is the six octets behind one or three others in the first Interworking element |
| `Elements.NoHessid` | wpa_supplicant/bss.c:34-47 | without such an element of 7 or 9 octets it is zero |
| `BssTables.BssTable.Get` | wpa_supplicant/bss.c:254-267 | the first entry with the key, and none for a filtered BSSID |
| `BssTables.BssTable.UpdateStart` | wpa_supplicant/bss.c:672-678 | a new round with an empty record |
| `BssTables.BssTable.UpdateScanRes` | wpa_supplicant/bss.c:691-784 | memory after a result is the model's value, and the invariant holds |
| `BssTables.IsCovered` | wpa_supplicant/bss.c:788-826 | the loops decide whether the scan covers an entry |
| `BssTables.BssTable.UpdateEnd` | wpa_supplicant/bss.c:839-862 | removing entries while walking the list leaves what the model says |
| `BssTables.BssTable.FlushByAge` | wpa_supplicant/bss.c:873-893 | the walk with its early stop leaves what the model says |
| `BssTables.BssTable.Flush` | wpa_supplicant/bss.c:916-930 | only entries in use are left |
| `BssTables.BssTable.GetIdRange` | wpa_supplicant/bss.c:1042-1051 | following the links finds the entry with the smallest id in the range, or none if there is none |
| `BssRound.FilterScanRes` | wpa_supplicant/scan.c:1880-1903 | the in-place loop leaves the results that the filter accepts, in order |
| `BssRound.UpdateRound` | wpa_supplicant/scan.c:2119-2144 | a whole scan in memory is the run of its round on the filtered results, and keeps the invariant, unique keys and the current pointer |
| `BssRound.WantedRound` | wpa_supplicant/scan.c:2119-2144 | no round evicts a current entry that is known or a WPS candidate whenever a result arrives |
| `PrioOrder.ChainsIndex` | wpa_supplicant/config.c:2205-2223 | every chain is exactly the networks of one priority in configuration order, heads descend strictly, and no network is left out |
| `PrioOrder.ChainsSort` | wpa_supplicant/config.c:2205-2223 | one after the other, the chains are the insertion sort by descending priority |
| `PrioOrder.SortSorts` | wpa_supplicant/config.c:2205-2223 | that sort is a descending permutation of the list |
| `PrioOrder.SortIsStable` | wpa_supplicant/config.c:2205-2223 | and leaves the networks of every priority in configuration order |
| `PrioOrder.AddAtEqual` | wpa_supplicant/config.c:2163-2171 | a network of a priority that has a chain goes to its end |
| `PrioOrder.AddAtFresh` | wpa_supplicant/config.c:2179-2191 | a network of a new priority opens a chain between the higher and the lower ones |
| `PrioList.Config.AddPrioNetwork` | wpa_supplicant/config.c:2153-2194 | the threaded index becomes that of one network more |
| `PrioList.Config.UpdatePrioList` | wpa_supplicant/config.c:2205-2223 | the index is that of the whole list, whatever the index and the `pnext` pointers were before |
| `PrioList.Config.SetPriority` | wpa_supplicant/ctrl_iface.c:3060-3066 | after a change of priority the index is again that of the list |
| `PrioList.Config.AddNetwork` | wpa_supplicant/config.c:2485-2513 | a new network at the end, its id one above the highest, and the index is that of the new list |
| `PrioList.Config.RemoveNetwork` | wpa_supplicant/config.c:2522-2545 | the list without the network, -1 exactly if there was none, and no chain mentions it |
| `Text.AtoiDecimal` | wpa_supplicant/config.c:1181-1181 | a printed number is read back whatever follows it |
| `Text.ReadMacText` | src/utils/common.c:40-68 | a printed address is read back whatever follows it |
| `Text.ReadColonsIs` | src/utils/common.c:40-68 | a text is read as an address exactly if it starts with six pairs of hexadecimal digits with colons between them |
| `Text.HexValueIs` | src/utils/common.c:15-24 | the digits are those of both cases and no other characters |
| `FreqList.ParseIntArray` | wpa_supplicant/config.c:1151-1189 | for every text the doubling array stays in bounds and zero-terminated and holds the integers up to the first zero |
| `FreqList.WriteFreqs` | wpa_supplicant/config.c:1233-1263 | the text is the printed list, cut at ten characters a number |
| `FreqList.SignedNumberReads` | wpa_supplicant/config.c:1252-1254 | a number below zero is written 2^32 higher |
| `FreqList.ReadsBack` | wpa_supplicant/config.c:1151-1189 | an uncut text is read back as the list |
| `FreqList.CutLoses` | wpa_supplicant/config.c:1233-1263 | a text cut anywhere is not |
| `FreqList.RoundTrip` | wpa_supplicant/config.c:1233-1263 | a list of positive numbers survives if and only if its text fits |
| `FreqList.TenDigitsLost` | wpa_supplicant/config.c:1233-1263 | two numbers of ten digits do not survive |
| `FreqList.NineDigitsRoundTrip` | wpa_supplicant/config.c:1233-1263 | every list of numbers in 1..999999999 survives |
| `PskLine.CleanLine` | wpa_supplicant/config_file.c:64-123 | the pointer loops drop comments outside quotes and trailing blanks |
| `PskLine.DropCommentIs` | wpa_supplicant/config_file.c:86-101 | a comment starts at the first hash that no two quotes go beyond |
| `PskLine.CleanIs` | wpa_supplicant/config_file.c:77-109 | of a line is left what stands between white space at its start and white space, or a comment, at its end |
| `PskLine.CleanNothing` | wpa_supplicant/config_file.c:77-84 | a line of white space, or with a hash or a line end behind that, is passed over |
| `PskLine.SplitIs` | wpa_supplicant/config_file.c:184-202 | a line is split at its first equals sign, and a value with an unclosed quote is refused |
| `PskLine.GetLine` | wpa_supplicant/config_file.c:64-123 | the first line with something on it, and all lines before it are empty or comments |
| `PskLine.WrittenLineCleans` | wpa_supplicant/config_file.c:64-123 | a written psk line loses nothing, whatever quotes, hashes and blanks the passphrase has |
| `PskLine.WrittenLineSplits` | wpa_supplicant/config_file.c:184-202 | it splits at the right equals sign |
| `PskLine.PassphraseSurvives` | wpa_supplicant/config.c:442-510 | a passphrase of 8 to 63 characters without control characters, written as a psk line and read again, is the same |
| `PskLine.OnlyUsable` | wpa_supplicant/config.c:442-510 | no value makes the parser store any other passphrase |
| `Rotation.FullTurn` | hostapd/hlr_auc_gw.c:362-384 | as many stops of a cursor as there are marks stop at each exactly once, from wherever it stands |
| `Rotation.DistinctStops` | hostapd/hlr_auc_gw.c:362-384 | stops differ if and only if there are no more of them than marks |
| `Rotation.NextIs` | hostapd/hlr_auc_gw.c:362-384 | a mark is the next stop if and only if there is no other on the way to it, going round |
| `GsmTriplets.Gateway.GetTriplet` | hostapd/hlr_auc_gw.c:362-384 | the subscriber's next triplet from the cursor on, and nothing exactly if there is none |
| `GsmTriplets.Gateway.Challenges` | hostapd/hlr_auc_gw.c:600-648 | a response holds the next so many triplets of the subscriber, or none |
| `GsmTriplets.EachTripletOnce` | hostapd/hlr_auc_gw.c:362-384 | consecutive requests give each triplet of a subscriber once before any comes back |
| `GsmTriplets.ResponseDistinct` | hostapd/hlr_auc_gw.c:600-648 | a response repeats no triplet if and only if there are enough |
| `GsmTriplets.OneTripletRepeats` | hostapd/hlr_auc_gw.c:633-648 | from the start, a subscriber with one triplet gets it more than once in a response |
| `GsmTriplets.ComesAgain` | hostapd/hlr_auc_gw.c:362-384 | in any run of mixed requests, a later request of a subscriber gets the triplet of an earlier one if and only if none of its others lies between the cursor, as the requests before left it, and that triplet |
| `GsmTriplets.WindowDistinct` | hostapd/hlr_auc_gw.c:362-384 | in any run of mixed requests, any requests of a subscriber get different triplets if and only if each two are parted by another of its triplets |
| `GsmTriplets.WindowFull` | hostapd/hlr_auc_gw.c:362-384 | as many of them as it has triplets get each of its triplets exactly once under the same condition |
| `Rotation.AsManyAsMarks` | hostapd/hlr_auc_gw.c:362-384 | as many different stops as there are marks are all the marks |
| `GsmTriplets.TwiceInARow` | hostapd/hlr_auc_gw.c:362-384 | without other requests in between it does if and only if it has no other |
| `GsmTriplets.OthersDisturb` | hostapd/hlr_auc_gw.c:362-384 | from the start, a request for another subscriber makes a triplet come twice in a row |
| `Sqn.NextByBits` | hostapd/hlr_auc_gw.c:724-727 | the shifts, the mask and the or compute the next number of the profile |
| `Sqn.IncSqn` | hostapd/hlr_auc_gw.c:712-731 | the six octets hold the next number of the profile |
| `Sqn.Put48` | hostapd/hlr_auc_gw.c:728-730 | two stores keep the low 48 bits |
| `Sqn.NextSplit` | hostapd/hlr_auc_gw.c:712-731 | SEQ and IND each go up by one within their own bits |
| `Sqn.StepsSplit` | hostapd/hlr_auc_gw.c:712-731 | n steps give SEQ + n and IND + n, each within its bits |
| `Sqn.NextIncreases` | hostapd/hlr_auc_gw.c:712-731 | a step increases SQN if and only if SEQ has not reached its maximum |
| `Sqn.LastStartsOver` | hostapd/hlr_auc_gw.c:712-731 | the largest number is followed by zero, for every ind_len |
| `Sqn.RunIncreases` | hostapd/hlr_auc_gw.c:712-731 | until then a run is strictly increasing |
| `Sqn.RunInds` | hostapd/hlr_auc_gw.c:712-731 | two vectors share an IND if and only if their distance is a multiple of 2^ind_len |
| `Sqn.ConsecutiveInds` | hostapd/hlr_auc_gw.c:712-731 | any 2^ind_len consecutive vectors use different INDs |
| `Aka.AccountFollows` | hostapd/hlr_auc_gw.c:734-850 | in every interleaving of requests and resynchronisations of all subscribers, an account is as many steps behind its last resynchronisation as it issued numbers since |
| `Aka.IssuedRise` | hostapd/hlr_auc_gw.c:753-850 | the numbers issued since then rise above it and above each other if and only if its SEQ has room for them |
| `Aka.ResyncThenRequest` | hostapd/hlr_auc_gw.c:753-850 | a request after a resynchronisation, whatever other subscribers did in between, issues a larger number if and only if the SEQ is not the last |
| `Aka.AuthCentre.AkaReqAuth` | hostapd/hlr_auc_gw.c:734-770 | a request steps the SQN of the first account with the IMSI and no other, and nothing without random numbers |
| `Aka.AuthCentre.AkaAuts` | hostapd/hlr_auc_gw.c:830-850 | a valid resynchronisation stores the SQN given in the first account with the IMSI, and no other changes |
| `BgscanSimple.StepKeeps` | wpa_supplicant/bgscan_simple.c:33-273 | every event keeps at most one timer pending, a timer pending or a scan outstanding, and a count that is not negative |
| `BgscanSimple.RunKeeps` | wpa_supplicant/bgscan_simple.c:33-273 | so does every run |
| `BgscanSimple.CountBalances` | wpa_supplicant/bgscan_simple.c:57-77 | the counter is the scans at the short interval less the ones given back |
| `BgscanSimple.BurstIsBounded` | wpa_supplicant/bgscan_simple.c:57-68 | with different intervals a burst at the short one has no more scans than the room left |
| `BgscanSimple.BurstSpan` | wpa_supplicant/bgscan_simple.c:142-154 | so at most long/short + 2 scans, spanning at most a long interval and two short ones |
| `BgscanSimple.EqualIntervals` | wpa_supplicant/bgscan_simple.c:57-68 | with equal intervals there are, from the start, bursts of any length in which every timeout comes at its deadline |
| `BgscanSimple.BudgetRun` | wpa_supplicant/bgscan_simple.c:57-77 | the counter exceeds the budget by no more than the switches to the short interval |
| `BgscanSimple.ShortScansOfARun` | wpa_supplicant/bgscan_simple.c:33-80 | over a whole run the short scans are bounded by the first budget, the scans given back and the switches |
| `BgscanSignals.IntervalIs` | wpa_supplicant/bgscan_simple.c:57-273 | in every run with two intervals and a threshold the short interval is in force exactly if the signal was weak when last heard of, at the start if never since, and no scan after that went over the budget |
| `BgscanSignals.StrongMeansLong` | wpa_supplicant/bgscan_simple.c:250-256 | after a strong signal there is no scan at the short interval before a weak one |
| `BgscanSignals.SignalTimer` | wpa_supplicant/bgscan_simple.c:219-273 | what a signal does to the interval and to the timer: due at once, after a short interval, after a long one, or left alone, and when each |
| `BgscanSignals.SignalIgnored` | wpa_supplicant/bgscan_simple.c:215-217 | with one interval or no threshold signals do nothing |
| `BgscanSignals.ScanTimer` | wpa_supplicant/bgscan_simple.c:51-80 | a failed scan is tried again after the interval in force; a scan leaves no timer until its results start it again |
| `BgscanSignals.LastIs` | wpa_supplicant/bgscan_simple.c:79-79 | the time kept is that of the last scan |
| `BgscanSignals.LastIsStart` | wpa_supplicant/bgscan_simple.c:156-162 | or of the start if there was none |
| `BgscanSignals.DueFromStart` | wpa_supplicant/bgscan_simple.c:33-273 | while timeouts come at their deadlines, the next scan is at every time due within the longest interval, if none is under way |
| `BgscanSimple.Bgscan.constructor` | wpa_supplicant/bgscan_simple.c:111-165 | the first interval follows the polled signal, and one timer is started |
| `BgscanSimple.Bgscan.Timeout` | wpa_supplicant/bgscan_simple.c:33-80 | the handler is the model's step |
| `BgscanSimple.Bgscan.NotifyScan` | wpa_supplicant/bgscan_simple.c:178-197 | the handler is the model's step |
| `BgscanSimple.Bgscan.NotifySignalChange` | wpa_supplicant/bgscan_simple.c:207-273 | the handler is the model's step |
| `BgscanProbe.Contains` | wpa_supplicant/bgscan_learn.c:195-208 | membership in front of the first zero |
| `BgscanProbe.GetFreqs` | wpa_supplicant/bgscan_learn.c:211-232 | the loop collects the frequencies of the list |
| `BgscanProbe.CollectsOnce` | wpa_supplicant/bgscan_learn.c:211-232 | without a zero each frequency is collected exactly once |
| `BgscanProbe.CollectPastZero` | wpa_supplicant/bgscan_learn.c:211-232 | from a zero on only what is in front of it is recognised, so later repeats stay |
| `BgscanProbe.GetSuppFreqs` | wpa_supplicant/bgscan_learn.c:351-380 | the nested loops collect the channels of all modes that are not disabled |
| `BgscanProbe.SupportedAre` | wpa_supplicant/bgscan_learn.c:351-380 | the frequencies supported are those of the channels that some mode has and has not disabled, each once |
| `BgscanProbe.Probe.GetProbeFreq` | wpa_supplicant/bgscan_learn.c:235-267 | the search ends, the cursor stands at a supported frequency, and one frequency is added exactly when one is missing: the first from the cursor on |
| `BgscanProbe.EachMissingOnce` | wpa_supplicant/bgscan_learn.c:235-267 | with m frequencies missing, any m consecutive calls probe each exactly once |
| `BgscanLearn.Learn.AddNeighbor` | wpa_supplicant/bgscan_learn.c:68-85 | a BSS gets a neighbour unless it is itself or known |
| `BgscanLearn.NeighborsAre` | wpa_supplicant/bgscan_learn.c:68-85 | added addresses become the neighbours, behind the old ones, without repeats or the BSS itself |
| `BgscanLearn.Learn.NotifyScan` | wpa_supplicant/bgscan_learn.c:484-551 | the two passes over the results are the model's step |
| `BgscanLearn.MatchingAre` | wpa_supplicant/bgscan_learn.c:467-481 | the results that count are those with the SSID of the network |
| `BgscanLearn.NotedAllKeeps` | wpa_supplicant/bgscan_learn.c:515-542 | after a scan one BSS knows another exactly if it did before, or was in the scan with the other among the buffered addresses |
| `BgscanLearn.ScanSymmetry` | wpa_supplicant/bgscan_learn.c:484-551 | a scan keeps the relation symmetric if and only if what overflows the buffer was known before |
| `BgscanLearn.FewMatches` | wpa_supplicant/bgscan_learn.c:489-513 | with at most 50 matching results nothing overflows |
| `BgscanLearn.OverflowBreaks` | wpa_supplicant/bgscan_learn.c:489-513 | any scan with more than fifty matches breaks the symmetry if the first did not know the fifty-first |
| `BgscanLearn.FiftyOneBreak` | wpa_supplicant/bgscan_learn.c:489-513 | so do any fifty-one different BSSs of any network that are new to the list |
| `BgscanLearn.ScanGrows` | wpa_supplicant/bgscan_learn.c:515-542 | neighbours are only appended, and a BSS has the frequency it was last seen on |
| `BgscanLearn.RunKeeps` | wpa_supplicant/bgscan_learn.c:484-551 | every run keeps addresses unique and the relation irreflexive, without repeats and growing, and symmetric with at most 50 matches a scan |
| `BgscanFile.Save` | wpa_supplicant/bgscan_learn.c:161-192 | the loops write the header, the BSS lines and the neighbour lines |
| `BgscanFile.Load` | wpa_supplicant/bgscan_learn.c:101-158 | the loop reads every line in turn, and refuses a file without the header |
| `BgscanFile.LoadsOnlyWithHeader` | wpa_supplicant/bgscan_learn.c:116-122 | a file is taken exactly if its first line starts with the header |
| `BgscanFile.BssLineReads` | wpa_supplicant/bgscan_learn.c:128-141 | a written BSS line puts the BSS in front, without neighbours |
| `BgscanFile.NeighborLineReads` | wpa_supplicant/bgscan_learn.c:144-157 | a written neighbour line adds that neighbour to that BSS |
| `BgscanFile.RoundTrip` | wpa_supplicant/bgscan_learn.c:101-192 | a saved list is loaded in reverse, each BSS with its frequency and its neighbours in order |
| `BgscanFile.LoadedGood` | wpa_supplicant/bgscan_learn.c:101-158 | the list loaded from any file with the header names each BSS once, and is then one that scans and the next save rely on, if and only if no two of its readable BSS lines name the same address |
| `BgscanFile.DuplicatesLoad` | wpa_supplicant/bgscan_learn.c:128-141 | a file that names a BSS twice makes a list that does |
| `Checksum.HeaderChecksum` | hostapd/ctrl_iface.c:1575-1588 | the two loops give the complement of the folded sum modulo 2^32 |
| `Checksum.FoldStands` | hostapd/ctrl_iface.c:1584-1585 | folding ends, keeps the residue modulo 65535, and is zero only for zero |
| `Checksum.DeferredCarries` | hostapd/ctrl_iface.c:1581-1585 | folding at the end is adding with an end-around carry at every step (RFC 1071) |
| `Checksum.ComputedIsInternetChecksum` | hostapd/ctrl_iface.c:1575-1588 | the result is the Internet checksum if and only if the overflow is a multiple of 65535 and the wrapped sum is not spuriously zero |
| `Checksum.OverflowLoses` | hostapd/ctrl_iface.c:1575-1588 | a buffer of 65538 words of all ones, longer than any the program passes, gets another checksum |
| `Checksum.ShortBuffers` | hostapd/ctrl_iface.c:1575-1588 | up to 65537 words it always is |
| `Checksum.StoredChecksumVerifies` | hostapd/ctrl_iface.c:1575-1588 | storing the checksum in a zeroed word makes the checksum zero, for any length |
| `Checksum.FillIn` | hostapd/ctrl_iface.c:1708-1712 | a header with its checksum filled in has checksum zero, and no other octet changes |
| `MacAcl.ReadLine` | hostapd/config_file.c:141-192 | a line is a comment, an address to remove, an entry to add with its VLAN, or invalid |
| `MacLines.LineReads` | hostapd/config_file.c:141-205 | every line as one writes it, before a line end or the end of the file, is read as it is meant: a remark or nothing, an address, an address with a VLAN behind blanks, or an address to take out |
| `MacLines.BadLines` | hostapd/config_file.c:164-169 | any other line is refused exactly if no address stands at its start, behind a minus if there is one |
| `MacAcl.LinesLeave` | hostapd/config_file.c:141-206 | lines leave the first and the added entries, each unless a later line removes its address |
| `MacAcl.MacList.RemoveAll` | hostapd/config_file.c:171-182 | removal in place drops every entry of the address and keeps the others in order |
| `MacAcl.MacList.Sort` | hostapd/config_file.c:211-211 | the array is a permutation sorted by address |
| `MacAcl.MacList.ReadMacList` | hostapd/config_file.c:122-214 | after success the array is sorted and holds, as a multiset, what the lines leave; an invalid line ends reading with the effect of the lines before it |
| `MacLines.FileLeaves` | hostapd/config_file.c:141-205 | such a file leaves what was there and no line takes out, and what a line puts in and no later one takes out |
| `MacLines.ReadFile` | hostapd/config_file.c:122-214 | reading it succeeds and leaves the array with exactly these entries, in order |
| `MacLines.LeqIs` | hostapd/config_file.c:114-119 | the order is by the first octet that differs |

## Left out

- ANQP data, Hotspot 2.0 data and their sharing between entries.
- Notifications, logging, the D-Bus and control interfaces, and everything that only forwards to a driver.
- `wpa_bss_get_bssid`, `wpa_bss_get_bssid_latest`, `wpa_bss_get_p2p_dev_addr` and the rate lookups: read-only lookups, each one loop over the table.
- Allocation failure, except where a result is filed or an entry grows. In particular a failed growth of the last-scan array or of the priority array is not modelled.
- Reuse of freed addresses: every allocation takes a new address, so a stale pointer never happens to hit a new entry.
- Refusals of settings: any limit and any expiration count can be set here, although one of the commands refuses an expiration count of zero.
- Wrap-around of entry ids, of the round number and of miss counts, which are unsigned integers in the source and unbounded here.
- The WPS parser: two oracles in the configuration answer whether an element announces push-button mode or an authorised address.
- BssFiling.ResultUpdates: times are as the clock gives them, with less than a million microseconds beside the seconds. The same holds of `FiledUnless`, `OneName`, `ResultAdds`, `ResultIsIgnored` and `FlushSparesHeard`.
- BssTables.BssTable.UpdateScanRes: requires a good current pointer, since the source reads through it; `BssPointers` says when it is good. The same holds of `IsInUse`, `RemoveOldest`, `EnsureRoom`, `Add`, `UpdateEnd`, `Flush` and `FlushByAge`.
- BssRound.UpdateRound: requires that no result of the round evicts the current entry, by `BssPointers.RunCurrent` exactly the condition under which the source does not go on with a dangling pointer. The results come in the order in which they are handed in; their sorting by signal and the estimates of throughput are not modelled.
- BssTables.BssTable.Regrow: only the list by id is threaded through the objects. The list in update order is a sequence of objects, and what an entry holds besides its address, id and SSID is one record.
- Sqn.IncSqn: `ind_len` is at most 30; for 31 and 32, which the command line accepts, the shift of a 32-bit integer in the source is not defined. Milenage and the check of a resynchronisation token are inputs.
- Text.AtoiDecimal: `atoi` is unbounded here; its result for numbers beyond a C integer is not defined.
- PskLine.PassphraseSurvives: lines are whole; a line longer than the read buffer is not modelled. Raw keys, `ext:` names and the rest of a configuration file are not written and read back.
- BgscanProbe.Probe.GetProbeFreq: supported frequencies are not zero; a zero there would end the array early.
- BgscanFile.Load: lines as `fgets` delivers them, not the splitting of the file. A line that ends right behind an address makes the source read what the buffer held before; here nothing is read there.
- BgscanLearn.Learn.NotifyScan: BSS records are values in a list, so that updates in place of a record are not captured as such. The timer and parameters of the learning module are those of the simple one and are not repeated.
- MacAcl.MacList.Sort: stands for the library sort, of which only a sorted permutation is promised; lines are taken as delivered by `fgets`.
- The parameters of the background scan modules as text; the model starts from the three numbers.
- Milenage file updates, the SQLite back ends, autoscan modules, blacklists, and the field setters of both configuration parsers.
