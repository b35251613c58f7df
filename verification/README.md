# Alpha-MON: anonymisation algorithms, modelled and verified

Alpha-MON anonymises live traffic. This project models the algorithms inside it, in Dafny, and
proves what they keep, compute and undo:

* the AES cipher in T-table form with its in-place key schedule and the equivalent inverse cipher
  (`GfColumns`, `AesTables`, `SourceTables`, `KeyAlternating`, `AesCipher`, `Rijndael`,
  `RijndaelTheorems`), and that all of it is AES as the standard defines it (`ByteField`, `Fips197`);
* prefix-preserving address anonymisation, its bitwise inverse, its IPv6 form, and the caches in
  front of it: a two-entry cache, a table of 2^20 prefixes in which 0 means "empty", and a least
  recently used cache over a hash table (`PrefixCode`, `CryptoPan`, `PadBits`, `CryptoPan6`,
  `TwoEntryCache`, `PrefixCache`, `MachineWords`, `UtHash`, `Recency`, `AddressCache`, `AddressStore`);
* the alpha-anonymity window: the client list of a name, the chain of names of a bucket, and the
  sweep that cleans the chain while it is walked (`AlphaWindow`, `ClientLru`, `NameChain`,
  `NameRuns`, `NameCounts`, `NameTable`);
* the flow table, its verdicts and what the packets of a run are subjected to (`FlowTable`,
  `FlowEffects`), the subnet lists (`Subnets`, `SubnetLists`);
* the formats: DNS names in place, the question of a message, and messages as they are written
  (`DnsScrub`, `DnsQuestion`, `DnsPrint`), base64 and encrypted strings (`SextetCode`, `Base64`,
  `StringCipher`), INI files, read and printed (`IniLines`, `IniParser`, `IniPrint`).

`Sequences` holds what several modules need of sequences.

Structures that the C code changes in place are classes and arrays here, with methods in the same
steps; each is tied to a function on values, and the main results are lemmas about those functions
over all inputs, runs and histories. The `Session` methods, `RijndaelTheorems.EncryptThenDecrypt` and
`RijndaelTheorems.StringSession` create such objects and run any sequence of calls on them. A
mutex-protected call is one step. Addresses, ports and bytes have their machine widths; time stamps and
counters are integers.

A client of a name is the slot, out of 900, that its address hashes to, as in the code. Results about
windows assume time stamps in order and a non-negative `delta`.

Some predicates (`Holds`, `Follows`, `Owned`, `Scrubbed`, ...) are written as a quantifier with a
trigger of its own, so that the verifier unfolds them only where a proof asks; the lemma or predicate
next to each states what it stands for.

## What the models show about the code

* **Walks cut short.** The loop of `table_add` counts up to `number` while its own sweep lowers
  `number`, so it can end before the end of the chain. `NameChain.CallExact` gives the exact
  condition under which a call still updates the map of names. `NameRuns.LiveNameCutOff` and
  `NameRuns.SecondEntry` are runs from the empty bucket, for any distinct names that share it, that lose
  a live name, or give a name a second entry.
* **The window.** A count below `alpha` always means fewer than `alpha` clients in the window. A count
  of exactly `alpha` may include a client that has left the window, because the list is pruned only
  when it grows beyond `alpha`. The verdict is that of the window unless the client asked for makes the
  list `alpha` long with an outdated entry at its end (`AlphaWindow.VerdictExact`,
  `NameRuns.RunCountsWindow`; an example is `AlphaWindow.StaleClientCounts`). This is weaker than the
  promise of README.md:82 of the repository. A count above `alpha` is never more than the clients in the
  window, in every run, also where walks are cut short (`NameCounts.CountIsReal`).
* **Warm-up calls.** The comment at src/crypto_ip.c:173-177 says that 0.0.0.0 is left unencrypted if it
  is the first or the second address asked for. `PrefixCache.ColdRun` gives the exact condition: it is
  wrong until two different other addresses have been asked for. With the two warm-up calls every
  answer of every run is right (`PrefixCache.WarmRun`).
* **Verdicts.** README.md:87-88 of the repository promises that a flow first anonymised stays so, and
  that one first left alone stays so. For IPv4 TCP flows only the second holds: verdict 0 is final
  (`FlowTable.ZeroIsFinal`), verdict 1 is judged again. The external-IP module raises its flag only while
  there is no verdict, so verdict 1 does not survive the next packet on which that module consults it; it
  lasts through a run exactly when that module consults no packet of the flow, and the TLS and HTTP
  modules answer with a non-zero flag on all that they consult (`FlowTable.OneLastsExactly`;
  `FlowTable.OneIsNotFinal` is a run that begins with the first packet of a flow and loses it). For IPv4
  UDP flows neither holds: src/proto_mng.c:174-176 compares where it should assign, so no verdict is ever
  stored, and every packet is judged anew (`FlowTable.UdpJudgedAnew`, `FlowTable.UdpKeepsNoPromise`). The
  matching test also identifies a flow with the one whose ports are exchanged
  (`FlowTable.MatchesExactly`).
* **Equal keys.** Doubling the buckets of a hash table reverses the order of the items of one key within
  their chain, so HASH_FIND then finds the last of them. Its answer is the same as before exactly when
  no two items have the key (`UtHash.FindAcrossDoubling`); the address cache holds no key twice.
* **DNS names.** `ReadName` takes a zero byte or one of 192 and more for an end or a pointer also inside a
  label. It overwrites exactly the contents of a name exactly when no such byte stands inside a label
  (`DnsScrub.OverwritesContents`); otherwise letters can stay (`DnsScrub.LetterStays`).
* **DNS questions.** The bound test of the parse compares without sign. It does what it is for exactly
  when the packet holds its headers and the DNS header (`DnsQuestion.BoundTest`); in a shorter one nothing
  is refused for lack of room, and only the length of the text ends the parse (`DnsQuestion.ParseName`).
  The length of the text is tested only after a label has been copied: all of it is written inside the
  500 bytes of the buffer exactly when every label that is copied ends inside them
  (`DnsQuestion.WritesInside`), and behind 499 bytes of text any further label does not
  (`DnsQuestion.WrittenBeyond`).
* **Base64.** `unbase64` makes room for all the bytes it stores exactly when the text has no padding signs
  or has them in place (`SextetCode.StoresInside`); for two characters and one padding sign it does not
  (`SextetCode.StoredBeyond`).
* **Subnets.** An IPv4 entry written as 0.0.0.0 with a non-zero number of bits covers every address;
  all other entries mean exactly their first bits (`Subnets.EntryExact`).
* **INI files.** The header promises `name:value` pairs; the code accepts only an equals sign
  (`IniLines.PairExact`), and refuses for example the text `a:b` (`IniLines.ColonText`). A further line of
  a value goes to the handler under the name before it, of which only 49 characters are kept
  (`IniPrint.RoundTrip`).

## Model

| member | source | states |
|---|---|---|
| `RijndaelTheorems.EcbRoundTrip` | src/rijndael.c:1034-1045 | For every key of 16, 24 or 32 bytes, every message and number of blocks: ECB decryption under the transformed expanded key undoes ECB encryption under the expanded key, with the tables of the source |
| `RijndaelTheorems.StringRoundTrip` | src/crypto_ip.c:323-413 | For every key and non-empty string, the returned text decodes to the cipher output, which decrypts to the string padded with zeros |
| `RijndaelTheorems.StringSession` | src/crypto_ip.c:323-413 | One cipher and its buffers on any sequence of strings: each result is the null-terminated base64 form of an encryption of its padded string |
| `RijndaelTheorems.EncodedReadsBack` | src/crypto_ip.c:323-413 | Each such result reads back: it decodes to the encryption, and that decrypts to the padded string |
| `RijndaelTheorems.EncryptThenDecrypt` | src/rijndael.c:948-1201 | Two objects, one initialised for each direction with the same key of 16, 24 or 32 bytes: for every number of blocks, the decryption of the encryption is the message |
| `RijndaelTheorems.SourceTablesReady` | src/rijndael.c:646-930 | The tables of the source have what the methods of the cipher object need, for the round operations of AES |
| `KeyAlternating.EqInvCipherInverts` | src/rijndael.c:1560-1639 | The equivalent inverse cipher (section 5.3.5 of FIPS 197) under the transformed keys inverts the cipher, for any number of rounds and any layers with the laws of AES |
| `KeyAlternating.InvRoundsOfCipher` | src/rijndael.c:1440-1456 | The rounds undone one by one in the inverse order of the transformed keys give back the block |
| `AesCipher.AesLayersLaws` | src/rijndael.c:1480-1558 | SubBytes, ShiftRows, MixColumns and AddRoundKey have the laws that the inverse cipher needs, for any sound tables |
| `GfColumns.MixWordAdditive` | src/rijndael.c:1440-1456 | Mixing a column with any coefficients distributes over exclusive or |
| `GfColumns.InvMixOfMix` | src/rijndael.c:646-920 | InvMixColumns undoes MixColumns on every column, from the laws of GF(2^8) doubling alone |
| `ByteField.SBoxIsAffineOfInverse` | src/rijndael.c:4-22 | For every byte: the literal table S is the affine map of section 5.1.1 of FIPS 197 of its one inverse in GF(2^8) (of zero, zero) |
| `Fips197.EncryptsByStandard` | src/rijndael.c:1021-1045 | For every key length, message and number of blocks: each block the cipher object writes is the block of the message after SubBytes, ShiftRows, MixColumns and AddRoundKey by the index formulas of sections 5.1.1 to 5.1.4 on bytes, in 10, 12 or 14 rounds |
| `Fips197.KeyExpansionBytes` | src/rijndael.c:1361-1438 | Every byte of the expanded key: the key bytes first, and then by Figure 11 of FIPS 197 from earlier bytes |
| `SourceTables.InverseSBox` | src/rijndael.c:4-24 | The literal table S5 inverts the literal table S on every byte |
| `SourceTables.RconLiterals` | src/rijndael.c:922-930 | The literal rcon table holds the powers of {02} |
| `Rijndael.Cipher.KeySched` | src/rijndael.c:1361-1438 | The in-place schedule fills every word of every round key with the word recurrence of KeyExpansion (section 5.2 of FIPS 197), for 4, 6 and 8 key words |
| `Rijndael.Cipher.AdvanceKey` | src/rijndael.c:1396-1437 | One pass of the schedule turns nk consecutive words of the recurrence into the next nk |
| `Rijndael.Cipher.SpillKey` | src/rijndael.c:1381-1394 | The copy loops put the words of tempKey into the next free round-key slots, across round boundaries, and stop at the last round |
| `Rijndael.AllWordsRecurs` | src/rijndael.c:1361-1438 | The word sequence of the standard is the one that the block-wise passes compute |
| `Rijndael.Cipher.KeyEncToDec` | src/rijndael.c:1440-1456 | Every inner round key is transformed by InvMixColumns, the first and last are kept |
| `Rijndael.TableRound` | src/rijndael.c:1480-1530 | A round of merged table look-ups equals SubBytes, ShiftRows, MixColumns and AddRoundKey, for every block and key |
| `Rijndael.Cipher.REncrypt` | src/rijndael.c:1480-1558 | The T-table cipher equals the cipher of section 5.1 of FIPS 197 under the round keys in use, for every round count, key and block |
| `Rijndael.Cipher.RDecrypt` | src/rijndael.c:1560-1639 | The U-table decryption equals the equivalent inverse cipher under the round keys in use |
| `Rijndael.Cipher.Init` | src/rijndael.c:948-1019 | The error codes in their order, the number of rounds, the initialisation vector in use (zeros if none is given), and the round keys (transformed for decryption) that initialisation leaves |
| `Rijndael.InitCodes` | src/rijndael.c:948-1019 | Which of the codes -1 to -4 and 0, by mode, direction, length of the key and whether there is one |
| `Rijndael.BlockCodes` | src/rijndael.c:1021-1045 | Which of the codes -5 and -6, and otherwise the bits of the whole blocks |
| `Rijndael.Cipher.BlockEncrypt` | src/rijndael.c:1021-1045 | The error codes, the number of bits processed, every whole block encrypted, and nothing else written |
| `Rijndael.Cipher.BlockDecrypt` | src/rijndael.c:1174-1201 | The same for decryption |
| `Rijndael.EcbInverts` | src/rijndael.c:1189-1201 | Block-wise decryption inverts block-wise encryption for any layers with the laws of AES |
| `PadBits.ImageBits` | src/crypto_ip.c:502-547 | For every address, key and bit: the bit is changed exactly when the output of the cipher begins with a set bit, on the one string of sixteen bytes that starts with the address bits before it and goes on with the bits of m_pad |
| `CryptoPan.PrefixPreserving` | src/crypto_ip.c:502-547 | Two addresses share their first n bits if and only if their images do, for every n in 0..32 and every cipher |
| `CryptoPan.Permutation` | src/crypto_ip.c:502-547 | The anonymisation is a permutation of the 32-bit addresses, with an inverse computed bit by bit |
| `PrefixCode.PrefixPreserving` | src/crypto_ip.c:516-546 | Any code that adds pad bits computed from the bits before them preserves common prefixes exactly |
| `PrefixCode.Permutation` | src/crypto_ip.c:516-546 | Recovering the bits one after the other inverts any such code, on both sides |
| `CryptoPan6.PrefixPreserving6` | src/crypto_ip.c:264-278 | The IPv6 form preserves common prefixes exactly over all 128 bits |
| `CryptoPan6.BitsInWords` | src/crypto_ip.c:264-278 | The first n of the 128 bits are spread over the four words in their order |
| `CryptoPan6.Injective6` | src/crypto_ip.c:264-278 | The IPv6 form is injective |
| `CryptoPan6.MaskedImage` | src/crypto_ip.c:264-278 | Word i of the image is, in network order, the image of the address made of the bytes of word i masked with ff, f0, 0f or 00 |
| `CryptoPan6.EqualWordsDiffer` | src/crypto_ip.c:266-273 | Equal words at different places of an address get different images |
| `CryptoPan6.NetworkImage` | src/crypto_ip.c:241-261 | The image of an IPv4 address in memory is that of the address made of its bytes in network order |
| `CryptoPan6.EncryptIpv6` | src/crypto_ip.c:264-278 | The four cached calls with their masks and byte swaps compute that form and keep the caches true |
| `PrefixCache.Anonymizer.PpAnonymize` | src/crypto_ip.c:502-547 | The bit loop computes the anonymisation |
| `PrefixCache.Anonymizer.CppAnonymize` | src/crypto_ip.c:550-623 | The fast form is one step of the two-entry cache over the prefix table: same answer, same new caches |
| `PrefixCache.Anonymizer.EncryptIp` | src/crypto_ip.c:216-219 | From warm caches the fast form answers as the simple one, and the caches stay warm |
| `PrefixCache.Anonymizer.WarmUpCalls` | src/crypto_ip.c:178-179 | The two warm-up calls make the caches of `panon_init_cache` hold nothing but true answers |
| `PrefixCache.WarmRun` | src/crypto_ip.c:550-623 | After the warm-up calls every answer of every run is that of `pp_anonymize` |
| `PrefixCache.ColdRun` | src/crypto_ip.c:173-179 | Without them a run is right exactly when 0 is its own image or every query for 0 comes after two different non-zero addresses |
| `PrefixCache.ScanPadIsPad` | src/crypto_ip.c:441-479 | A table entry is the first twenty pad bits of each of its addresses |
| `TwoEntryCache.CoherentRun` | src/crypto_ip.c:550-623 | A two-entry cache of true pairs over any truthful table answers every run truthfully |
| `TwoEntryCache.RawRun` | src/crypto_ip.c:431-440 | The exact runs that a cache with two false initial pairs answers truthfully |
| `TwoEntryCache.FilledTrue` | src/crypto_ip.c:480-486 | Filling an empty entry keeps every entry either empty or true, even when the true value is 0 |
| `AddressStore.CryptoIp.constructor` | src/crypto_ip.c:124-205 | Initialisation leaves true caches, all of them new and apart from each other, and a history of one address of each kind, 0.0.0.0 and :: |
| `AddressStore.CryptoIp.RetrieveCryptoIp` | src/crypto_ip.c:241-261 | After any history of IPv4 and IPv6 calls: answers as if uncached, counts inserts and misses exactly, and keeps each address cache equal to the most recently used addresses of its kind |
| `AddressStore.CryptoIp.StoreCryptoIp` | src/crypto_ip.c:221-239 | The same without an answer, counting hits and inserts exactly |
| `AddressStore.CryptoIp.RetrieveCryptoIpv6` | src/crypto_ip.c:300-320 | The same for IPv6 addresses: `image6` is `encrypt_ipv6` under the key |
| `AddressStore.CryptoIp.StoreCryptoIpv6` | src/crypto_ip.c:280-298 | The same without an answer |
| `AddressStore.Session` | src/crypto_ip.c:241-320 | After initialisation any mixed sequence of IPv4 and IPv6 addresses is answered with their true images, whatever the three layers of caches do in between |
| `AddressCache.Cache.FindAddress` | src/crypto_ip.c:87-100 | Finds an address exactly when it is among the most recently used ones, and makes it the most recent |
| `AddressCache.Cache.AddAddress` | src/crypto_ip.c:43-62 | Enters a new address; when there are too many the least recently used one leaves |
| `Recency.CachedIsRecent` | src/crypto_ip.c:43-62 | After any history the bounded cache holds exactly the last distinct values used, in recency order, never more than its maximum |
| `Recency.RecentOrder` | src/crypto_ip.c:87-100 | Recency order is the order of last uses |
| `Recency.RecentElems` | src/crypto_ip.c:87-100 | Recency order has no repetitions and holds exactly the values used |
| `UtHash.Hash.Find` | src/uthash.h:100-111 | Finds an item with the key exactly when the table holds one |
| `UtHash.Hash.Add` | src/uthash.h:179-202 | The item becomes the last in application order; list, buckets, counts and hashes stay consistent |
| `UtHash.Hash.AddToBkt` | src/uthash.h:618-629 | The item goes to the front of its chain; the buckets are doubled exactly when that chain then has ten items for each of the multiplier and one more, and expansion is not inhibited |
| `UtHash.Hash.Delete` | src/uthash.h:221-254 | The item leaves list and bucket, the others keep their order; the last one frees the table |
| `UtHash.Hash.ExpandBuckets` | src/uthash.h:673-719 | Doubling keeps the same items, each in the bucket of its hash and in the order in which the chains are pushed over, and computes the ceiling of items per bucket, which is positive |
| `UtHash.FindAcrossDoubling` | src/uthash.h:673-719 | HASH_FIND answers the same before and after a doubling exactly when no two different items have the key |
| `UtHash.SameKeys` | src/uthash.h:688-706 | After a doubling the first item with a key is the one that was last, and that is the same one exactly when there are no two |
| `MachineWords.CeilingOfBits` | src/uthash.h:684-686 | The shift and the mask of the macro give the number of items per bucket, rounded up |
| `UtHash.CountsAgree` | src/uthash.h:284-334 | The counts that HASH_FSCK compares agree: items in buckets, items in the list, num_items |
| `MachineWords.MaskIsRemainder` | src/uthash.h:204-207 | The bitwise and with a power of two less one is the remainder |
| `MachineWords.ShiftIsQuotient` | src/uthash.h:684-686 | The shift to the right is the quotient by a power of two |
| `AlphaWindow.CountsWindow` | src/lru.c:92-120 | After any history in time order, n_entry is at least the number of distinct clients in the window, and equal to it exactly when no entry is outdated |
| `AlphaWindow.PrunedIsExact` | src/lru.c:183-186 | A prune, and a reference that finds more than k_anon entries, make the count exact |
| `AlphaWindow.VerdictExact` | src/proto_mng.c:338-342 | A count below k_anon means fewer than k_anon clients in the window; the verdict is that of the window exactly when the reference does not make the list, as it stood before, k_anon long with an outdated entry |
| `AlphaWindow.StaleClientCounts` | src/lru.c:183-186 | A run of three references whose count is k_anon while its window holds fewer clients |
| `AlphaWindow.AfterFollows` | src/lru.c:122-189 | In every reachable list slots are distinct, times do not increase from front to end, every entry comes from a reference, and every client of the window is listed |
| `ClientLru.Clients.ReferencePage` | src/lru.c:122-189 | The pointer code computes the reference on values: the client is at the head, the list is never left empty, n_entry is its length, `oldest` the time at its end |
| `ClientLru.Clients.Prune` | src/lru.c:92-120 | The loop from the tail drops exactly the outdated entries at the end |
| `ClientLru.Clients.Enqueue` | src/lru.c:31-90 | A new node at the head, its slot active and pointing to it, all counts adjusted |
| `ClientLru.Clients.MoveToFront` | src/lru.c:141-175 | Unlinking and relinking keeps next and prev mirrored and moves exactly one node |
| `ClientLru.Clients.DropLast` | src/lru.c:98-118 | One turn of the loop removes the last node, deactivates its slot and keeps the list well linked, also when it becomes empty |
| `NameChain.SweepIs` | src/proto_mng.c:710-771 | The sweep in closed form: where it stops, what it leaves, whether it has found the name, and the count |
| `NameChain.CallExact` | src/proto_mng.c:695-771 | A call updates the map of names (found if and only if present, otherwise added once at the end) exactly when the walk is not cut short by the names it unlinks; a caller can check the condition |
| `NameChain.NothingExpired` | src/proto_mng.c:710-771 | With no expired name inside the chain a call always does |
| `NameChain.GoneCounts` | src/proto_mng.c:733-757 | The names unlinked are exactly those inside the chain all of whose clients are outdated |
| `NameChain.SurvivorAt` | src/proto_mng.c:733-757 | Survivors keep their order and their pruned clients |
| `NameChain.StepWf` | src/proto_mng.c:817-884 | `number` never falls below the length of the chain, and stays equal to it exactly when no name is cut off |
| `NameChain.WalkCount` | src/proto_mng.c:752-752 | The sweep changes `number` and the chain by the same amount |
| `NameRuns.CallClients` | src/proto_mng.c:817-884 | A call that is not cut short refers to its own name and at most prunes the others |
| `NameRuns.RunTracks` | src/proto_mng.c:658-893 | After any run of such calls names are distinct, the count is the length, and every name holds its clients as the references to it alone would leave them |
| `NameRuns.RunCountsWindow` | src/proto_mng.c:817-884 | The count returned by the last call of any such run, against the number of clients of that name in the window: at least, equal exactly if the reference prunes or finds nothing outdated in the list before it, and the verdict exact except when it makes that list k_anon long with an outdated client |
| `NameCounts.CountIsReal` | src/proto_mng.c:658-893 | After every run in time order, also with walks cut short: the count returned is at most the number of distinct clients that ever referred to the name, and a count above k_anon at most the number of those in the window |
| `NameRuns.LiveNameCutOff` | src/proto_mng.c:712-752 | For any distinct names of one bucket: a run from its initialisation whose last call cuts a name seen within the window off the chain and leaves a count that is not its length |
| `NameRuns.SecondEntry` | src/proto_mng.c:712-752 | For any three distinct names of one bucket: a run from its initialisation whose last call gives a name a second entry |
| `NameTable.Slot.TableAdd` | src/proto_mng.c:658-893 | The pointer code, with or without cleaning, leaves exactly the bucket and returns exactly the count of the function on values, keeps the chain well linked, and adds only new names and cells |
| `NameTable.Session` | src/proto_mng.c:658-893 | The pointer code, run on any sequence of calls from an empty bucket, returns the counts of the run on values |
| `NameRuns.ReturnedAt` | src/proto_mng.c:658-893 | Each of these counts is that of its call as the last one of the calls up to it |
| `NameTable.Slot.SearchAndClean` | src/proto_mng.c:710-771 | The walk with partial cleaning ends where the function says, with the chain it says |
| `NameTable.Slot.UnlinkName` | src/proto_mng.c:738-753 | Unlinking a name inside the chain keeps both directions of the links |
| `NameTable.Slot.Search` | src/proto_mng.c:695-709 | The walk without cleaning |
| `FlowTable.SameBucket` | src/hash_calculator.c:12-14 | Whatever matches, in particular the other direction, has the same hash |
| `FlowTable.GetHashExact` | src/hash_calculator.c:12-14 | The hash is the remainder by 2000003 of the exclusive or of the addresses, the ports and the protocol |
| `FlowTable.MatchesExactly` | src/flow_mng.c:60-63 | Exactly four orders of addresses and ports match |
| `FlowTable.FindMatching` | src/flow_mng.c:57-67 | Both directions find the same entry |
| `FlowTable.ExternalIp` | src/ext-ip_mng.c:46-92 | The flag is raised exactly when the flow has no verdict and the count is below alpha; then the address is replaced, and at verdict 1 only that of a destination |
| `FlowTable.JudgedVerdict` | src/proto_mng.c:98-114 | A verdict follows the flag of the module unless it is 0, and no other flow's verdict changes |
| `FlowTable.ZeroIsFinal` | src/proto_mng.c:98-151 | Once the verdict is 0 it stays so over any run, and no later packet of either direction is rewritten by the external-IP, TLS or HTTP module |
| `FlowTable.OneLastsExactly` | src/proto_mng.c:98-151 | A TCP flow with verdict 1 keeps it after every prefix of a run exactly when on no packet of either direction the external-IP module consults it, and whatever other module does asks for anonymisation again |
| `FlowTable.OneIsNotFinal` | src/proto_mng.c:103-114 | For every TCP flow: a run from the initial bucket whose first packet is anonymised and whose second, of either direction, brings the verdict to 0 |
| `FlowTable.HeldBackByZero` | src/proto_mng.c:103-103 | In every bucket reached from its initialisation a module is held back exactly by verdict 0 |
| `FlowTable.UdpJudgedAnew` | src/proto_mng.c:155-178 | In every bucket reached from its initialisation a UDP flow has no verdict, and an address is replaced exactly when the external-IP module is asked and its count is below alpha |
| `FlowTable.UdpKeepsNoPromise` | src/proto_mng.c:155-178 | For every UDP flow: two packets from the initial bucket, the first left alone and the second not, and the other way round |
| `FlowTable.Slot.ReferenceFlow` | src/flow_mng.c:44-136 | Without the sweep: the first match with a new time, or a new entry at the end of the chain |
| `FlowTable.Slot.Multiplex` | src/proto_mng.c:98-192 | For TCP the modules in their order consult and set the verdict as the function says, for UDP the external-IP module leaves it; whether a module may rewrite, an address is replaced or the payload removed; the chain grows by new entries only |
| `FlowTable.Session` | src/proto_mng.c:98-192 | The pointer code, run on any sequence of packets from the initial bucket, has on each of them the effect that the run on values has |
| `FlowEffects.TcpPayloadRemoved` | src/proto_mng.c:117-153 | In every run: each packet, of either direction, of a TCP flow with neither port 22 nor port 443 loses its payload unless HTTPS or HTTP is detected in it |
| `FlowEffects.TcpPayloadKept` | src/proto_mng.c:117-153 | No packet of a TCP flow with port 22 or port 443 at either end does, nor one in which HTTPS or HTTP is detected |
| `FlowEffects.UdpPayload` | src/proto_mng.c:180-192 | With the DNS module on, exactly the UDP packets that are not DNS lose their payload; with it off, exactly those of flows with neither port 22 nor port 443 |
| `FlowEffects.OtherPayload` | src/proto_mng.c:193-197 | A packet of any other protocol always loses its payload, and no module runs on it |
| `FlowEffects.AddressReplaced` | src/ext-ip_mng.c:46-92 | In every run, when an address of a packet is replaced, by settings, origin and the verdict found; at verdict 1 only a destination is |
| `FlowEffects.ModuleRuns` | src/proto_mng.c:98-178 | In every run, when a module that consults the verdict runs on a packet, by settings, origin, protocol and the verdict found |
| `FlowEffects.EntryExactly` | src/proto_mng.c:98-178 | In every run from any bucket a flow has an entry exactly when it had one before or one of its packets, of either direction, has consulted its verdict |
| `Subnets.CoversPrefix` | src/ip_utils.c:160-191 | The mask arithmetic on a non-zero address (or no bits) gives an entry that covers exactly the addresses with the same first bits |
| `Subnets.EntryExact` | src/ip_utils.c:160-191 | An entry means its first bits exactly when it was not written as 0.0.0.0 with a non-zero number of bits |
| `Subnets.BlockOntoBlock` | src/crypto_ip.c:502-547 | A block of addresses with a common prefix is mapped onto exactly one such block |
| `SubnetLists.MatchIpv6Net` | src/ip_utils.c:43-78 | Returns 1 exactly when some entry agrees with the address on its first mask bits, for masks 0..128 |
| `SubnetLists.PrefixAgrees` | src/ip_utils.c:57-72 | Whole bytes and the masked rest agree exactly when the first bits do |
| `SubnetLists.NetLists.ParseNetFile` | src/ip_utils.c:80-276 | Accepts exactly the files whose masks are in range and whose lists do not overflow, and stores their entries in order |
| `SubnetLists.AcceptsExactly` | src/ip_utils.c:115-210 | A file is accepted exactly when no mask has more than 32 or 128 bits (or fewer than none) and before every line both lists have room |
| `SubnetLists.NetLists.AnonIpCheck` | src/ip_utils.c:3-16 | Returns 1 exactly when some entry covers the address |
| `SubnetLists.ListMeans` | src/ip_utils.c:3-16 | Without entries written as 0.0.0.0, some entry covers an address exactly when some line means it |
| `DnsScrub.ReadName` | src/dns_mng.c:82-156 | Overwrites with letters exactly the bytes it meets inside labels, pointers followed, whatever the labels contain; changes no other byte; counts the bytes up to the end or the first pointer |
| `DnsPrint.PointerExact` | src/dns_mng.c:101-106 | Two bytes are a pointer to t, for every t below 2^14, exactly when they are 0xc0 with the six high bits of t, and the eight low bits (section 4.1.4 of RFC 1035) |
| `DnsPrint.WrittenIsLaidOut` | src/dns_mng.c:98-134 | In a message written from names with labels and such pointers to earlier names, every name is laid out by the path it was written from |
| `DnsPrint.WrittenIsMessage` | src/dns_mng.c:98-134 | Such a message meets what `ScrubKeeps` and `DnsQuestion.ScrubMessage` require: its names decode, and no byte is content of one and structure of another |
| `DnsScrub.OverwritesContents` | src/dns_mng.c:100-134 | These are exactly the label contents of the name exactly when no content byte is zero or at least 192 |
| `DnsScrub.LetterStays` | src/dns_mng.c:99-99 | A name with a zero byte inside its label, whose other content byte is not overwritten |
| `DnsScrub.LetterExact` | src/hash_calculator.c:64-68 | The random characters are the letters from A to Z |
| `DnsScrub.ScrubKeeps` | src/dns_mng.c:82-156 | One scrub changes no length, pointer or end of any name of the message |
| `DnsScrub.RunKeeps` | src/proto_mng.c:435-505 | Nor does any sequence of scrubs, after which all contents of the scrubbed names are letters |
| `DnsScrub.MaskedDecodes` | src/dns_mng.c:107-134 | A name decodes to the same layout after any change that avoids its structure |
| `DnsScrub.PlainSpan` | src/proto_mng.c:345-357 | Contents and structure of a name without pointers lie in one stretch and are disjoint |
| `DnsQuestion.ScrubQuestion` | src/proto_mng.c:342-357 | Whatever the labels contain and their length bytes are, the question loop overwrites exactly the contents with letters and ends behind the name |
| `DnsQuestion.DecodesLaid` | src/proto_mng.c:345-357 | A name that decodes without pointers is laid out as the question loops read it |
| `DnsQuestion.ScrubMessage` | src/proto_mng.c:342-505 | The question and then any sequence of names of one message are scrubbed: every name keeps its layout and every structure byte, and all contents scrubbed are letters |
| `DnsQuestion.ParseName` | src/proto_mng.c:295-334 | Returns the labels with dots between them, up to the first zero, exactly when that is not empty and the parse goes through; and how far the name buffer is written |
| `DnsPrint.WrittenIsParsed` | src/proto_mng.c:308-317 | The text that the parse takes from a written name is its labels with full stops between them |
| `DnsQuestion.SignedIs` | src/proto_mng.c:300-308 | A length byte as a signed character: between -128 and 127, and the same modulo 256 |
| `DnsQuestion.AdmitsExact` | src/proto_mng.c:295-334 | The parse goes through exactly when no length byte is negative, the text is shorter than NAME_DNS, and either the length bytes fit into the room left by the headers or not even the headers fit |
| `DnsQuestion.WritesInside` | src/proto_mng.c:308-317 | Everything is written inside the 500 bytes of the name buffer exactly when every label that is copied ends inside them |
| `DnsQuestion.AdmittedInside` | src/proto_mng.c:295-334 | A name that the parse goes through is written inside the buffer |
| `DnsQuestion.WrittenBeyond` | src/proto_mng.c:308-317 | A name with 499 bytes of text before its last label of any length: the parse is refused, and that label is written beyond the buffer |
| `DnsQuestion.WrittenNothing` | src/proto_mng.c:296-317 | Of a name without negative length bytes nothing is written exactly when its first length byte is refused |
| `DnsQuestion.BoundTest` | src/proto_mng.c:304-317 | The unsigned comparison refuses exactly the lengths that do not fit if and only if the room is not negative; when it is, it refuses nothing |
| `SextetCode.RoundTrip` | src/base64.h:72-178 | Decoding inverts encoding for every non-empty sequence, whatever the alphabet |
| `SextetCode.EncodeBuffer` | src/base64.h:72-125 | The loop and its tail write exactly the encoding, of exactly the announced length, and a null |
| `SextetCode.DecodeBuffer` | src/base64.h:122-178 | Wherever the stores fit, the loop and its tail store exactly the decoding, in room of exactly the announced length |
| `SextetCode.StoresInside` | src/base64.h:136-175 | For every length and number of padding signs: no more bytes are stored than there is room for exactly when there is no padding, the length is a multiple of four, or it is one more with two signs; and when all the room is filled |
| `SextetCode.StoredBeyond` | src/base64.h:136-175 | Two characters and one padding sign: two bytes are stored in room for one |
| `SextetCode.EncodePads` | src/base64.h:80-81 | The padding signs at the end of an encoding are exactly the values missing in the last group |
| `Base64.Base64RoundTrip` | src/base64.h:37-68 | With the two tables of the source: the round trip, and the length of section 4 of RFC 4648 |
| `Base64.EncodedCharacter` | src/base64.h:72-118 | Every character of every encoding by section 4 of RFC 4648: a padding sign where its byte is missing, and else the sign in Table 1 of its six bits of the group of 24 |
| `Base64.DecodeOfEncode` | src/base64.h:37-68 | The decoding table inverts the alphabet, which avoids the padding sign and the null |
| `StringCipher.Buffers.Encrypt` | src/crypto_ip.c:323-413 | Over any run of calls: the buffers grow to fit, hold the zero-padded string, and the result is the base64 form of its encryption, null-terminated |
| `StringCipher.PaddedExact` | src/crypto_ip.c:390-396 | The padded string is the one string that starts with the given one, goes on with zeros, and ends at the next multiple of 16 bytes |
| `StringCipher.Buffers.Grow` | src/crypto_ip.c:371-391 | The buffers grow exactly when the padded string might not fit, to the size the code computes, and keep their proportions |
| `IniPrint.RoundTrip` | src/ini.c:79-212 | Parsing a printed configuration of sections, values with white space and remarks around them, empty lines, comments and further lines of values, with or without a byte order mark, calls the handler with exactly what it stands for, in order; the error is the number of the first line whose call is refused, or 0 |
| `IniPrint.RefusedExactly` | src/ini.c:142-204 | That error is 0 exactly when the handler accepts all calls |
| `IniPrint.RowDone` | src/ini.c:140-206 | Each kind of row does to section, name, error and calls what it stands for, from any state |
| `IniPrint.SpaceExact` | src/ini.c:34-50 | White space is the space and the characters 9 to 13 |
| `IniLines.NothingLost` | src/ini.c:236-258 | The string reader delivers every character once, in order |
| `IniLines.LongLine` | src/ini.c:236-258 | A line that does not end within 199 characters is cut there and goes on as a new line |
| `IniLines.PairExact` | src/ini.c:175-199 | A line is a pair exactly when the search stops at an equals sign; otherwise it is an error |
| `IniLines.ColonIsNoPair` | src/ini.c:175-199 | A name and a value with a colon between them are an error when neither contains an equals sign |
| `IniLines.ColonText` | src/ini.c:79-212 | The text `a:b` gives error 1 and no call |
| `IniParser.Parser.ParseString` | src/ini.c:262-269 | The parser over buffers makes exactly the calls, and returns exactly the error, of parsing by lines |
| `IniParser.Parser.ParseLine` | src/ini.c:115-206 | One turn of the loop: byte order mark, trimming, comments, continuation lines, sections, pairs, errors |
| `IniParser.Context.Read` | src/ini.c:236-258 | The reader delivers the next line, or as much as fits, null-terminated, and advances past it |
| `IniParser.RStrip` | src/ini.c:34-41 | Cuts white space off the end in place and touches nothing else |
| `IniParser.FindCharsOrComment` | src/ini.c:53-68 | Stops at the first of the characters or at a semicolon behind white space |

## Left out

- Packet reception and sending, DPDK set-up, statistics, command line, file reading and key files; the third-party headers under src/library.
- `Rijndael.Cipher.BlockEncrypt`: only ECB mode; CBC, CFB1 and the padded variants are unused by the program and not modelled.
- `Rijndael.Cipher.BlockDecrypt`: likewise only ECB mode.
- `Rijndael.TableRound`: the tables T1..T8 and U1..U4 are given by S, S5 and doubling instead of their literals.
- The cipher behind the address anonymisation is any function of sixteen bytes; the set-up of its key and pad in `panon_init`, and the decoding of the configured key in `initialize_crypto`, are not modelled.
- `UtHash.Hash.ExpandBuckets`: num_buckets is unbounded, so its wrap-around at 2^32 is not modelled; bucket indices are remainders, which `MachineWords.MaskIsRemainder` ties to the masks; the hash function is any function of the key, and the Bloom filter, sorting and selection are not used by the program.
- `AddressStore.CryptoIp.RetrieveCryptoIpv6`: the result is a value; in the source a miss returns a static buffer that the next miss overwrites.
- `ClientLru.Clients.Enqueue`: of a client slot only the active flag, the time it was entered and the list pointer are kept, not the addresses and ports; a failing allocation is not modelled.
- `NameTable.Slot.TableAdd`: the branch with complete cleaning is unreachable, because the test before it is always true; a failing allocation is not modelled; the random number is an argument; the bucket index (an unsigned remainder) and the client slot are arguments.
- `FlowTable.Slot.ReferenceFlow`: the sweep of old flows steps past entries and assumes a successor, and is not modelled; IPv6 flows are not; the element inside the table starts with arbitrary addresses, as in the source.
- `FlowTable.Slot.Multiplex`: whether the count of the external address is below alpha, and what the TLS and HTTP modules answer, are inputs; what these modules and the DNS module do to the packet is not modelled.
- `SubnetLists.NetLists.ParseNetFile`: lines come already split into address and mask; the conversion of text to numbers and `readline` are not modelled.
- `DnsScrub.ReadName`: walks without an end (pointers in a circle), and walks that write where they read lengths or pointers, are outside its contract; the walk over resource records and their addresses is not modelled.
- `DnsQuestion.ParseName`: how far the name buffer is written is a number, and its text a value; names without an end inside the packet are outside its contract, and a compression pointer is a negative length, as in the source.
- `DnsQuestion.ScrubQuestion`: likewise names without an end.
- `SextetCode.DecodeBuffer`: texts for which the stores do not fit are outside its contract; `SextetCode.StoresInside` says which they are.
- `IniParser.Parser.ParseString`: the handler is a function of section, name and value.
- TLS and HTTP payload scanning, `nameHash`, `getHashClient`, random characters (any letter) and thread interleavings.
