# Verified model of the cache, cipher, session and pool code

A Dafny 4.11 model of the stateful and algorithmic parts of a utility library (an LRU cache, a text cipher, a connection
pool, string functions) and of a TLS layer (session cache and its manager, BIO-pair pump, cipher lists, name masks), with
proofs of what they promise. `dafny verify dfyconfig.toml` checks the whole project.

| file | subject |
|---|---|
| Links, CacheSpec, CacheManager, CacheRuns | the LRU cache: index-linked lists, its meaning as a sequence, the class that refines it, whole runs |
| Machine, Xxtea, XxteaText, Base64, Edcode, Ku6Encrypt | the text cipher: every layer, in place, with the layer that undoes it |
| KnownAnswers | one text, computed through all layers of the cipher |
| SessionEntry, TlsScache, TlsmgrDaemon | the session cache with delete-behind cursor, and the event discipline that drives it |
| MysqlConnPool | the blocking pool as steps of any number of threads |
| TlsBioOps | the pump between BIO pair and socket, and the SSL retry loop |
| Tokens, TlsCiphers, NameMask | the remembered cipher list, and masks to names and back |
| YeeString, StringSim | HTML tag removal and n-gram similarity |

## How the code is modelled

- The cache is a class over arrays. An item's value, signature, bucket link and list link are kept in four parallel arrays
  indexed by slot; ghost sequences hold the slots of the two lists and of every chain. The walk along a chain, written out
  in insert, remove and find, is one method here. A key is its signature: `YeeSign::getSign` is a parameter.
- Words and bytes are integers in range with explicit wrap-around. An or of bits into a lane that is still zero is written
  as an addition. The mixing expression of XXTEA is the real one over 32-bit vectors, but the inverse proof holds for any
  mixing function, because it depends only on which neighbours each position sees. What the cipher computes is fixed by the
  laws of its parts (`MixLaws`, `KeyIndexBits`, `DeltaIsGolden`) and by a known answer (`KnownText`).
- A C string is the text before the first NUL of a buffer. A C null result is `None` or `null`.
- The dictionary behind the session cache is a map with a cursor; cache ids are numbered in its enumeration order. Hex
  coding, tokenising, the BIO pair, the socket, `SSL_CTX_set_cipher_list` and the SSL calls are small contracts; what a
  socket or an SSL call does is an arbitrary script. A script event that belongs to the other direction has no effect.
- The clock is an argument of every event. Runs assume that it does not go backwards.
- The pool's mutex and condition variable are explicit: threads have program counters, signal wakes one or more sleepers,
  and sleepers may wake by themselves.
- Masks are sets of bit positions.

## Where the code does not do what one would expect

- `operator==` on signatures compares `sign2.sign2` with itself (ylutils_lib/include/cache/CacheManager.h:36), so two keys
  with the same first word in the same bucket share one entry. The cache is therefore keyed by first word and bucket.
  `CollidingKeys` is a concrete case. An insert under the other key also replaces the value and keeps the stored signature,
  so comparing signatures afterwards does not reveal it (`OverwrittenUnderCollision`). `ExactIffToldApart` says exactly for
  which sets of keys every hit of every run gives what was put under the key asked for: those in which no two keys agree in
  first word and bucket.
- Below 10 slots reclaim frees nothing. `Insert` requires what `RoomIff` shows to be necessary: 10 slots, or a free slot, or
  the key present.
- The cache is described as dropping the least used entry, but overwriting a value does not refresh its entry (`StoreKeeps`),
  and an insert into a full cache reclaims even when it then only overwrites.
- The pool keeps its connections apart only for clients that return what they got: a put of anything else breaks the
  partition, exactly as `PushKeepsPartitionIff` states.
- The wrapper `ku6encrypt` copies 98 bytes: texts of 73 bytes or more never come back, and of 69 to 72 bytes
  only by an accident of the cipher bytes, which `CutTextComesBackIff` states exactly.
- An update request to the TLS manager always reports zero. A malformed lookup request is answered with whatever an earlier
  request left in the service's buffer, so its reply is empty only if that buffer is (`ServiceLookup`).
- A mask need not survive being written as names and read back. With overlapping masks an entry that the walk over the table
  meets can add bits (`WideEntryAddsBits`); `RoundTripIff` says on the table and the mask exactly when none does. With a
  delimiter that the reader does not know (the pipe flag and the usual delimiters of acl/lib_tls/util/name_mask.h:38) the
  text is read as one name: `PipeLosesTheMask` is a concrete case, `UnknownDelimiterIff` and `OneNameComesBack` say exactly
  which masks survive.
- A tag of 1024 or more characters stays in the text (`LongTagStays`).

## Model

| member | source | states |
|---|---|---|
| CacheManager.InitSlots | ylutils_lib/src/cache/CacheManager.cpp:8-21 | all buckets start empty and the free list threads every slot in order, with null links at both ends |
| CacheManager.CacheManager.constructor | ylutils_lib/src/cache/CacheManager.cpp:3-23 | a new cache of 1 or more slots satisfies the whole structural invariant and holds nothing |
| CacheManager.CacheManager.GetFromFreeList | ylutils_lib/src/cache/CacheManager.cpp:32-45 | takes the first free slot; both lists stay well-formed doubly linked lists and the count stays exact |
| CacheManager.CacheManager.InsertIntoFreeList | ylutils_lib/src/cache/CacheManager.cpp:47-67 | the slot becomes the last free one; both lists stay well formed |
| CacheManager.CacheManager.InsertIntoBusyList | ylutils_lib/src/cache/CacheManager.cpp:69-86 | the slot becomes the newest busy one; both lists stay well formed |
| CacheManager.CacheManager.DelFromBusyList | ylutils_lib/src/cache/CacheManager.cpp:88-98 | cuts exactly the given slot out of the recency list, wherever it is |
| CacheManager.CacheManager.UnlinkHash | ylutils_lib/src/cache/CacheManager.cpp:111-118 | cuts exactly the given slot out of its bucket's doubly linked chain; every other chain is unchanged |
| CacheManager.CacheManager.FindSlot | ylutils_lib/src/cache/CacheManager.cpp:134-147 | the walk ends, finds a slot of the bucket that operator== accepts, or proves that none does |
| CacheManager.CacheManager.ReclaimOne | ylutils_lib/src/cache/CacheManager.cpp:107-120 | one round evicts exactly the oldest slot and keeps the whole invariant |
| CacheManager.CacheManager.Reclaim | ylutils_lib/src/cache/CacheManager.cpp:100-123 | evicts exactly the oldest size/10 slots |
| CacheManager.CacheManager.LinkHash | ylutils_lib/src/cache/CacheManager.cpp:152-157 | the slot becomes the head of its bucket's chain under its new signature |
| CacheManager.CacheManager.AddEntry | ylutils_lib/src/cache/CacheManager.cpp:149-158 | a free slot becomes the newest entry and no other slot changes |
| CacheManager.CacheManager.Store | ylutils_lib/src/cache/CacheManager.cpp:134-158 | overwrites in place if the key is present, and appends otherwise |
| CacheManager.CacheManager.Insert | ylutils_lib/src/cache/CacheManager.cpp:125-160 | refines the sequence specification: reclaim when full, then store; the structural invariant is kept |
| CacheManager.CacheManager.Remove | ylutils_lib/src/cache/CacheManager.cpp:162-189 | refines the sequence specification: exactly the entry of the key disappears |
| CacheManager.CacheManager.Find | ylutils_lib/src/cache/CacheManager.cpp:191-217 | refines the sequence specification: returns the stored value and moves the entry to the newest end |
| CacheManager.CacheManager.Release | ylutils_lib/src/cache/CacheManager.cpp:175-182 | frees exactly the slot that was hit |
| CacheManager.CacheManager.Touch | ylutils_lib/src/cache/CacheManager.cpp:206-208 | makes the slot that was hit the newest and keeps the order of the rest |
| CacheManager.CacheManager.ContentsWellFormed | ylutils_lib/src/cache/CacheManager.cpp:100-160 | free and busy slots add up to size, and no two busy slots answer to the same key |
| CacheManager.CacheManager.HitIsIndex | ylutils_lib/src/cache/CacheManager.cpp:136-146 | a hit of the chain walk is the unique entry the abstract search finds |
| CacheManager.CacheManager.MissIsNone | ylutils_lib/src/cache/CacheManager.cpp:134-147 | a miss of the chain walk means no entry anywhere answers to the key |
| CacheManager.SlotCount | ylutils_lib/src/cache/CacheManager.cpp:16-18 | two disjoint duplicate-free lists that cover the slots have lengths that add up to size |
| CacheManager.BusyUnique | ylutils_lib/src/cache/CacheManager.cpp:129-147 | two different busy slots never answer to the same key |
| CacheManager.ChainedUnlink | ylutils_lib/src/cache/CacheManager.cpp:111-118 | unlinking from one bucket keeps every bucket's chain well formed |
| CacheManager.ChainedPrepend | ylutils_lib/src/cache/CacheManager.cpp:153-157 | linking a new head into one bucket keeps every bucket's chain well formed |
| Links.UnlinkKeepsChain | ylutils_lib/src/cache/CacheManager.cpp:88-98 | the pointer writes of a deletion turn the chain of xs into the chain of xs without that element, ends included |
| Links.UnlinkFrame | ylutils_lib/src/cache/CacheManager.cpp:88-98 | those writes touch no slot outside the chain |
| Links.AppendKeepsChain | ylutils_lib/src/cache/CacheManager.cpp:69-86 | the pointer writes of an append extend the chain at its end and touch nothing else |
| Links.PrependKeepsChain | ylutils_lib/src/cache/CacheManager.cpp:153-157 | the pointer writes of a prepend extend the chain at its head and touch nothing else |
| CacheSpec.IndexOf | ylutils_lib/src/cache/CacheManager.cpp:134-147 | the first entry in the same bucket that operator== accepts, and none before it |
| CacheRuns.StepKeepsWellFormed | ylutils_lib/src/cache/CacheManager.cpp:125-217 | every operation keeps keys unique and the number of entries within the slots |
| CacheRuns.StepRetains | ylutils_lib/src/cache/CacheManager.cpp:100-217 | one operation other than removing g keeps g while fewer than size - size/10 keys are newer, and adds at most the touched key to the newer ones |
| CacheRuns.Retained | ylutils_lib/src/cache/CacheManager.cpp:69-123 | over any run that does not remove g, g stays findable until size - size/10 distinct other keys were newly inserted or found |
| CacheRuns.RetainedSinceTouched | ylutils_lib/src/cache/CacheManager.cpp:125-217 | the same bound counted from the insert that added g or the find that hit it |
| CacheRuns.EvictionExact | ylutils_lib/src/cache/CacheManager.cpp:100-160 | inserting another key into a full cache keeps g if and only if fewer than size - size/10 keys are newer |
| CacheRuns.ReclaimKeeps | ylutils_lib/src/cache/CacheManager.cpp:100-123 | reclaim keeps g if and only if fewer than size - size/10 keys are newer |
| CacheRuns.StoreKeeps | ylutils_lib/src/cache/CacheManager.cpp:134-158 | overwriting a key does not make it newer; only an append adds a newer key |
| CacheRuns.RoomIff | ylutils_lib/src/cache/CacheManager.cpp:132-149 | insert has an entry to overwrite or a free slot if and only if size >= 10, or a slot was free, or the key is present |
| CacheRuns.StepFound | ylutils_lib/src/cache/CacheManager.cpp:125-217 | what each operation does to the answer for every key, exactly: only its own key's value changes, an insert with a free slot loses nothing, and one into a full cache loses exactly the keys with size - size/10 or more newer ones |
| CacheRuns.InsertFound | ylutils_lib/src/cache/CacheManager.cpp:125-160 | after an insert every other key has its value while a slot was free, and on a full cache if and only if fewer than size - size/10 keys are newer |
| CacheRuns.NeverStale | ylutils_lib/src/cache/CacheManager.cpp:125-217 | after any run from the empty cache, a hit returns the latest value put and not removed since |
| CacheRuns.ExactWhenNoCollision | ylutils_lib/src/cache/CacheManager.cpp:139 | comparing one word or both finds the same position if and only if no stored signature collides with the one asked for; whose value stands there is not said |
| CacheRuns.ExactIffToldApart | ylutils_lib/src/cache/CacheManager.cpp:125-217 | every hit of every run over a set of keys gives what was last put under exactly that key, if and only if no two keys of the set agree in first word and bucket |
| CacheRuns.LastPutIsExact | ylutils_lib/src/cache/CacheManager.cpp:139 | for such a set the latest value under the cache's own comparison is the latest value under the full signature |
| CacheRuns.CollisionIsFound | ylutils_lib/src/cache/CacheManager.cpp:139-147 | for any two different keys that agree in first word and bucket, the value put under one is found under the other |
| CacheRuns.OverwrittenUnderCollision | ylutils_lib/src/cache/CacheManager.cpp:139-143 | a concrete run where the stored signature is the one asked for and the value is the other key's, and one where removing the other key removes it |
| CacheRuns.CollidingKeys | ylutils_lib/src/cache/CacheManager.cpp:129-143 | a concrete pair of signatures where the value put under one is found under the other |
| CacheRuns.SharedEntryIff | ylutils_lib/src/cache/CacheManager.cpp:129-139 | two keys with equal first words share an entry if and only if size divides the difference of their second words, corrected by 2^32 where one addition wraps |
| Xxtea.KeyWordsRotate | ylutils_lib/src/encoding/xxtea.h:15 | two positions of a round use the same key word if and only if they are equal modulo 4 |
| Xxtea.MixLaws | ylutils_lib/src/encoding/xxtea.h:15 | the shifts, the sum and the exclusive ors of the mixing expression, each where the others vanish |
| Xxtea.KeyIndexBits | ylutils_lib/src/encoding/xxtea.h:15 | the key index is the bitwise sum of p and sum >> 2, both modulo 4 |
| Xxtea.DeltaIsGolden | ylutils_lib/src/encoding/xxtea.h:16 | DELTA is the integer part of 2^32 times the golden ratio's fraction |
| Xxtea.Rounds | ylutils_lib/src/encoding/xxtea.cpp:122 | the number of rounds is 6 and the integer part of 52 divided by the length |
| KnownAnswers.KnownWords | ylutils_lib/src/encoding/xxtea.cpp:120-136 | the 32 rounds of a two-word block under a fixed key, computed |
| KnownAnswers.KnownText | ylutils_lib/src/encoding/edcode.cpp:14-47 | the text "%" under the key "0123456789abcdef" becomes "-2Pe4o0M_x4." |
| Xxtea.BackwardUndoesForward | ylutils_lib/src/encoding/xxtea.cpp:129-134 | the decryption pass undoes the encryption pass, for every mixing function and every array of two or more words |
| Xxtea.ForwardUndoesBackward | ylutils_lib/src/encoding/xxtea.cpp:146-151 | the encryption pass undoes the decryption pass |
| Xxtea.CipherIsBijection | ylutils_lib/src/encoding/xxtea.cpp:120-154 | for every key, encrypt and decrypt are inverse bijections on word arrays |
| Xxtea.SumIsProduct | ylutils_lib/src/encoding/xxtea.cpp:140 | q * DELTA modulo 2^32 is the sum encryption ended with |
| Xxtea.SumIsZeroOnlyAtStart | ylutils_lib/src/encoding/xxtea.cpp:144 | for any number of rounds below 2^32 the running sum is zero only when all of them are undone |
| Xxtea.EncryptPass | ylutils_lib/src/encoding/xxtea.cpp:129-134 | the in-place inner loop with its carried y and z computes the ring pass |
| Xxtea.DecryptPass | ylutils_lib/src/encoding/xxtea.cpp:146-151 | the in-place inner loop of decryption computes the reverse ring pass |
| Xxtea.EncryptLoop | ylutils_lib/src/encoding/xxtea.cpp:126-135 | the outer loop computes q rounds |
| Xxtea.DecryptLoop | ylutils_lib/src/encoding/xxtea.cpp:144-153 | the loop on sum != 0 stops after exactly the rounds that encryption made |
| Xxtea.LongEncrypt | ylutils_lib/src/encoding/xxtea.cpp:120-136 | the whole in-place encryption computes the specified cipher; fewer than two words are left alone |
| Xxtea.LongDecrypt | ylutils_lib/src/encoding/xxtea.cpp:138-154 | the whole in-place decryption computes the inverse |
| XxteaText.UnpackPack | ylutils_lib/src/encoding/xxtea.cpp:59-94 | bytes survive packing into words and back |
| XxteaText.PackUnpack | ylutils_lib/src/encoding/xxtea.cpp:59-94 | words survive unpacking into bytes and back |
| XxteaText.DecryptEncryptBytes | ylutils_lib/src/encoding/xxtea.cpp:96-118 | every non-empty byte string comes back whole, length word and range check included |
| XxteaText.DecryptsIff | ylutils_lib/src/encoding/xxtea.cpp:78-118 | decryption gives bytes if and only if the last decrypted word is a length within the last three bytes of the words before it, and then that many |
| XxteaText.ToLongArray | ylutils_lib/src/encoding/xxtea.cpp:59-76 | the loop that ors byte lanes into words packs little-endian, with the length behind when asked |
| XxteaText.ToByteArray | ylutils_lib/src/encoding/xxtea.cpp:78-94 | returns nothing exactly when the length word does not fit, and otherwise that many bytes |
| XxteaText.EncryptData | ylutils_lib/src/encoding/xxtea.cpp:96-106 | pack with length, encrypt under the first 16 key bytes, unpack |
| XxteaText.DecryptData | ylutils_lib/src/encoding/xxtea.cpp:108-118 | pack, decrypt under the first 16 key bytes, unpack by the length word |
| Base64.DigitsOfGroup | ylutils_lib/src/encoding/base64_x.cpp:62-65 | the shifts and masks are the six-bit digits of the group's 24-bit number, as in section 4 of RFC 4648 |
| Base64.ReverseAlphabet | ylutils_lib/src/encoding/base64_x.cpp:16-43 | the reverse table inverts the alphabet, which contains neither the pad character nor NUL |
| Base64.AlphabetIsTable | ylutils_lib/src/encoding/base64_x.cpp:16-24 | the alphabet is that of section 4 of RFC 4648 |
| Base64.AlphabetReverse | ylutils_lib/src/encoding/base64_x.cpp:26-43 | the reverse table knows exactly the characters of the alphabet |
| Base64.Examples | ylutils_lib/src/encoding/base64_x.cpp:45-88 | three examples of section 10 of RFC 4648, one for each padding |
| Base64.PaddingIsOptional | ylutils_lib/src/encoding/base64_x.cpp:90-143 | what was encoded decodes without its padding too |
| Base64.LoneDigit | ylutils_lib/src/encoding/base64_x.cpp:124-140 | a lone digit is an error before padding and nothing at the end of the text |
| Base64.Encode | ylutils_lib/src/encoding/base64_x.cpp:45-88 | every write stays in the buffer and the text is the positional base64 definition with padding and NUL; null exactly on the length check |
| Base64.EncodeGroups | ylutils_lib/src/encoding/base64_x.cpp:61-69 | the loop over full groups writes exactly the definition's prefix |
| Base64.Decode | ylutils_lib/src/encoding/base64_x.cpp:90-143 | every write stays in the buffer of length + 1; null exactly on padding behind a lone digit; otherwise the bytes of the digits before the first stop |
| Base64.PutDigit | ylutils_lib/src/encoding/base64_x.cpp:107-122 | the switch keeps finished bytes and the high bits of the next one |
| Base64.DecodeEncode | ylutils_lib/src/encoding/base64_x.cpp:45-143 | decoding the encoding of any bytes gives the bytes back |
| Base64.NoiseIsIgnored | ylutils_lib/src/encoding/base64_x.cpp:101-105 | a byte outside the alphabet other than '=' and NUL can be inserted anywhere without changing the decoded result |
| Base64.DigitsOfEncoded | ylutils_lib/src/encoding/base64_x.cpp:61-82 | the decoder reads back exactly the digits the encoder wrote |
| Base64.CountsOfGroup | ylutils_lib/src/encoding/base64_x.cpp:71-82 | no encoding leaves a lone digit, so decoding an encoding never fails |
| Edcode.EncodedAlphabet | ylutils_lib/src/encoding/edcode.cpp:26-41 | the encoded text contains no '+', '/', '=' or NUL |
| Edcode.EncodedShape | ylutils_lib/src/encoding/edcode.cpp:19-24 | its length is 4*ceil((4*ceil(n/4)+4)/3) for a text of n bytes |
| Edcode.DecodeEncode | ylutils_lib/src/encoding/edcode.cpp:14-83 | every non-empty NUL-free text comes back under every key of at least 16 bytes |
| Edcode.ShortCipherIsNone | ylutils_lib/src/encoding/edcode.cpp:49-83 | nothing decodes from an empty text or from four cipher bytes or fewer |
| Edcode.UrlCharacters | ylutils_lib/src/encoding/edcode.cpp:26-71 | on base64 text the substitution is undone by its partner |
| Edcode.EncodeText | ylutils_lib/src/encoding/edcode.cpp:14-47 | null exactly for the empty text, and otherwise the specified pipeline |
| Edcode.DecodeText | ylutils_lib/src/encoding/edcode.cpp:49-83 | the in-place substitution and pipeline, with every null return |
| Edcode.SubstituteToUrl | ylutils_lib/src/encoding/edcode.cpp:26-41 | the loop rewrites exactly the first length characters |
| Edcode.SubstituteFromUrl | ylutils_lib/src/encoding/edcode.cpp:56-71 | the loop rewrites exactly the first length characters |
| Ku6Encrypt.ShortTextsComeBack | ylutils_lib/src/encoding/ku6_encrypt.cpp:3-41 | every NUL-free text of 1 to 68 bytes comes back, with at most 96 encoded characters |
| Ku6Encrypt.LongTextsAreLost | ylutils_lib/src/encoding/ku6_encrypt.cpp:30-32 | no text of 73 bytes or more comes back |
| Ku6Encrypt.DecodedIsShort | ylutils_lib/src/encoding/ku6_encrypt.cpp:10-15 | whatever is decoded, the result has at most 72 bytes |
| Ku6Encrypt.CutText | ylutils_lib/src/encoding/ku6_encrypt.cpp:12 | a text of 69 to 72 bytes loses exactly its last three cipher bytes to the copy |
| Ku6Encrypt.CutTextComesBackIff | ylutils_lib/src/encoding/ku6_encrypt.cpp:3-41 | such a text comes back if and only if some padding and length word encrypt to its first 73 cipher bytes followed by three zero bytes |
| Ku6Encrypt.OpenedIff | ylutils_lib/src/encoding/ku6_encrypt.cpp:10-15 | 73 cipher bytes open to a text if and only if the decrypted words begin with it, end it and give a length in range |
| Ku6Encrypt.CutTextsComeBack | ylutils_lib/src/encoding/ku6_encrypt.cpp:3-41 | in particular it comes back if its last three cipher bytes are zero |
| Ku6Encrypt.SeventyTwoBytes | ylutils_lib/src/encoding/ku6_encrypt.cpp:3-41 | at 72 bytes, where nothing is padded, it comes back if and only if they are zero |
| Ku6Encrypt.CopyToBuffer | ylutils_lib/src/encoding/ku6_encrypt.cpp:10-12 | the zeroed buffer holds the text before the first NUL, cut at 98 bytes |
| Ku6Encrypt.Encode | ylutils_lib/src/encoding/ku6_encrypt.cpp:23-41 | the wrapper around encoding, empty result on failure |
| Ku6Encrypt.Decode | ylutils_lib/src/encoding/ku6_encrypt.cpp:3-21 | the wrapper around decoding, empty result on failure |
| SessionEntry.ParseEncode | acl/lib_tls/tls/tls_scache.c:164-173 | the stored hex text parses back to the time stamp and the session |
| SessionEntry.DecodeEncode | acl/lib_tls/tls/tls_scache.c:193-249 | a stored session decodes until timestamp + timeout < now |
| SessionEntry.ParsesIff | acl/lib_tls/tls/tls_scache.c:203-221 | a stored text is well formed if and only if it is hex text of at least a time stamp |
| SessionEntry.NegativeStamp | acl/lib_tls/tls/tls_scache.c:235-236 | a time stamp whose last byte has its top bit set is negative |
| TlsScache.Following | acl/lib_tls/tls/tls_scache.c:355 | the dictionary's next key: the least one behind the position, if any |
| TlsScache.LookupAfterUpdate | acl/lib_tls/tls/tls_scache.c:253-321 | a lookup gives the latest update exactly while it is not past its timeout, and an update touches no other id |
| TlsScache.LookupChangesNoAnswer | acl/lib_tls/tls/tls_scache.c:279-282 | deleting a dead entry during a lookup changes no later answer for any id |
| TlsScache.DeleteExact | acl/lib_tls/tls/tls_scache.c:404-420 | a client delete removes exactly its id, unless it is the saved cursor: then nothing changes; it fails only if there was nothing to remove |
| TlsScache.LookupRemovesDead | acl/lib_tls/tls/tls_scache.c:253-287 | a lookup removes exactly its own entry, if that is dead and not protected, and moves no cursor |
| TlsScache.SequenceMarks | acl/lib_tls/tls/tls_scache.c:347-399 | a sequence step moves to the least key, or the least behind the cursor, protects it, and marks it if and only if it is dead at the scan |
| TlsScache.SequenceRemovesOnlyDead | acl/lib_tls/tls/tls_scache.c:325-400 | a sequence step removes an entry if and only if it is the flagged saved cursor and dead at that moment |
| TlsScache.TlsScache.LookupEntry | acl/lib_tls/tls/tls_scache.c:253-287 | the session output is empty on every failure; a dead entry is deleted on the way |
| TlsScache.TlsScache.UpdateEntry | acl/lib_tls/tls/tls_scache.c:291-321 | stores the encoded entry under the id |
| TlsScache.TlsScache.DeleteEntry | acl/lib_tls/tls/tls_scache.c:404-420 | deletes unless the id is the saved cursor, and reports success in that case too |
| TlsScache.TlsScache.SequenceStep | acl/lib_tls/tls/tls_scache.c:325-400 | advance, delete behind, protect the new position; what is handed out is a live member |
| TlsmgrDaemon.StepKeepsDiscipline | acl/lib_tls/tls/tlsmgr_daemon.c:259-302 | every event keeps: cursor on a present entry that is the saved cursor while active, all clear otherwise |
| TlsmgrDaemon.CursorIsNeverRemoved | acl/lib_tls/tls/tlsmgr_daemon.c:240-306 | over every interleaving of timers, loop passes and client requests the entry under the cursor is never removed |
| TlsmgrDaemon.SequenceRemovesItsCursorIff | acl/lib_tls/tls/tls_scache.c:371-376 | without the discipline: exactly when a sequence call removes the entry it moved to |
| TlsmgrDaemon.RestartRemovesCursor | acl/lib_tls/tls/tls_scache.c:341-345 | a concrete restart that does remove it |
| TlsmgrDaemon.SweepStepKeepsInv | acl/lib_tls/tls/tls_scache.c:347-399 | every timely event keeps: entries passed or saved since the start were alive at the start, and condemned entries only wait behind the cursor |
| TlsmgrDaemon.CompletedSweep | acl/lib_tls/tls/tlsmgr_daemon.c:298-303 | when a sweep ends, every entry left was alive when it started, and none that was dead when scanned and not saved again is left |
| TlsmgrDaemon.SweepEnds | acl/lib_tls/tls/tlsmgr_daemon.c:295-305 | left to itself a sweep ends after at most one pass more than there are entries ahead |
| TlsmgrDaemon.TimerStartsSweep | acl/lib_tls/tls/tlsmgr_daemon.c:242-266 | a timer starts a sweep at the least entry if and only if there is one, and never restarts a running sweep |
| TlsmgrDaemon.PassesAreBounded | acl/lib_tls/tls/tlsmgr_daemon.c:295-305 | amid any client requests a running sweep makes at most one pass for each entry ahead and each update |
| TlsmgrDaemon.TimerCleansCache | acl/lib_tls/tls/tlsmgr_daemon.c:242-306 | from an idle manager, amid any client requests: after a timer and more passes than entries and updates the sweep is over, and every entry left then was alive at the timer's scan |
| TlsmgrDaemon.LivingSurvive | acl/lib_tls/tls/tls_scache.c:347-399 | a sweep that is left to itself keeps every entry that is still alive at its end |
| TlsmgrDaemon.AnswersAsStore | acl/lib_tls/tls/tls_scache.c:253-321 | after any timely run the dictionary represents a map with expiry that sweeps and lookups never change |
| TlsmgrDaemon.LookupAnswers | acl/lib_tls/tls/tls_scache.c:151-321 | a lookup returns the latest update's bytes if and only if that map holds them and they are not past the timeout |
| TlsmgrDaemon.TlsmgrScache.CacheRunEvent | acl/lib_tls/tls/tlsmgr_daemon.c:242-266 | FIRST only when no sweep is active |
| TlsmgrDaemon.TlsmgrScache.Advance | acl/lib_tls/tls/tlsmgr_daemon.c:299-302 | NEXT only when a sweep is active |
| TlsmgrDaemon.Loop | acl/lib_tls/tls/tlsmgr_daemon.c:270-306 | each cache of the table takes its own step, and the result is DONT_WAIT if and only if some sweep is still active |
| TlsmgrDaemon.FirstLabel | acl/lib_tls/tls/tlsmgr_daemon.c:404-406 | the first table entry with the label, or the end |
| TlsmgrDaemon.TlsmgrService.ServiceLookup | acl/lib_tls/tls/tlsmgr_daemon.c:363-428 | status and session of a lookup request, with bogus and disabled cache types, and no other cache touched; a failing request is answered with bytes exactly when it is malformed and the buffer held some |
| TlsmgrDaemon.TlsmgrService.ServiceUpdate | acl/lib_tls/tls/tlsmgr_daemon.c:433-455 | an update request reports zero whatever the update returned, and leaves its session in the buffer; no other cache is touched |
| TlsmgrDaemon.TlsmgrService.ServiceDelete | acl/lib_tls/tls/tlsmgr_daemon.c:460-480 | status of a delete request; no other cache is touched |
| MysqlConnPool.StepKeepsExclusive | ylutils_lib/src/mysql/MysqlConnPool.cpp:64-82 | mutual exclusion, and the front of the queue is taken only from a non-empty queue |
| MysqlConnPool.StepKeepsWakeups | ylutils_lib/src/mysql/MysqlConnPool.cpp:64-82 | while a getter sleeps, the queue is no longer than pushes not yet signalled plus woken getters not yet rechecked |
| MysqlConnPool.SleeperMeansEmpty | ylutils_lib/src/mysql/MysqlConnPool.cpp:67-68 | with neither of those, a sleeping getter means an empty queue |
| MysqlConnPool.NoStuckSleeper | ylutils_lib/src/mysql/MysqlConnPool.cpp:64-82 | a getter never sleeps beside a non-empty queue without a thread inside get or put that can move |
| MysqlConnPool.PushKeepsPartitionIff | ylutils_lib/src/mysql/MysqlConnPool.cpp:76-80 | a put keeps the connections partitioned if and only if the thread holds what it puts |
| MysqlConnPool.StepKeepsPartition | ylutils_lib/src/mysql/MysqlConnPool.cpp:64-82 | every step of honest clients keeps each connection in the queue once or with one client |
| MysqlConnPool.StepKeepsOrder | ylutils_lib/src/mysql/MysqlConnPool.cpp:69-79 | connections leave the queue in the order in which they entered it |
| MysqlConnPool.PopReturnsTheOldest | ylutils_lib/src/mysql/MysqlConnPool.cpp:69-73 | get returns the connection that has been in the queue longest, and the caller holds it |
| MysqlConnPool.StepKeepsHolding | ylutils_lib/src/mysql/MysqlConnPool.cpp:69-73 | a getter on its way out holds what it is about to return |
| MysqlConnPool.OnlyTheMutexBlocks | ylutils_lib/src/mysql/MysqlConnPool.cpp:64-82 | a thread can take a step if and only if it does not wait for a mutex that is held |
| MysqlConnPool.GetAlone | ylutils_lib/src/mysql/MysqlConnPool.cpp:64-74 | an undisturbed get takes the front, hands it over and gives the mutex back |
| MysqlConnPool.GetSleeps | ylutils_lib/src/mysql/MysqlConnPool.cpp:64-68 | on an empty queue a get sleeps without the mutex |
| MysqlConnPool.PutAlone | ylutils_lib/src/mysql/MysqlConnPool.cpp:76-82 | an undisturbed put appends its connection and wakes somebody if anybody sleeps |
| MysqlConnPool.RunIsSafe | ylutils_lib/src/mysql/MysqlConnPool.cpp:64-82 | mutual exclusion, no lost wakeup, queue order, and getters that hold what they return, at every point of every run of any number of threads |
| MysqlConnPool.RunConserves | ylutils_lib/src/mysql/MysqlConnPool.cpp:64-82 | over every honest run no connection is lost, duplicated or shared |
| MysqlConnPool.InitialIsGood | ylutils_lib/src/mysql/MysqlConnPool.cpp:37-52 | the filled pool satisfies all of these invariants |
| MysqlConnPool.InitConnPool | ylutils_lib/src/mysql/MysqlConnPool.cpp:37-52 | connections are queued in array order up to the first one that cannot connect |
| TlsBioOps.Connection.WriteBuffer | acl/lib_tls/tls/tls_bio_ops.c:189-206 | whatever the socket does, what is sent plus what is not is the buffer in order; what is left is the buffer less the sum of the write counts; it fails if and only if the last event taken is a failed wait, a zero count or a hopeless error |
| TlsBioOps.WrittenIsTaken | acl/lib_tls/tls/tls_bio_ops.c:181-206 | what is out is the sum of the write counts if and only if no write claims more than it was asked for; up to one buffer it is the sum cut at the total |
| TlsBioOps.ArrivedIsPayload | acl/lib_tls/tls/tls_bio_ops.c:212-236 | what came in is all that the reads gave, in order, if no read gives more than it was asked for |
| TlsBioOps.FailureKinds | acl/lib_tls/tls/tls_bio_ops.c:190-204 | which waits, counts and errors end the pump, with and without a timeout |
| TlsBioOps.Connection.Flush | acl/lib_tls/tls/tls_bio_ops.c:181-207 | sent, unsent and pending bytes together are always the old output in order; exactly as many bytes are out as the writes took; success means all is out, and failure that the last event taken was one to fail on |
| TlsBioOps.Connection.Fill | acl/lib_tls/tls/tls_bio_ops.c:212-236 | the bytes put into the BIO pair are exactly those received, which are the wanted parts of the reads in order; the short-write panic is unreachable; it fails if and only if the last event taken is one to fail on |
| TlsBioOps.Connection.Interop | acl/lib_tls/tls/tls_bio_ops.c:165-238 | both directions at once; nothing is read before all output is out; failure only on the last event taken |
| TlsBioOps.Connection.TryOnce | acl/lib_tls/tls/tls_bio_ops.c:260-327 | one turn of the retry loop: the SSL call and its pump, after which no output is pending and no input is wanted; no pump after a final error |
| TlsBioOps.Connection.TlsBio | acl/lib_tls/tls/tls_bio_ops.c:242-348 | SSL success is reported only after all output of all calls is on the wire; only WANT_READ and WANT_WRITE are retried, each turn with its own read requests; -1 for a broken pump only on the last event taken |
| TlsCiphers.SetIsFresh | acl/lib_tls/tls/tls_misc.c:382-481 | one call answers like a fresh context, and what is remembered is what is installed |
| TlsCiphers.RememberingIsInvisible | acl/lib_tls/tls/tls_misc.c:405-421 | every call of every sequence of calls answers like a fresh context, failed calls in between included |
| TlsCiphers.GradeSelects | acl/lib_tls/tls/tls_misc.c:393-444 | each grade, in any case of its letters, selects its own configured list, and any other name is an error |
| TlsCiphers.ListSpells | acl/lib_tls/tls/tls_misc.c:422-474 | behind that list come the caller's exclusions and then the missing ciphers, each banned by name, and none of the former starts with a modifier |
| TlsCiphers.MissingIff | acl/lib_tls/tls/tls_misc.c:272-313 | a cipher is missing if and only if a family that libcrypto lacks lists it at the key size of its probe |
| TlsCiphers.WhichError | acl/lib_tls/tls/tls_misc.c:393-474 | which error is reported when several apply |
| TlsCiphers.SecondCallIsRemembered | acl/lib_tls/tls/tls_misc.c:408-411 | a call that succeeded is answered again without looking at settings or libraries |
| TlsCiphers.ErrorForgets | acl/lib_tls/tls/tls_misc.c:394-421 | after an error nothing is remembered, but a wrong grade changes nothing; only a rejected list touches what is installed |
| TlsCiphers.FirstModified | acl/lib_tls/tls/tls_misc.c:458-470 | the first exclusion that starts with a modifier, and none before it |
| TlsCiphers.TlsApplState.ExcludeMissing | acl/lib_tls/tls/tls_misc.c:232-320 | the names collected once and cached are those the probes give, appended in order |
| TlsCiphers.TlsApplState.Set | acl/lib_tls/tls/tls_misc.c:382-481 | the method computes the specified state and answer, with every error return |
| TlsCiphers.AppendTokens | acl/lib_tls/tls/tls_misc.c:456-472 | the loop over the exclusions, stopped at the first modifier |
| TlsCiphers.CollectMissing | acl/lib_tls/tls/tls_misc.c:272-313 | the loop over probes and suites |
| NameMask.RoundTripIff | acl/lib_tls/util/name_mask.c:124-222 | for a readable table: a mask comes back if and only if the table knows all its bits and no entry that shares a bit with what earlier entries leave of it has a bit outside it; known bits are never lost |
| NameMask.SelectedIsMet | acl/lib_tls/util/name_mask.c:198-216 | the entries that are named are those that share a bit with what earlier entries leave of the mask |
| NameMask.UnknownBitsAreLost | acl/lib_tls/util/name_mask.c:124-222 | a mask with a bit that no entry has never comes back, printed as a number or not |
| NameMask.UnknownDelimiterIff | acl/lib_tls/util/name_mask.c:186-217 | with a delimiter that the reader does not know, a mask comes back if and only if it is empty or the whole text is the name of an entry with that mask |
| NameMask.OneNameComesBack | acl/lib_tls/util/name_mask.c:186-217 | if no name has that delimiter in it, exactly the empty mask and the masks whose first met entry is the mask itself come back |
| NameMask.PipeLosesTheMask | acl/lib_tls/util/name_mask.c:186-187 | a concrete table where two names are written under the pipe flag and none is read |
| NameMask.UnionsComeBack | acl/lib_tls/util/name_mask.c:124-222 | with pairwise disjoint masks and a delimiter that the reader knows, every union of table masks comes back |
| NameMask.SelectedCovers | acl/lib_tls/util/name_mask.c:198-216 | the named entries cover exactly the bits that the table covers |
| NameMask.WideEntryAddsBits | acl/lib_tls/util/name_mask.c:212-215 | a concrete table where one bit goes in and two come back |
| NameMask.NameMaskDelimOpt | acl/lib_tls/util/name_mask.c:124-167 | the token and table loops compute the union of the first matches, with fatal and refused unknown names |
| NameMask.MaskOfIff | acl/lib_tls/util/name_mask.c:144-164 | an unknown name is an error exactly if a flag says so, and otherwise the result has exactly the bits of all known names |
| NameMask.LookupIsFirst | acl/lib_tls/util/name_mask.c:145-163 | of several entries with a name the first one counts |
| NameMask.SameIff | acl/lib_tls/util/name_mask.c:136-139 | names compare character by character, or without regard to case under the flag |
| NameMask.WalkTable | acl/lib_tls/util/name_mask.c:198-216 | the loop that clears bits leaves exactly the unknown bits |
| NameMask.StrNameMaskOpt | acl/lib_tls/util/name_mask.c:178-222 | the text, with every way of treating unknown bits and the last delimiter cut off |
| NameMask.UnknownBits | acl/lib_tls/util/name_mask.c:199-211 | unknown bits are an error exactly if a flag says so, and without any flag only the names are written |
| NameMask.UnknownBitsArePrinted | acl/lib_tls/util/name_mask.c:208-209 | with the number flag one more token is written, which reads back as the unknown bits |
| NameMask.TwoNames | acl/lib_tls/util/name_mask.c:186-187 | comma before pipe before space |
| Tokens.SplitJoin | acl/lib_tls/util/name_mask.c:144 | splitting undoes joining for non-empty delimiter-free words |
| Tokens.SplitAtDelimiter | acl/lib_tls/util/name_mask.c:144 | a delimiter separates the tokens before it from those behind it |
| Tokens.SplitGivesWords | acl/lib_tls/util/name_mask.c:144 | every token is non-empty and delimiter-free |
| Tokens.SplitUnknown | acl/lib_tls/util/name_mask.c:144 | words joined by a character that is no delimiter come back as one word |
| YeeString.RemoveHtmlTags | ylutils_lib/src/utils/YeeString.cpp:132-149 | the in-place loop ends and computes the left-to-right stripping |
| YeeString.TagIsCut | ylutils_lib/src/utils/YeeString.cpp:132-149 | the first tag of a text is cut out if it has fewer than 1024 characters and stays otherwise, and nothing else is touched |
| YeeString.StripIdempotent | ylutils_lib/src/utils/YeeString.cpp:132-149 | stripping twice is stripping once |
| YeeString.TagFreeIff | ylutils_lib/src/utils/YeeString.cpp:132-149 | no '<' followed by a '>' is left if and only if the scan meets no tag of 1024 or more characters |
| YeeString.LongTagStays | ylutils_lib/src/utils/YeeString.cpp:142 | a concrete tag of 1024 characters is met and stays |
| YeeString.ShortTagGoes | ylutils_lib/src/utils/YeeString.cpp:142 | a concrete tag of 1023 characters is cut out |
| YeeString.ShortTextsMeetNoLongTag | ylutils_lib/src/utils/YeeString.cpp:142 | a text of fewer than 1024 characters never meets one |
| YeeString.UnchangedIff | ylutils_lib/src/utils/YeeString.cpp:142-147 | nothing is removed if and only if the scan meets no tag under the limit |
| YeeString.HasTagMeans | ylutils_lib/src/utils/YeeString.cpp:136-138 | the two searches succeed if and only if some '<' stands before some '>' |
| StringSim.CountShared | ylutils_lib/src/utils/YeeString.cpp:170-185 | the count map loops compute the size of the multiset intersection of the n-grams |
| StringSim.CalStringSim | ylutils_lib/src/utils/YeeString.cpp:151-187 | the branches compute the score, and the last is reached only when both lengths are at least n |
| StringSim.ScoreIsSymmetric | ylutils_lib/src/utils/YeeString.cpp:151-187 | the score is symmetric over all branches |
| StringSim.ScoreRange | ylutils_lib/src/utils/YeeString.cpp:151-187 | the score lies in [0,1], is 1 for alike non-empty strings only and 0 for unlike or empty ones only |
| StringSim.ScoreIsShare | ylutils_lib/src/utils/YeeString.cpp:170-186 | with room for an n-gram in both strings the score times the number of n-grams of both is twice the number shared |
| StringSim.ScoreOfShort | ylutils_lib/src/utils/YeeString.cpp:159-169 | otherwise it is 0, or 1 over the number of places if the shorter string stands in the longer one |
| StringSim.SharedGram | ylutils_lib/src/utils/YeeString.cpp:170-186 | an n-gram is shared as often as it occurs in the string where it is rarer |

## Left out

- Base64.Encode: lengths are unbounded here, so the overflow of C's int for texts of more than about 1.6 GB is not modelled; the explicit length check is.
- CalStringSim: the score is a real number, so rounding to float is not modelled, and a null pointer is treated as the empty string; a negative n, for which the original throws, is not an input.
- CacheManager.CacheManager.Insert: the locks are not modelled, because each operation runs wholly under one; visit statistics and saving to disk are not modelled either.
- SessionEntry.DecodeEncode: hex coding is a contract (two digits for each byte, failure on an odd length or a foreign character), and the time stamp is an eight-byte little-endian signed number.
- TlsScache.Following: a dictionary whose enumeration order changes while it is enumerated is not modelled.
- TlsBioOps.Connection.TlsBio: the workaround for the OpenSSL releases up to 0.9.5a and the log of errors are not modelled.
- TlsmgrDaemon.TlsmgrService.ServiceLookup: the attribute protocol is a parameter (the attributes, or none for a malformed request); the seed and policy requests, which also write the buffer, are not modelled.
- The rest of tlsmgr_daemon.c: seeding, entropy sources, start-up and exit.
- The rest of YeeString.cpp: trimming, tokenising, replacing and 64-bit signatures.
- Memory allocation failure, freeing, and logging everywhere.
- Handshakes, certificates, key exchange, DH and RSA callbacks, and random number sources.
- The signature tables and hash functions behind YeeSign::getSign.
- URL decoding, MD5, time and log wrappers, and the JSON headers.
