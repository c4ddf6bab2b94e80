# A verified model of the Bee2 provider

This project models the code of the Bee2 provider that has state and structure of its own, and
proves what that code is for: the two BRNG generators (`src/brng_rand.c`), streaming through the
BELT block modes (`src/belt_cipher.c`), the BELT-CHE/DWP and BASH-PRG-AE contexts
(`src/belt_aead.c`, `src/bash_prgae.c`), HMAC (`src/hmac_mac.c`), the adapters under them
(`src/bee2_backend.h`), Bign key management (`src/bign_common.c`, `src/bign_keymgmt.c`) and the Bign
key codec (`src/bign_keycodec.c`).

Code that works on a context is a class whose methods follow the source branch by branch. Each method
is proved to do one step of a machine over values, and the properties of whole runs are proved about
that machine:

| class | refines |
|---|---|
| `BrngRand.Brng` | `BrngContext` (life cycle, requests) over `BrngModel` (the output stream) |
| `BeltCipher.Belt` | `BeltStream` (updates and final) over `BeltModes` (the modes) and `BeltByPosition` |
| `AeadContext.Aead` | `AeadModel`, over the backends `BeltAead.CheDwp` and `BashPrgAe.PrgAe` |
| `HmacMac.Hmac` | `HmacModel` over `Hashing` |
| `BignKey.KeyObject` | `BignModel` |
| `Buffers.GrowBuffer`, and the encoder and decoder in `BignKeycodec` | `Pem`, `Base64`, `Der`, `DomainParams`, `KeyFormats`, `KeyLayout` |

Main results, with the members that state them; the table below has the steps they rest on:

- `BrngContext.InstantiatedRunReadsItsStream` with `BrngRand.Brng.Generate`: generate calls of any
  lengths and additional inputs read one stream that the key and the IV determine, from its first octet
  and without a gap; without additional input only the total length matters
  (`BrngContext.OnlyTheTotalMatters`). `BrngContext.CtrOctets`, `BrngContext.FirstCtrRequest` and
  `BrngContext.HmacOctets` tell each octet of it, in hashes of key, counter, additional input and the
  blocks before, and in the HMAC of RFC 2104.
- `BrngContext.ReinstantiationReplays`: re-instantiating replays the stream after any run that stores
  neither key nor IV, refused calls included. `BrngContext.RunsStaySynced`: the stored key is that of the
  running stream through a whole run exactly when no reseed is half done under another key.
- `BeltStream.RoundTrip` with `BeltCipher.Belt.Update` and `BeltStream.StreamingIsOneShot`: any way of
  cutting a message gives the mode applied to it once, and decrypting it cut in any other way gives the
  message back. `BeltByPosition.EcbMessage`, `CbcMessage`, `CfbMessage`, `CtrMessage` and `BdeMessage`
  tell what is put out, from key, IV and message alone.
- `BeltAead.CheDwpRoundTrip` and `BashPrgAe.PrgAeRoundTrip`: the decryptor returns the plaintext and
  accepts exactly the encryptor's tag, whenever the tag is set; for CHE/DWP however each side cuts the
  message, for BASH-PRG-AE when the non-empty pieces are the same. `BeltAead.CheDwpEncrypts` and
  `CheDwpDecrypts` tell ciphertext and tag from keystream and tag function, `BashPrgAe.PrgAeEncrypts` and
  `PrgAeDecrypts` from the sponge block by block. `BashPrgAe.CuttingAdMatters` and
  `BashPrgAe.CuttingDataMatters`: there are sponges with which other pieces are refused under every key.
- `AeadModel.BackendHoldsAccepted` and `AeadModel.RunsStayComplete`: the backend holds all that was
  accepted since the last reset exactly when no initialisation failed half way on a message under way;
  `BeltAead.HalfDoneInitLosesAd` is a run whose tag covers none of its associated data.
- `HmacModel.MacOfMessage` and `HmacModel.TagIsRfc2104` with `HmacMac.Hmac.Final`: HMAC of a message in
  pieces is that of section 2 of RFC 2104, its pads told octet by octet, truncated. `HmacModel.RunsStayCoherent`: digest and size stay together through a run
  exactly when no call names a digest too short for the size in force.
- `BignKeycodec.FileRoundTrip`: a key encoded as PKCS#8 or SubjectPublicKeyInfo, in DER or PEM, decodes
  to the same key, but for DER files that hold the marker of PEM text (`BignKeycodec.MarkerExample`).
  `KeyLayout.PrivateLayout`, `KeyLayout.PublicLayout`, `KeyLayout.NamedPrivateKey` and
  `KeyLayout.NamedPublicKey` tell the octets of every file, `Base64.GroupAt` and `Pem.LineAt` its text.
  `KeyFormats.NeverBoth`: no octets are both a private and a public key.
  `DomainParams.ExplicitMeansStandard`: curves spelled out are accepted exactly when they are standard.
- `BignModel.RunsStaySound` and `BignModel.RunKeepsVariant`: over any run of imports, exports and
  settings the variant of a key never changes, and its halves belong together exactly when no command
  brings in a public key that the private half does not derive. `BignModel.ExportImport`: what a key
  exports another key takes in whole. `BignModel.ImportOutcome` and `BignModel.ExportOutcome`: when both
  succeed, and what exactly goes in and out.

## Assumptions

Bee2 and OpenSSL primitives are function values with these contracts, and nothing else is assumed of
them: `Hashing.HashAlg.Valid` (digests have one length, not above the block), `BrngModel.BeltHash`
(belt-hash: digest and block of 32 octets), `HmacModel.Primitives.Valid` (lengths of digests, and of
the belt-hash HMAC of Bee2), `BeltModes.BlockCipher.Valid` (for each key decryption inverts encryption
of a block), `BeltAead.Primitives.Valid` (tag length), `BashPrgAe.Sponge.Valid` (a rate that fits the
state), `BignModel.Primitives.Valid` (lengths of the curve parameters and of public keys, and top bits
of the field prime and the order set), `BignKeycodec.ReadsKeys` (OpenSSL's PEM reader reads at least
the layout the encoder writes; `BignKeycodec.PlainReaderReadsKeys` shows that a reader of that layout
alone meets it).

Outcomes of allocations, of reads and of writes are parameters, so that the failing branches are
reachable. `OPENSSL_cleanse` is taken to write zeros, and `bee2_constant_time_equal` is equality.
A missing and an empty octet string are the same value where the code treats them alike.

## Model

| member | source | states |
|---|---|---|
| Bytes.CounterAtValue | src/brng_rand.c:71-80 | a 32-octet counter incremented n times holds its initial little-endian value plus n modulo 2^256 |
| Bytes.XorByBit | src/brng_rand.c:96 | each bit of an exclusive-or is the sum of the two bits modulo 2 |
| BrngRand.CtrBlockInc | src/brng_rand.c:71-80 | the carry loop over the octets adds one to the little-endian value, for every content |
| BrngRand.Brng.HmacBasesInit | src/brng_rand.c:82-107 | the two bases have absorbed the key block with every octet masked with 0x36 and 0x5C, the key hashed first if it is longer than a block |
| BrngRand.Brng.HmacCompute | src/brng_rand.c:109-130 | forking the bases gives H(outer, H(inner, part1, part2)), which is HMAC of both parts, and leaves the bases as they were |
| Hashing.HmacIsRfc2104 | src/hmac_mac.c:306-327 | HMAC is H(outer, H(inner, message)) with the pads of section 2 of RFC 2104, octet by octet: the key, or its digest above a block, and zeros behind it, masked with 0x36 inside and 0x5C outside |
| Hashing.LongKeyActsAsItsDigest | src/brng_rand.c:87-93 | a key longer than a block gives the MACs of its digest |
| Hashing.ShortKeyIgnoresZeroPadding | src/brng_rand.c:87-90 | zeros appended to a key within the block change no MAC |
| BrngRand.Brng.PrepareCtr | src/brng_rand.c:132-152 | the CTR generator stands at the beginning of the stream of its key and IV: s = IV, r = its complement, nothing in reserve |
| BrngRand.Brng.PrepareHmac | src/brng_rand.c:154-166 | the HMAC generator stands at the beginning of its stream: r_0 is H(outer, H(inner, iv)) over the key masked with 0x5C and 0x36 |
| BrngRand.Brng.CtrMakeBlock | src/brng_rand.c:168-183 | a block is H(key, s, x, r), with the additional input between counter and chaining value, and the chain moves on: s + 1, r xor the block; the rest of the output stays |
| BrngRand.Brng.GenerateCtr | src/brng_rand.c:185-244 | out holds the first octets of what was pending followed by the fresh blocks, the reserve the rest, and block k used slice k of the additional input |
| BrngRand.Brng.GenerateHmac | src/brng_rand.c:246-288 | the same for the HMAC generator, which takes no additional input |
| BrngModel.AddinIsCut | src/brng_rand.c:229-234 | additional input past the fresh octets changes nothing |
| BrngModel.AddinIgnoresTrailingZeros | src/brng_rand.c:215-217 | zeros appended to the additional input change nothing |
| BrngModel.AddinBlockOctets | src/brng_rand.c:208-218 | octet j of slice i is octet 32 i + j of the additional input where that is within it and within the fresh octets, else zero |
| BrngModel.CtrBlocks | src/brng_rand.c:168-183 | block i of any CTR output is H(key, iv + i, slice i of the additional input, complemented iv xored with the i blocks before) |
| BrngModel.HmacBlocks | src/brng_rand.c:246-288 | block i of any HMAC output is HMAC(key, r_i, iv) with r_0 = HMAC(key, iv) and r_(i+1) = HMAC(key, r_i), in terms of the masked key; additional input has no part in it |
| BrngContext.CtrOctets | src/brng_rand.c:185-244 | what any requests read from the beginning of a CTR stream consists of those blocks, the last one cut at the last octet asked for |
| BrngContext.HmacOctets | src/brng_rand.c:246-288 | the same for the HMAC generator |
| BrngContext.FirstCtrRequest | src/brng_rand.c:205-243 | in the first request block i is made with octets 32 i to 32 i + 31 of the additional input, those past the request and past its end as zeros |
| BrngContext.FirstCtrBlock | src/brng_rand.c:168-183 | the first block after instantiation is H(key, iv, padded additional input, complemented iv) |
| BrngContext.Reader.After | src/brng_rand.c:185-288 | a request moves the position in the stream by exactly its length |
| BrngContext.RequestsReadOneStream | src/brng_rand.c:185-288 | any sequence of requests of any lengths and additional inputs reads consecutive pieces of one stream |
| BrngContext.InstantiatedRunReadsItsStream | src/brng_rand.c:471-562 | from a successful instantiation on, generate calls of any lengths put out the stream of the key and IV in force from its first octet without a gap |
| BrngContext.OnlyTheTotalMatters | src/brng_rand.c:185-288 | any number of requests without additional input amounts to one for the total length, in octets and in state |
| BrngRand.Brng.SetCtxParams | src/brng_rand.c:429-465 | key, then IV: a refused IV leaves the new key; each one taken ends the running stream |
| BrngRand.Brng.Instantiate | src/brng_rand.c:471-524 | does the instantiation of the model on every path: refused strength or parameter, missing key, failed allocation, success at the beginning of the stream |
| BrngRand.Brng.Uninstantiate | src/brng_rand.c:526-536 | the context is uninitialised and its key and IV stay |
| BrngRand.Brng.Generate | src/brng_rand.c:538-562 | succeeds exactly when ready and strength and length are in range, and then reads the next slice of the stream, which for CTR begins with H(key, iv, padded additional input, complemented iv); a refused call changes nothing; nothing past outlen is written |
| BrngRand.Brng.Reseed | src/brng_rand.c:564-590 | entropy replaces the key, then additional input the IV, then the stream starts again; refused additional input leaves the new key |
| BrngRand.Brng.GetIv | src/brng_rand.c:396-413 | the IV read back is the running counter of CTR, else the stored IV, else zeros |
| BrngRand.Brng.constructor | src/brng_rand.c:294-303 | a new context is uninitialised, without key and IV, and meets the invariant of the class |
| BrngContext.IvParamCountsBlocks | src/brng_rand.c:396-413 | the CTR IV read back is the initial one incremented once for each block made; without a stream, and for HMAC, the IV a stream would start with |
| BrngContext.Restart | src/brng_rand.c:489-523 | starting succeeds exactly with a key and, for CTR without an IV, memory for the zero IV; it ends ready exactly then |
| BrngContext.SetParamsOutcome | src/brng_rand.c:429-465 | parameters are taken exactly when all that are passed fit, 32 octets each for CTR; they are stored and end the stream |
| BrngContext.InstantiateOutcome | src/brng_rand.c:471-524 | succeeds exactly at a strength of at most 256 bits, with fitting parameters, a key, and an IV or memory for one; the stream is that of the key and IV given, or else stored, or else of 32 zeros for CTR and of nothing for HMAC |
| BrngContext.ReseedOutcome | src/brng_rand.c:564-590 | succeeds exactly on fitting or empty octets with a key in the end; the stream is that of the entropy as key and the additional input as IV, each unless empty |
| BrngContext.Run | src/brng_rand.c:429-590 | any mix of set-params, instantiate, generate, reseed and uninstantiate, failures included, keeps the context well formed |
| BrngContext.QuietRunKeepsKeyAndIv | src/brng_rand.c:429-590 | runs of commands that store nothing, refused parameters and reseeds among them, keep key and IV |
| BrngContext.ReinstantiationReplays | src/brng_rand.c:471-524 | re-instantiating without parameters starts the same stream over after any run in which no command stores a key or an IV: reads, restarts, refused parameters, refused reseeds and failed allocations |
| BrngContext.GenerateRun | src/brng_rand.c:538-562 | a run of generate calls moves the context through the stream request by request |
| BrngContext.SyncIsLostExactlyByHalfReseed | src/brng_rand.c:574-587 | one call takes the stored key away from the key of the running stream exactly when its entropy is taken, is another key, and its additional input is refused |
| BrngContext.RunsStaySynced | src/brng_rand.c:429-590 | every state of a run has the key of the running stream stored exactly when no call of the run does so |
| BrngContext.SyncComesBackExactlyByResync | src/brng_rand.c:429-590 | the two agree again exactly when the stream ends or starts again, or its own key is stored again |
| BrngContext.HalfReseedExample | src/brng_rand.c:574-587 | such a run exists |
| BeltModes.CryptInverts | src/bee2_backend.h:136-181 | in every mode the reversed direction undoes one block and reaches the same chain |
| BeltModes.OneShotInverts | src/belt_cipher.c:316-329 | decryption undoes encryption on every message the mode accepts |
| BeltByPosition.EcbMessage | src/bee2_backend.h:102-133 | from initialisation to the end, in any pieces: each block of ECB is the permuted block of the message |
| BeltByPosition.CbcMessage | src/bee2_backend.h:178 | each block of CBC is permuted from the block of the message combined with the ciphertext before it, the first one with the IV |
| BeltByPosition.CfbMessage | src/belt_cipher.c:285-305 | each block of CFB, the last one of any length, is masked with the permuted ciphertext before it, the first one with the permuted IV |
| BeltByPosition.CtrMessage | src/bee2_backend.h:180 | octet k of CTR is masked with octet k % 16 of the permuted counter, which is the permuted IV plus k / 16 + 1 |
| BeltByPosition.BdeMessage | src/bee2_backend.h:181 | each block of BDE is permuted between two combinations with its tweak, counted from the permuted IV |
| BeltCipher.Belt.Duplicate | src/belt_cipher.c:153-160 | a duplicate stands at the same point and shares no memory |
| BeltCipher.Belt.Init | src/belt_cipher.c:168-204 | succeeds exactly when key, IV and key-length parameter have the right lengths; then the stream starts at the mode's first chain; the buffer is dropped either way |
| BeltCipher.Belt.ProcessBlock | src/belt_cipher.c:103-106 | one block goes through the mode; nothing else is written |
| BeltCipher.Belt.Update | src/belt_cipher.c:228-272 | refused without key or IV; else the loop, with its fast path and its buffer, ends for every content of the buffer up to a full one with the octets, the chain and the buffer of the model's update, also when the room runs out, and leaves the rest of the output alone |
| BeltCipher.Belt.Final | src/belt_cipher.c:278-310 | succeeds exactly for an empty buffer or, in CFB and CTR, with room for the octets buffered, and puts out as many: the front of the padded block through the mode; the rest of the output is left alone |
| BeltCipher.Belt.Cipher | src/belt_cipher.c:316-329 | on an empty buffer, succeeds exactly with room for the message and, but for CFB and CTR, whole blocks, and puts out the mode applied to it |
| BeltStream.UpdateSucceedsIffRoom | src/belt_cipher.c:242-271 | below a full buffer, an update succeeds exactly with room for 16 floor((buffered + input) / 16) octets |
| BeltStream.UpdateConserves | src/belt_cipher.c:242-271 | on every exit, octets processed and octets buffered are the old buffer and the consumed input, none lost or doubled; success consumes all |
| BeltStream.StreamingIsOneShot | src/belt_cipher.c:228-310 | any cutting into updates with a final call puts out the mode applied once, as many octets as the message has; final always succeeds in CFB and CTR, and in the other modes exactly on multiples of 16 octets |
| BeltStream.WholeIsOneShot | src/belt_cipher.c:316-329 | one update and one final call on an empty buffer succeed exactly on a message of such a length that fits, and put out the mode applied to it |
| BeltStream.RoundTrip | src/belt_cipher.c:228-310 | decrypting with one cutting what was encrypted with another returns the message: of any length in CFB and CTR, of whole blocks in the other modes |
| AeadContext.Aead.Duplicate | src/belt_aead.c:146-153 | a duplicate stands at the same point and shares no memory |
| AeadContext.Aead.Init | src/belt_aead.c:161-187 | direction, key, IV, reset, parameters, in this order, with what each failure leaves behind |
| AeadContext.Aead.Update | src/belt_aead.c:214-246 | without an output buffer associated data, refused after data; else data, with room for all of it; empty input changes nothing |
| AeadContext.Aead.Final | src/belt_aead.c:252-278 | encrypting keeps the tag; decrypting compares it with the expected one and is refused without one |
| AeadContext.Aead.Cipher | src/belt_aead.c:284-297 | one update and one final call |
| AeadContext.Aead.SetCtxParams | src/bash_prgae.c:478-507 | key length within bounds and equal to a stored key's, tag of the right size; the tag setter marks it set |
| AeadModel.RunsStaySound | src/belt_aead.c:161-278 | in every run, failed calls and half-done initialisations included, the backend of a keyed context is its start under key and IV followed by the latest accepted operations, without associated data after data |
| AeadModel.RunsStayComplete | src/belt_aead.c:161-187 | the backend holds everything accepted since the last reset through a whole run exactly when no initialisation of it has its key accepted and its IV refused on a context that has an IV and a message under way |
| AeadModel.BackendHoldsAccepted | src/belt_aead.c:161-278 | so from a new context the backend is its start followed by everything accepted since the last reset |
| BeltAead.HalfDoneInitLosesAd | src/belt_aead.c:171-180 | a run of the other kind: associated data accepted, a failed initialisation, data accepted, and a tag that covers the data alone |
| AeadModel.InitStarts | src/belt_aead.c:161-187 | a successful initialisation that leaves key and IV set starts the backend under them, with the tag of the parameters or none |
| AeadModel.InitSucceeds | src/belt_aead.c:161-187 | initialisation succeeds exactly when key, IV and tag have lengths of the algorithm and a key length passed is that of the key in force |
| AeadModel.InitResets | src/bash_prgae.c:246-264 | once key and IV are taken it gives up the message under way where a key is set and, but for CHE and DWP, an IV; otherwise the message goes on |
| AeadModel.UpdateOutcome | src/belt_aead.c:214-246 | updates succeed exactly with key and IV, no associated data after data, and room for data; refused and empty ones change nothing |
| AeadModel.LockStep | src/bash_prgae.c:288-320 | piece by piece, decryption gives the plaintext back and leaves the state encryption left |
| AeadModel.RoundTrip | src/bash_prgae.c:288-349 | when key, IV and non-empty pieces are the same, the decryptor returns the pieces of the plaintext, and accepts exactly when the tag in force at the end, set at any point from initialisation on, is the encryptor's |
| AeadModel.SeamlessRoundTrip | src/belt_aead.c:214-278 | the same over a backend indifferent to cutting, with the two sides cutting differently |
| BeltAead.CheDwpIsSeamless | src/bee2_backend.h:183-224 | the CHE/DWP adapter keeps both sides in step and is indifferent to cutting |
| BeltAead.CheDwpEncrypts | src/bee2_backend.h:204-219 | however a message is cut, ciphertext octet i is plaintext octet i masked with keystream octet i of the 32-octet or expanded key and the IV, and the tag is that of all associated data and all ciphertext |
| BeltAead.CheDwpDecrypts | src/bee2_backend.h:212-219 | the same keystream unmasks what a decryptor receives, and it accepts exactly the tag of all associated data and all ciphertext received |
| BeltAead.CheDwpInitOutcome | src/belt_aead.c:161-187 | keys of the one size, IVs of 16 octets and tags of 8 are taken, and no others |
| BeltAead.CheDwpRoundTrip | src/belt_aead.c:214-278 | for any two cuttings of associated data and data the plaintext is recovered, and exactly the encryptor's tag accepted, whenever it was set; that tag is of all the associated data and all the ciphertext under key and IV |
| BashPrgAe.StepsInStep | src/bee2_backend.h:333-348 | octet by octet, across rate boundaries, decryption recovers the plaintext and the sponge state |
| BashPrgAe.AbsorbByBlocks | src/bee2_backend.h:333-335 | octet by octet absorbing is combining every rate octets with the front of the state and permuting it |
| BashPrgAe.EncryptByBlocks | src/bee2_backend.h:336-340 | the same of encrypting, the combined octets being the ciphertext |
| BashPrgAe.SqueezeByBlocks | src/bee2_backend.h:346-348 | the same of squeezing |
| BashPrgAe.PrgAeEncrypts | src/bash_prgae.c:288-349 | from the start under IV and key, in this order, each piece of associated data is absorbed, each piece of text encrypted and the tag squeezed out by a command of its kind, block by block |
| BashPrgAe.PrgAeDecrypts | src/bash_prgae.c:288-349 | what a decryptor puts out is the text that so encrypts to the pieces received, and it accepts exactly the tag of that encryption |
| BashPrgAe.PrgAeInitOutcome | src/bash_prgae.c:237-264 | keys of at least the algorithm's size and at most 60 octets, IVs of at most 60 and tags of its size are taken, and no others |
| BashPrgAe.PrgAeRoundTrip | src/bash_prgae.c:288-349 | with the same non-empty pieces on both sides, for every sponge, the plaintext comes back piece by piece and exactly the encryptor's tag is accepted, whenever it was set |
| BashPrgAe.CuttingAdMatters | src/bash_prgae.c:302-306 | the same two octets of associated data, cut on one side only: with every sponge that complements an octet at each command the decryptor refuses the encryptor's tag, under every key and IV |
| BashPrgAe.CuttingDataMatters | src/bash_prgae.c:307-318 | the same for two octets of data |
| BashPrgAe.SomeSpongeFlips | src/bee2_backend.h:302-357 | there is such a sponge |
| HmacMac.Hmac.SetCtxParams | src/hmac_mac.c:233-287 | digest, size, key, in this order; a digest refused for the size in force has been switched |
| HmacMac.Hmac.Start | src/hmac_mac.c:289-335 | the context runs on an empty message under the digest and key in force |
| HmacMac.Hmac.Init | src/hmac_mac.c:337-351 | parameters, then the key, then the start; refused without any key |
| HmacMac.Hmac.Update | src/hmac_mac.c:353-365 | appends to the message of a running context and is refused otherwise |
| HmacMac.Hmac.Final | src/hmac_mac.c:367-403 | tells the size without a buffer; else puts out exactly the leftmost octets of H(outer, H(inner, message)) over the key masked with 0x5C and 0x36, or of the belt-hash HMAC, and ends the message, the outer state undisturbed; refused without room |
| HmacMac.Hmac.Dup | src/hmac_mac.c:155-171 | a duplicate goes on from the same message on its own; there is none exactly when it or its copy of a key cannot be allocated |
| HmacModel.SetParamsOutcome | src/hmac_mac.c:233-287 | parameters are taken exactly when digest, size and key fit, and then what is in force is what they name; a digest named brings its size unless one was given before |
| HmacModel.InitOutcome | src/hmac_mac.c:337-351 | initialisation succeeds exactly with fitting parameters and a key, and starts an empty message under the digest and key that result |
| HmacModel.TagIsRfc2104 | src/hmac_mac.c:289-403 | the MAC under bash256, bash384 and bash512 is the HMAC of RFC 2104 with blocks of 160, 144 and 128 octets and digests of 32, 48 and 64 |
| HmacModel.MacOfMessage | src/hmac_mac.c:289-403 | after any successful initialisation, any cutting of a message gives those leftmost octets for the whole message, as many as the size in force |
| HmacModel.UpdatesConcatenate | src/hmac_mac.c:353-365 | updates amount to their concatenation |
| HmacModel.ReinitialisationReplays | src/hmac_mac.c:337-351 | initialising without a key starts the same MAC over, whether or not the first was finished |
| HmacModel.CoherenceIsLostExactlyByOverreach | src/hmac_mac.c:256-264 | digest, size and message stay together on a call exactly when it names no digest the size in force exceeds |
| HmacModel.RunsStayCoherent | src/hmac_mac.c:233-403 | every state of a run is coherent exactly when no call of the run does so |
| HmacModel.OverreachExample | src/hmac_mac.c:261-263 | a run from a new context that ends in a successful final call on a state of another digest |
| Numbers.BnToFixedLe | src/bign_keycodec.c:219-237 | succeeds exactly for non-negative numbers below 256^len with len at most 64 and writes their little-endian octets, nothing else |
| Numbers.FixedLeInverse | src/bign_keycodec.c:411-423 | reading little-endian octets as a number and writing it back are inverse both ways |
| Buffers.GrowBuffer.NextCapacity | src/bign_keycodec.c:138-145 | doubling ends without exceeding size_t, at a capacity that suffices and is below twice what is required beyond the first |
| Buffers.GrowBuffer.Append | src/bign_keycodec.c:126-160 | succeeds exactly when the length fits size_t and memory is there; the contents are old followed by new, or unchanged |
| Buffers.ReadAll | src/bign_keycodec.c:643-673 | what is read is the concatenation of all chunks up to the first empty one; nothing is returned only if a failed read delivered octets or a length reached on the way does not fit size_t or memory |
| Buffers.GatheredIsConcatenation | src/bign_keycodec.c:643-673 | non-empty chunks followed by an end are gathered whole and in order |
| Buffers.WriteAll | src/bign_keycodec.c:113-124 | success means exactly the data was delivered, failure a prefix of it, and a sink that keeps taking gets all |
| Base64.DecodeOfEncode | src/bign_keycodec.c:179-181 | base64 of any octets decodes to them |
| Base64.EncodeAppend | src/bign_keycodec.c:175-186 | encoding a multiple of three octets and going on is encoding the whole |
| Base64.LetterInTable | src/bign_keycodec.c:179-181 | the 64 letters are those of table 1 of RFC 4648 |
| Base64.GroupAt | src/bign_keycodec.c:179-181 | letters 4 g to 4 g + 3 are the four parts of six bits of octets 3 g to 3 g + 2, with a pad for each octet missing |
| Pem.Spelling | src/bign_keycodec.c:19-20 | the octets of marker and labels spell the texts of the source |
| Pem.WritePemPayload | src/bign_keycodec.c:162-191 | success delivers the header, the lines and the footer; a sink that keeps taking gets them |
| Pem.LinesAreBase64 | src/bign_keycodec.c:175-186 | the lines together are the base64 of the whole payload |
| Pem.LineShapes | src/bign_keycodec.c:175-186 | one line per begun 48 octets; all but the last have 64 letters and no padding |
| Pem.LabelLines | src/bign_keycodec.c:162-191 | header and footer are the BEGIN and END lines with the label of the kind |
| Pem.LineAt | src/bign_keycodec.c:175-186 | line i is the base64 of octets 48 i to 48 i + 47, or to the last, and a line feed, at octet 65 i of the body, and no line follows the last one |
| Pem.RoundTrip | src/bign_keycodec.c:688-724 | reading the text gives label and payload back, for any length |
| Pem.IsPemData | src/bign_keycodec.c:675-686 | found exactly when the marker occurs somewhere |
| Pem.WrittenTextIsPem | src/bign_keycodec.c:675-686 | it occurs in every text written |
| Der.LengthRoundTrip | src/bign_keycodec.c:565 | length octets read back, with what follows them |
| Der.LengthIsShortest | src/bign_keycodec.c:565 | the length octets printed are the shortest that read as that length |
| Der.ItemsRoundTrip | src/bign_keycodec.c:565 | items printed one after the other read back as the same items |
| Der.IntegerRoundTrip | src/bign_keycodec.c:411-423 | minimal two's complement octets of a non-negative number read back as that number |
| Der.IntegerIsCanonical | src/bign_keycodec.c:411-423 | no other octets read as that number |
| DomainParams.OidsAsRegistered | src/bee2_oids.h:9-13 | the contents octets compared and printed are those of the registered identifiers of public keys and prime fields |
| DomainParams.CurveOidsAsRegistered | src/bee2_oids.h:10-12 | so are those of the three curves |
| DomainParams.CurveOidsAreDistinct | src/bign_keycodec.c:205-217 | an identifier names a variant exactly when it is that variant's |
| DomainParams.ExplicitMeansStandard | src/bign_keycodec.c:239-358 | parameters spelled out are accepted for a variant exactly when they are its standard curve, seed aside, cofactor one or left out |
| DomainParams.EcParamsRoundTrip | src/bign_keycodec.c:425-496 | spelled-out parameters of a standard curve read back as they were written |
| DomainParams.DomainRoundTrip | src/bign_keycodec.c:498-511 | algorithm parameters of a key read back as its variant, its explicit flag, and its cofactor flag where the explicit one is up |
| KeyFormats.AlgorithmMeans | src/bign_keycodec.c:360-410 | an algorithm identifier means a domain exactly when it names bign-pubkey and its parameters name that curve or spell out that standard curve |
| KeyFormats.Pkcs8 | src/bign_keycodec.c:520-589 | a private key can be written exactly when it has a private half and its algorithm parameters exist; KeyLayout.PrivateLayout tells its octets |
| KeyFormats.Pkcs8RoundTrip | src/bign_keycodec.c:591-641 | reading it gives the same variant, octets and flags, whatever follows |
| KeyFormats.AnyVersionReads | src/bign_keycodec.c:591-641 | a private key reads the same under any version, and with attributes exactly when they are well formed |
| KeyLayout.PrivateLayout | src/bign_keycodec.c:520-589 | a private key is written, element by element, as 30 [02 01 00, 30 [bign-pubkey, parameters], 04 octets], with curves spelled out to the last number where the explicit flag is up |
| KeyLayout.NamedPrivateKey | src/bign_keycodec.c:556 | for a named curve, the literal octets in front of the private ones, for each variant |
| KeyLayout.SpelledLayout | src/bign_keycodec.c:425-496 | the elements of a curve spelled out: version 1, field and prime, coefficients and seed, base point, order, and the cofactor 1 if wanted |
| KeyFormats.Spki | src/bign_keycodec.c:726-801 | a public key can be written exactly when it has a public half or derives one, and its algorithm parameters exist; KeyLayout.PublicLayout tells its octets |
| KeyFormats.SpkiRoundTrip | src/bign_keycodec.c:803-865 | reading it gives the same variant, octets and flags, whatever follows |
| KeyLayout.PublicLayout | src/bign_keycodec.c:726-801 | a public key is written as 30 [30 [bign-pubkey, parameters], 03 [00, octets]] |
| KeyLayout.NamedPublicKey | src/bign_keycodec.c:726-801 | for a named curve, the literal octets in front of the public ones, stored or derived, for each variant |
| KeyFormats.NeverBoth | src/bign_keycodec.c:1126-1131 | no octets whatever are accepted both as a private and as a public key |
| BignKeycodec.DecodePkcs8 | src/bign_keycodec.c:591-641 | succeeds exactly on a well-formed private key of the expected variant whose public key can be derived, and fills the key with both halves |
| BignKeycodec.DecodeSpki | src/bign_keycodec.c:803-865 | succeeds exactly on a well-formed public key of the expected variant and fills the key |
| BignKeycodec.DecodeBuffer | src/bign_keycodec.c:1098-1140 | dispatch by label in PEM and by trying private then public in DER; a failed private attempt leaves no trace in a public key |
| BignKeycodec.Decode | src/bign_keycodec.c:1077-1140 | reads the source to its end and decodes what it held |
| BignKeycodec.Encode | src/bign_keycodec.c:891-961 | refuses without selection, variant or half; else delivers exactly the file of the key, whose octets BignKeycodec.EncodedFileLayout tells |
| BignKeycodec.EncodedFileLayout | src/bign_keycodec.c:891-961 | a file exists exactly with a selection, the variant asked for, the selected half and a known curve; it is those octets, or the PEM text of them under the label of the selected half |
| BignKeycodec.FileRoundTrip | src/bign_keycodec.c:891-1140 | decoding the file a key was encoded to gives back its halves and flags, in PEM always, in DER free of the PEM marker |
| BignKeycodec.MarkerInDer | src/bign_keycodec.c:1100-1109 | that condition is exact for a reader that finds no PEM text in the file |
| BignKeycodec.MarkerInPublicKey | src/bign_keycodec.c:1100-1109 | every public key with the marker somewhere in its octets is written as a DER file from which nothing is decoded |
| BignKeycodec.MarkerExample | src/bign_keycodec.c:1100-1109 | there is such a key of every variant |
| BignKeycodec.CoherentKeySurvives | src/bign_keycodec.c:891-1140 | a coherent key written whole comes back whole, but for a cofactor flag that had no effect |
| BignModel.NamesAreDistinct | src/bign_common.c:30-45 | a name means a variant exactly when it is one of that variant's two names |
| BignModel.NamesOfVariants | src/bign_common.c:9-16 | the two names of each variant, in full |
| BignKey.KeyObject.EnsurePublic | src/bign_common.c:99-108 | a public half that is there stays; a missing one is derived or the call fails and leaves the key as it was |
| BignKey.KeyObject.ValidatePair | src/bign_common.c:110-125 | holds exactly when both halves are there and the private one derives the public one |
| BignKey.KeyObject.SetVariantFromParams | src/bign_keymgmt.c:97-121 | the variant the group parameter resolves to; one that is set is not replaced |
| BignModel.WhenVariantResolves | src/bign_keymgmt.c:97-121 | a group parameter settles for a variant exactly when it is one of its names and no other variant is set |
| BignKey.KeyObject.Match | src/bign_keymgmt.c:169-198 | same variant and same selected halves, which must be there |
| BignModel.MatchIsEqualityOfParts | src/bign_keymgmt.c:169-198 | keys match exactly when the first has what is selected and the selected parts are equal |
| BignKey.KeyObject.Validate | src/bign_keymgmt.c:200-214 | selected halves are there, and belong together where both are selected |
| BignKey.KeyObject.Import | src/bign_keymgmt.c:285-367 | succeeds exactly as the model's import and then holds its result; a failed call leaves every field unchanged |
| BignModel.Imported | src/bign_keymgmt.c:285-367 | success never changes a set variant, makes a selected pair coherent, and leaves no stale public half after a private key alone |
| BignModel.ImportOutcome | src/bign_keymgmt.c:285-367 | an import succeeds exactly when its parameters are acceptable, bring a half or the domain is asked for, and the key that results has what is selected, as a pair where both halves are; that key is told from key and parameters |
| BignModel.WhenImportIsSound | src/bign_keymgmt.c:285-367 | from a sound key, an import ends in an unsound one exactly when its parameters are acceptable, bring a public key without both halves being selected, and the private half, old or brought along, derives another one |
| BignKey.KeyObject.Export | src/bign_keymgmt.c:380-419 | hands out the selected parts; the key is as before or has gained its derived public half |
| BignModel.ExportOutcome | src/bign_keymgmt.c:380-419 | succeeds exactly when the key has or derives what is selected, and hands out each selected part and no other |
| BignModel.ExportImport | src/bign_keymgmt.c:285-419 | a coherent key exported whole and imported reproduces variant, both halves and the explicit flag |
| BignModel.ExportImportPrivate | src/bign_keymgmt.c:285-419 | exported without its public half it is reproduced too |
| BignKey.KeyObject.SetParams | src/bign_keymgmt.c:432-452 | does the model's parameter setting, refusals included |
| BignModel.SetParams | src/bign_keymgmt.c:432-452 | a refusal leaves variant and halves alone, and the whole key unchanged exactly when the encoding parameters are refused at once or ask for the flags the key has |
| BignModel.SetParamsOutcome | src/bign_keymgmt.c:432-452 | setting is importing what is passed, or without a half or a group taking the flags |
| BignModel.RunKeepsVariant | src/bign_keymgmt.c:97-121 | over any run of imports, settings and exports a variant that is set never changes |
| BignModel.RunsStaySound | src/bign_keymgmt.c:285-452 | every state of such a run from a sound key is sound exactly when no command of it brings in a mismatching public key |
| BignModel.PublicImportIsSound | src/bign_keymgmt.c:325-338 | a public key imported into a key without a private half is no mismatch |
| BignModel.UnsoundExample | src/bign_keymgmt.c:354-361 | every private key can be joined by a public one it does not derive: a run of two imports into a new key |
| BignModel.RefusedParamsExample | src/bign_keymgmt.c:440 | a refusal that changed the explicit flag |
| BignKey.KeyObject.Dup | src/bign_keymgmt.c:459-495 | a fresh object with the model's duplicate, or none |
| BignModel.Duplicated | src/bign_keymgmt.c:459-495 | agrees with the key on every selected half it has, keeps nothing unselected, keeps the flags, and is as sound as the key |
| BignModel.DuplicateOutcome | src/bign_keymgmt.c:459-495 | the duplicate is the selected part, the public half derived where both are selected and only the private one is there; there is none exactly without a variant or when that fails |

## Left out

- BeltCipher.Belt.Update: the input is a value, so updates in place over the output buffer are not modelled.
- BeltModes.CryptInverts: BDE is modelled with an unknown tweak sequence; SDE, key wrap, MAC, PBKDF and plain digests are one-call wrappers and are not part of this model.
- BashPrgAe.CuttingAdMatters: shown for a family of sponges built for the purpose; nothing is claimed of the BASH permutation itself.
- AeadContext.Aead.Init: parameters that cannot be read as their type are not told apart from ones of a wrong value.
- HmacModel.MacOfMessage: for belt-hash the MAC is the HMAC primitive of Bee2, which stays unknown.
- Der.ItemsRoundTrip: the indefinite length form, constructed strings, high tag numbers and other BER liberties that OpenSSL accepts are refused by the model's reader.
- DomainParams.CurveOidsAreDistinct: object identifiers are compared by their contents octets, not by dotted text.
- Pem.RoundTrip: PEM text other than the layout written (text around it, headers, other line lengths) is left to the unknown reader of the decoder.
- BignKey.KeyObject.EnsurePublic: a derivation that fails is taken to leave the stored octets as they were.
- KeyFormats.Pkcs8RoundTrip: attributes after a private key are an unknown predicate; none are ever written.
- BignKeycodec.Encode: allocation failures inside OpenSSL, object import and export of the codec, and the store are not part of this model.
- Key generation, signatures, key exchange and key transport call Bee2 and add one branch each.
- Dispatch tables, parameter descriptors, names and case folding of parameter values, error reporting, and the gettable parameters other than the BRNG IV and the AEAD tag are not modelled.
- Zeroing of memory, timing and object lifetimes are not modelled.
