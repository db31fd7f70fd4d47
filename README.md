# Onion-routing simulation: node registry and symmetric envelope

This project models the two parts of the onion-routing simulation that hold
logic of their own, and proves properties of them in Dafny:

- **The node registry** (`registry.dfy`, module `Registry`). The directory
  keeps a table of `{nodeId, pubKey}` records. The table starts empty.
  Registering a node is an insert-or-update keyed by `nodeId`: the first entry
  with that id gets the new public key in place, and otherwise a new record is
  appended. Reading the registry returns the whole table in insertion order.
  `NodeRegistry` is a class whose `nodes: seq<Node>` field is reassigned by
  `Register`. Its specification is the function `Upsert`, built on
  `FirstIndex`, which is the meaning of `findIndex`. `FindIndex` is the
  left-to-right scan itself.
- **The symmetric envelope** (`crypto.dfy`, module `Crypto`). `symEncrypt`
  encrypts the UTF-8 bytes of a text with AES-CBC under a fresh 16-byte IV. It
  writes `IV ‖ ciphertext` into a new buffer and returns the buffer as base64.
  `symDecrypt` decodes the base64 text, takes bytes `[0,16)` as the IV and
  the rest as the ciphertext, and decrypts. `exportPrvKey` returns null for a
  null key.

The WebCrypto calls, Node's base64 codec and the text encoder and decoder are
outside the model. They are the function-valued fields of a `Primitives`
value. The round-trip lemmas take what they need of those calls as
preconditions: base64 decoding undoes encoding (RFC 4648, section 4), a raw
key export re-imports to the same key, and AES-CBC decryption undoes
encryption under the same key and IV (NIST SP 800-38A, section 6.2). For the
final step back to the text, the text decoder must undo the text encoder,
except that a default `TextDecoder` drops a leading byte order mark
(U+FEFF). A last precondition, that AES-CBC refuses an IV that is not 16
bytes long, is used only for the short-frame error case. The random IV is an
explicit 16-byte argument.

Registering an id that is already present overwrites its key and always
succeeds (src/registry/registry.ts:35-40). Symmetric decryption is
unauthenticated AES-CBC, so its only failures are the ones WebCrypto reports
when importing the key or decrypting (src/crypto.ts:191, 196).

## Model

| member | source | states |
|---|---|---|
| Registry.FirstIndex | src/registry/registry.ts:33 | the result is -1 exactly when no entry has the id; otherwise it is an index whose entry has the id and no earlier entry has it |
| Registry.FindIndex | src/registry/registry.ts:33 | the left-to-right scan returns exactly `FirstIndex` of the table |
| Registry.Upsert | src/registry/registry.ts:33-41 | if the id is present, the length is unchanged and the first matching entry becomes `{nodeId, pubKey}`; if absent, the length grows by one and `{nodeId, pubKey}` is the last entry; every other index keeps its entry, so the order is kept too |
| Registry.UpsertFirstMatch | src/registry/registry.ts:33-40 | after registration, the first entry with the id is at the old position (or at the end when it was new) and carries the new key |
| Registry.UpsertIdempotent | src/registry/registry.ts:33-37 | registering the same `(id, key)` twice leaves the table as one registration did |
| Registry.UpsertPreservesDistinctIds | src/registry/registry.ts:33-40 | pairwise distinct ids stay pairwise distinct |
| Registry.UpsertIds | src/registry/registry.ts:33-40 | the set of ids after registration is the old set plus the registered id |
| Registry.UpsertAsMap | src/registry/registry.ts:33-40 | read as an id-to-key dictionary (first entry wins), the new table is the old dictionary with the id mapped to the new key |
| Registry.NodeRegistry.constructor | src/registry/registry.ts:19 | the registry starts empty, with no duplicate ids |
| Registry.NodeRegistry.Register | src/registry/registry.ts:30-41 | the new table is `Upsert` of the old one; it reports "updated" exactly when the id was already present and grows by one otherwise; it keeps ids distinct; the dictionary view gains or overwrites exactly that id |
| Registry.NodeRegistry.GetNodes | src/registry/registry.ts:44-46 | returns the current table as it is, in insertion order, and changes nothing |
| Crypto.Frame | src/crypto.ts:181-183 | the buffer has length `|iv| + |ciphertext|`; bytes `[0, |iv|)` are the IV and the rest is the ciphertext |
| Crypto.FrameInPlace | src/crypto.ts:181-183 | a newly allocated array holding exactly the frame of IV and ciphertext |
| Crypto.Split | src/crypto.ts:193-194 | for a buffer of at least 16 bytes the IV part is 16 bytes; a shorter buffer is all IV with an empty ciphertext; the two parts always concatenate back to the buffer |
| Crypto.SplitFrame | src/crypto.ts:181-194 | splitting a frame built from a 16-byte IV gives back that IV and that ciphertext |
| Crypto.FrameSplit | src/crypto.ts:192-194 | every buffer, including one shorter than 16 bytes, is the frame of its two split parts |
| Crypto.ExportPrvKey | src/crypto.ts:50-57 | the result is null exactly when the key is null; otherwise it is the base64 of the PKCS#8 export |
| Crypto.ExportSymKey | src/crypto.ts:144-147 | the raw export of the key, then base64; when base64 round-trips, decoding the result gives back exactly the raw key bytes |
| Crypto.ImportSymKey | src/crypto.ts:150-164 | base64 decoding of the text, then a raw import, `None` when the import rejects; when base64 round-trips, the base64 text of some raw bytes imports exactly as those bytes do |
| Crypto.ImportExportSymKey | src/crypto.ts:144-164 | importing an exported symmetric key gives the same key back |
| Crypto.Sealed | src/crypto.ts:167-185 | what `symEncrypt` returns: when base64 round-trips, its decoding is exactly `Frame(iv, cbcEncrypt(key, iv, textEncode(data)))`; its layout and round trip are `SealedLayout`, `SealedSplit` and `SymRoundTrip` |
| Crypto.SymEncrypt | src/crypto.ts:167-185 | the result is the base64 of `IV ‖ ciphertext`, where the ciphertext is the cipher's output on the text's bytes under that same IV |
| Crypto.SymDecrypt | src/crypto.ts:187-206 | the result is the key-import failure exactly when the key fails to import; any success is the text decoding of what the cipher returned for the IV and the ciphertext split off the decoded input; with the key imported, decryption fails exactly when the cipher rejects that IV and ciphertext |
| Crypto.SealedLayout | src/crypto.ts:172-184 | the decoded output of `symEncrypt` is `16 + |ciphertext|` bytes long, starts with the IV given to the cipher and continues with the ciphertext |
| Crypto.SealedSplit | src/crypto.ts:181-194 | the split in `symDecrypt` recovers exactly the IV and ciphertext that `symEncrypt` produced |
| Crypto.SymRoundTrip | src/crypto.ts:167-206 | decrypting with the exported key what `symEncrypt` produced succeeds with the text decoder's reading of the encoder's bytes; when the text codec round-trips, that is the original text less any leading U+FEFF, which the default `TextDecoder` drops |
| Crypto.ShortFrameRejected | src/crypto.ts:192-203 | a decoded input shorter than 16 bytes fails to decrypt, because its IV is short |

## Left out

- HTTP plumbing: the Express apps, the routes and status endpoints, `listen`, body parsing, the ports taken from the configuration, and logging. They are I/O. Registration's JSON reply is kept only as the `Outcome` value.
- Concurrency and `async`: every operation is synchronous. Requests to the registry are modelled as one call at a time, as Node's single event loop runs each handler to completion.
- Registry.Node: a record is a value. `nodesRegistry[index].pubKey = pubKey` becomes a functional update of the entry at that index. Aliasing of the record object is not captured, because no other reference to it outlives a request.
- Registry.Node: `nodeId` is a JavaScript number and is modelled as an unbounded integer. Fractional ids, `NaN` and `-0`, and how `===` treats them, are not modelled.
- Randomness: `getRandomValues` becomes the explicit `iv` argument of `SymEncrypt`, which must be 16 bytes long.
- Crypto.SymDecrypt: AES-CBC, the raw key import, base64 and the text codec are abstract. So the contract says which cipher results succeed and fail, not which texts succeed. Padding errors and the behaviour of the text decoder on malformed UTF-8 are left to the primitives.
- Crypto.ExportPrvKey: the PKCS#8 export is modelled as a call that always succeeds. A rejection for a key that cannot be exported is not modelled.
- Crypto.SymRoundTrip: the text codec's round trip is assumed, not proved. It is stated with the BOM loss that is part of the source's behaviour: `new TextDecoder()` (src/crypto.ts:205) drops a leading U+FEFF, so `symDecrypt` of `symEncrypt(t)` gives back `t` without that character. JavaScript strings with lone surrogates cannot be represented as Dafny strings.
- Crypto.SymEncrypt / ExportSymKey: the AES-CBC encryption and the raw export are modelled as calls that always succeed; a rejection (wrong key algorithm or usages, non-extractable key) is not modelled.
- The RSA operations `generateRsaKeyPair`, `exportPubKey`, `importPubKey`, `importPrvKey`, `rsaEncrypt` and `rsaDecrypt`, and `createRandomSymmetricKey`: these are calls into WebCrypto (RSA-OAEP as in section 7.1 of RFC 8017, key generation) with no layout or logic of their own to verify.
- `arrayBufferToBase64` and `base64ToArrayBuffer`: Node's base64 codec, kept abstract as `toBase64` and `fromBase64`.
- The onion router only serves status and getter routes over three variables that are initialised to `null` and never assigned; it has no message handler. The user process serves getters that return a literal `null` and a `/message` route that only logs what it receives. Circuit selection, onion layering and per-hop peeling are not implemented in the source, so they are not modelled.
