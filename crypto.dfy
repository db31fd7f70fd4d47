/**
 The symmetric envelope of the onion-routing simulation: AES-CBC output is
 framed as `IV ‖ ciphertext`, the IV occupying the first 16 bytes, and the
 frame travels as base64 text. Decryption splits the decoded bytes at offset
 16 again.

 WebCrypto, Node's `Buffer` base64 codec and the text encoder/decoder are
 calls into code outside the model. They are passed in as the fields of a
 `Primitives` value, so the model fixes nothing about them; what the round
 trip needs of them is stated as predicates (`Base64RoundTrips`,
 `RawKeyRoundTrips`, `CbcInverts`, `TextRoundTrips`, `CbcRejectsBadIv`) that the lemmas take
 as preconditions. The random IV is an explicit argument.
 */
module Crypto {

  /** Length in bytes of the AES-CBC initialization vector at the head of a frame. */
  const IV_LENGTH: nat := 16

  datatype Option<T> = None | Some(value: T)

  /** Why an asynchronous WebCrypto call rejected. */
  datatype CryptoError = KeyImportFailed | DecryptFailed

  datatype Result<T> = Success(value: T) | Failure(error: CryptoError)

  /** A WebCrypto key. A key is its material, algorithm and usages; two
      handles with the same are the same key to the model. */
  datatype CryptoKey = CryptoKey(handle: nat)

  /** The foreign calls the envelope code makes. */
  datatype Primitives = Primitives(
    /** `subtle.encrypt({name: "AES-CBC", iv}, key, data)` */
    cbcEncrypt: (CryptoKey, seq<bv8>, seq<bv8>) -> seq<bv8>,
    /** `subtle.decrypt({name: "AES-CBC", iv}, key, data)`; `None` when the promise rejects */
    cbcDecrypt: (CryptoKey, seq<bv8>, seq<bv8>) -> Option<seq<bv8>>,
    /** `subtle.exportKey("raw", key)` */
    exportRaw: CryptoKey -> seq<bv8>,
    /** `subtle.importKey("raw", bytes, AES-CBC, ...)`; `None` when the promise rejects */
    importRaw: seq<bv8> -> Option<CryptoKey>,
    /** `subtle.exportKey("pkcs8", key)` */
    exportPkcs8: CryptoKey -> seq<bv8>,
    /** `Buffer.from(bytes).toString("base64")` */
    toBase64: seq<bv8> -> string,
    /** `Buffer.from(text, "base64")` */
    fromBase64: string -> seq<bv8>,
    /** `new TextEncoder().encode(text)` */
    textEncode: string -> seq<bv8>,
    /** `new TextDecoder().decode(bytes)` */
    textDecode: seq<bv8> -> string)

  /** Base64 decoding undoes base64 encoding (RFC 4648, section 4). */
  ghost predicate Base64RoundTrips(p: Primitives) {
    forall bytes :: p.fromBase64(p.toBase64(bytes)) == bytes
  }

  /** Importing the raw export of a key gives that key back. */
  ghost predicate RawKeyRoundTrips(p: Primitives) {
    forall key :: p.importRaw(p.exportRaw(key)) == Some(key)
  }

  /** CBC decryption with the same key and 16-byte IV undoes CBC encryption. */
  ghost predicate CbcInverts(p: Primitives) {
    forall key, iv, pt :: |iv| == IV_LENGTH ==> p.cbcDecrypt(key, iv, p.cbcEncrypt(key, iv, pt)) == Some(pt)
  }

  /** The text with one leading byte order mark (U+FEFF) removed, if it has one. */
  function StripBom(text: string): string {
    if |text| > 0 && text[0] == '\U{FEFF}' then text[1..] else text
  }

  /** Decoding the bytes the text encoder produced gives the text back, except
      that a default `TextDecoder` (`ignoreBOM: false`) drops a leading byte
      order mark (the `TextDecoder` interface of the WHATWG Encoding Standard). */
  ghost predicate TextRoundTrips(p: Primitives) {
    forall text :: p.textDecode(p.textEncode(text)) == StripBom(text)
  }

  /** AES-CBC refuses an IV whose length is not 16 bytes. */
  ghost predicate CbcRejectsBadIv(p: Primitives) {
    forall key, iv, ct :: |iv| != IV_LENGTH ==> p.cbcDecrypt(key, iv, ct) == None
  }

  // ---------------------------------------------------------------------
  // Byte layout of the frame
  // ---------------------------------------------------------------------

  /** The frame: the IV at offset 0, the ciphertext right after it. */
  function Frame(iv: seq<bv8>, ciphertext: seq<bv8>): (buffer: seq<bv8>)
    ensures |buffer| == |iv| + |ciphertext|
    ensures buffer[..|iv|] == iv
    ensures buffer[|iv|..] == ciphertext
  {
    iv + ciphertext
  }

  /** `slice(0, 16)` and `slice(16)` of a buffer: slicing never fails, so a
      buffer shorter than 16 bytes gives a short IV and an empty remainder. */
  function Split(buffer: seq<bv8>): (parts: (seq<bv8>, seq<bv8>))
    ensures |buffer| >= IV_LENGTH ==> |parts.0| == IV_LENGTH
    ensures |buffer| < IV_LENGTH ==> parts.0 == buffer && parts.1 == []
    ensures parts.0 + parts.1 == buffer
  {
    var cut := if |buffer| < IV_LENGTH then |buffer| else IV_LENGTH;
    (buffer[..cut], buffer[cut..])
  }

  /** Splitting a frame built from a 16-byte IV gives back that IV and that ciphertext. */
  lemma SplitFrame(iv: seq<bv8>, ciphertext: seq<bv8>)
    requires |iv| == IV_LENGTH
    ensures Split(Frame(iv, ciphertext)) == (iv, ciphertext)
  {
  }

  /** Every buffer, a short one included, is the frame of its two parts. */
  lemma FrameSplit(buffer: seq<bv8>)
    ensures Frame(Split(buffer).0, Split(buffer).1) == buffer
  {
  }

  /** Allocates the result buffer and copies the IV to offset 0 and the
      ciphertext to offset `|iv|`, as the two `set` calls do. */
  method FrameInPlace(iv: seq<bv8>, ciphertext: seq<bv8>) returns (buffer: array<bv8>)
    ensures fresh(buffer)
    ensures buffer[..] == Frame(iv, ciphertext)
  {
    buffer := new bv8[|iv| + |ciphertext|];
    forall i | 0 <= i < |iv| {
      buffer[i] := iv[i];
    }
    forall i | |iv| <= i < buffer.Length {
      buffer[i] := ciphertext[i - |iv|];
    }
    assert buffer[..] == iv + ciphertext;
  }

  // ---------------------------------------------------------------------
  // Key export and import
  // ---------------------------------------------------------------------

  /** `exportPrvKey`: a null key gives null; any other key is exported as
      PKCS#8 and encoded in base64. */
  function ExportPrvKey(p: Primitives, key: Option<CryptoKey>): (r: Option<string>)
    ensures r == None <==> key == None
    ensures key.Some? ==> r == Some(p.toBase64(p.exportPkcs8(key.value)))
  {
    if key.None? then None
    else Some(p.toBase64(p.exportPkcs8(key.value)))
  }

  /** `exportSymKey`: the raw key bytes in base64. */
  function ExportSymKey(p: Primitives, key: CryptoKey): (s: string)
    ensures Base64RoundTrips(p) ==> p.fromBase64(s) == p.exportRaw(key)
  {
    p.toBase64(p.exportRaw(key))
  }

  /** `importSymKey`: the base64 text decoded and imported as a raw AES-CBC
      key; `None` when the import rejects. */
  function ImportSymKey(p: Primitives, strKey: string): (k: Option<CryptoKey>)
    ensures Base64RoundTrips(p) ==>
      forall raw :: strKey == p.toBase64(raw) ==> k == p.importRaw(raw)
  {
    p.importRaw(p.fromBase64(strKey))
  }

  /** Importing an exported symmetric key gives the same key back. */
  lemma ImportExportSymKey(p: Primitives, key: CryptoKey)
    requires Base64RoundTrips(p) && RawKeyRoundTrips(p)
    ensures ImportSymKey(p, ExportSymKey(p, key)) == Some(key)
  {
  }

  // ---------------------------------------------------------------------
  // The envelope
  // ---------------------------------------------------------------------

  /** What `symEncrypt` returns for a given key, IV and text. */
  function Sealed(p: Primitives, key: CryptoKey, iv: seq<bv8>, data: string): (s: string)
    ensures Base64RoundTrips(p) ==>
      p.fromBase64(s) == Frame(iv, p.cbcEncrypt(key, iv, p.textEncode(data)))
  {
    p.toBase64(Frame(iv, p.cbcEncrypt(key, iv, p.textEncode(data))))
  }

  /** `symEncrypt`: encode the text, encrypt it under a 16-byte IV, frame
      `IV ‖ ciphertext` in a new buffer and return it as base64. */
  method SymEncrypt(p: Primitives, key: CryptoKey, iv: seq<bv8>, data: string) returns (r: string)
    requires |iv| == IV_LENGTH
    ensures r == Sealed(p, key, iv, data)
  {
    var encodedData := p.textEncode(data);
    var encryptedData := p.cbcEncrypt(key, iv, encodedData);
    var resultBuffer := FrameInPlace(iv, encryptedData);
    r := p.toBase64(resultBuffer[..]);
  }

  /** `symDecrypt`: import the key, decode the text, take bytes [0, 16) as
      the IV and the rest as ciphertext, decrypt and decode the text. */
  function SymDecrypt(p: Primitives, strKey: string, encryptedData: string): (r: Result<string>)
    ensures r == Failure(KeyImportFailed) <==> ImportSymKey(p, strKey) == None
    ensures r.Success? ==>
      var (initialV, body) := Split(p.fromBase64(encryptedData));
      exists pt :: p.cbcDecrypt(ImportSymKey(p, strKey).value, initialV, body) == Some(pt) &&
                   r.value == p.textDecode(pt)
    ensures ImportSymKey(p, strKey).Some? ==>
      var (initialV, body) := Split(p.fromBase64(encryptedData));
      (r == Failure(DecryptFailed) <==> p.cbcDecrypt(ImportSymKey(p, strKey).value, initialV, body) == None)
  {
    match ImportSymKey(p, strKey)
    case None => Failure(KeyImportFailed)
    case Some(key) =>
      var (initialV, encryptedDataBuffer) := Split(p.fromBase64(encryptedData));
      match p.cbcDecrypt(key, initialV, encryptedDataBuffer)
      case None => Failure(DecryptFailed)
      case Some(decryptedData) => Success(p.textDecode(decryptedData))
  }

  /** The base64 text `symEncrypt` returns decodes to `IV ‖ ciphertext`:
      the IV is 16 bytes long and is the same IV the cipher was given. */
  lemma SealedLayout(p: Primitives, key: CryptoKey, iv: seq<bv8>, data: string)
    requires |iv| == IV_LENGTH
    requires Base64RoundTrips(p)
    ensures var buffer := p.fromBase64(Sealed(p, key, iv, data));
            var ciphertext := p.cbcEncrypt(key, iv, p.textEncode(data));
            |buffer| == IV_LENGTH + |ciphertext| &&
            buffer[..IV_LENGTH] == iv &&
            buffer[IV_LENGTH..] == ciphertext
  {
  }

  /** `symDecrypt` hands the cipher exactly the IV and ciphertext that
      `symEncrypt` produced. */
  lemma SealedSplit(p: Primitives, key: CryptoKey, iv: seq<bv8>, data: string)
    requires |iv| == IV_LENGTH
    requires Base64RoundTrips(p)
    ensures Split(p.fromBase64(Sealed(p, key, iv, data))) == (iv, p.cbcEncrypt(key, iv, p.textEncode(data)))
  {
    SealedLayout(p, key, iv, data);
    SplitFrame(iv, p.cbcEncrypt(key, iv, p.textEncode(data)));
  }

  /** Decrypting with the exported key what `symEncrypt` produced gives back
      the text as the text decoder reads the encoder's bytes: the text itself,
      less a leading byte order mark. */
  lemma SymRoundTrip(p: Primitives, key: CryptoKey, iv: seq<bv8>, data: string)
    requires |iv| == IV_LENGTH
    requires Base64RoundTrips(p) && RawKeyRoundTrips(p) && CbcInverts(p)
    ensures SymDecrypt(p, ExportSymKey(p, key), Sealed(p, key, iv, data)) ==
            Success(p.textDecode(p.textEncode(data)))
    ensures TextRoundTrips(p) ==>
            SymDecrypt(p, ExportSymKey(p, key), Sealed(p, key, iv, data)) == Success(StripBom(data))
  {
    ImportExportSymKey(p, key);
    SealedSplit(p, key, iv, data);
  }

  /** A frame shorter than the IV cannot be decrypted: its IV is short. */
  lemma ShortFrameRejected(p: Primitives, strKey: string, encryptedData: string)
    requires CbcRejectsBadIv(p)
    requires ImportSymKey(p, strKey).Some?
    requires |p.fromBase64(encryptedData)| < IV_LENGTH
    ensures SymDecrypt(p, strKey, encryptedData) == Failure(DecryptFailed)
  {
  }
}
