/**
 * The `encrypt` and `decrypt` functions of the application (aes.py): the passphrase-to-key
 * step, PKCS#7 padding, AES-CBC and the Base64 framing `IV(16) || ciphertext` of one field.
 * The random IV of `encrypt` is a parameter; the block cipher is the parameter of Cbc.
 */
module FieldCipher {
  import opened Bytes
  import opened Wrappers
  import Utf8
  import Base64
  import Pkcs7
  import Cbc

  const KeySize: nat := 16

  /** `b.ljust(width, fill)`: b padded on the right with `fill` up to `width` bytes, unchanged when already that long. */
  function Ljust(b: seq<byte>, width: nat, fill: byte): (r: seq<byte>)
    ensures |r| == if |b| < width then width else |b|
    ensures r[..|b|] == b
    ensures forall i :: |b| <= i < |r| ==> r[i] == fill
  {
    if |b| < width then b + seq(width - |b|, _ => fill) else b
  }

  /** The AES key of a passphrase: its UTF-8 bytes, right-filled with zero bytes to 16 and cut to 16. */
  function DeriveKey(passphrase: string): (k: Cbc.Key)
    ensures var b := Utf8.Encode(passphrase);
      forall i :: 0 <= i < KeySize ==> k[i] == if i < |b| then b[i] else 0
  {
    Ljust(Utf8.Encode(passphrase), KeySize, 0)[..KeySize]
  }

  /** The empty passphrase gives the all-zero key. */
  lemma DeriveKeyEmpty()
    ensures DeriveKey("") == Zeros(KeySize)
  {
    assert Utf8.Encode("") == [];
  }

  /** A passphrase shorter than 16 bytes is its bytes followed by zero bytes. */
  lemma DeriveKeyShort(passphrase: string)
    requires |Utf8.Encode(passphrase)| < KeySize
    ensures var b := Utf8.Encode(passphrase);
      DeriveKey(passphrase) == b + Zeros(KeySize - |b|)
  {
  }

  /** Only the first 16 bytes of a passphrase matter: longer passphrases that share them share the key. */
  lemma DeriveKeyTruncates(p1: string, p2: string)
    requires |Utf8.Encode(p1)| >= KeySize && |Utf8.Encode(p2)| >= KeySize
    requires Utf8.Encode(p1)[..KeySize] == Utf8.Encode(p2)[..KeySize]
    ensures DeriveKey(p1) == DeriveKey(p2)
  {
  }

  /** The zero fill cannot be told from typed NUL characters: appending one to a short passphrase keeps its key. */
  lemma DeriveKeyTrailingNul(passphrase: string)
    requires |Utf8.Encode(passphrase)| < KeySize
    ensures DeriveKey(passphrase + ['\0']) == DeriveKey(passphrase)
  {
    var b := Utf8.Encode(passphrase);
    Utf8.EncodeAppend(passphrase, '\0');
    assert Utf8.Encode(passphrase + ['\0']) == b + [0];
  }

  /** Why a field did not decrypt; the application catches all of these alike. */
  datatype DecryptError =
    | Base64Failed(b64: Base64.Base64Error)  // b64decode raised
    | IvLength                               // AES.new: the IV is not 16 bytes long
    | NotAligned                             // CBC decrypt: data not a multiple of 16 bytes
    | PaddingFailed(pad: Pkcs7.PaddingError) // unpad raised
    | Utf8Failed                             // bytes.decode('utf-8') raised

  /** `encrypt`: Base64 of the IV followed by the CBC encryption of the padded UTF-8 text; the IV is passed in. */
  function Encrypt(c: Cbc.BlockCipher, text: string, passphrase: string, iv: Cbc.Block): string
  {
    Base64.Encode(Seal(c, DeriveKey(passphrase), iv, Utf8.Encode(text)))
  }

  /** The bytes under the Base64 text of a field: the IV, then the CBC encryption of the padded plaintext. */
  function Seal(c: Cbc.BlockCipher, key: Cbc.Key, iv: Cbc.Block, plain: seq<byte>): seq<byte>
  {
    iv + Cbc.Encrypt(c, key, iv, Pkcs7.Pad(plain))
  }

  /** `decrypt`: Base64-decode, split off the 16-byte IV, CBC-decrypt, unpad, UTF-8-decode; or the first step that raised. */
  function Decrypt(c: Cbc.BlockCipher, encrypted: string, passphrase: string): Result<string, DecryptError>
  {
    var key := DeriveKey(passphrase);
    match Base64.Decode(encrypted)
    case Err(e) => Err(Base64Failed(e))
    case Ok(data) => Open(c, key, data)
  }

  /** The steps of `decrypt` after Base64: the IV split, CBC decryption, unpadding and UTF-8 decoding. */
  function Open(c: Cbc.BlockCipher, key: Cbc.Key, data: seq<byte>): Result<string, DecryptError>
  {
    var cut := if |data| < BlockSize then |data| else BlockSize;
    var iv, ciphertext := data[..cut], data[cut..];
    if |iv| != BlockSize then Err(IvLength)
    else if |ciphertext| % BlockSize != 0 then Err(NotAligned)
    else
      match Pkcs7.Unpad(Cbc.Decrypt(c, key, iv, ciphertext))
      case Err(e) => Err(PaddingFailed(e))
      case Ok(plain) =>
        match Utf8.Decode(plain)
        case None => Err(Utf8Failed)
        case Some(text) => Ok(text)
  }

  /** The sealed bytes are the IV followed by the padded plaintext's length in ciphertext. */
  lemma SealFrame(c: Cbc.BlockCipher, key: Cbc.Key, iv: Cbc.Block, plain: seq<byte>)
    ensures var data := Seal(c, key, iv, plain);
      && |data| >= 2 * BlockSize && |data| % BlockSize == 0
      && data[..BlockSize] == iv
      && |data| - BlockSize == |Pkcs7.Pad(plain)|
  {
    var padded := Pkcs7.Pad(plain);
    var data := Seal(c, key, iv, plain);
    assert data[..BlockSize] == iv;
    assert |data| == BlockSize + |padded|;
    AlignedAfterIv(|padded|);
  }

  lemma AlignedAfterIv(n: nat)
    requires n % BlockSize == 0
    ensures (BlockSize + n) % BlockSize == 0
  {
  }

  /** An encrypted field is the Base64 text of the IV followed by a non-empty, block-aligned ciphertext. */
  lemma EncryptFrame(c: Cbc.BlockCipher, text: string, passphrase: string, iv: Cbc.Block)
    ensures var d := Base64.Decode(Encrypt(c, text, passphrase, iv));
      && d.Ok?
      && |d.value| >= 2 * BlockSize && |d.value| % BlockSize == 0
      && d.value == Seal(c, DeriveKey(passphrase), iv, Utf8.Encode(text))
      && d.value[..BlockSize] == iv
      && d.value[BlockSize..] == Cbc.Encrypt(c, DeriveKey(passphrase), iv, Pkcs7.Pad(Utf8.Encode(text)))
      && |d.value| - BlockSize == |Pkcs7.Pad(Utf8.Encode(text))|
  {
    var data := Seal(c, DeriveKey(passphrase), iv, Utf8.Encode(text));
    Base64.DecodeEncode(data);
    SealFrame(c, DeriveKey(passphrase), iv, Utf8.Encode(text));
  }

  /** Opening sealed bytes under the same key gives back the text. */
  lemma OpenSeal(c: Cbc.BlockCipher, key: Cbc.Key, iv: Cbc.Block, text: string)
    requires Cbc.Inverts(c)
    ensures Open(c, key, Seal(c, key, iv, Utf8.Encode(text))) == Ok(text)
  {
    var plain := Pkcs7.Pad(Utf8.Encode(text));
    var ciphertext := Cbc.Encrypt(c, key, iv, plain);
    var data := Seal(c, key, iv, Utf8.Encode(text));
    assert data[..BlockSize] == iv && data[BlockSize..] == ciphertext;
    Cbc.DecryptEncrypt(c, key, iv, plain);
    Pkcs7.UnpadPad(Utf8.Encode(text));
    Utf8.DecodeEncode(text);
  }

  /** `decrypt(encrypt(t, k), k) == t`, for every text and passphrase, given a block cipher that inverts. */
  lemma DecryptEncrypt(c: Cbc.BlockCipher, text: string, passphrase: string, iv: Cbc.Block)
    requires Cbc.Inverts(c)
    ensures Decrypt(c, Encrypt(c, text, passphrase, iv), passphrase) == Ok(text)
  {
    Base64.DecodeEncode(Seal(c, DeriveKey(passphrase), iv, Utf8.Encode(text)));
    OpenSeal(c, DeriveKey(passphrase), iv, text);
  }

  /** Any passphrase with the same derived key decrypts the field: the key, not the passphrase, is the secret. */
  lemma DecryptWithEquivalentPassphrase(c: Cbc.BlockCipher, text: string, p1: string, p2: string, iv: Cbc.Block)
    requires Cbc.Inverts(c) && DeriveKey(p1) == DeriveKey(p2)
    ensures Decrypt(c, Encrypt(c, text, p1, iv), p2) == Ok(text)
  {
    DecryptEncrypt(c, text, p1, iv);
  }

  /** Bytes open only if they hold an IV and at least one whole cipher block. */
  lemma OpenNeedsFrame(c: Cbc.BlockCipher, key: Cbc.Key, data: seq<byte>)
    requires Open(c, key, data).Ok?
    ensures |data| >= 2 * BlockSize && |data| % BlockSize == 0
  {
    var ciphertext := data[BlockSize..];
    assert |Cbc.Decrypt(c, key, data[..BlockSize], ciphertext)| > 0;
    AlignedAfterIv(|ciphertext|);
  }

  /** A field decrypts only if it decodes to an IV and at least one whole cipher block. */
  lemma DecryptNeedsFrame(c: Cbc.BlockCipher, encrypted: string, passphrase: string)
    requires Decrypt(c, encrypted, passphrase).Ok?
    ensures var d := Base64.Decode(encrypted);
      d.Ok? && |d.value| >= 2 * BlockSize && |d.value| % BlockSize == 0
  {
    var d := Base64.Decode(encrypted);
    assert d.Ok?;
    OpenNeedsFrame(c, DeriveKey(passphrase), d.value);
  }

  /** Encryptions under different IVs differ: the IV is the only source of non-determinism. */
  lemma EncryptSeparatesIvs(c: Cbc.BlockCipher, text: string, passphrase: string, iv1: Cbc.Block, iv2: Cbc.Block)
    requires iv1 != iv2
    ensures Encrypt(c, text, passphrase, iv1) != Encrypt(c, text, passphrase, iv2)
  {
    EncryptFrame(c, text, passphrase, iv1);
    EncryptFrame(c, text, passphrase, iv2);
  }

  /** An encrypted field cut short by one to three characters never decrypts, whatever the passphrase. */
  lemma DecryptTruncated(c: Cbc.BlockCipher, text: string, p1: string, p2: string, iv: Cbc.Block, t: int)
    requires 1 <= t <= 3
    ensures var e := Encrypt(c, text, p1, iv);
      Decrypt(c, e[..|e| - t], p2).Err?
  {
    var data := Seal(c, DeriveKey(p1), iv, Utf8.Encode(text));
    assert |data| >= BlockSize;
    Base64.DecodeTruncated(data, t);
    var e := Base64.Encode(data);
    DecryptRejectsBase64(c, e[..|e| - t], p2);
  }

  /** Text the Base64 decoder refuses never decrypts. */
  lemma DecryptRejectsBase64(c: Cbc.BlockCipher, encrypted: string, passphrase: string)
    requires Base64.Decode(encrypted).Err?
    ensures Decrypt(c, encrypted, passphrase) == Err(Base64Failed(Base64.Decode(encrypted).error))
  {
  }
}
