/**
 The cipher of src/rijndael.c with the tables of the source: the round trips.
 */
module RijndaelTheorems {
  import opened GfColumns
  import opened AesTables
  import opened AesCipher
  import opened Rijndael
  import opened SourceTables
  import opened SextetCode
  import opened Base64
  import opened StringCipher
  import L = KeyAlternating

  // Trigger of `Encrypts` and `Decrypts`, so that they unfold only where a proof asks.
  ghost predicate Ask(n: nat) { true }

  /** c is the ECB encryption of the first n blocks of s under the expanded key. */
  ghost predicate Encrypts(key: seq<Word<bv8>>, s: seq<bv8>, c: seq<bv8>, n: nat)
    requires |key| in {4, 6, 8}
  {
    16 * n <= |s| && 16 * n <= |c| && forall m {:trigger Ask(m)} :: Ask(m) && m == n ==>
      IsEcb(Encryptor(AesLayers(SOURCE_TABLES), RoundKeys(SOURCE_TABLES, key)), s, c, n)
  }

  /** d is the ECB decryption of the first n blocks of c under the transformed expanded key. */
  ghost predicate Decrypts(key: seq<Word<bv8>>, c: seq<bv8>, d: seq<bv8>, n: nat)
    requires |key| in {4, 6, 8}
  {
    16 * n <= |c| && 16 * n <= |d| && forall m {:trigger Ask(m)} :: Ask(m) && m == n ==>
      var l := AesLayers(SOURCE_TABLES);
      IsEcb(Decryptor(l, L.DecryptionKeys(l, RoundKeys(SOURCE_TABLES, key))), c, d, n)
  }

  /** For every key of 4, 6 or 8 words, every message and every number of blocks: ECB decryption
      undoes ECB encryption. */
  lemma EcbRoundTrip(key: seq<Word<bv8>>, s: seq<bv8>, c: seq<bv8>, d: seq<bv8>, n: nat)
    requires |key| in {4, 6, 8} && Encrypts(key, s, c, n) && Decrypts(key, c, d, n)
    ensures d[..16 * n] == s[..16 * n]
  {
    assert Ask(n);
    SourceTablesSound();
    AesLayersLaws(SOURCE_TABLES);
    EcbInverts(AesLayers(SOURCE_TABLES), RoundKeys(SOURCE_TABLES, key), s, c, d, n);
  }

  /** The tables of the source serve the methods of the cipher object as the round operations. */
  lemma SourceTablesReady()
    ensures Ready(AesLayers(SOURCE_TABLES), SOURCE_TABLES)
  {
    SourceTablesSound();
    AesLayersImplement(SOURCE_TABLES);
  }

  /** A cipher object for the source's tables, initialised for one direction in ECB mode. */
  method Start(dir: int, key: seq<bv8>, keyLen: int) returns (c: Cipher)
    requires dir in {ENCRYPT, DECRYPT} && keyLen in {KEY_16_BYTES, KEY_24_BYTES, KEY_32_BYTES}
      && |key| == 8 * (keyLen + 2)
    ensures c.Shape() && c.state == State.Valid && c.mode == ECB && c.direction == dir && c.rounds == 10 + 2 * keyLen
    ensures c.layers == AesLayers(SOURCE_TABLES) && c.Keys() == KeysInUse(SOURCE_TABLES, c.layers, dir, key)
  {
    SourceTablesReady();
    c := new Cipher(SOURCE_TABLES, AesLayers(SOURCE_TABLES));
    var code := c.Init(ECB, dir, Rijndael.Some(key), keyLen, Rijndael.None);
    assert key[..8 * (keyLen + 2)] == key;
  }

  lemma BitsOfBlocks(n: nat)
    ensures 128 * n / 128 == n && 128 * n / 8 == 16 * n
  {
  }

  ghost function Contents(a: array<bv8>): (s: seq<bv8>)
    reads a
    ensures |s| == a.Length
  {
    a[..]
  }

  method EncryptAll(c: Cipher, message: array<bv8>, ghost s: seq<bv8>, n: nat, out: array<bv8>,
                    ghost f: seq<bv8> -> seq<bv8>)
    requires c.Shape() && c.state == State.Valid && c.mode == ECB && c.direction == ENCRYPT && 2 <= c.rounds < 15
    requires Contents(message) == s && |s| == out.Length == 16 * n && f == Encryptor(c.layers, c.Keys())
    modifies out
    ensures IsEcb(f, s, out[..], n)
  {
    BitsOfBlocks(n);
    var code := c.BlockEncrypt(message, 128 * n, out);
  }

  /** What a cipher object initialised with a key to encrypt does to a block. */
  ghost function EncryptorOf(key: seq<bv8>): seq<bv8> -> seq<bv8>
    requires |key| in {16, 24, 32}
  {
    Encryptor(AesLayers(SOURCE_TABLES), KeysInUse(SOURCE_TABLES, AesLayers(SOURCE_TABLES), ENCRYPT, key))
  }

  /** f is that, a fact used only where a proof asks for it. */
  ghost predicate IsEncryptor(f: seq<bv8> -> seq<bv8>, key: seq<bv8>) {
    |key| in {16, 24, 32} && forall m {:trigger Ask(m)} :: Ask(m) && m == |key| ==> f == EncryptorOf(key)
  }

  method StartToEncrypt(key: seq<bv8>, keyLen: int) returns (c: Cipher, ghost f: seq<bv8> -> seq<bv8>)
    requires keyLen in {KEY_16_BYTES, KEY_24_BYTES, KEY_32_BYTES} && |key| == 8 * (keyLen + 2)
    ensures c.Shape() && c.state == State.Valid && c.mode == ECB && c.direction == ENCRYPT
      && c.rounds == 10 + 2 * keyLen
    ensures f == Encryptor(c.layers, c.Keys()) && IsEncryptor(f, key)
  {
    c := Start(ENCRYPT, key, keyLen);
    f := EncryptorOf(key);
  }

  lemma EncryptsIs(f: seq<bv8> -> seq<bv8>, key: seq<bv8>, s: seq<bv8>, c: seq<bv8>, n: nat)
    requires 16 * n <= |s| && 16 * n <= |c|
    requires IsEncryptor(f, key) && IsEcb(f, s, c, n)
    ensures Encrypts(KeyWords(key), s, c, n)
  {
    assert Ask(|key|);
  }

  method DecryptAll(c: Cipher, input: array<bv8>, ghost s: seq<bv8>, n: nat, out: array<bv8>,
                    ghost f: seq<bv8> -> seq<bv8>)
    requires c.Shape() && c.state == State.Valid && c.mode == ECB && c.direction == DECRYPT && 2 <= c.rounds < 15
    requires Contents(input) == s && |s| == out.Length == 16 * n && f == Decryptor(c.layers, c.Keys())
    modifies out
    ensures IsEcb(f, s, out[..], n)
  {
    BitsOfBlocks(n);
    var code := c.BlockDecrypt(input, 128 * n, out);
  }

  /** What a cipher object initialised with a key to decrypt does to a block. */
  ghost function DecryptorOf(key: seq<bv8>): seq<bv8> -> seq<bv8>
    requires |key| in {16, 24, 32}
  {
    Decryptor(AesLayers(SOURCE_TABLES), KeysInUse(SOURCE_TABLES, AesLayers(SOURCE_TABLES), DECRYPT, key))
  }

  /** f is that, a fact used only where a proof asks for it. */
  ghost predicate IsDecryptor(f: seq<bv8> -> seq<bv8>, key: seq<bv8>) {
    |key| in {16, 24, 32} && forall m {:trigger Ask(m)} :: Ask(m) && m == |key| ==> f == DecryptorOf(key)
  }

  method StartToDecrypt(key: seq<bv8>, keyLen: int) returns (c: Cipher, ghost f: seq<bv8> -> seq<bv8>)
    requires keyLen in {KEY_16_BYTES, KEY_24_BYTES, KEY_32_BYTES} && |key| == 8 * (keyLen + 2)
    ensures c.Shape() && c.state == State.Valid && c.mode == ECB && c.direction == DECRYPT
      && c.rounds == 10 + 2 * keyLen
    ensures f == Decryptor(c.layers, c.Keys()) && IsDecryptor(f, key)
  {
    c := Start(DECRYPT, key, keyLen);
    f := DecryptorOf(key);
  }

  lemma DecryptsIs(f: seq<bv8> -> seq<bv8>, key: seq<bv8>, s: seq<bv8>, c: seq<bv8>, n: nat)
    requires 16 * n <= |s| && 16 * n <= |c|
    requires IsDecryptor(f, key) && IsEcb(f, s, c, n)
    ensures Decrypts(KeyWords(key), s, c, n)
  {
    assert Ask(|key|);
  }

  /** `rijndael_init` to encrypt, and `blockEncrypt` on n blocks. */
  method EncryptBlocks(key: seq<bv8>, keyLen: int, message: array<bv8>, ghost s: seq<bv8>, n: nat)
    returns (out: array<bv8>)
    requires keyLen in {KEY_16_BYTES, KEY_24_BYTES, KEY_32_BYTES} && |key| == 8 * (keyLen + 2)
      && Contents(message) == s && |s| == 16 * n
    ensures fresh(out) && out.Length == 16 * n && Encrypts(KeyWords(key), s, out[..], n)
  {
    out := new bv8[16 * n](_ => 0);
    var c, f := StartToEncrypt(key, keyLen);
    EncryptAll(c, message, s, n, out, f);
    EncryptsIs(f, key, s, out[..], n);
  }

  /** `rijndael_init` to decrypt, and `blockDecrypt` on n blocks. */
  method DecryptBlocks(key: seq<bv8>, keyLen: int, input: array<bv8>, ghost s: seq<bv8>, n: nat)
    returns (out: array<bv8>)
    requires keyLen in {KEY_16_BYTES, KEY_24_BYTES, KEY_32_BYTES} && |key| == 8 * (keyLen + 2) && Contents(input) == s
      && |s| == 16 * n
    ensures fresh(out) && out.Length == 16 * n && Decrypts(KeyWords(key), s, out[..], n)
  {
    out := new bv8[16 * n](_ => 0);
    var c, f := StartToDecrypt(key, keyLen);
    DecryptAll(c, input, s, n, out, f);
    DecryptsIs(f, key, s, out[..], n);
  }

  lemma DecryptedIsMessage(key: seq<bv8>, s: seq<bv8>, c: seq<bv8>, d: seq<bv8>, n: nat)
    requires |key| in {16, 24, 32} && |s| == |d| == 16 * n
    requires Encrypts(KeyWords(key), s, c, n) && Decrypts(KeyWords(key), c, d, n)
    ensures d == s
  {
    EcbRoundTrip(KeyWords(key), s, c, d, n);
    WholePrefix(d, s, 16 * n);
  }

  /** Two cipher objects, one for each direction: for every key length and every number of blocks,
      what the one encrypts the other decrypts to the message. */
  method EncryptThenDecrypt(key: seq<bv8>, keyLen: int, message: array<bv8>, n: nat) returns (out: array<bv8>)
    requires keyLen in {KEY_16_BYTES, KEY_24_BYTES, KEY_32_BYTES} && |key| == 8 * (keyLen + 2)
      && message.Length == 16 * n
    ensures fresh(out) && out[..] == old(message[..])
  {
    var encrypted := EncryptBlocks(key, keyLen, message, Contents(message), n);
    ghost var c := Contents(encrypted);
    out := DecryptBlocks(key, keyLen, encrypted, c, n);
    DecryptedIsMessage(key, old(message[..]), c, out[..], n);
  }

  lemma WholePrefix<T>(d: seq<T>, p: seq<T>, n: nat)
    requires |d| == |p| == n && d[..n] == p[..n]
    ensures d == p
  {
    assert d[..n] == d && p[..n] == p;
  }

  /** For every key and every non-empty string, what `StringEncryptedBase64` returns decodes to the
      cipher's output, and that decrypts to the string with its zero padding. */
  lemma StringRoundTrip(key: seq<Word<bv8>>, text: seq<bv8>, c: seq<bv8>, d: seq<bv8>, n: nat)
    requires |key| in {4, 6, 8} && text != [] && |c| == |d| == |Padded(text)| == 16 * n
    requires Encrypts(key, Padded(text), c, n) && Decrypts(key, c, d, n)
    ensures |Encode(B64, c)| >= 4 && Decode(B64, Encode(B64, c)) == c
    ensures d == Padded(text)
  {
    Base64RoundTrip(c);
    EcbRoundTrip(key, Padded(text), c, d, n);
    WholePrefix(d, Padded(text), 16 * n);
  }

  /** r starts with the base64 form of c, and c is the encryption of the padded text under the key. */
  ghost predicate Encoded(key: seq<bv8>, text: seq<bv8>, r: seq<bv8>, c: seq<bv8>) {
    |key| in {16, 24, 32} && forall m {:trigger Ask(m)} :: Ask(m) && m == |c| ==>
      && |c| == |Padded(text)| && Encrypts(KeyWords(key), Padded(text), c, |c| / 16)
      && StringCipher.Holds(r, Encode(B64, c))
  }

  lemma OpenEncoded(key: seq<bv8>, text: seq<bv8>, r: seq<bv8>, c: seq<bv8>)
    requires Encoded(key, text, r, c)
    ensures |c| == |Padded(text)| && Encrypts(KeyWords(key), Padded(text), c, |c| / 16)
    ensures |KeyWords(key)| in {4, 6, 8} && StringCipher.Holds(r, Encode(B64, c))
  {
    assert Ask(|c|);
  }

  lemma PaddedInBlocks(text: seq<bv8>)
    ensures |Padded(text)| == 16 * (|Padded(text)| / 16)
  {
    assert |Padded(text)| == PaddedLen(|text|);
  }

  /** What a buffer holds after a call reads back: it decodes to the encryption, and that decrypts to the
      padded text. */
  lemma EncodedReadsBack(key: seq<bv8>, text: seq<bv8>, r: seq<bv8>, c: seq<bv8>, d: seq<bv8>)
    requires Encoded(key, text, r, c) && text != [] && |d| == |c| && Decrypts(KeyWords(key), c, d, |c| / 16)
    ensures var code := Encode(B64, c);
      StringCipher.Holds(r, code) && |code| >= 4 && Decode(B64, code) == c && d == Padded(text)
  {
    OpenEncoded(key, text, r, c);
    PaddedInBlocks(text);
    StringRoundTrip(KeyWords(key), text, c, d, |c| / 16);
  }

  lemma AnswersEncoded(key: seq<bv8>, f: seq<bv8> -> seq<bv8>, text: seq<bv8>, r: seq<bv8>, c: seq<bv8>)
    requires IsEncryptor(f, key) && Answers(f, text, r, c)
    ensures Encoded(key, text, r, c)
  {
    OpenAnswers(f, text, r, c);
    EncryptsIs(f, key, Padded(text), c, |c| / 16);
  }

  /** r starts with the base64 form of an encryption of the padded text. */
  ghost predicate IsEncoded(key: seq<bv8>, text: seq<bv8>, r: seq<bv8>) {
    exists c :: Encoded(key, text, r, c)
  }

  lemma AnswersAreEncoded(key: seq<bv8>, f: seq<bv8> -> seq<bv8>, text: seq<bv8>, r: seq<bv8>, c: seq<bv8>)
    requires IsEncryptor(f, key) && Answers(f, text, r, c)
    ensures IsEncoded(key, text, r)
  {
    AnswersEncoded(key, f, text, r, c);
    assert Encoded(key, text, r, c);
  }

  /** `StringEncryptedBase64` on one text after the other, with the same cipher and the same buffers,
      which grow as needed. */
  method StringSession(key: seq<bv8>, keyLen: int, texts: seq<seq<bv8>>) returns (out: seq<seq<bv8>>)
    requires keyLen in {KEY_16_BYTES, KEY_24_BYTES, KEY_32_BYTES} && |key| == 8 * (keyLen + 2)
    requires forall i :: 0 <= i < |texts| ==> 0 !in texts[i]
    ensures |out| == |texts| && forall i :: 0 <= i < |texts| ==> IsEncoded(key, texts[i], out[i])
  {
    ghost var cs;
    var self, f := StartToEncrypt(key, keyLen);
    assert Does(self, f);
    out, cs := StringCipher.Session(self, texts, f);
    forall i | 0 <= i < |texts| ensures IsEncoded(key, texts[i], out[i]) {
      AnswersAreEncoded(key, f, texts[i], out[i], cs[i]);
    }
  }
}
