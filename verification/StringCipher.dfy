/**
 `StringEncryptedBase64` (src/crypto_ip.c): a string, padded with zeros, goes through the cipher in
 ECB mode and comes out in base64, in buffers that grow and stay between calls.
 */
module StringCipher {
  import opened AesCipher
  import opened Rijndael
  import opened SextetCode
  import opened Base64
  import L = KeyAlternating

  const SE_BUFFER_SIZE: nat := 80
  const SE_BUFFER_SIZE_B64: nat := 120

  function PaddedLen(n: nat): (p: nat)
    ensures n <= p < n + 16 && p % 16 == 0
  {
    if n % 16 == 0 then n else 16 * (1 + n / 16)
  }

  function Padded(s: seq<bv8>): (p: seq<bv8>)
    ensures |p| == PaddedLen(|s|)
  {
    s + seq(PaddedLen(|s|) - |s|, _ => 0)
  }

  /** The padded string is the one string that starts with the given one, goes on with zeros only, and ends at the
      next multiple of sixteen bytes. */
  lemma PaddedExact(s: seq<bv8>, p: seq<bv8>)
    ensures p == Padded(s) <==>
      && |s| <= |p| < |s| + 16 && |p| % 16 == 0
      && forall i :: 0 <= i < |p| ==> p[i] == if i < |s| then s[i] else 0
  {
    var q := Padded(s);
    assert forall i :: 0 <= i < |q| ==> q[i] == if i < |s| then s[i] else 0;
    if |s| <= |p| < |s| + 16 && |p| % 16 == 0 {
      assert |p| == |q|;
    }
  }

  /** A string without nulls, as it stands at the start of a buffer. */
  ghost predicate Holds(b: seq<bv8>, s: seq<bv8>) {
    |s| < |b| && b[..|s|] == s && b[|s|] == 0
  }

  /** `strncpy` of a string without nulls: at most n bytes of it, then nulls up to n. */
  method StrNCpy(dst: array<bv8>, src: seq<bv8>, n: nat)
    requires n <= dst.Length
    modifies dst
    ensures forall i :: 0 <= i < dst.Length ==>
      dst[i] == if i < n then (if i < |src| then src[i] else 0) else old(dst[i])
  {
    for i := 0 to n
      invariant forall j :: 0 <= j < dst.Length ==>
        dst[j] == if j < i then (if j < |src| then src[j] else 0) else old(dst[j])
    {
      dst[i] := if i < |src| then src[i] else 0;
    }
  }

  method Clear(a: array<bv8>)
    modifies a
    ensures forall i :: 0 <= i < a.Length ==> a[i] == 0
  {
    for i := 0 to a.Length
      invariant forall j :: 0 <= j < i ==> a[j] == 0
    {
      a[i] := 0;
    }
  }

  /** The base64 form of what fits the input buffer fits the result buffer. */
  lemma ResultFits(times: nat, n: nat)
    requires times > 0 && n <= 80 * times
    ensures 4 * ((n + 2) / 3) < 120 * times - 1
  {
  }

  /** The length in bits of n blocks. */
  lemma WholeBlocks(n: nat)
    ensures 16 * n * 8 / 128 == n
  {
  }

  /** A cipher initialised for encryption in ECB mode. */
  ghost predicate ForEncryption(c: Cipher)
    reads c
  {
    c.Shape() && 2 <= c.rounds < 15 && c.mode == ECB && c.state == State.Valid && c.direction == Rijndael.ENCRYPT
  }

  /** The static buffers. */
  class Buffers {
    var inBuffer: array<bv8>
    var encOutBuffer: array<bv8>
    var b64Result: array<bv8>
    var inBufferSize: nat
    var encOutBufferSize: nat
    var b64ResultSize: nat
    ghost var times: nat

    ghost predicate Valid()
      reads this
    {
      && times > 0
      && inBuffer.Length == inBufferSize == SE_BUFFER_SIZE * times
      && encOutBuffer.Length == encOutBufferSize == SE_BUFFER_SIZE * times
      && b64Result.Length == b64ResultSize == SE_BUFFER_SIZE_B64 * times
      && inBuffer != encOutBuffer && inBuffer != b64Result && encOutBuffer != b64Result
    }

    /** The first call allocates. */
    constructor ()
      ensures Valid() && fresh(inBuffer) && fresh(encOutBuffer) && fresh(b64Result)
      ensures inBuffer.Length == encOutBuffer.Length == 80 && b64Result.Length == 120
    {
      inBuffer := new bv8[SE_BUFFER_SIZE];
      encOutBuffer := new bv8[SE_BUFFER_SIZE];
      b64Result := new bv8[SE_BUFFER_SIZE_B64];
      inBufferSize, encOutBufferSize, b64ResultSize, times := SE_BUFFER_SIZE, SE_BUFFER_SIZE, SE_BUFFER_SIZE_B64, 1;
    }

    /** The buffers are replaced by larger ones when the padded string might not fit. */
    method Grow(inputLen: nat)
      requires Valid()
      modifies this
      ensures Valid() && inputLen + 15 <= inBufferSize
      ensures inBufferSize ==
        if inputLen + 15 > old(inBufferSize) then 80 * (1 + (inputLen + 15) / 80) else old(inBufferSize)
      ensures (inBuffer == old(inBuffer) && encOutBuffer == old(encOutBuffer) && b64Result == old(b64Result))
        || (fresh(inBuffer) && fresh(encOutBuffer) && fresh(b64Result))
    {
      if inputLen + 15 > inBufferSize {
        var t := 1 + (inputLen + 15) / SE_BUFFER_SIZE;
        inBuffer := new bv8[t * SE_BUFFER_SIZE];
        inBufferSize := t * SE_BUFFER_SIZE;
        encOutBuffer := new bv8[t * SE_BUFFER_SIZE];
        encOutBufferSize := t * SE_BUFFER_SIZE;
        b64Result := new bv8[t * SE_BUFFER_SIZE_B64];
        b64ResultSize := t * SE_BUFFER_SIZE_B64;
        times := t;
      }
    }

    /** The string and its padding. */
    method Load(text: seq<bv8>)
      requires Valid() && |text| + 15 <= inBufferSize
      modifies inBuffer, encOutBuffer, b64Result
      ensures inBuffer[..PaddedLen(|text|)] == Padded(text)
      ensures forall i :: 0 <= i < b64Result.Length ==> b64Result[i] == 0
    {
      Clear(inBuffer);
      Clear(encOutBuffer);
      Clear(b64Result);
      StrNCpy(inBuffer, text, inBufferSize - 1);
    }

    /** The base64 form of the first n bytes of the cipher's output. */
    method Unload(n: nat, ghost c: seq<bv8>)
      requires Valid() && n <= encOutBufferSize && c == encOutBuffer[..n]
      requires forall i :: 0 <= i < b64Result.Length ==> b64Result[i] == 0
      modifies b64Result
      ensures Holds(b64Result[..], Encode(B64, c))
    {
      B64Laws();
      EncodeNeverZero(B64, 0, c);
      EncodeLength(B64, c);
      ResultFits(times, n);
      var b64EncString, flen := EncodeBuffer(B64, encOutBuffer, n);
      StrNCpy(b64Result, b64EncString[..flen], b64ResultSize - 1);
    }

    /** `blockEncrypt` on n blocks of the input buffer. */
    method RunBlocks(self: Cipher, paddedLen: nat, ghost n: nat, ghost input: seq<bv8>, ghost f: seq<bv8> -> seq<bv8>)
      returns (retval: int)
      requires Valid() && ForEncryption(self) && paddedLen == 16 * n <= inBufferSize && input == inBuffer[..]
      requires Sealed(f, Encryptor(self.layers, self.Keys()))
      modifies encOutBuffer
      ensures retval == 8 * paddedLen && (n > 0 ==> IsEcb(f, input, encOutBuffer[..], n))
    {
      Unseal(f, Encryptor(self.layers, self.Keys()));
      WholeBlocks(n);
      retval := self.BlockEncrypt(inBuffer, paddedLen * 8, encOutBuffer);
    }

    /** `blockEncrypt` on the padded string. */
    method RunCipher(self: Cipher, paddedLen: nat, ghost p: seq<bv8>, ghost f: seq<bv8> -> seq<bv8>)
      returns (retval: int, ghost c: seq<bv8>)
      requires Valid() && ForEncryption(self) && paddedLen % 16 == 0
      requires Sealed(f, Encryptor(self.layers, self.Keys()))
      requires paddedLen <= inBufferSize && p == inBuffer[..paddedLen]
      modifies encOutBuffer
      ensures retval / 8 == paddedLen && c == encOutBuffer[..paddedLen]
      ensures IsEcb(f, p, c, paddedLen / 16)
    {
      ghost var input := inBuffer[..];
      retval := RunBlocks(self, paddedLen, paddedLen / 16, input, f);
      c := encOutBuffer[..paddedLen];
      EcbPrefix(f, input, encOutBuffer[..], p, c, paddedLen / 16);
    }

    /** The base64 form of the encryption of what has been loaded. */
    method Produce(self: Cipher, paddedLen: nat, ghost p: seq<bv8>, ghost f: seq<bv8> -> seq<bv8>)
      returns (ghost c: seq<bv8>)
      requires Valid() && ForEncryption(self) && paddedLen % 16 == 0
      requires Sealed(f, Encryptor(self.layers, self.Keys()))
      requires paddedLen <= inBufferSize && p == inBuffer[..paddedLen]
      requires forall i :: 0 <= i < b64Result.Length ==> b64Result[i] == 0
      modifies encOutBuffer, b64Result
      ensures |c| == paddedLen && IsEcb(f, p, c, paddedLen / 16)
      ensures Holds(b64Result[..], Encode(B64, c))
    {
      var retval;
      retval, c := RunCipher(self, paddedLen, p, f);
      Unload(retval / 8, c);
    }

    /** `StringEncryptedBase64`: f is the cipher under the keys in use, c its output. */
    method Encrypt(self: Cipher, text: seq<bv8>, ghost f: seq<bv8> -> seq<bv8>) returns (ghost c: seq<bv8>)
      requires Valid() && 0 !in text
      requires ForEncryption(self) && Sealed(f, Encryptor(self.layers, self.Keys()))
      modifies this, inBuffer, encOutBuffer, b64Result
      ensures Valid() && |c| == PaddedLen(|text|)
      ensures (inBuffer == old(inBuffer) && encOutBuffer == old(encOutBuffer) && b64Result == old(b64Result))
        || (fresh(inBuffer) && fresh(encOutBuffer) && fresh(b64Result))
      ensures IsEcb(f, Padded(text), c, |c| / 16)
      ensures Holds(b64Result[..], Encode(B64, c))
    {
      var inputLen := |text|;
      Grow(inputLen);
      Load(text);
      var paddedLen := if inputLen % 16 == 0 then inputLen else 16 * (1 + inputLen / 16);
      c := Produce(self, paddedLen, Padded(text), f);
    }
  }

  /** What ECB does to the start of a buffer depends on that start only. */
  lemma EcbPrefix(f: seq<bv8> -> seq<bv8>, s: seq<bv8>, r: seq<bv8>, s': seq<bv8>, r': seq<bv8>, n: nat)
    requires |s'| == |r'| == 16 * n <= |s| && |r'| <= |r| && s' == s[..|s'|] && r' == r[..|r'|]
    requires n > 0 ==> IsEcb(f, s, r, n)
    ensures IsEcb(f, s', r', n)
  {
    assert Blocks(n);
    forall k: nat {:trigger Piece(r', k)} | k < n ensures Piece(r', k) == f(Piece(s', k)) {
      SamePiece(s, s', k);
      SamePiece(r, r', k);
    }
  }

  // ----- One string after the other -----

  // Triggers of `Answers` and `Does`, so that they unfold only where a proof asks.
  ghost predicate Ask(n: nat) { true }
  ghost predicate AskCipher(n: nat) { true }

  /** r is what the result buffer holds after a call for the text, and c what the cipher made of it. */
  ghost predicate Answers(f: seq<bv8> -> seq<bv8>, text: seq<bv8>, r: seq<bv8>, c: seq<bv8>) {
    forall m {:trigger Ask(m)} :: Ask(m) && m == |c| ==>
      |c| == PaddedLen(|text|) && IsEcb(f, Padded(text), c, |c| / 16) && Holds(r, Encode(B64, c))
  }

  lemma OpenAnswers(f: seq<bv8> -> seq<bv8>, text: seq<bv8>, r: seq<bv8>, c: seq<bv8>)
    requires Answers(f, text, r, c)
    ensures |c| == PaddedLen(|text|) && IsEcb(f, Padded(text), c, |c| / 16) && Holds(r, Encode(B64, c))
  {
    assert Ask(|c|);
  }

  /** The cipher is initialised for encryption, and does f to a block. */
  ghost predicate Does(self: Cipher, f: seq<bv8> -> seq<bv8>)
    reads self, self.expandedKey
  {
    forall m {:trigger AskCipher(m)} :: AskCipher(m) && m == self.rounds ==>
      ForEncryption(self) && Sealed(f, Encryptor(self.layers, self.Keys()))
  }

  method EncryptText(buffers: Buffers, self: Cipher, text: seq<bv8>, ghost f: seq<bv8> -> seq<bv8>)
    returns (r: seq<bv8>, ghost c: seq<bv8>)
    requires buffers.Valid() && 0 !in text && Does(self, f)
    modifies buffers, buffers.inBuffer, buffers.encOutBuffer, buffers.b64Result
    ensures buffers.Valid() && Answers(f, text, r, c)
    ensures (buffers.inBuffer == old(buffers.inBuffer) && buffers.encOutBuffer == old(buffers.encOutBuffer)
             && buffers.b64Result == old(buffers.b64Result))
      || (fresh(buffers.inBuffer) && fresh(buffers.encOutBuffer) && fresh(buffers.b64Result))
  {
    assert AskCipher(self.rounds);
    c := buffers.Encrypt(self, text, f);
    r := buffers.b64Result[..];
  }

  ghost predicate AllAnswers(f: seq<bv8> -> seq<bv8>, texts: seq<seq<bv8>>, out: seq<seq<bv8>>, cs: seq<seq<bv8>>) {
    |out| == |cs| == |texts|
      && forall i {:trigger texts[i]} {:trigger out[i]} :: 0 <= i < |texts| ==> Answers(f, texts[i], out[i], cs[i])
  }

  lemma AnswersFirst(f: seq<bv8> -> seq<bv8>, texts: seq<seq<bv8>>, r: seq<bv8>, c: seq<bv8>, out: seq<seq<bv8>>,
                     cs: seq<seq<bv8>>)
    requires texts != [] && Answers(f, texts[0], r, c) && AllAnswers(f, texts[1..], out, cs)
    ensures AllAnswers(f, texts, [r] + out, [c] + cs)
  {
    forall i {:trigger texts[i]} | 0 <= i < |texts| ensures Answers(f, texts[i], ([r] + out)[i], ([c] + cs)[i]) {
      if i > 0 {
        assert texts[1..][i - 1] == texts[i];
      }
    }
  }

  /** The calls of a run, with the same buffers. */
  method EncryptEach(buffers: Buffers, self: Cipher, texts: seq<seq<bv8>>, ghost f: seq<bv8> -> seq<bv8>)
    returns (out: seq<seq<bv8>>, ghost cs: seq<seq<bv8>>)
    requires buffers.Valid() && Does(self, f) && forall i :: 0 <= i < |texts| ==> 0 !in texts[i]
    modifies buffers, buffers.inBuffer, buffers.encOutBuffer, buffers.b64Result
    ensures AllAnswers(f, texts, out, cs)
    decreases |texts|
  {
    if texts == [] {
      out, cs := [], [];
    } else {
      var r; ghost var c;
      r, c := EncryptText(buffers, self, texts[0], f);
      var rest; ghost var restC;
      rest, restC := EncryptEach(buffers, self, texts[1..], f);
      AnswersFirst(f, texts, r, c, rest, restC);
      out, cs := [r] + rest, [c] + restC;
    }
  }

  /** A run from the first call on, which allocates the buffers. */
  method Session(self: Cipher, texts: seq<seq<bv8>>, ghost f: seq<bv8> -> seq<bv8>)
    returns (out: seq<seq<bv8>>, ghost cs: seq<seq<bv8>>)
    requires Does(self, f) && forall i :: 0 <= i < |texts| ==> 0 !in texts[i]
    ensures AllAnswers(f, texts, out, cs)
  {
    var buffers := new Buffers();
    out, cs := EncryptEach(buffers, self, texts, f);
  }
}
