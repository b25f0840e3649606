/** The cipher front end of src/crypto/crypto.c: the method and mode names
    accepted, the cipher each pair selects, the pass-through taken when no
    encryption is requested, and the decisions taken before any cipher
    work. A C string argument is its characters before the terminating NUL,
    None for a NULL pointer. Key derivation (EVP_BytesToKey) and the EVP
    init, update and final calls are OpenSSL's: their outcomes are given as
    parameters. */
module Crypto {
  import opened Bits

  /** The block ciphers named on the command line. */
  datatype Algorithm = Aes128 | Aes192 | Aes256 | DesEde3
  /** The mode names accepted. */
  datatype Mode = Ecb | Cbc | Cfb | Ofb
  /** The EVP mode variants selected: CFB comes with a feedback width. */
  datatype EvpMode = EvpEcb | EvpCbc | EvpCfb128 | EvpCfb64 | EvpOfb
  /** The EVP_CIPHER a pair resolves to, e.g. EVP_aes_128_cbc. */
  datatype Cipher = Cipher(algorithm: Algorithm, evpMode: EvpMode)

  function AlgorithmName(a: Algorithm): string {
    match a
    case Aes128 => "aes128"
    case Aes192 => "aes192"
    case Aes256 => "aes256"
    case DesEde3 => "3des"
  }

  function ModeName(m: Mode): string {
    match m
    case Ecb => "ecb"
    case Cbc => "cbc"
    case Cfb => "cfb"
    case Ofb => "ofb"
  }

  /** is_null_or_empty: a NULL pointer or a string whose first character is the NUL. */
  predicate IsNullOrEmpty(value: Option<string>) {
    value.None? || |value.value| == 0
  }

  /** tolower in the C locale. */
  function ToLower(c: char): char {
    if 'A' <= c <= 'Z' then (c as int + 32) as char else c
  }

  /** strcasecmp(a, b) == 0: same length and the same characters up to ASCII case. */
  predicate EqualsIgnoreCase(a: string, b: string) {
    |a| == |b| && forall i :: 0 <= i < |a| ==> ToLower(a[i]) == ToLower(b[i])
  }

  /** The cipher each of the 16 accepted pairs stands for: CFB is the 128-bit
      feedback variant for AES and the 64-bit one for Triple DES. */
  function EvpCipher(a: Algorithm, m: Mode): (r: Cipher)
    ensures r.algorithm == a
    ensures m == Cfb <==> r.evpMode == EvpCfb128 || r.evpMode == EvpCfb64
    ensures r.evpMode == EvpCfb64 <==> m == Cfb && a == DesEde3
  {
    match m
    case Ecb => Cipher(a, EvpEcb)
    case Cbc => Cipher(a, EvpCbc)
    case Cfb => Cipher(a, if a == DesEde3 then EvpCfb64 else EvpCfb128)
    case Ofb => Cipher(a, EvpOfb)
  }

  /** The mode branch of resolve_cipher for one algorithm. */
  function ResolveMode(a: Algorithm, cipherMode: string): (r: Option<Cipher>)
    ensures r.Some? <==> exists m :: EqualsIgnoreCase(cipherMode, ModeName(m))
    ensures forall m :: EqualsIgnoreCase(cipherMode, ModeName(m)) ==> r == Some(EvpCipher(a, m))
  {
    ModeNamesDistinct(cipherMode);
    if EqualsIgnoreCase(cipherMode, "ecb") then assert ModeName(Ecb) == "ecb"; Some(EvpCipher(a, Ecb))
    else if EqualsIgnoreCase(cipherMode, "cbc") then assert ModeName(Cbc) == "cbc"; Some(EvpCipher(a, Cbc))
    else if EqualsIgnoreCase(cipherMode, "cfb") then assert ModeName(Cfb) == "cfb"; Some(EvpCipher(a, Cfb))
    else if EqualsIgnoreCase(cipherMode, "ofb") then assert ModeName(Ofb) == "ofb"; Some(EvpCipher(a, Ofb))
    else
      assert forall m :: !EqualsIgnoreCase(cipherMode, ModeName(m));
      None
  }

  /** resolve_cipher: no cipher when the method or the mode is NULL or empty;
      otherwise the cipher of the pair whose names match up to case, and no
      cipher for any other pair. */
  function ResolveCipher(cipherMethod: Option<string>, cipherMode: Option<string>): (r: Option<Cipher>)
    ensures r.Some? <==> && !IsNullOrEmpty(cipherMethod) && !IsNullOrEmpty(cipherMode)
                         && (exists a :: EqualsIgnoreCase(cipherMethod.value, AlgorithmName(a)))
                         && (exists m :: EqualsIgnoreCase(cipherMode.value, ModeName(m)))
    ensures forall a, m :: (cipherMethod.Some? && cipherMode.Some? && EqualsIgnoreCase(cipherMethod.value, AlgorithmName(a))
                            && EqualsIgnoreCase(cipherMode.value, ModeName(m))) ==> r == Some(EvpCipher(a, m))
  {
    if IsNullOrEmpty(cipherMethod) || IsNullOrEmpty(cipherMode) then None
    else
      var name := cipherMethod.value;
      AlgorithmNamesDistinct(name);
      if EqualsIgnoreCase(name, "aes128") then
        assert AlgorithmName(Aes128) == "aes128"; ResolveMode(Aes128, cipherMode.value)
      else if EqualsIgnoreCase(name, "aes192") then
        assert AlgorithmName(Aes192) == "aes192"; ResolveMode(Aes192, cipherMode.value)
      else if EqualsIgnoreCase(name, "aes256") then
        assert AlgorithmName(Aes256) == "aes256"; ResolveMode(Aes256, cipherMode.value)
      else if EqualsIgnoreCase(name, "3des") then
        assert AlgorithmName(DesEde3) == "3des"; ResolveMode(DesEde3, cipherMode.value)
      else
        assert forall a :: !EqualsIgnoreCase(name, AlgorithmName(a));
        None
  }

  /** No string matches two algorithm names: they differ in a letter or digit. */
  lemma AlgorithmNamesDistinct(s: string)
    ensures forall a, b :: EqualsIgnoreCase(s, AlgorithmName(a)) && EqualsIgnoreCase(s, AlgorithmName(b)) ==> a == b
  {
    forall a, b | EqualsIgnoreCase(s, AlgorithmName(a)) && EqualsIgnoreCase(s, AlgorithmName(b))
      ensures a == b
    {
      if |s| == 6 {
        assert ToLower(AlgorithmName(a)[5]) == ToLower(s[5]) == ToLower(AlgorithmName(b)[5]);
        assert ToLower(AlgorithmName(a)[4]) == ToLower(s[4]) == ToLower(AlgorithmName(b)[4]);
      }
    }
  }

  /** No string matches two mode names. */
  lemma ModeNamesDistinct(s: string)
    ensures forall m, n :: EqualsIgnoreCase(s, ModeName(m)) && EqualsIgnoreCase(s, ModeName(n)) ==> m == n
  {
    forall m, n | EqualsIgnoreCase(s, ModeName(m)) && EqualsIgnoreCase(s, ModeName(n))
      ensures m == n
    {
      assert ToLower(ModeName(m)[0]) == ToLower(s[0]) == ToLower(ModeName(n)[0]);
      assert ToLower(ModeName(m)[1]) == ToLower(s[1]) == ToLower(ModeName(n)[1]);
    }
  }

  /** Case does not matter: names equal up to case resolve to the same cipher. */
  lemma ResolveCipherIgnoresCase(cipherMethod: string, cipherMethod': string, cipherMode: string, cipherMode': string)
    requires EqualsIgnoreCase(cipherMethod, cipherMethod') && EqualsIgnoreCase(cipherMode, cipherMode')
    ensures ResolveCipher(Some(cipherMethod), Some(cipherMode)) == ResolveCipher(Some(cipherMethod'), Some(cipherMode'))
  {
    forall a | EqualsIgnoreCase(cipherMethod, AlgorithmName(a))
      ensures EqualsIgnoreCase(cipherMethod', AlgorithmName(a))
    {
    }
    forall a | EqualsIgnoreCase(cipherMethod', AlgorithmName(a))
      ensures EqualsIgnoreCase(cipherMethod, AlgorithmName(a))
    {
    }
    forall m | EqualsIgnoreCase(cipherMode, ModeName(m))
      ensures EqualsIgnoreCase(cipherMode', ModeName(m))
    {
    }
    forall m | EqualsIgnoreCase(cipherMode', ModeName(m))
      ensures EqualsIgnoreCase(cipherMode, ModeName(m))
    {
    }
  }

  /** Each of the 16 accepted pairs, spelt as listed, resolves to its cipher. */
  lemma ResolveCipherOfNames(a: Algorithm, m: Mode)
    ensures ResolveCipher(Some(AlgorithmName(a)), Some(ModeName(m))) == Some(EvpCipher(a, m))
  {
    assert EqualsIgnoreCase(AlgorithmName(a), AlgorithmName(a));
    assert EqualsIgnoreCase(ModeName(m), ModeName(m));
  }

  /** Upper case is accepted: "AES128" with "CFB" is 128-bit CFB AES-128,
      "3DES" with "Cfb" is 64-bit CFB Triple DES, "aes" with "cbc" is no cipher. */
  lemma ResolveCipherExamples()
    ensures ResolveCipher(Some("AES128"), Some("CFB")) == Some(Cipher(Aes128, EvpCfb128))
    ensures ResolveCipher(Some("3DES"), Some("Cfb")) == Some(Cipher(DesEde3, EvpCfb64))
    ensures ResolveCipher(Some("aes"), Some("cbc")).None?
  {
    assert EqualsIgnoreCase("AES128", AlgorithmName(Aes128)) && EqualsIgnoreCase("CFB", ModeName(Cfb));
    assert EqualsIgnoreCase("3DES", AlgorithmName(DesEde3)) && EqualsIgnoreCase("Cfb", ModeName(Cfb));
    assert forall a :: !EqualsIgnoreCase("aes", AlgorithmName(a));
  }

  /** crypto_get_iv_length: -1 when the pair does not resolve, otherwise the
      IV length OpenSSL reports for the cipher (`evpIvLength`). */
  function GetIvLength(cipherMethod: Option<string>, cipherMode: Option<string>, evpIvLength: Cipher -> nat): (r: int)
    ensures r == -1 <==> ResolveCipher(cipherMethod, cipherMode).None?
    ensures r >= 0 ==> r == evpIvLength(ResolveCipher(cipherMethod, cipherMode).value)
  {
    match ResolveCipher(cipherMethod, cipherMode)
    case None => -1
    case Some(cipher) => evpIvLength(cipher)
  }

  /** crypto_get_block_size: -1 when the pair does not resolve, otherwise the
      block size OpenSSL reports for the cipher (`evpBlockSize`). */
  function GetBlockSize(cipherMethod: Option<string>, cipherMode: Option<string>, evpBlockSize: Cipher -> nat): (r: int)
    ensures r == -1 <==> ResolveCipher(cipherMethod, cipherMode).None?
    ensures r >= 0 ==> r == evpBlockSize(ResolveCipher(cipherMethod, cipherMode).value)
  {
    match ResolveCipher(cipherMethod, cipherMode)
    case None => -1
    case Some(cipher) => evpBlockSize(cipher)
  }

  /** What the OpenSSL part of one call does under a cipher: the bytes the
      update step writes and those the final step writes after them, None
      for a step that fails. Key derivation, context allocation and the two
      init calls failing count as a failed update. */
  datatype EvpRun = EvpRun(update: Option<seq<bv8>>, final: Option<seq<bv8>>)

  /** The return value of one crypto_encrypt or crypto_decrypt call and the
      bytes it leaves at the start of the output buffer. */
  datatype CryptOutcome = CryptOutcome(status: int, output: seq<bv8>)

  /** The update and final steps: their outputs one after the other and the
      accumulated length; -1 when a step fails, the update output staying
      in the buffer when only the final step fails. */
  function EvpOutcome(run: EvpRun): (r: CryptOutcome)
    ensures r.status == -1 || r.status == |r.output|
    ensures |r.output| == RunLength(run) || r.status == -1
    ensures r.status >= 0 <==> run.update.Some? && run.final.Some?
  {
    if run.update.None? then CryptOutcome(-1, [])
    else if run.final.None? then CryptOutcome(-1, run.update.value)
    else CryptOutcome(|run.update.value| + |run.final.value|, run.update.value + run.final.value)
  }

  /** No encryption requested: the method, the mode or the password is NULL or empty. */
  predicate Passthrough(cipherMethod: Option<string>, cipherMode: Option<string>, password: Option<string>) {
    IsNullOrEmpty(cipherMethod) || IsNullOrEmpty(cipherMode) || IsNullOrEmpty(password)
  }

  /** The outcome of crypto_encrypt and of crypto_decrypt, which decide the
      same way: -1 for a NULL buffer or a negative length; the input copied
      unchanged when no encryption is requested; -1 for a pair that does not
      resolve or a cipher that needs an IV when none is given; otherwise the
      EVP output, whose length is returned, or -1 when a step fails. */
  function Crypt(input: Option<seq<bv8>>, outputPresent: bool, length: int,
                 cipherMethod: Option<string>, cipherMode: Option<string>, password: Option<string>,
                 iv: Option<seq<bv8>>, evpIvLength: Cipher -> nat, evp: Cipher -> EvpRun): (r: CryptOutcome)
    requires input.Some? && length >= 0 ==> length <= |input.value|
    ensures r.status == -1 || r.status == |r.output|
    ensures input.None? || !outputPresent || length < 0 ==> r == CryptOutcome(-1, [])
    ensures input.Some? && outputPresent && length >= 0 && Passthrough(cipherMethod, cipherMode, password)
            ==> r == CryptOutcome(length, input.value[..length])
    ensures !Passthrough(cipherMethod, cipherMode, password) && ResolveCipher(cipherMethod, cipherMode).None? ==> r.status == -1
    ensures (!Passthrough(cipherMethod, cipherMode, password) && ResolveCipher(cipherMethod, cipherMode).Some?
             && evpIvLength(ResolveCipher(cipherMethod, cipherMode).value) > 0 && iv.None?) ==> r.status == -1
    ensures r.status > 0 && !Passthrough(cipherMethod, cipherMode, password) ==>
              var run := evp(ResolveCipher(cipherMethod, cipherMode).value);
              run.update.Some? && run.final.Some? && r.output == run.update.value + run.final.value
    // every call that passes the checks reaches the EVP steps
    ensures (input.Some? && outputPresent && length >= 0 && !Passthrough(cipherMethod, cipherMode, password)
             && ResolveCipher(cipherMethod, cipherMode).Some?
             && !(evpIvLength(ResolveCipher(cipherMethod, cipherMode).value) > 0 && iv.None?))
            ==> r == EvpOutcome(evp(ResolveCipher(cipherMethod, cipherMode).value))
  {
    if input.None? || !outputPresent || length < 0 then CryptOutcome(-1, [])
    else if Passthrough(cipherMethod, cipherMode, password) then CryptOutcome(length, input.value[..length])
    else match ResolveCipher(cipherMethod, cipherMode)
      case None => CryptOutcome(-1, [])
      case Some(cipher) =>
        if evpIvLength(cipher) > 0 && iv.None? then CryptOutcome(-1, [])
        else
          EvpOutcome(evp(cipher))
  }

  /** With no encryption requested, decrypting what encryption produced gives
      the input back, whatever the cipher would have done. */
  lemma PassthroughRoundTrip(plainText: seq<bv8>, cipherMethod: Option<string>, cipherMode: Option<string>,
                             password: Option<string>, iv: Option<seq<bv8>>, evpIvLength: Cipher -> nat,
                             encrypt: Cipher -> EvpRun, decrypt: Cipher -> EvpRun)
    requires Passthrough(cipherMethod, cipherMode, password)
    ensures var sealed := Crypt(Some(plainText), true, |plainText|, cipherMethod, cipherMode, password, iv, evpIvLength, encrypt);
            && sealed == CryptOutcome(|plainText|, plainText)
            && Crypt(Some(sealed.output), true, sealed.status, cipherMethod, cipherMode, password, iv, evpIvLength, decrypt)
               == CryptOutcome(|plainText|, plainText)
  {
    assert plainText[..|plainText|] == plainText;
  }

  /** The number of bytes the EVP steps of a run write. */
  function RunLength(run: EvpRun): nat {
    (if run.update.Some? then |run.update.value| else 0) + (if run.final.Some? then |run.final.value| else 0)
  }

  /** The EVP outputs fit the buffer under every cipher, as the caller of
      crypto_encrypt and crypto_decrypt must ensure. */
  ghost predicate FitsUnderEveryCipher(evp: Cipher -> EvpRun, capacity: nat) {
    forall c :: RunLength(evp(c)) <= capacity
  }

  /** passthrough_copy: -1 for a NULL buffer or a negative length; otherwise
      the first `length` bytes of the source are in the destination, which
      is otherwise unchanged, and the length is returned. */
  method PassthroughCopy(destination: array?<bv8>, source: Option<seq<bv8>>, length: int) returns (status: int)
    requires destination != null && source.Some? && length >= 0 ==> length <= |source.value| && length <= destination.Length
    modifies destination
    ensures destination == null || source.None? || length < 0 ==> status == -1
    ensures destination != null && (source.None? || length < 0) ==> unchanged(destination)
    ensures destination != null && source.Some? && length >= 0 ==>
              && status == length
              && destination[..length] == source.value[..length]
              && destination[length..] == old(destination[length..])
  {
    if destination == null || source.None? || length < 0 {
      return -1;
    }
    if length > 0 {
      forall k | 0 <= k < length {
        destination[k] := source.value[k];
      }
    }
    return length;
  }

  /** The EVP update and final calls of crypto_encrypt and crypto_decrypt:
      the update output at the start of the buffer, the final output right
      after it, and the total length accumulated; -1 at the first failing
      step. */
  method RunEvp(buffer: array<bv8>, run: EvpRun) returns (status: int)
    requires RunLength(run) <= buffer.Length
    modifies buffer
    ensures status == EvpOutcome(run).status
    ensures buffer[..|EvpOutcome(run).output|] == EvpOutcome(run).output
    ensures buffer[|EvpOutcome(run).output|..] == old(buffer[|EvpOutcome(run).output|..])
  {
    if run.update.None? {
      return -1;
    }
    Place(buffer, 0, run.update.value);
    var totalLength := |run.update.value|;

    if run.final.None? {
      return -1;
    }
    Place(buffer, totalLength, run.final.value);
    assert buffer[..totalLength + |run.final.value|] == run.update.value + run.final.value;
    totalLength := totalLength + |run.final.value|;

    status := totalLength;
  }

  /** crypto_encrypt: the outcome Crypt specifies, its output at the start
      of `ciphertext` and the rest of that buffer unchanged. `evp` gives the
      OpenSSL steps' outputs for this call's password, salt, IV and plain
      text under each cipher. */
  method CryptoEncrypt(plainText: Option<seq<bv8>>, plainTextLength: int,
                       cipherMethod: Option<string>, cipherMode: Option<string>, password: Option<string>,
                       salt: Option<seq<bv8>>, iv: Option<seq<bv8>>, ciphertext: array?<bv8>,
                       evpIvLength: Cipher -> nat, evp: Cipher -> EvpRun) returns (status: int)
    requires plainText.Some? && plainTextLength >= 0 ==> plainTextLength <= |plainText.value|
    requires ciphertext != null && plainTextLength >= 0 ==> plainTextLength <= ciphertext.Length
    requires ciphertext != null ==> FitsUnderEveryCipher(evp, ciphertext.Length)
    modifies ciphertext
    ensures var r := Crypt(plainText, ciphertext != null, plainTextLength, cipherMethod, cipherMode, password, iv, evpIvLength, evp);
            && status == r.status
            && (ciphertext != null ==>
                  && ciphertext[..|r.output|] == r.output
                  && ciphertext[|r.output|..] == old(ciphertext[|r.output|..]))
  {
    if plainText.None? || ciphertext == null || plainTextLength < 0 {
      return -1;
    }

    if IsNullOrEmpty(cipherMethod) || IsNullOrEmpty(cipherMode) || IsNullOrEmpty(password) {
      status := PassthroughCopy(ciphertext, plainText, plainTextLength);
      return;
    }

    var cipher := ResolveCipher(cipherMethod, cipherMode);
    if cipher.None? {
      return -1;
    }

    var ivLength := evpIvLength(cipher.value);
    if ivLength > 0 && iv.None? {
      return -1;
    }

    status := RunEvp(ciphertext, evp(cipher.value));
  }

  /** crypto_decrypt: the same decisions as crypto_encrypt with the roles of
      the buffers swapped; `evp` gives the OpenSSL steps' outputs for this
      call's password, salt, IV and cipher text under each cipher. */
  method CryptoDecrypt(ciphertext: Option<seq<bv8>>, cipherTextLength: int,
                       cipherMethod: Option<string>, cipherMode: Option<string>, password: Option<string>,
                       salt: Option<seq<bv8>>, iv: Option<seq<bv8>>, plainText: array?<bv8>,
                       evpIvLength: Cipher -> nat, evp: Cipher -> EvpRun) returns (status: int)
    requires ciphertext.Some? && cipherTextLength >= 0 ==> cipherTextLength <= |ciphertext.value|
    requires plainText != null && cipherTextLength >= 0 ==> cipherTextLength <= plainText.Length
    requires plainText != null ==> FitsUnderEveryCipher(evp, plainText.Length)
    modifies plainText
    ensures var r := Crypt(ciphertext, plainText != null, cipherTextLength, cipherMethod, cipherMode, password, iv, evpIvLength, evp);
            && status == r.status
            && (plainText != null ==>
                  && plainText[..|r.output|] == r.output
                  && plainText[|r.output|..] == old(plainText[|r.output|..]))
  {
    if ciphertext.None? || plainText == null || cipherTextLength < 0 {
      return -1;
    }

    if IsNullOrEmpty(cipherMethod) || IsNullOrEmpty(cipherMode) || IsNullOrEmpty(password) {
      status := PassthroughCopy(plainText, ciphertext, cipherTextLength);
      return;
    }

    var cipher := ResolveCipher(cipherMethod, cipherMode);
    if cipher.None? {
      return -1;
    }

    var ivLength := evpIvLength(cipher.value);
    if ivLength > 0 && iv.None? {
      return -1;
    }

    status := RunEvp(plainText, evp(cipher.value));
  }
}
