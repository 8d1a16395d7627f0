/** Fernet tokens: a version byte, a timestamp, an IV, an AES-CBC ciphertext and an HMAC over all of these. */
module Fernet {
  import opened Common
  import opened BigEndian
  import opened Padding
  import opened Ciphers
  import opened SymmetricHelpers

  /** The foreign parts: AES-CBC under a key and IV, HMAC-SHA256 and URL-safe base64. */
  datatype Crypto = Crypto(
    aesCbc: (seq<byte>, seq<byte>) -> Mode,
    hmac: (seq<byte>, seq<byte>) -> seq<byte>,
    encode64: seq<byte> -> string,
    decode64: string -> Option<seq<byte>>)
  {
    ghost predicate Lawful() {
      && (forall key, iv :: |key| == 16 && |iv| == 16 ==>
            aesCbc(key, iv).Lawful() && aesCbc(key, iv).blockSize == 16)
      && (forall key, data :: |hmac(key, data)| == 32)
      && (forall data :: IsAscii(encode64(data)) && decode64(encode64(data)) == Some(data))
    }
  }

  /** What `urlsafe_b64decode` asks of a `str` before it looks at it as base64. */
  predicate IsAscii(text: string) {
    forall i | 0 <= i < |text| :: text[i] as int < 0x80
  }

  /** `NotAscii` is the plain `ValueError` for a text that is not ASCII; it is not turned into an invalid token. */
  datatype TokenError = InvalidToken | TimeOutOfRange | NotAscii

  datatype KeyError = BadKey

  type Key = k: seq<byte> | |k| == 16 witness seq(16, _ => 0)

  const VERSION: byte := 0x80
  const MAX_CLOCK_SKEW: int := 60
  const BLOCK: nat := 16
  const TIME_LIMIT: nat := 0x1_0000_0000_0000_0000

  // ---------------------------------------------------------------- slices

  /** The position a Python slice index stands for: negative ones count from the end, and all are clamped. */
  function Position(n: nat, i: int): (p: nat)
    ensures p <= n
  {
    var j := if i < 0 then i + n else i;
    if j < 0 then 0 else if j > n then n else j
  }

  /** `s[start:stop]` as Python has it. */
  function Slice(s: seq<byte>, start: int, stop: int): seq<byte> {
    var a, b := Position(|s|, start), Position(|s|, stop);
    if a <= b then s[a..b] else []
  }

  // ---------------------------------------------------------------- specification

  datatype Fernet = Fernet(signing: Key, encryption: Key)

  /** The bytes an HMAC is taken of. */
  ghost function Signed(c: Crypto, f: Fernet, data: seq<byte>, time: nat, iv: seq<byte>): seq<byte> {
    [0x80] + ToBytes(time, 8) + iv + c.aesCbc(f.encryption, iv).enc(Pad(Pkcs7, BLOCK, data))
  }

  /** What a token of `f` for `data`, issued at `time`, carries. */
  ghost function Payload(c: Crypto, f: Fernet, data: seq<byte>, time: nat, iv: seq<byte>): seq<byte> {
    var signed := Signed(c, f, data, time, iv);
    signed + c.hmac(f.signing, signed)
  }

  /** The token is one of `f` for `data`, issued at `time`. */
  ghost predicate IsToken(c: Crypto, f: Fernet, token: string, data: seq<byte>, time: int) {
    && 0 <= time < TIME_LIMIT && IsAscii(token)
    && exists iv | |iv| == 16 :: c.decode64(token) == Some(Payload(c, f, data, time, iv))
  }

  /** Not expired, and not from further ahead than the clock skew allows. */
  predicate InTime(time: int, timeInfo: Option<(int, int)>) {
    timeInfo.Some? ==>
      var (ttl, now) := timeInfo.value;
      time + ttl >= now && now + 60 >= time
  }

  predicate SignatureOk(c: Crypto, f: Fernet, data: seq<byte>) {
    c.hmac(f.signing, Slice(data, 0, -32)) == Slice(data, -32, |data|)
  }

  /** The plaintext of a payload with the right signature, if its ciphertext has one. */
  ghost function Opened(c: Crypto, f: Fernet, data: seq<byte>): Result<seq<byte>, TokenError>
    requires c.Lawful()
  {
    if !SignatureOk(c, f, data) || |data| < 32 then Err(InvalidToken)
    else
      match DecryptSpec(c.aesCbc(f.encryption, Slice(data, 9, 25)), Slice(data, 25, -32))
      case Ok(plain) => Ok(plain)
      case Err(_) => Err(InvalidToken)
  }

  datatype Unverified = Unverified(time: nat, data: seq<byte>)

  function Parsed(c: Crypto, token: string): (r: Result<Unverified, TokenError>)
    ensures r.Ok? ==> 9 <= |r.value.data| && r.value.data[0] == VERSION
  {
    if !IsAscii(token) then Err(NotAscii)
    else
      match c.decode64(token)
      case None => Err(InvalidToken)
      case Some(data) =>
        if |data| < 9 || data[0] != VERSION then Err(InvalidToken)
        else Ok(Unverified(FromBytes(data[1..9]), data))
  }

  ghost function DecryptSpecAt(c: Crypto, f: Fernet, token: string, timeInfo: Option<(int, int)>)
    : Result<seq<byte>, TokenError>
    requires c.Lawful()
  {
    match Parsed(c, token)
    case Err(e) => Err(e)
    case Ok(u) => if InTime(u.time, timeInfo) then Opened(c, f, u.data) else Err(InvalidToken)
  }

  /** The first key that opens the payload. */
  ghost function FirstOpened(c: Crypto, fernets: seq<Fernet>, data: seq<byte>): Result<seq<byte>, TokenError>
    requires c.Lawful()
  {
    if fernets == [] then Err(InvalidToken)
    else
      match Opened(c, fernets[0], data)
      case Ok(p) => Ok(p)
      case Err(_) => FirstOpened(c, fernets[1..], data)
  }

  ghost function RotateSpec(c: Crypto, fernets: seq<Fernet>, token: string, iv: seq<byte>): Result<string, TokenError>
    requires c.Lawful() && fernets != []
  {
    match Parsed(c, token)
    case Err(e) => Err(e)
    case Ok(u) =>
      match FirstOpened(c, fernets, u.data)
      case Err(e) => Err(e)
      case Ok(p) => Ok(c.encode64(Payload(c, fernets[0], p, u.time, iv)))
  }

  // ---------------------------------------------------------------- operations

  method NewFernet(c: Crypto, key: string) returns (r: Result<Fernet, KeyError>)
    ensures r.Ok? <==> IsAscii(key) && c.decode64(key).Some? && |c.decode64(key).value| == 32
    ensures r.Ok? ==> c.decode64(key) == Some(r.value.signing + r.value.encryption)
  {
    if !IsAscii(key) {
      return Err(BadKey);
    }
    var decoded := c.decode64(key);
    if decoded.None? {
      return Err(BadKey);
    }
    if |decoded.value| != 32 {
      return Err(BadKey);
    }
    assert decoded.value == decoded.value[..16] + decoded.value[16..];
    return Ok(Fernet(decoded.value[..16], decoded.value[16..]));
  }

  lemma ModeIsLawful(c: Crypto, key: Key, iv: seq<byte>)
    requires c.Lawful() && |iv| == 16
    ensures c.aesCbc(key, iv).Lawful() && c.aesCbc(key, iv).blockSize == BLOCK
  {
  }

  method EncryptFromParts(c: Crypto, f: Fernet, data: seq<byte>, currentTime: int, iv: seq<byte>)
    returns (r: Result<string, TokenError>)
    requires c.Lawful() && |iv| == 16
    ensures r == if 0 <= currentTime < TIME_LIMIT then Ok(c.encode64(Payload(c, f, data, currentTime, iv)))
                 else Err(TimeOutOfRange)
  {
    hide Crypto.Lawful, Mode.Lawful, Streaming, NewOutput, PadBytes, ToBytes;
    var mode := c.aesCbc(f.encryption, iv);
    ModeIsLawful(c, f.encryption, iv);
    var padder := new PaddingContext(Pkcs7, 128);
    var first := padder.Update(PythonBuf(data));
    var last := padder.Finalize();
    var paddedData := first.value.value + last.value;
    assert paddedData == Pad(Pkcs7, BLOCK, data);
    LawIsStreaming(mode);
    var encryptor := new CipherContext(mode, true, false);
    OutputIs(encryptor, [], paddedData);
    PaddedIsWhole(BLOCK, data);
    EncryptedWhole(mode, paddedData);
    var ciphertext := encryptor.Update(paddedData);
    assert [] + paddedData == paddedData;
    var finalBlock := encryptor.Finalize(true);
    ciphertext := ciphertext + finalBlock.value;
    assert ciphertext == mode.enc(paddedData);
    if !(0 <= currentTime < TIME_LIMIT) {
      return Err(TimeOutOfRange);
    }
    var basicParts := [VERSION] + ToBytes(currentTime, 8) + iv + ciphertext;
    var hmac := c.hmac(f.signing, basicParts);
    return Ok(c.encode64(basicParts + hmac));
  }

  lemma EncryptedWhole(mode: Mode, data: seq<byte>)
    requires mode.Lawful() && Whole(mode.blockSize, data)
    ensures NewOutput(mode.blockSize, mode.enc, [], data) == mode.enc(data)
  {
    FromNothing(mode.blockSize, mode.enc, data);
    WholeIsAllBlocks(mode.blockSize, data);
  }

  method GetUnverifiedTokenData(c: Crypto, token: string) returns (r: Result<Unverified, TokenError>)
    ensures r == Parsed(c, token)
  {
    if !IsAscii(token) {
      return Err(NotAscii);
    }
    var decoded := c.decode64(token);
    if decoded.None? {
      return Err(InvalidToken);
    }
    var data := decoded.value;
    if data == [] || data[0] != VERSION {
      return Err(InvalidToken);
    }
    if |data| < 9 {
      return Err(InvalidToken);
    }
    return Ok(Unverified(FromBytes(data[1..9]), data));
  }

  /** A right signature is 32 bytes long, so that a payload with one has a whole IV. */
  lemma SignedIsLong(c: Crypto, f: Fernet, data: seq<byte>)
    requires c.Lawful() && SignatureOk(c, f, data)
    ensures |data| >= 32 && |Slice(data, 9, 25)| == 16
  {
    assert |c.hmac(f.signing, Slice(data, 0, -32))| == 32;
  }

  method DecryptData(c: Crypto, f: Fernet, data: seq<byte>, timestamp: nat, timeInfo: Option<(int, int)>)
    returns (r: Result<seq<byte>, TokenError>)
    requires c.Lawful()
    ensures r == if InTime(timestamp, timeInfo) then Opened(c, f, data) else Err(InvalidToken)
  {
    hide Crypto.Lawful, Mode.Lawful, Streaming, NewOutput, UpdateStep, FinalStep, Slice, Whole;
    if timeInfo.Some? {
      var (ttl, currentTime) := timeInfo.value;
      if timestamp + ttl < currentTime {
        return Err(InvalidToken);
      }
      if currentTime + MAX_CLOCK_SKEW < timestamp {
        return Err(InvalidToken);
      }
    }
    if !SignatureOk(c, f, data) {
      return Err(InvalidToken);
    }
    SignedIsLong(c, f, data);
    var iv := Slice(data, 9, 25);
    var ciphertext := Slice(data, 25, -32);
    var mode := c.aesCbc(f.encryption, iv);
    ModeIsLawful(c, f.encryption, iv);
    LawIsStreaming(mode);
    var decryptor := new CipherContext(mode, false, false);
    OutputIs(decryptor, [], ciphertext);
    var plaintextPadded := decryptor.Update(ciphertext);
    assert [] + ciphertext == ciphertext;
    var finalBlock := decryptor.Finalize(true);
    if finalBlock.Err? {
      return Err(InvalidToken);
    }
    DecryptedWhole(mode, ciphertext);
    plaintextPadded := plaintextPadded + finalBlock.value;
    assert plaintextPadded == mode.dec(ciphertext);
    var unpadder := new UnpaddingContext(Pkcs7, 128);
    var unpadded := unpadder.Update(plaintextPadded);
    var last := unpadder.Finalize();
    if last.Err? {
      return Err(InvalidToken);
    }
    return Ok(unpadded.value + last.value);
  }

  method Decrypt(c: Crypto, f: Fernet, token: string, timeInfo: Option<(int, int)>)
    returns (r: Result<seq<byte>, TokenError>)
    requires c.Lawful()
    ensures r == DecryptSpecAt(c, f, token, timeInfo)
  {
    var u := GetUnverifiedTokenData(c, token);
    if u.Err? {
      return Err(u.error);
    }
    r := DecryptData(c, f, u.value.data, u.value.time, timeInfo);
  }

  method ExtractTimestamp(c: Crypto, f: Fernet, token: string) returns (r: Result<nat, TokenError>)
    ensures r == match Parsed(c, token)
                 case Err(e) => Err(e)
                 case Ok(u) => if SignatureOk(c, f, u.data) then Ok(u.time) else Err(InvalidToken)
  {
    var u := GetUnverifiedTokenData(c, token);
    if u.Err? {
      return Err(u.error);
    }
    if !SignatureOk(c, f, u.value.data) {
      return Err(InvalidToken);
    }
    return Ok(u.value.time);
  }

  /** Decrypt and encrypt again under the first key, with the timestamp of the old token. */
  method Rotate(c: Crypto, fernets: seq<Fernet>, token: string, iv: seq<byte>)
    returns (r: Result<string, TokenError>)
    requires c.Lawful() && fernets != [] && |iv| == 16
    ensures r == RotateSpec(c, fernets, token, iv)
  {
    hide Opened, Payload;
    var u := GetUnverifiedTokenData(c, token);
    if u.Err? {
      return Err(u.error);
    }
    TimeFits(u.value.data);
    var p: Result<seq<byte>, TokenError> := Err(InvalidToken);
    var k := 0;
    while k < |fernets|
      invariant 0 <= k <= |fernets| && p == Err(InvalidToken)
      invariant FirstOpened(c, fernets, u.value.data) == FirstOpened(c, fernets[k..], u.value.data)
    {
      p := DecryptData(c, fernets[k], u.value.data, u.value.time, None);
      if p.Ok? {
        break;
      }
      OpenedError(c, fernets[k], u.value.data);
      k := k + 1;
    }
    if p.Err? {
      return Err(InvalidToken);
    }
    r := EncryptFromParts(c, fernets[0], p.value, u.value.time, iv);
  }

  /** `MultiFernet.decrypt_at_time`: the plaintext under the first key that opens the token in time. */
  method DecryptAtTime(c: Crypto, fernets: seq<Fernet>, token: string, ttl: int, currentTime: int)
    returns (r: Result<seq<byte>, TokenError>)
    requires c.Lawful()
    ensures r.Ok? ==> exists k | 0 <= k < |fernets| ::
                        && DecryptSpecAt(c, fernets[k], token, Some((ttl, currentTime))) == r
                        && forall j | 0 <= j < k :: DecryptSpecAt(c, fernets[j], token, Some((ttl, currentTime))).Err?
    ensures r == Err(InvalidToken) <==>
              && (IsAscii(token) || fernets == [])
              && forall j | 0 <= j < |fernets| :: DecryptSpecAt(c, fernets[j], token, Some((ttl, currentTime))).Err?
    ensures r.Err? && r.error != InvalidToken ==> r.error == NotAscii && !IsAscii(token)
  {
    hide DecryptSpecAt, IsAscii;
    for k := 0 to |fernets|
      invariant k > 0 ==> IsAscii(token)
      invariant forall j | 0 <= j < k :: DecryptSpecAt(c, fernets[j], token, Some((ttl, currentTime))).Err?
    {
      ErrorKinds(c, fernets[k], token, Some((ttl, currentTime)));
      r := Decrypt(c, fernets[k], token, Some((ttl, currentTime)));
      if r != Err(InvalidToken) {
        return r;
      }
    }
    return Err(InvalidToken);
  }

  /** A text that is not ASCII fails in its own way, and only then. */
  lemma ErrorKinds(c: Crypto, f: Fernet, token: string, timeInfo: Option<(int, int)>)
    requires c.Lawful()
    ensures var r := DecryptSpecAt(c, f, token, timeInfo);
            && (r.Err? ==> r.error == InvalidToken || r.error == NotAscii)
            && (r == Err(NotAscii) <==> !IsAscii(token))
            && (r == Err(NotAscii) <==> exists i :: 0 <= i < |token| && token[i] as int > 127)
  {
    AsciiMeaning(token);
    hide Opened, IsAscii;
    if Parsed(c, token).Ok? && Opened(c, f, Parsed(c, token).value.data).Err? {
      OpenedError(c, f, Parsed(c, token).value.data);
    }
  }

  lemma AsciiMeaning(text: string)
    ensures IsAscii(text) <==> !exists i :: 0 <= i < |text| && text[i] as int > 127
  {
  }

  lemma OpenedError(c: Crypto, f: Fernet, data: seq<byte>)
    requires c.Lawful() && Opened(c, f, data).Err?
    ensures Opened(c, f, data) == Err(InvalidToken)
  {
  }

  lemma TimeFits(data: seq<byte>)
    requires |data| >= 9
    ensures FromBytes(data[1..9]) < TIME_LIMIT
  {
    FromBytesBound(data[1..9]);
    Pow256Values();
  }

  // ---------------------------------------------------------------- exactness

  lemma CutFour(a: seq<byte>, b: seq<byte>, iv: seq<byte>, text: seq<byte>, mac: seq<byte>)
    requires |a| == 1 && |b| == 8 && |iv| == 16 && |mac| == 32
    ensures var data := a + b + iv + text + mac;
            && data[1..9] == b
            && Slice(data, 9, 25) == iv && Slice(data, 25, -32) == text
            && Slice(data, 0, -32) == a + b + iv + text && Slice(data, -32, |data|) == mac
  {
  }

  lemma GlueFour(data: seq<byte>)
    requires |data| >= 57 && data[0] == VERSION
    ensures Slice(data, 0, -32) == [VERSION] + data[1..9] + Slice(data, 9, 25) + Slice(data, 25, -32)
    ensures data == Slice(data, 0, -32) + Slice(data, -32, |data|)
  {
  }

  /** A ciphertext that decrypts to anything is not empty. */
  lemma NothingIsEmpty(mode: Mode, ciphertext: seq<byte>)
    requires mode.Lawful() && mode.blockSize == BLOCK && DecryptSpec(mode, ciphertext).Ok?
    ensures ciphertext != []
  {
    hide DecryptSpec;
    var data := DecryptSpec(mode, ciphertext).value;
    DecryptIsExact(mode, ciphertext, data);
    PaddedIsWhole(BLOCK, data);
    assert |mode.enc(Pad(Pkcs7, BLOCK, data))| == |Pad(Pkcs7, BLOCK, data)| > 0;
  }

  /** A payload opens with `plain` exactly if it is the payload the same key makes for `plain`. */
  lemma OpensExactly(c: Crypto, f: Fernet, data: seq<byte>, plain: seq<byte>)
    requires c.Lawful() && |data| >= 9 && data[0] == VERSION
    ensures Opened(c, f, data) == Ok(plain) <==>
            exists iv | |iv| == 16 :: data == Payload(c, f, plain, FromBytes(data[1..9]), iv)
  {
    hide DecryptSpec, Pad;
    var time := FromBytes(data[1..9]);
    if Opened(c, f, data) == Ok(plain) {
      OpenedIsPayload(c, f, data, plain);
    }
    if iv :| |iv| == 16 && data == Payload(c, f, plain, time, iv) {
      PayloadOpens(c, f, plain, time, iv);
    }
  }

  lemma OpenedIsPayload(c: Crypto, f: Fernet, data: seq<byte>, plain: seq<byte>)
    requires c.Lawful() && |data| >= 9 && data[0] == VERSION && Opened(c, f, data) == Ok(plain)
    ensures |Slice(data, 9, 25)| == 16
    ensures data == Payload(c, f, plain, FromBytes(data[1..9]), Slice(data, 9, 25))
  {
    hide DecryptSpec, Pad, ToBytes, FromBytes, Mode.Lawful;
    SignedIsLong(c, f, data);
    var iv, text := Slice(data, 9, 25), Slice(data, 25, -32);
    var mode := c.aesCbc(f.encryption, iv);
    NothingIsEmpty(mode, text);
    GlueFour(data);
    DecryptIsExact(mode, text, plain);
    ToFromBytes(data[1..9]);
  }

  lemma PayloadOpens(c: Crypto, f: Fernet, plain: seq<byte>, time: nat, iv: seq<byte>)
    requires c.Lawful() && |iv| == 16
    ensures var data := Payload(c, f, plain, time, iv);
            && |data| >= 57 && data[0] == VERSION && data[1..9] == ToBytes(time, 8)
            && SignatureOk(c, f, data) && Opened(c, f, data) == Ok(plain)
  {
    hide DecryptSpec, Pad, ToBytes, Mode.Lawful, Slice;
    var mode := c.aesCbc(f.encryption, iv);
    var text := mode.enc(Pad(Pkcs7, BLOCK, plain));
    var signed := Signed(c, f, plain, time, iv);
    CutFour([VERSION], ToBytes(time, 8), iv, text, c.hmac(f.signing, signed));
    DecryptIsExact(mode, text, plain);
  }

  /** A token decrypts to `plain` exactly if it is a token of this key for `plain` whose time is right. */
  lemma DecryptsExactly(c: Crypto, f: Fernet, token: string, timeInfo: Option<(int, int)>, plain: seq<byte>)
    requires c.Lawful()
    ensures DecryptSpecAt(c, f, token, timeInfo) == Ok(plain) <==>
            exists time :: IsToken(c, f, token, plain, time) && InTime(time, timeInfo)
  {
    hide Opened, Payload, InTime;
    if DecryptSpecAt(c, f, token, timeInfo) == Ok(plain) {
      var u := Parsed(c, token).value;
      OpensExactly(c, f, u.data, plain);
      TimeFits(u.data);
      assert IsToken(c, f, token, plain, u.time) && InTime(u.time, timeInfo);
    }
    if time :| IsToken(c, f, token, plain, time) && InTime(time, timeInfo) {
      TokenParses(c, f, token, plain, time);
    }
  }

  lemma TokenParses(c: Crypto, f: Fernet, token: string, plain: seq<byte>, time: int)
    requires c.Lawful() && IsToken(c, f, token, plain, time)
    ensures Parsed(c, token).Ok?
    ensures var u := Parsed(c, token).value;
            u.time == time && SignatureOk(c, f, u.data) && Opened(c, f, u.data) == Ok(plain)
  {
    hide Opened, Payload, SignatureOk, ToBytes, FromBytes;
    var iv :| |iv| == 16 && c.decode64(token) == Some(Payload(c, f, plain, time, iv));
    PayloadOpens(c, f, plain, time, iv);
    FromToBytes(time, 8);
    Pow256Values();
  }

  /** A token just made decrypts to its data if and only if it is within its time to live and the clock skew. */
  lemma EncryptThenDecrypt(c: Crypto, f: Fernet, data: seq<byte>, time: int, iv: seq<byte>,
                           timeInfo: Option<(int, int)>)
    requires c.Lawful() && |iv| == 16 && 0 <= time < TIME_LIMIT
    ensures var token := c.encode64(Payload(c, f, data, time, iv));
            && IsToken(c, f, token, data, time)
            && DecryptSpecAt(c, f, token, timeInfo) ==
                 if InTime(time, timeInfo) then Ok(data) else Err(InvalidToken)
  {
    hide Opened, Payload;
    var token := c.encode64(Payload(c, f, data, time, iv));
    assert c.decode64(token) == Some(Payload(c, f, data, time, iv));
    TokenParses(c, f, token, data, time);
  }

  lemma {:induction false} FirstOpenedMeaning(c: Crypto, fernets: seq<Fernet>, data: seq<byte>)
    requires c.Lawful()
    ensures FirstOpened(c, fernets, data).Ok? <==> exists k | 0 <= k < |fernets| :: Opened(c, fernets[k], data).Ok?
    ensures FirstOpened(c, fernets, data).Ok? ==>
              exists k | 0 <= k < |fernets| ::
                && Opened(c, fernets[k], data) == FirstOpened(c, fernets, data)
                && forall j | 0 <= j < k :: Opened(c, fernets[j], data).Err?
    decreases |fernets|
  {
    hide Opened;
    if fernets != [] && Opened(c, fernets[0], data).Err? {
      FirstOpenedMeaning(c, fernets[1..], data);
      assert forall k | 0 <= k < |fernets| - 1 :: fernets[k + 1] == fernets[1..][k];
      assert forall k | 1 <= k < |fernets| :: fernets[k] == fernets[1..][k - 1];
    }
  }

  /** Rotation succeeds exactly on tokens of one of the keys, and gives a token of the first key
      for the same data and time. */
  lemma RotateKeepsDataAndTime(c: Crypto, fernets: seq<Fernet>, token: string, iv: seq<byte>)
    requires c.Lawful() && fernets != [] && |iv| == 16
    ensures RotateSpec(c, fernets, token, iv).Ok? <==>
            exists k, plain, time | 0 <= k < |fernets| :: IsToken(c, fernets[k], token, plain, time)
    ensures RotateSpec(c, fernets, token, iv).Ok? ==>
              exists k, plain, time | 0 <= k < |fernets| ::
                && IsToken(c, fernets[k], token, plain, time)
                && IsToken(c, fernets[0], RotateSpec(c, fernets, token, iv).value, plain, time)
                && forall j | 0 <= j < k :: Opened(c, fernets[j], Parsed(c, token).value.data).Err?
  {
    hide Opened, Payload;
    if Parsed(c, token).Ok? {
      FirstOpenedMeaning(c, fernets, Parsed(c, token).value.data);
    }
    if RotateSpec(c, fernets, token, iv).Ok? {
      var u := Parsed(c, token).value;
      var plain := FirstOpened(c, fernets, u.data).value;
      var k :| 0 <= k < |fernets| && Opened(c, fernets[k], u.data) == Ok(plain)
               && forall j | 0 <= j < k :: Opened(c, fernets[j], u.data).Err?;
      OpensExactly(c, fernets[k], u.data, plain);
      TimeFits(u.data);
      assert IsToken(c, fernets[k], token, plain, u.time);
      EncryptThenDecrypt(c, fernets[0], plain, u.time, iv, None);
    }
    if k, plain, time :| 0 <= k < |fernets| && IsToken(c, fernets[k], token, plain, time) {
      TokenParses(c, fernets[k], token, plain, time);
    }
  }

  /** A token stands for one plaintext and one time per key. */
  lemma TokensAreUnambiguous(c: Crypto, f: Fernet, token: string, p: seq<byte>, q: seq<byte>, s: int, t: int)
    requires c.Lawful() && IsToken(c, f, token, p, s) && IsToken(c, f, token, q, t)
    ensures p == q && s == t
  {
    hide IsToken, Opened;
    TokenParses(c, f, token, p, s);
    TokenParses(c, f, token, q, t);
  }

  // ---------------------------------------------------------------- the laws can be met

  function Plain(data: seq<byte>): seq<byte> {
    data
  }

  /** Two letters for each byte. */
  function Spelled(data: seq<byte>): string {
    if data == [] then "" else [Letter(Size(data[0]) / 16), Letter(Size(data[0]) % 16)] + Spelled(data[1..])
  }

  function Letter(n: nat): char
    requires n < 16
  {
    'A' + n as char
  }

  function Unspelled(text: string): Option<seq<byte>> {
    if text == "" then Some([])
    else if |text| == 1 || !('A' <= text[0] <= 'P') || !('A' <= text[1] <= 'P') then None
    else
      match Unspelled(text[2..])
      case None => None
      case Some(rest) => Some([U8((text[0] - 'A') as nat * 16 + (text[1] - 'A') as nat)] + rest)
  }

  /** The laws do not contradict each other: the identity cipher and a constant HMAC obey them. */
  lemma LawsCanBeMet() returns (c: Crypto)
    ensures c.Lawful()
  {
    hide Spelled, Unspelled, IsAscii;
    c := Crypto((_, _) => Mode(16, Plain, Plain), (_, _) => seq(32, _ => 0), Spelled, Unspelled);
    PlainIsLawful();
    forall data ensures IsAscii(c.encode64(data)) && c.decode64(c.encode64(data)) == Some(data) {
      SpelledBack(data);
    }
  }

  lemma PlainIsLawful()
    ensures Mode(16, Plain, Plain).Lawful()
  {
  }

  lemma LetterBack(n: nat)
    requires n < 16
    ensures 'A' <= Letter(n) <= 'P' && (Letter(n) - 'A') as nat == n && Letter(n) as int < 0x80
  {
  }

  lemma {:induction false} SpelledBack(data: seq<byte>)
    ensures IsAscii(Spelled(data)) && Unspelled(Spelled(data)) == Some(data)
  {
    hide Size, U8, Letter;
    if data != [] {
      SpelledBack(data[1..]);
      LetterBack(Size(data[0]) / 16);
      LetterBack(Size(data[0]) % 16);
      var text := Spelled(data);
      assert text[2..] == Spelled(data[1..]);
      U8OfSize(data[0]);
      assert data == [data[0]] + data[1..];
    }
  }
}
