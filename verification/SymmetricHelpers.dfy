/** The PKCS#12 and PKCS#7 helpers that pad and encrypt, and decrypt and unpad, one message. */
module SymmetricHelpers {
  import opened Common
  import opened Padding
  import opened Ciphers

  datatype Error = CipherError(cipher: Ciphers.Failure) | PaddingError(padding: Padding.Failure)

  lemma PaddedIsWhole(blockSize: nat, data: seq<byte>)
    requires 1 <= blockSize <= 255
    ensures Whole(blockSize, Pad(Pkcs7, blockSize, data))
  {
    hide PadTail;
    PaddedIsMultiple(blockSize, |data|);
  }

  lemma WholeIsAllBlocks(blockSize: nat, x: seq<byte>)
    requires blockSize > 0 && Whole(blockSize, x)
    ensures Blocks(blockSize, x) == x
  {
    assert |x| == (|x| / blockSize) * blockSize + |x| % blockSize;
  }

  /** The two updates of an encryption give, one after the other, the encryption of the padded data. */
  lemma TwoUpdatesEncrypt(mode: Mode, data: seq<byte>, padding: seq<byte>)
    requires mode.Lawful() && mode.blockSize <= 255 && padding == PadBytes(Pkcs7, mode.blockSize, |data|)
    ensures NewOutput(mode.blockSize, mode.enc, [], data) + NewOutput(mode.blockSize, mode.enc, data, padding)
            == mode.enc(Pad(Pkcs7, mode.blockSize, data))
    ensures |NewOutput(mode.blockSize, mode.enc, [], data)| <= |data|
  {
    var bs, f := mode.blockSize, mode.enc;
    NewOutputInTwo(bs, f, [], data, padding);
    assert [] + data == data;
    PaddedIsWhole(bs, data);
    FromNothing(bs, f, data + padding);
    FromNothing(bs, f, data);
    WholeIsAllBlocks(bs, data + padding);
  }

  lemma FromNothing(blockSize: nat, f: seq<byte> -> seq<byte>, x: seq<byte>)
    requires blockSize > 0 && Streaming(blockSize, f)
    ensures NewOutput(blockSize, f, [], x) == f(Blocks(blockSize, x))
    ensures |f(Blocks(blockSize, x))| == |Blocks(blockSize, x)| <= |x|
  {
    assert [] + x == x;
    assert Blocks(blockSize, []) == [];
    assert |Written(blockSize, f, [])| == 0;
    assert Written(blockSize, f, []) == [];
  }

  /** `update_into` with enough room, so that its guard cannot fail. */
  method WriteInto(cipher: CipherContext, data: seq<byte>, buf: array<byte>, start: nat) returns (n: nat)
    requires cipher.Valid() && cipher.encrypting
    requires start <= buf.Length && buf.Length - start >= |data| + cipher.mode.blockSize - 1
    modifies cipher, buf
    ensures cipher.seen == old(cipher.seen) + data
    ensures n == |NewOutput(cipher.mode.blockSize, cipher.mode.enc, old(cipher.seen), data)|
    ensures start + n <= buf.Length
    ensures buf[..start + n] == old(buf[..start])
              + NewOutput(cipher.mode.blockSize, cipher.mode.enc, old(cipher.seen), data)
  {
    hide NewOutput, Streaming, Placed;
    var r := cipher.UpdateInto(data, buf, start);
    n := r.value;
  }

  /** `symmetric_encrypt`: no buffer guard and no assertion can fail. */
  method SymmetricEncrypt(mode: Mode, data: seq<byte>) returns (ciphertext: seq<byte>)
    requires mode.Lawful() && mode.blockSize <= 255
    ensures ciphertext == mode.enc(Pad(Pkcs7, mode.blockSize, data))
  {
    hide *;
    var bs := mode.blockSize;
    LawIsStreaming(mode);
    ghost var padding0 := PadBytes(Pkcs7, bs, |data|);
    TwoUpdatesEncrypt(mode, data, padding0);
    PaddedIsWhole(bs, data);
    PadIsAppend(bs, data);
    var cipher := new CipherContext(mode, true, false);
    var buf := new byte[|data| + bs * 2];
    var padder := new PaddingContext(Pkcs7, bs * 8);
    Nothing(data, buf[..0]);
    var n := WriteInto(cipher, data, buf, 0);
    var passed := padder.Update(OwnBuf(data));
    OwnBytesAreNone(data);
    assert passed == Ok(None);
    var padding := padder.Finalize();
    assert padding == Ok(padding0);
    var padN := WriteInto(cipher, padding.value, buf, n);
    var finalBlock := cipher.Finalize(true);
    assert finalBlock == Ok([]);
    ciphertext := buf[..n + padN];
  }

  lemma Nothing(data: seq<byte>, empty: seq<byte>)
    requires |empty| == 0
    ensures [] + data == data && empty + data == data && empty == []
    ensures forall x: seq<byte> :: empty + x == x
  {
  }

  lemma OwnBytesAreNone(data: seq<byte>)
    ensures OwnBuf(data).IntoPyObj() == None
  {
  }

  lemma LawIsStreaming(mode: Mode)
    requires mode.Lawful()
    ensures mode.blockSize > 0 && Streaming(mode.blockSize, mode.enc) && Streaming(mode.blockSize, mode.dec)
  {
  }

  lemma OutputIs(cipher: CipherContext, before: seq<byte>, data: seq<byte>)
    requires cipher.Valid()
    ensures cipher.mode.blockSize > 0 && Streaming(cipher.mode.blockSize, cipher.mode.Direction(cipher.encrypting))
    ensures cipher.Output(before, data) ==
            NewOutput(cipher.mode.blockSize, cipher.mode.Direction(cipher.encrypting), before, data)
    ensures cipher.encrypting ==> cipher.mode.Direction(cipher.encrypting) == cipher.mode.enc
    ensures !cipher.encrypting ==> cipher.mode.Direction(cipher.encrypting) == cipher.mode.dec
  {
  }

  lemma PadIsAppend(blockSize: nat, data: seq<byte>)
    requires 1 <= blockSize <= 255
    ensures Pad(Pkcs7, blockSize, data) == data + PadBytes(Pkcs7, blockSize, |data|)
  {
  }

  ghost function DecryptSpec(mode: Mode, data: seq<byte>): Result<seq<byte>, Error>
    requires mode.Lawful() && mode.blockSize <= 255
  {
    if !Whole(mode.blockSize, data) then Err(CipherError(NotWholeBlocks))
    else
      match UnpadWhole(Pkcs7, mode.blockSize, mode.dec(data))
      case Ok(plain) => Ok(plain)
      case Err(e) => Err(PaddingError(e))
  }

  /** `symmetric_decrypt`: the buffer always suffices, and the assertion on the final block cannot fail. */
  method SymmetricDecrypt(mode: Mode, data: seq<byte>) returns (r: Result<seq<byte>, Error>)
    requires mode.Lawful() && mode.blockSize <= 255
    ensures r == DecryptSpec(mode, data)
  {
    hide Streaming, NewOutput, FinalStep, UpdateStep, Mode.Lawful;
    LawIsStreaming(mode);
    var bs := mode.blockSize;
    var cipher := new CipherContext(mode, false, false);
    var decrypted := new byte[|data| + bs];
    assert [] + data == data && decrypted[..0] == [];
    OutputIs(cipher, [], data);
    var count := cipher.UpdateInto(data, decrypted, 0);
    var finalBlock := cipher.Finalize(true);
    if finalBlock.Err? {
      return Err(CipherError(finalBlock.error));
    }
    assert finalBlock.value == [];
    var plain := decrypted[..count.value];
    DecryptedWhole(mode, data);
    assert plain == mode.dec(data);
    var unpadder := new UnpaddingContext(Pkcs7, bs * 8);
    var first := unpadder.Update(plain);
    var last := unpadder.Finalize();
    if last.Err? {
      return Err(PaddingError(last.error));
    }
    return Ok(first.value + last.value);
  }

  lemma DecryptedWhole(mode: Mode, data: seq<byte>)
    requires mode.Lawful() && Whole(mode.blockSize, data)
    ensures NewOutput(mode.blockSize, mode.dec, [], data) == mode.dec(data)
  {
    FromNothing(mode.blockSize, mode.dec, data);
    WholeIsAllBlocks(mode.blockSize, data);
  }

  lemma EncryptedLength(mode: Mode, x: seq<byte>)
    requires mode.Lawful() && Whole(mode.blockSize, x)
    ensures |mode.enc(x)| == |x| && Whole(mode.blockSize, mode.enc(x)) && mode.dec(mode.enc(x)) == x
  {
  }

  /** Decryption succeeds with a message exactly on what encryption makes of that message. */
  lemma DecryptIsExact(mode: Mode, ciphertext: seq<byte>, data: seq<byte>)
    requires mode.Lawful() && mode.blockSize <= 255
    ensures DecryptSpec(mode, ciphertext) == Ok(data) <==> ciphertext == mode.enc(Pad(Pkcs7, mode.blockSize, data))
  {
    hide UnpadWhole, Pad, Streaming;
    var bs, padded := mode.blockSize, Pad(Pkcs7, mode.blockSize, data);
    PaddedIsWhole(bs, data);
    PadThenUnpad(Pkcs7, bs, data);
    if DecryptSpec(mode, ciphertext) == Ok(data) {
      UnpadThenPad(Pkcs7, bs, mode.dec(ciphertext), data);
    }
    if ciphertext == mode.enc(padded) {
      EncryptedLength(mode, padded);
    }
  }
}
