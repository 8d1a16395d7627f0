/** S/MIME line-ending canonicalisation: every bare LF becomes CR LF. */
module SmimeText {
  import opened Common

  const CR: byte := 0x0D
  const LF: byte := 0x0A

  /** "Content-Type: text/plain", CR LF, CR LF. */
  const HEADER: seq<byte> :=
    [0x43, 0x6F, 0x6E, 0x74, 0x65, 0x6E, 0x74, 0x2D, 0x54, 0x79, 0x70, 0x65, 0x3A, 0x20,
     0x74, 0x65, 0x78, 0x74, 0x2F, 0x70, 0x6C, 0x61, 0x69, 0x6E, 0x0D, 0x0A, 0x0D, 0x0A]

  lemma HeaderText()
    ensures |HEADER| == 28
    ensures forall i | 0 <= i < 28 :: Size(HEADER[i]) == "Content-Type: text/plain\r\n\r\n"[i] as int
  {
    FieldName();
    FieldValue();
    hide Size;
  }

  lemma FieldName()
    ensures forall i | 0 <= i < 14 :: Size(HEADER[i]) == "Content-Type: text/plain\r\n\r\n"[i] as int
  {
    hide Size;
    LetterCodes();
    OtherCodes();
  }

  lemma FieldValue()
    ensures forall i | 14 <= i < 28 :: Size(HEADER[i]) == "Content-Type: text/plain\r\n\r\n"[i] as int
  {
    hide Size;
    LetterCodes();
    OtherCodes();
  }

  lemma LetterCodes()
    ensures Size(0x43) == 'C' as int && Size(0x54) == 'T' as int && Size(0x61) == 'a' as int && Size(0x65) == 'e' as int
    ensures Size(0x69) == 'i' as int && Size(0x6C) == 'l' as int && Size(0x6E) == 'n' as int && Size(0x6F) == 'o' as int
    ensures Size(0x70) == 'p' as int && Size(0x74) == 't' as int && Size(0x78) == 'x' as int && Size(0x79) == 'y' as int
  {
  }

  lemma OtherCodes()
    ensures Size(0x2D) == '-' as int && Size(0x3A) == ':' as int && Size(0x20) == ' ' as int && Size(0x2F) == '/' as int
    ensures Size(0x0D) == '\r' as int && Size(0x0A) == '\n' as int
  {
  }

  /** The text with every LF not after a CR made CR LF; `afterCr` tells of the byte before. */
  function CanonicalAfter(afterCr: bool, data: seq<byte>): seq<byte>
    decreases |data|
  {
    if data == [] then []
    else (if data[0] == LF && !afterCr then [CR, LF] else [data[0]]) + CanonicalAfter(data[0] == CR, data[1..])
  }

  function Canonical(data: seq<byte>): seq<byte> {
    CanonicalAfter(false, data)
  }

  predicate IsBareLf(afterCr: bool, data: seq<byte>, i: nat)
    requires i < |data|
  {
    data[i] == LF && (if i == 0 then !afterCr else data[i - 1] != CR)
  }

  ghost predicate HasBareLf(data: seq<byte>) {
    exists i :: 0 <= i < |data| && IsBareLf(false, data, i)
  }

  lemma {:induction false} CanonicalSnoc(afterCr: bool, data: seq<byte>, c: byte)
    ensures CanonicalAfter(afterCr, data + [c])
            == CanonicalAfter(afterCr, data) + (if IsBareLf(afterCr, data + [c], |data|) then [CR, LF] else [c])
    decreases |data|
  {
    if data == [] {
      assert data + [c] == [c];
    } else {
      assert (data + [c])[1..] == data[1..] + [c];
      CanonicalSnoc(data[0] == CR, data[1..], c);
    }
  }

  /** Byte by byte: LF, 10, gets a CR, 13, before it unless there is one. */
  lemma NextByteOfText(data: seq<byte>, c: byte)
    ensures Canonical([]) == []
    ensures Canonical(data + [c])
            == Canonical(data) + (if c == 0x0A && (data == [] || data[|data| - 1] != 0x0D) then [0x0D, 0x0A] else [c])
  {
    CanonicalSnoc(false, data, c);
  }

  /** `smime_canonicalize`; `borrowed` tells that the data is handed back as it came. */
  method SmimeCanonicalize(data: seq<byte>, textMode: bool)
    returns (withHeader: seq<byte>, withoutHeader: seq<byte>, borrowed: bool)
    ensures withoutHeader == Canonical(data)
    ensures withHeader == (if textMode then HEADER else []) + Canonical(data)
    ensures borrowed <==> !textMode && !HasBareLf(data)
  {
    withHeader, withoutHeader := [], [];
    ghost var header := if textMode then HEADER else [];
    assert textMode <==> header != [];
    if textMode {
      withHeader := withHeader + HEADER;
    }
    hide CanonicalAfter, HasBareLf, CopiedUpTo;
    var lastIdx := 0;
    NothingCopied(data);
    for i := 0 to |data|
      invariant lastIdx <= i
      invariant withHeader == header + withoutHeader
      invariant CopiedUpTo(data, i, lastIdx, withoutHeader)
    {
      var c := data[i];
      CopyStep(data, i, lastIdx, withoutHeader);
      if c == LF && (i == 0 || data[i - 1] != CR) {
        withHeader := withHeader + data[lastIdx..i];
        withHeader := withHeader + [CR];
        withHeader := withHeader + [LF];
        withoutHeader := withoutHeader + data[lastIdx..i];
        withoutHeader := withoutHeader + [CR];
        withoutHeader := withoutHeader + [LF];
        lastIdx := i + 1;
      }
    }
    CopyEnd(data, lastIdx, withoutHeader);
    if withHeader != [] {
      withHeader := withHeader + data[lastIdx..];
      withoutHeader := withoutHeader + data[lastIdx..];
      borrowed := false;
    } else {
      withHeader, withoutHeader, borrowed := data, data, true;
    }
  }

  /** `out` is the canonical text up to `lastIdx`, and no bare LF lies between there and `i`. */
  ghost predicate CopiedUpTo(data: seq<byte>, i: nat, lastIdx: nat, out: seq<byte>) {
    && lastIdx <= i <= |data|
    && out + data[lastIdx..i] == Canonical(data[..i])
    && (out == [] <==> lastIdx == 0)
    && (lastIdx == 0 <==> forall k | 0 <= k < i :: !IsBareLf(false, data, k))
  }

  lemma NothingCopied(data: seq<byte>)
    ensures CopiedUpTo(data, 0, 0, [])
  {
  }

  lemma CopyStep(data: seq<byte>, i: nat, lastIdx: nat, out: seq<byte>)
    requires i < |data| && CopiedUpTo(data, i, lastIdx, out)
    ensures lastIdx <= i
    ensures IsBareLf(false, data, i) ==>
              CopiedUpTo(data, i + 1, i + 1, out + data[lastIdx..i] + [CR] + [LF])
    ensures !IsBareLf(false, data, i) ==> CopiedUpTo(data, i + 1, lastIdx, out)
  {
    hide CanonicalAfter;
    CanonicalSnoc(false, data[..i], data[i]);
    assert data[..i + 1] == data[..i] + [data[i]];
    assert data[lastIdx..i + 1] == data[lastIdx..i] + [data[i]];
    assert data[i + 1..i + 1] == [];
    assert [CR, LF] == [CR] + [LF];
    assert IsBareLf(false, data[..i + 1], i) == IsBareLf(false, data, i);
  }

  lemma CopyEnd(data: seq<byte>, lastIdx: nat, out: seq<byte>)
    requires CopiedUpTo(data, |data|, lastIdx, out)
    ensures lastIdx <= |data| && out + data[lastIdx..] == Canonical(data)
    ensures out == [] ==> Canonical(data) == data
    ensures out == [] <==> !HasBareLf(data)
  {
    hide CanonicalAfter;
    assert data[..|data|] == data;
  }

  // ---------------------------------------------------------------- what canonical text is

  lemma {:induction false} CanonicalTwice(afterCr: bool, data: seq<byte>)
    ensures CanonicalAfter(afterCr, CanonicalAfter(afterCr, data)) == CanonicalAfter(afterCr, data)
    decreases |data|
  {
    if data != [] {
      var rest := CanonicalAfter(data[0] == CR, data[1..]);
      CanonicalTwice(data[0] == CR, data[1..]);
      if data[0] == LF && !afterCr {
        assert CanonicalAfter(afterCr, data) == [CR, LF] + rest;
        assert ([CR, LF] + rest)[1..] == [LF] + rest;
        assert ([LF] + rest)[1..] == rest;
      } else {
        assert ([data[0]] + rest)[1..] == rest;
      }
    }
  }

  /** Canonicalising again changes nothing. */
  lemma CanonicalIsIdempotent(data: seq<byte>)
    ensures Canonical(Canonical(data)) == Canonical(data)
  {
    CanonicalTwice(false, data);
  }

  /** How many CRs canonicalising adds. */
  function BareLfs(afterCr: bool, data: seq<byte>): nat
    decreases |data|
  {
    if data == [] then 0
    else (if data[0] == LF && !afterCr then 1 else 0) + BareLfs(data[0] == CR, data[1..])
  }

  lemma {:induction false} CanonicalGrows(afterCr: bool, data: seq<byte>)
    ensures |CanonicalAfter(afterCr, data)| == |data| + BareLfs(afterCr, data)
    ensures BareLfs(afterCr, data) == 0 ==> CanonicalAfter(afterCr, data) == data
    decreases |data|
  {
    if data != [] {
      CanonicalGrows(data[0] == CR, data[1..]);
      assert data == [data[0]] + data[1..];
    }
  }

  lemma {:induction false} BareLfsMeaning(afterCr: bool, data: seq<byte>)
    ensures BareLfs(afterCr, data) == 0 <==> forall i | 0 <= i < |data| :: !IsBareLf(afterCr, data, i)
    decreases |data|
  {
    if data != [] {
      var cr, tail := data[0] == CR, data[1..];
      BareLfsMeaning(cr, tail);
      forall i | 0 <= i < |tail| ensures IsBareLf(cr, tail, i) <==> IsBareLf(afterCr, data, i + 1) {
      }
      if BareLfs(afterCr, data) == 0 {
        forall i | 0 <= i < |data| ensures !IsBareLf(afterCr, data, i) {
          if i > 0 {
            assert !IsBareLf(cr, tail, i - 1);
          }
        }
      } else if BareLfs(cr, tail) == 0 {
        assert IsBareLf(afterCr, data, 0);
      }
    }
  }

  /** Text is canonical exactly when it has no bare LF, and canonicalising leaves none. */
  lemma CanonicalMeansNoBareLf(data: seq<byte>)
    ensures Canonical(data) == data <==> !HasBareLf(data)
    ensures !HasBareLf(Canonical(data))
  {
    CanonicalGrows(false, data);
    BareLfsMeaning(false, data);
    CanonicalIsIdempotent(data);
    CanonicalGrows(false, Canonical(data));
    BareLfsMeaning(false, Canonical(data));
  }

  /** The text with every CR LF made LF. */
  function Unix(data: seq<byte>): seq<byte> {
    if data == [] then []
    else if |data| >= 2 && data[0] == CR && data[1] == LF then [LF] + Unix(data[2..])
    else [data[0]] + Unix(data[1..])
  }

  lemma AfterCrOnlyMattersForLf(data: seq<byte>)
    requires data == [] || data[0] != LF
    ensures CanonicalAfter(true, data) == CanonicalAfter(false, data)
    ensures data != [] ==> CanonicalAfter(false, data)[0] == data[0]
  {
  }

  /** Nothing but line endings is touched: both texts are the same once CR LF is read as LF. */
  lemma {:induction false} ContentIsKept(data: seq<byte>)
    ensures Unix(Canonical(data)) == Unix(data)
    decreases |data|
  {
    if data != [] {
      var tail := data[1..];
      if data[0] == CR && tail != [] && tail[0] == LF {
        var rest := Canonical(data[2..]);
        assert tail[1..] == data[2..];
        assert CanonicalAfter(true, tail) == [LF] + rest;
        assert Canonical(data) == [CR] + ([LF] + rest);
        assert ([CR] + ([LF] + rest))[2..] == rest;
        ContentIsKept(data[2..]);
      } else if data[0] == CR {
        AfterCrOnlyMattersForLf(tail);
        var rest := Canonical(tail);
        assert Canonical(data) == [CR] + rest;
        assert ([CR] + rest)[1..] == rest;
        ContentIsKept(tail);
      } else if data[0] == LF {
        var rest := Canonical(tail);
        assert Canonical(data) == [CR, LF] + rest;
        assert ([CR, LF] + rest)[2..] == rest;
        ContentIsKept(tail);
      } else {
        var rest := Canonical(tail);
        assert Canonical(data) == [data[0]] + rest;
        assert ([data[0]] + rest)[1..] == rest;
        ContentIsKept(tail);
      }
    }
  }
}
