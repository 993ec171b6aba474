/** Writing what was decoded: when it gives the text back. */
module TxExtraWriteBack {
  import opened Options
  import opened TxExtraFormat
  import opened TxExtraRoundTrip

  // ----- bytes

  predicate IsLowerHex(s: string) {
    forall i :: 0 <= i < |s| ==> '0' <= s[i] <= '9' || 'a' <= s[i] <= 'f'
  }

  lemma HexByteBack(t: string)
    requires |t| == 2 && IsLowerHex(t)
    ensures Number(t, 16) < 256 && HexByte(Number(t, 16)) == t
  {
    NumberOfTwo(t, 16);
    var b := Number(t, 16);
    assert b / 16 == Digit(t[0]) && b % 16 == Digit(t[1]);
    assert HexChar(Digit(t[0])) == t[0] && HexChar(Digit(t[1])) == t[1];
  }

  lemma WriteByte(v: nat, first: nat, rest: nat, bytes: nat)
    requires v == first + 256 * rest && first < 256
    ensures WriteLittleEndian(v, bytes + 1) == HexByte(first) + WriteLittleEndian(rest, bytes)
  {
    assert v % 256 == first && v / 256 == rest;
  }

  /** One byte in front of a number that is written back. */
  lemma FirstByteBack(s: string, v: nat, rest: nat, bytes: nat)
    requires |s| == 2 * bytes + 2 && IsLowerHex(s) && v == Number(s[..2], 16) + 256 * rest
    requires rest < Power256(bytes) && WriteLittleEndian(rest, bytes) == s[2..]
    ensures v < Power256(bytes + 1) && WriteLittleEndian(v, bytes + 1) == s
  {
    HexByteBack(s[..2]);
    WriteByte(v, Number(s[..2], 16), rest, bytes);
    assert s == s[..2] + s[2..];
  }

  lemma {:induction false} LittleEndianBack(s: string, bytes: nat) returns (v: nat)
    requires |s| == 2 * bytes && IsLowerHex(s)
    ensures v == LittleEndian(s) && v < Power256(bytes) && WriteLittleEndian(v, bytes) == s
  {
    v := LittleEndian(s);
    if bytes == 0 {
    } else {
      var rest := LittleEndianBack(s[2..], bytes - 1);
      FirstByteBack(s, v, rest, bytes - 1);
    }
  }

  /** A byte from 00 to 09 reads the same in decimal and is written the same. */
  lemma SmallByte(t: string)
    requires |t| == 2 && t[0] == '0' && '0' <= t[1] <= '9'
    ensures IntOf(t, 10) == Ok(Digit(t[1])) && Digit(t[1]) <= 9 && HexByte(Digit(t[1])) == t
  {
    NumberOfTwo(t, 10);
    assert Digit(t[0]) == 0;
    assert HexChar(0) == '0' && HexChar(Digit(t[1])) == t[1];
  }

  lemma SmallByteWritten(b: nat)
    requires b <= 9
    ensures HexByte(b)[0] == '0' && '0' <= HexByte(b)[1] <= '9' && Digit(HexByte(b)[1]) == b
  {
  }

  // ----- pieces

  lemma Associate(a: string, b: string, c: string)
    ensures a + b + c == a + (b + c)
  {
  }

  lemma Pieces(s: string, k: nat)
    requires k <= |s|
    ensures |Head(s, k)| == k && Head(s, k) + Tail(s, k) == s
    ensures Head(s, k) == s[..k] && Tail(s, k) == s[k..]
  {
  }

  // ----- full fields

  /** The length of the optional parts before the encrypted value. */
  function FixedLength(flags: nat): nat {
    (if HasOwner(flags) then 132 else 0) + (if HasBackupOwner(flags) then 132 else 0)
    + (if HasSignature(flags) then 64 else 0)
  }

  predicate FullValue(s: string) {
    |s| >= 2 && |s| >= 2 + 2 * Number(s[..2], 16)
  }

  /** The text is long enough for the parts that the flags select. */
  predicate FullExtras(flags: nat, s: string) {
    && |s| >= FixedLength(flags)
    && (HasEncryptedValue(flags) ==> FullValue(s[FixedLength(flags)..]))
  }

  predicate FullOns(s: string) {
    |s| >= 134 && s[132] == '0' && '0' <= s[133] <= '9' && FullExtras(Digit(s[133]), s[134..])
  }

  predicate FullNonce(s: string) {
    |s| >= 4 && s[0] == '0' && '1' <= s[1] <= '9' && |s| >= 4 + 2 * (Digit(s[1]) - 1)
  }

  /** The field at the front of the text is complete: no piece of it is cut short by the end of
      the text, a nonce size is from 01 to 09, and flags are from 00 to 09. */
  predicate FullField(s: string) {
    && |s| >= 2
    && (s[..2] == "01" ==> |s| >= 66)
    && (s[..2] == "02" ==> FullNonce(s[2..]))
    && (s[..2] == "7a" ==> FullOns(s[2..]))
    && (s[..2] == "79" ==> |s| >= 18)
  }

  // ----- a full field is written back

  lemma OwnerBack(s: string)
    requires |s| >= 132
    ensures var (o, rest) := ReadOwner(s); OwnerFits(o) && WriteOwner(o) + rest == s && rest == s[132..]
  {
    var s1 := Tail(s, 2);
    var s2 := Tail(s1, 64);
    var s3 := Tail(s2, 64);
    Pieces(s, 2);
    Pieces(s1, 64);
    Pieces(s2, 64);
    Pieces(s3, 2);
    Regroup(Head(s, 2), Head(s1, 64), Head(s2, 64), Head(s3, 2), Tail(s3, 2));
  }

  lemma OptionalOwnerBack(present: bool, s: string)
    requires present ==> |s| >= 132
    ensures var (o, rest) := ReadOptionalOwner(present, s);
            && (o.Some? <==> present) && (o.Some? ==> OwnerFits(o.value))
            && WriteOptionalOwner(o) + rest == s && rest == s[if present then 132 else 0..]
  {
    if present {
      OwnerBack(s);
    }
  }

  lemma OptionalSignatureBack(present: bool, s: string)
    requires present ==> |s| >= 64
    ensures var (o, rest) := ReadOptionalSignature(present, s);
            && (o.Some? <==> present) && (o.Some? ==> |o.value| == 64)
            && WriteOptionalText(o) + rest == s && rest == s[if present then 64 else 0..]
  {
    if present {
      Pieces(s, 64);
    }
  }

  lemma ValueCut(s: string, size: nat)
    requires IsLowerHex(s) && |s| >= 2 && size == Number(s[..2], 16) && |s| >= 2 + 2 * size
    ensures size < 256 && |Head(s[2..], size * 2)| == size * 2
    ensures HexByte(size) + Head(s[2..], size * 2) + Tail(s[2..], size * 2) == s
  {
    HexByteBack(s[..2]);
    Pieces(s[2..], size * 2);
    Associate(HexByte(size), Head(s[2..], size * 2), Tail(s[2..], size * 2));
  }

  lemma OptionalValueBack(present: bool, s: string)
    requires IsLowerHex(s) && (present ==> FullValue(s)) && ReadOptionalValue(present, s).Ok?
    ensures var (o, rest) := ReadOptionalValue(present, s).value;
            && (o.Some? <==> present)
            && (o.Some? ==> |o.value| % 2 == 0 && |o.value| <= 510)
            && WriteOptionalValue(o) + rest == s
  {
    if present {
      Pieces(s, 2);
      var size := Number(s[..2], 16);
      ValueCut(s, size);
      var value, rest := Head(s[2..], size * 2), Tail(s[2..], size * 2);
      assert ReadOptionalValue(present, s) == Ok((Some(value), rest));
      assert |value| / 2 == size;
    }
  }

  lemma DropTwice(s: string, a: nat, b: nat)
    requires a + b <= |s|
    ensures s[a..][b..] == s[a + b..]
  {
  }

  /** The optional parts before the encrypted value. */
  lemma FixedBack(flags: nat, s: string)
    requires |s| >= FixedLength(flags)
    ensures var (owner, s1) := ReadOptionalOwner(HasOwner(flags), s);
            var (backup, s2) := ReadOptionalOwner(HasBackupOwner(flags), s1);
            var (signature, s3) := ReadOptionalSignature(HasSignature(flags), s2);
            && (owner.Some? <==> HasOwner(flags)) && (owner.Some? ==> OwnerFits(owner.value))
            && (backup.Some? <==> HasBackupOwner(flags)) && (backup.Some? ==> OwnerFits(backup.value))
            && (signature.Some? <==> HasSignature(flags)) && (signature.Some? ==> |signature.value| == 64)
            && s == WriteOptionalOwner(owner) + s1 && s1 == WriteOptionalOwner(backup) + s2
            && s2 == WriteOptionalText(signature) + s3 && s3 == s[FixedLength(flags)..]
  {
    var s1 := ReadOptionalOwner(HasOwner(flags), s).1;
    OptionalOwnerBack(HasOwner(flags), s);
    var s2 := ReadOptionalOwner(HasBackupOwner(flags), s1).1;
    OptionalOwnerBack(HasBackupOwner(flags), s1);
    OptionalSignatureBack(HasSignature(flags), s2);
    var a := if HasOwner(flags) then 132 else 0;
    var b := if HasBackupOwner(flags) then 132 else 0;
    DropTwice(s, a, b);
    DropTwice(s, a + b, if HasSignature(flags) then 64 else 0);
  }

  lemma LowerTail(s: string, k: nat)
    requires IsLowerHex(s) && k <= |s|
    ensures IsLowerHex(s[k..])
  {
  }

  lemma JoinFour(s: string, s1: string, s2: string, s3: string, s4: string, a: string, b: string, c: string, d: string)
    requires s == a + s1 && s1 == b + s2 && s2 == c + s3 && s3 == d + s4
    ensures a + (b + (c + d)) + s4 == s
  {
    Regroup(a, b, c, d, s4);
  }

  lemma ExtrasBack(flags: nat, s: string)
    requires IsLowerHex(s) && FullExtras(flags, s) && ReadOnsExtras(flags, s).Ok?
    ensures var (e, rest) := ReadOnsExtras(flags, s).value; ExtrasFit(flags, e) && WriteOnsExtras(e) + rest == s
  {
    FixedBack(flags, s);
    var (owner, s1) := ReadOptionalOwner(HasOwner(flags), s);
    var (backup, s2) := ReadOptionalOwner(HasBackupOwner(flags), s1);
    var (signature, s3) := ReadOptionalSignature(HasSignature(flags), s2);
    LowerTail(s, FixedLength(flags));
    OptionalValueBack(HasEncryptedValue(flags), s3);
    var (value, s4) := ReadOptionalValue(HasEncryptedValue(flags), s3).value;
    JoinFour(s, s1, s2, s3, s4, WriteOptionalOwner(owner), WriteOptionalOwner(backup), WriteOptionalText(signature),
             WriteOptionalValue(value));
  }

  lemma OnsTypeBack(tag: string)
    requires OnsTypeOf(tag).Ok?
    ensures OnsTypeTag(OnsTypeOf(tag).value) == tag
  {
  }

  lemma JoinFive(s: string, s1: string, s2: string, s3: string, s4: string, s5: string,
                 a: string, b: string, c: string, d: string, e: string)
    requires s == a + s1 && s1 == b + s2 && s2 == c + s3 && s3 == d + s4 && s4 == e + s5
    ensures s == a + (b + (c + (d + e))) + s5
  {
    JoinFour(s1, s2, s3, s4, s5, b, c, d, e);
    Associate(a, b + (c + (d + e)), s5);
  }

  /** The five cuts of a header that is not cut short. */
  lemma HeaderPieces(s: string)
    requires |s| >= 134
    ensures var s1 := Tail(s, 2);
            var s2 := Tail(s1, 2);
            var s3 := Tail(s2, 64);
            var s4 := Tail(s3, 64);
            && |Head(s, 2)| == 2 && |Head(s2, 64)| == 64 && |Head(s3, 64)| == 64
            && s == Head(s, 2) + (Head(s1, 2) + (Head(s2, 64) + (Head(s3, 64) + Head(s4, 2)))) + Tail(s4, 2)
            && Head(s4, 2) == s[132..134] && Tail(s4, 2) == s[134..]
  {
    Pieces(s, 2);
    Pieces(s[2..], 2);
    DropTwice(s, 2, 2);
    Pieces(s[4..], 64);
    DropTwice(s, 4, 64);
    Pieces(s[68..], 64);
    DropTwice(s, 68, 64);
    Pieces(s[132..], 2);
    DropTwice(s, 132, 2);
    assert s[132..][..2] == s[132..134];
    JoinFive(s, s[2..], s[4..], s[68..], s[132..], s[134..],
             s[..2], s[2..][..2], s[4..][..64], s[68..][..64], s[132..134]);
  }

  lemma HeaderBack(s: string)
    requires |s| >= 134 && s[132] == '0' && '0' <= s[133] <= '9' && ReadOnsHeader(s).Ok?
    ensures var (h, rest) := ReadOnsHeader(s).value;
            && HeaderFits(h) && h.flags == Digit(s[133]) && WriteOnsHeader(h) + rest == s && rest == s[134..]
  {
    HeaderPieces(s);
    SmallByte(s[132..134]);
    OnsTypeBack(Head(Tail(s, 2), 2));
  }

  lemma OnsJoin(h: OnsHeader, e: OnsExtras, s: string, t: string, rest: string)
    requires HeaderFits(h) && ExtrasFit(h.flags, e)
    requires WriteOnsHeader(h) + t == s && WriteOnsExtras(e) + rest == t
    ensures WriteField(Ons(h, e)) + rest == "7a" + s
  {
    Associate("7a", WriteOnsHeader(h) + WriteOnsExtras(e), rest);
    Associate(WriteOnsHeader(h), WriteOnsExtras(e), rest);
  }

  lemma OnsBack(s: string)
    requires IsLowerHex(s) && FullOns(s) && ReadOns(s).Ok?
    ensures Fits(ReadOns(s).value.0) && WriteField(ReadOns(s).value.0) + ReadOns(s).value.1 == "7a" + s
  {
    HeaderBack(s);
    var (h, t) := ReadOnsHeader(s).value;
    LowerTail(s, 134);
    ExtrasBack(h.flags, t);
    var (e, rest) := ReadOnsExtras(h.flags, t).value;
    OnsJoin(h, e, s, t, rest);
    assert ReadOns(s) == Ok((Ons(h, e), rest));
  }

  lemma NonceBack(s: string)
    requires FullNonce(s) && ReadNonce(s).Ok?
    ensures var (f, rest) := ReadNonce(s).value; Fits(f) && WriteField(f) + rest == "02" + s
  {
    var size := Digit(s[1]);
    Pieces(s, 2);
    SmallByte(s[..2]);
    Pieces(s[2..], 2);
    Pieces(s[4..], (size - 1) * 2);
    assert s[2..][2..] == s[4..];
    var (f, rest) := ReadNonce(s).value;
    assert f.data == s[4..][..(size - 1) * 2] && NonceSize(f.data) == size;
    assert NonceTag(f.kind) == s[2..][..2];
    assert s == s[..2] + (s[2..][..2] + (f.data + rest));
    Regroup("02", HexByte(size), NonceTag(f.kind), f.data, rest);
  }

  lemma BurnBack(s: string)
    requires IsLowerHex(s) && |s| >= 16 && ReadBurn(s).Ok?
    ensures var (f, rest) := ReadBurn(s).value; Fits(f) && WriteField(f) + rest == "79" + s
  {
    Pieces(s, 16);
    var amount := LittleEndianBack(s[..16], 8);
    assert Power256(8) == 0x1_0000_0000_0000_0000 by {
      assert Power256(4) == 0x1_0000_0000;
    }
    Associate("79", s[..16], s[16..]);
  }

  /** The tags of lower-case text that are in upper case what the decoder looks for. */
  lemma TagBack(tag: string)
    requires |tag| == 2 && IsLowerHex(tag)
    ensures Upper(tag) == "7A" <==> tag == "7a"
    ensures Upper(tag) == "01" <==> tag == "01"
    ensures Upper(tag) == "02" <==> tag == "02"
    ensures Upper(tag) == "79" <==> tag == "79"
  {
    UpperTags();
    assert Upper(tag)[0] == UpperChar(tag[0]) && Upper(tag)[1] == UpperChar(tag[1]);
  }

  /** A full field of lower-case text is written back as it was. */
  lemma FullFieldBack(s: string)
    requires IsLowerHex(s) && FullField(s) && ReadField(s).Ok?
    ensures var (f, rest) := ReadField(s).value; Fits(f) && WriteField(f) + rest == s
  {
    var tag, t := s[..2], s[2..];
    Pieces(s, 2);
    TagBack(tag);
    assert s == tag + t;
    assert ReadField(s) == ReadData(Upper(tag), t);
    if tag == "01" {
      Pieces(t, 64);
      Associate("01", t[..64], t[64..]);
    } else if tag == "02" {
      NonceBack(t);
    } else if tag == "7a" {
      OnsBack(t);
    } else {
      assert tag == "79";
      BurnBack(t);
    }
  }

  // ----- what is written back was a full field

  lemma ValueLength(o: Option<string>, t: string)
    requires o.Some? && |o.value| % 2 == 0 && |o.value| <= 510
    ensures FullValue(WriteOptionalValue(o) + t)
  {
    var size := |o.value| / 2;
    HexByteValue(size);
    assert (WriteOptionalValue(o) + t)[..2] == HexByte(size);
  }

  lemma FixedJoin(a: string, b: string, c: string, t: string)
    ensures a + (b + (c + t)) == a + (b + c) + t
  {
  }

  lemma FixedWritten(flags: nat, e: OnsExtras, t: string) returns (fixed: string)
    requires ExtrasFit(flags, e)
    ensures |fixed| == FixedLength(flags)
    ensures WriteOnsExtras(e) + t == fixed + (WriteOptionalValue(e.encryptedValue) + t)
  {
    var a, b, c := WriteOptionalOwner(e.owner), WriteOptionalOwner(e.backupOwner), WriteOptionalText(e.signature);
    fixed := a + (b + c);
    Regroup(a, b, c, WriteOptionalValue(e.encryptedValue), t);
    FixedJoin(a, b, c, WriteOptionalValue(e.encryptedValue) + t);
  }

  lemma ExtrasLength(flags: nat, e: OnsExtras, t: string)
    requires ExtrasFit(flags, e)
    ensures FullExtras(flags, WriteOnsExtras(e) + t)
  {
    var value := WriteOptionalValue(e.encryptedValue) + t;
    var fixed := FixedWritten(flags, e, t);
    assert (fixed + value)[|fixed|..] == value;
    if e.encryptedValue.Some? {
      ValueLength(e.encryptedValue, t);
    }
  }

  lemma NonceIsFull(kind: NonceKind, data: string, t: string)
    requires |data| % 2 == 0 && NonceSize(data) <= 9
    ensures FullNonce(HexByte(NonceSize(data)) + (NonceTag(kind) + data) + t)
  {
    SmallByteWritten(NonceSize(data));
  }

  lemma HeaderWritten(h: OnsHeader, u: string)
    requires HeaderFits(h) && h.flags <= 9
    ensures var s := WriteOnsHeader(h) + u;
            |s| >= 134 && s[132] == '0' && '0' <= s[133] <= '9' && Digit(s[133]) == h.flags && s[134..] == u
  {
    var front := h.version + (OnsTypeTag(h.kind) + (h.nameHash + h.prevTxid));
    OnsTypeRoundTrip(h.kind);
    SmallByteWritten(h.flags);
    var s := WriteOnsHeader(h) + u;
    assert |front| == 132 && s == front + (HexByte(h.flags) + u);
  }

  lemma Tagged(tag: string, u: string)
    requires |tag| == 2
    ensures (tag + u)[..2] == tag && (tag + u)[2..] == u
  {
  }

  lemma OnsIsFull(h: OnsHeader, e: OnsExtras, t: string)
    requires HeaderFits(h) && h.flags <= 9 && ExtrasFit(h.flags, e)
    ensures FullOns(WriteOnsHeader(h) + WriteOnsExtras(e) + t)
  {
    Associate(WriteOnsHeader(h), WriteOnsExtras(e), t);
    HeaderWritten(h, WriteOnsExtras(e) + t);
    ExtrasLength(h.flags, e, t);
  }

  lemma WrittenIsFull(f: Field, t: string)
    requires Fits(f) && Readable(f)
    ensures FullField(WriteField(f) + t)
  {
    match f
    case Pubkey(key) =>
      Associate("01", key, t);
      Tagged("01", key + t);
    case Burn(amount) =>
      Associate("79", WriteLittleEndian(amount, 8), t);
      Tagged("79", WriteLittleEndian(amount, 8) + t);
    case Nonce(kind, data) =>
      var u := HexByte(NonceSize(data)) + (NonceTag(kind) + data);
      Associate("02", u, t);
      Tagged("02", u + t);
      NonceIsFull(kind, data, t);
    case Ons(h, e) =>
      var u := WriteOnsHeader(h) + WriteOnsExtras(e);
      Associate("7a", u, t);
      Tagged("7a", u + t);
      OnsIsFull(h, e, t);
  }

  /** A field that is read from the text and whose writing begins the text was full, and its
      writing is what was cut off. */
  lemma PrefixIsFull(s: string, f: Field, rest: string)
    requires ReadField(s) == Ok((f, rest)) && Fits(f) && WriteField(f) <= s
    ensures FullField(s) && WriteField(f) + rest == s
  {
    var t := s[|WriteField(f)|..];
    assert s == WriteField(f) + t;
    assert Readable(f) && t == rest by {
      assert ReadsAs(s, f, rest);
      FieldRoundTrip(f, t);
    }
    WrittenIsFull(f, t);
  }

  // ----- whole texts

  /** The text is made of full fields. */
  predicate Whole(s: string)
    decreases |s|
  {
    if s == "" then true
    else
      var r := ReadField(s);
      ReadFieldShrinks(s);
      FullField(s) && r.Ok? && Whole(r.value.1)
  }

  predicate AllFit(fs: seq<Field>) {
    forall i :: 0 <= i < |fs| ==> Fits(fs[i])
  }

  predicate WritesBack(fs: seq<Field>, s: string) {
    AllFit(fs) && Write(fs) == s
  }

  lemma WriteFirst(f: Field, fs: seq<Field>)
    requires Fits(f) && AllFit(fs)
    ensures AllFit([f] + fs) && Write([f] + fs) == WriteField(f) + Write(fs)
  {
    assert ([f] + fs)[1..] == fs;
  }

  lemma FitsFirst(f: Field, fs: seq<Field>)
    requires AllFit([f] + fs)
    ensures Fits(f) && AllFit(fs)
  {
    assert ([f] + fs)[0] == f;
    forall i | 0 <= i < |fs| ensures Fits(fs[i]) {
      assert fs[i] == ([f] + fs)[i + 1];
    }
  }

  lemma SamePrefix(a: string, b: string, c: string)
    ensures a + b == a + c <==> b == c
  {
    if a + b == a + c {
      assert b == (a + b)[|a|..] && c == (a + c)[|a|..];
    }
  }

  lemma WriteBackStep(s: string, f: Field, rest: string, fs: seq<Field>)
    requires s != "" && IsLowerHex(s) && ReadField(s) == Ok((f, rest))
    requires WritesBack(fs, rest) <==> Whole(rest)
    ensures WritesBack([f] + fs, s) <==> Whole(s)
  {
    if FullField(s) {
      FullFieldBack(s);
      if AllFit(fs) {
        WriteFirst(f, fs);
        assert WriteField(f) + Write(fs) == WriteField(f) + rest <==> Write(fs) == rest by {
          SamePrefix(WriteField(f), Write(fs), rest);
        }
      } else if AllFit([f] + fs) {
        FitsFirst(f, fs);
      }
    } else if WritesBack([f] + fs, s) {
      FitsFirst(f, fs);
      WriteFirst(f, fs);
      PrefixIsFull(s, f, rest);
    }
  }

  /** Writing the fields that lower-case text was decoded to gives the text back if and only if
      it is made of full fields. */
  lemma {:induction false} WriteBack(s: string)
    requires IsLowerHex(s) && Decode(s).error.None?
    ensures WritesBack(Decode(s).fields, s) <==> Whole(s)
    decreases |s|
  {
    if s == "" {
    } else {
      var (f, rest) := ReadField(s).value;
      DecodeOk(s, f, rest);
      ReadFieldShrinks(s);
      WriteBack(rest);
      WriteBackStep(s, f, rest, Decode(rest).fields);
    }
  }

  /** With a nonce size of 00 the data are all but the last two characters of the text. */
  lemma NonceSizeZero(kind: NonceKind, t: string)
    ensures ReadNonce("00" + (NonceTag(kind) + t)) == Ok((Nonce(kind, Head(t, -2)), Tail(t, -2)))
  {
    SmallByte("00");
    CutJoined("00", NonceTag(kind) + t);
    CutJoined(NonceTag(kind), t);
  }

  lemma EmptyNonce(kind: NonceKind)
    ensures WriteField(Nonce(kind, "")) == "0201" + NonceTag(kind)
  {
    assert HexByte(1) == "01";
    assert NonceTag(kind) + "" == NonceTag(kind);
    Associate("02", "01", NonceTag(kind));
    assert "02" + "01" == "0201";
  }

  /** So at the end of a text a size of 00 is read like 01, and written back as 01. */
  lemma SizeZero(kind: NonceKind, t: string)
    requires |t| <= 2
    ensures ReadField("0200" + (NonceTag(kind) + t)) == Ok((Nonce(kind, ""), t))
    ensures WriteField(Nonce(kind, "")) == "0201" + NonceTag(kind)
  {
    var s := NonceTag(kind) + t;
    UpperTags();
    TagRead("02", "00" + s);
    Associate("02", "00", s);
    assert "02" + "00" == "0200";
    NonceSizeZero(kind, t);
    assert Head(t, -2) == "" && Tail(t, -2) == t;
    EmptyNonce(kind);
  }
}
