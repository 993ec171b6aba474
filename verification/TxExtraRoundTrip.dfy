/** Writing the fields of a transaction's extra data, and reading them back. */
module TxExtraRoundTrip {
  import opened Options
  import opened TxExtraFormat

  // ----- writing

  function HexChar(d: nat): (c: char)
    requires d < 16
    ensures Digit(c) == d && IsHexDigit(c)
  {
    if d < 10 then '0' + d as char else 'a' + (d - 10) as char
  }

  function HexByte(b: nat): (s: string)
    requires b < 256
    ensures |s| == 2 && IsHex(s)
  {
    [HexChar(b / 16), HexChar(b % 16)]
  }

  function WriteLittleEndian(v: nat, bytes: nat): (s: string)
    ensures |s| == 2 * bytes
  {
    if bytes == 0 then "" else HexByte(v % 256) + WriteLittleEndian(v / 256, bytes - 1)
  }

  function NonceTag(kind: NonceKind): string {
    match kind
    case PaymentId => "00"
    case EncryptedPaymentId => "01"
  }

  function OnsTypeTag(kind: OnsType): string {
    match kind
    case Session => "00"
    case Wallet => "01"
    case Lokinet => "02"
    case Lokinet2Year => "03"
    case Lokinet5Year => "04"
    case Lokinet10Year => "05"
  }

  function NonceSize(data: string): nat {
    |data| / 2 + 1
  }

  function WriteOwner(o: Owner): string {
    o.kind + (o.spendKey + (o.viewKey + o.isSubaddress))
  }

  function WriteOptionalOwner(o: Option<Owner>): string {
    if o.Some? then WriteOwner(o.value) else ""
  }

  function WriteOptionalText(t: Option<string>): string {
    if t.Some? then t.value else ""
  }

  function WriteOptionalValue(t: Option<string>): string
    requires t.Some? ==> |t.value| <= 510
  {
    if t.Some? then HexByte(|t.value| / 2) + t.value else ""
  }

  function WriteOnsHeader(h: OnsHeader): string
    requires h.flags < 256
  {
    h.version + (OnsTypeTag(h.kind) + (h.nameHash + (h.prevTxid + HexByte(h.flags))))
  }

  function WriteOnsExtras(e: OnsExtras): string
    requires e.encryptedValue.Some? ==> |e.encryptedValue.value| <= 510
  {
    WriteOptionalOwner(e.owner) + (WriteOptionalOwner(e.backupOwner)
      + (WriteOptionalText(e.signature) + WriteOptionalValue(e.encryptedValue)))
  }

  // ----- the fields that can be written

  predicate OwnerFits(o: Owner) {
    |o.kind| == 2 && |o.spendKey| == 64 && |o.viewKey| == 64 && |o.isSubaddress| == 2
  }

  predicate HeaderFits(h: OnsHeader) {
    |h.version| == 2 && |h.nameHash| == 64 && |h.prevTxid| == 64 && h.flags < 256
  }

  /** The optional parts are present exactly as the flags say. */
  predicate ExtrasFit(flags: nat, e: OnsExtras) {
    && (e.owner.Some? <==> HasOwner(flags))
    && (e.owner.Some? ==> OwnerFits(e.owner.value))
    && (e.backupOwner.Some? <==> HasBackupOwner(flags))
    && (e.backupOwner.Some? ==> OwnerFits(e.backupOwner.value))
    && (e.signature.Some? <==> HasSignature(flags))
    && (e.signature.Some? ==> |e.signature.value| == 64)
    && (e.encryptedValue.Some? <==> HasEncryptedValue(flags))
    && (e.encryptedValue.Some? ==> |e.encryptedValue.value| % 2 == 0 && |e.encryptedValue.value| <= 510)
  }

  /** Sizes and flags fit in a byte, amounts in 64 bits, keys and hashes in 32 bytes. */
  predicate Fits(f: Field) {
    match f
    case Pubkey(key) => |key| == 64
    case Nonce(_, data) => |data| % 2 == 0 && NonceSize(data) < 256
    case Ons(header, extras) => HeaderFits(header) && ExtrasFit(header.flags, extras)
    case Burn(amount) => amount < 0x1_0000_0000_0000_0000
  }

  function WriteField(f: Field): (s: string)
    requires Fits(f)
    ensures |s| >= 2
  {
    match f
    case Pubkey(key) => "01" + key
    case Nonce(kind, data) => "02" + (HexByte(NonceSize(data)) + (NonceTag(kind) + data))
    case Ons(header, extras) => "7a" + (WriteOnsHeader(header) + WriteOnsExtras(extras))
    case Burn(amount) => "79" + WriteLittleEndian(amount, 8)
  }

  function Write(fs: seq<Field>): string
    requires forall i :: 0 <= i < |fs| ==> Fits(fs[i])
  {
    if fs == [] then "" else WriteField(fs[0]) + Write(fs[1..])
  }

  /** The decimal and the hexadecimal reading of the field's size or flags agree. */
  predicate Readable(f: Field) {
    match f
    case Nonce(_, data) => NonceSize(data) <= 9
    case Ons(header, _) => header.flags <= 9
    case _ => true
  }

  // ----- bytes

  lemma NumberOfTwo(s: string, base: nat)
    requires |s| == 2
    ensures Number(s, base) == Digit(s[0]) * base + Digit(s[1])
  {
    var first := s[..1];
    assert Number(first, base) == Number(first[..0], base) * base + Digit(first[0]);
    assert Number(first[..0], base) == 0;
  }

  lemma HexByteValue(b: nat)
    requires b < 256
    ensures IntOf(HexByte(b), 16) == Ok(b) && Number(HexByte(b), 16) == b
    ensures b <= 9 ==> IntOf(HexByte(b), 10) == Ok(b)
    ensures b > 9 && IntOf(HexByte(b), 10).Ok? ==> 10 <= IntOf(HexByte(b), 10).value < b
  {
    var s := HexByte(b);
    NumberOfTwo(s, 16);
    NumberOfTwo(s, 10);
    assert Digit(s[0]) == b / 16 && Digit(s[1]) == b % 16;
  }

  function Power256(n: nat): nat {
    if n == 0 then 1 else 256 * Power256(n - 1)
  }

  lemma {:induction false} LittleEndianRoundTrip(v: nat, bytes: nat)
    requires v < Power256(bytes)
    ensures LittleEndian(WriteLittleEndian(v, bytes)) == v
  {
    if bytes == 0 {
    } else {
      var rest := WriteLittleEndian(v / 256, bytes - 1);
      var s := HexByte(v % 256) + rest;
      LittleEndianRoundTrip(v / 256, bytes - 1);
      HexByteValue(v % 256);
      assert s[..2] == HexByte(v % 256) && s[2..] == rest;
    }
  }

  // ----- cutting what was joined

  lemma CutJoined(a: string, t: string)
    ensures Head(a + t, |a|) == a && Tail(a + t, |a|) == t
  {
  }

  lemma Regroup(a: string, b: string, c: string, d: string, t: string)
    ensures a + (b + (c + d)) + t == a + (b + (c + (d + t)))
  {
  }

  lemma CutLonger(a: string, t: string, k: nat)
    requires k < |a|
    ensures |Head(a + t, k)| == k
  {
  }

  // ----- the parts of a name-system field

  lemma OwnerRoundTrip(o: Owner, t: string)
    requires OwnerFits(o)
    ensures ReadOwner(WriteOwner(o) + t) == (o, t)
  {
    var t3 := o.isSubaddress + t;
    var t2 := o.viewKey + t3;
    var t1 := o.spendKey + t2;
    assert WriteOwner(o) + t == o.kind + t1;
    CutJoined(o.kind, t1);
    CutJoined(o.spendKey, t2);
    CutJoined(o.viewKey, t3);
    CutJoined(o.isSubaddress, t);
  }

  lemma OptionalOwnerRoundTrip(o: Option<Owner>, t: string)
    requires o.Some? ==> OwnerFits(o.value)
    ensures ReadOptionalOwner(o.Some?, WriteOptionalOwner(o) + t) == (o, t)
  {
    if o.Some? {
      OwnerRoundTrip(o.value, t);
    } else {
      assert "" + t == t;
    }
  }

  lemma OptionalSignatureRoundTrip(o: Option<string>, t: string)
    requires o.Some? ==> |o.value| == 64
    ensures ReadOptionalSignature(o.Some?, WriteOptionalText(o) + t) == (o, t)
  {
    if o.Some? {
      CutJoined(o.value, t);
    } else {
      assert "" + t == t;
    }
  }

  lemma OptionalValueRoundTrip(o: Option<string>, t: string)
    requires o.Some? ==> |o.value| % 2 == 0 && |o.value| <= 510
    ensures ReadOptionalValue(o.Some?, WriteOptionalValue(o) + t) == Ok((o, t))
  {
    if o.Some? {
      var size := HexByte(|o.value| / 2);
      assert WriteOptionalValue(o) + t == size + (o.value + t);
      CutJoined(size, o.value + t);
      HexByteValue(|o.value| / 2);
      CutJoined(o.value, t);
    } else {
      assert "" + t == t;
    }
  }

  lemma OnsExtrasRoundTrip(flags: nat, e: OnsExtras, t: string)
    requires ExtrasFit(flags, e)
    ensures ReadOnsExtras(flags, WriteOnsExtras(e) + t) == Ok((e, t))
  {
    var t3 := WriteOptionalValue(e.encryptedValue) + t;
    var t2 := WriteOptionalText(e.signature) + t3;
    var t1 := WriteOptionalOwner(e.backupOwner) + t2;
    Regroup(WriteOptionalOwner(e.owner), WriteOptionalOwner(e.backupOwner), WriteOptionalText(e.signature),
            WriteOptionalValue(e.encryptedValue), t);
    OptionalOwnerRoundTrip(e.owner, t1);
    OptionalOwnerRoundTrip(e.backupOwner, t2);
    OptionalSignatureRoundTrip(e.signature, t3);
    OptionalValueRoundTrip(e.encryptedValue, t);
  }

  lemma OnsTypeRoundTrip(kind: OnsType)
    ensures |OnsTypeTag(kind)| == 2 && OnsTypeOf(OnsTypeTag(kind)) == Ok(kind)
  {
  }

  /** The header comes back but for its flags, which are read as a decimal number. */
  lemma OnsHeaderRead(h: OnsHeader, t: string)
    requires HeaderFits(h)
    ensures ReadOnsHeader(WriteOnsHeader(h) + t)
         == match IntOf(HexByte(h.flags), 10)
            case Err(_) => Err(ValueError)
            case Ok(flags) => Ok((h.(flags := flags), t))
  {
    var t4 := HexByte(h.flags) + t;
    var t3 := h.prevTxid + t4;
    var t2 := h.nameHash + t3;
    var t1 := OnsTypeTag(h.kind) + t2;
    assert WriteOnsHeader(h) + t == h.version + t1;
    OnsTypeRoundTrip(h.kind);
    CutJoined(h.version, t1);
    CutJoined(OnsTypeTag(h.kind), t2);
    CutJoined(h.nameHash, t3);
    CutJoined(h.prevTxid, t4);
    CutJoined(HexByte(h.flags), t);
  }

  // ----- one field

  /** Reading s gives f and leaves t. */
  predicate ReadsAs(s: string, f: Field, t: string) {
    ReadField(s) == Ok((f, t))
  }

  lemma TagRead(tag: string, s: string)
    requires |tag| == 2
    ensures ReadField(tag + s) == ReadData(Upper(tag), s)
  {
    CutJoined(tag, s);
  }

  lemma UpperTags()
    ensures Upper("01") == "01" && Upper("02") == "02" && Upper("79") == "79" && Upper("7a") == "7A"
  {
  }

  lemma PubkeyRoundTrip(f: Field, t: string)
    requires f.Pubkey? && Fits(f)
    ensures ReadsAs(WriteField(f) + t, f, t)
  {
    UpperTags();
    assert WriteField(f) + t == "01" + (f.key + t);
    TagRead("01", f.key + t);
    CutJoined(f.key, t);
  }

  lemma BurnRoundTrip(f: Field, t: string)
    requires f.Burn? && Fits(f)
    ensures ReadsAs(WriteField(f) + t, f, t)
  {
    UpperTags();
    var s := WriteLittleEndian(f.amount, 8);
    assert WriteField(f) + t == "79" + (s + t);
    TagRead("79", s + t);
    CutJoined(s, t);
    assert Power256(8) == 0x1_0000_0000_0000_0000 by {
      assert Power256(4) == 0x1_0000_0000;
    }
    LittleEndianRoundTrip(f.amount, 8);
  }

  /** A nonce is read back exactly when its size byte is at most 09; otherwise the size is
      no decimal number, or the data come out too short. */
  lemma NonceRoundTrip(f: Field, t: string)
    requires f.Nonce? && Fits(f)
    ensures Readable(f) ==> ReadsAs(WriteField(f) + t, f, t)
    ensures !Readable(f) ==> forall u :: !ReadsAs(WriteField(f) + t, f, u)
  {
    UpperTags();
    var size := HexByte(NonceSize(f.data));
    var t2 := f.data + t;
    var t1 := NonceTag(f.kind) + t2;
    assert WriteField(f) + t == "02" + (size + t1);
    TagRead("02", size + t1);
    CutJoined(size, t1);
    CutJoined(NonceTag(f.kind), t2);
    HexByteValue(NonceSize(f.data));
    if Readable(f) {
      CutJoined(f.data, t);
    } else if IntOf(size, 10).Ok? {
      CutLonger(f.data, t, (IntOf(size, 10).value - 1) * 2);
    }
  }

  /** A name-system field is read back exactly when its flag byte is at most 09. */
  lemma OnsRoundTrip(f: Field, t: string)
    requires f.Ons? && Fits(f)
    ensures Readable(f) ==> ReadsAs(WriteField(f) + t, f, t)
    ensures !Readable(f) ==> forall u :: !ReadsAs(WriteField(f) + t, f, u)
  {
    UpperTags();
    var s := WriteOnsExtras(f.extras) + t;
    assert WriteField(f) + t == "7a" + (WriteOnsHeader(f.header) + s);
    TagRead("7a", WriteOnsHeader(f.header) + s);
    OnsHeaderRead(f.header, s);
    HexByteValue(f.header.flags);
    if Readable(f) {
      OnsExtrasRoundTrip(f.header.flags, f.extras, t);
    }
  }

  lemma FieldRoundTrip(f: Field, t: string)
    requires Fits(f)
    ensures Readable(f) ==> ReadsAs(WriteField(f) + t, f, t)
    ensures !Readable(f) ==> forall u :: !ReadsAs(WriteField(f) + t, f, u)
  {
    match f
    case Pubkey(_) => PubkeyRoundTrip(f, t);
    case Nonce(_, _) => NonceRoundTrip(f, t);
    case Ons(_, _) => OnsRoundTrip(f, t);
    case Burn(_) => BurnRoundTrip(f, t);
  }

  // ----- whole texts

  predicate StartsWith(d: Decoded, f: Field) {
    d.fields != [] && d.fields[0] == f
  }

  lemma DecodeStart(s: string, f: Field)
    requires forall t :: !ReadsAs(s, f, t)
    ensures !StartsWith(Decode(s), f)
  {
    if s != "" && ReadField(s).Ok? {
      var (g, rest) := ReadField(s).value;
      DecodeOk(s, g, rest);
      assert !ReadsAs(s, f, rest);
    }
  }

  /** A field followed by text is decoded to the field and what the text gives, or to
      something that does not begin with the field. */
  lemma DecodeWritten(f: Field, t: string) returns (d: Decoded, e: Decoded)
    requires Fits(f)
    ensures d == Decode(WriteField(f) + t) && e == Decode(t)
    ensures Readable(f) ==> d == Decoded([f] + e.fields, e.error)
    ensures !Readable(f) ==> !StartsWith(d, f)
  {
    FieldRoundTrip(f, t);
    var s := WriteField(f) + t;
    d, e := Decode(s), Decode(t);
    if Readable(f) {
      DecodeOk(s, f, t);
    } else {
      DecodeStart(s, f);
    }
  }

  predicate AllReadable(fs: seq<Field>) {
    forall i :: 0 <= i < |fs| ==> Readable(fs[i])
  }

  lemma RoundTripStep(f: Field, rest: seq<Field>, d: Decoded, e: Decoded)
    requires Readable(f) ==> d == Decoded([f] + e.fields, e.error)
    requires !Readable(f) ==> !StartsWith(d, f)
    requires e == Decoded(rest, None) <==> AllReadable(rest)
    ensures d == Decoded([f] + rest, None) <==> AllReadable([f] + rest)
  {
    var all := [f] + rest;
    assert all[0] == f && all[1..] == rest;
    if AllReadable(all) {
      forall i | 0 <= i < |rest| ensures Readable(rest[i]) {
        assert rest[i] == all[i + 1];
      }
    }
    if Readable(f) && d == Decoded(all, None) {
      assert d.fields[1..] == e.fields;
    }
  }

  /** Decoding what was written gives the fields back, and no error, if and only if every
      nonce size and every flag byte is at most 09. */
  lemma {:induction false} RoundTrip(fs: seq<Field>)
    requires forall i :: 0 <= i < |fs| ==> Fits(fs[i])
    ensures Decode(Write(fs)) == Decoded(fs, None) <==> AllReadable(fs)
  {
    if fs == [] {
    } else {
      var f, rest := fs[0], fs[1..];
      var d, e := DecodeWritten(f, Write(rest));
      RoundTrip(rest);
      RoundTripStep(f, rest, d, e);
      assert fs == [f] + rest;
    }
  }

  /** The usual sizes: an encrypted payment id of 8 bytes is always read back, a plain one
      of 32 bytes never is. */
  lemma PaymentIds(short: string, long: string)
    requires |short| == 16 && |long| == 64
    ensures Decode(Write([Nonce(EncryptedPaymentId, short)])) == Decoded([Nonce(EncryptedPaymentId, short)], None)
    ensures Decode(Write([Nonce(PaymentId, long)])) != Decoded([Nonce(PaymentId, long)], None)
  {
    RoundTrip([Nonce(EncryptedPaymentId, short)]);
    var f := Nonce(PaymentId, long);
    RoundTrip([f]);
    assert !Readable([f][0]);
  }
}
