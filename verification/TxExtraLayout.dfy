/** The layout of the fields, spelled out character by character: which bit of the flags
    selects which part, how much of the text a nonce takes, and the text of a whole
    transaction's extra data. */
module TxExtraLayout {
  import opened Options
  import opened TxExtraFormat
  import opened TxExtraRoundTrip
  import TxExtraWriteBack

  // ----- the flags

  function Bit(present: bool, weight: nat): nat {
    if present then weight else 0
  }

  lemma Halved(x: nat, bit: nat, half: nat)
    requires x == bit + 2 * half && bit < 2
    ensures x % 2 == bit && x / 2 == half
  {
  }

  lemma Quartered(x: nat)
    ensures x / 4 == x / 2 / 2 && x / 8 == x / 2 / 2 / 2
  {
  }

  /** The four lowest bits, whatever the others are. */
  lemma FlagBits(flags: nat, k: nat, owner: bool, backup: bool, signature: bool, value: bool)
    requires flags == 16 * k + Bit(owner, 1) + Bit(backup, 2) + Bit(signature, 4) + Bit(value, 8)
    ensures HasOwner(flags) == owner && HasBackupOwner(flags) == backup
    ensures HasSignature(flags) == signature && HasEncryptedValue(flags) == value
  {
    var half := 8 * k + Bit(backup, 1) + Bit(signature, 2) + Bit(value, 4);
    var quarter := 4 * k + Bit(signature, 1) + Bit(value, 2);
    Halved(flags, Bit(owner, 1), half);
    Halved(half, Bit(backup, 1), quarter);
    Halved(quarter, Bit(signature, 1), 2 * k + Bit(value, 1));
    Halved(2 * k + Bit(value, 1), Bit(value, 1), k);
    Quartered(flags);
  }

  /** The parts have the lengths the decoder cuts. */
  predicate PartsFit(e: OnsExtras) {
    && (e.owner.Some? ==> OwnerFits(e.owner.value))
    && (e.backupOwner.Some? ==> OwnerFits(e.backupOwner.value))
    && (e.signature.Some? ==> |e.signature.value| == 64)
    && (e.encryptedValue.Some? ==> |e.encryptedValue.value| % 2 == 0 && |e.encryptedValue.value| <= 510)
  }

  /** Bit 0 of the flags announces the owner, bit 1 the backup owner, bit 2 the signature and
      bit 3 the encrypted value; higher bits announce nothing. */
  lemma PartsByBits(flags: nat, k: nat, e: OnsExtras, t: string)
    requires PartsFit(e)
    requires flags == 16 * k + Bit(e.owner.Some?, 1) + Bit(e.backupOwner.Some?, 2)
                      + Bit(e.signature.Some?, 4) + Bit(e.encryptedValue.Some?, 8)
    ensures ReadOnsExtras(flags, WriteOnsExtras(e) + t) == Ok((e, t))
  {
    FlagBits(flags, k, e.owner.Some?, e.backupOwner.Some?, e.signature.Some?, e.encryptedValue.Some?);
    OnsExtrasRoundTrip(flags, e, t);
  }

  lemma OwnerText(o: Owner)
    ensures WriteOwner(o) == o.kind + o.spendKey + o.viewKey + o.isSubaddress
  {
    assert o.kind + (o.spendKey + (o.viewKey + o.isSubaddress)) == o.kind + o.spendKey + o.viewKey + o.isSubaddress;
  }

  /** With all four parts present, they come in this order. */
  lemma AllParts(o: Owner, b: Owner, signature: string, value: string, t: string)
    requires OwnerFits(o) && OwnerFits(b) && |signature| == 64 && |value| == 146
    ensures ReadOnsExtras(15, o.kind + o.spendKey + o.viewKey + o.isSubaddress
                              + (b.kind + b.spendKey + b.viewKey + b.isSubaddress + (signature + ("49" + value + t))))
         == Ok((OnsExtras(Some(o), Some(b), Some(signature), Some(value)), t))
  {
    var e := OnsExtras(Some(o), Some(b), Some(signature), Some(value));
    PartsByBits(15, 0, e, t);
    OwnerText(o);
    OwnerText(b);
    assert HexByte(73) == "49";
    Regroup(WriteOwner(o), WriteOwner(b), signature, "49" + value, t);
  }

  // ----- nonces of any size

  const NONCE_TAGS: set<(string, NonceKind)> := {("00", PaymentId), ("01", EncryptedPaymentId)}

  predicate IsDecimal(c: char) {
    '0' <= c <= '9'
  }

  lemma SizeOf(c: char, d: char)
    requires IsHexDigit(c) && IsHexDigit(d)
    ensures IntOf([c, d], 10) == if IsDecimal(c) && IsDecimal(d) then Ok(10 * Digit(c) + Digit(d)) else Err(ValueError)
  {
    var s := [c, d];
    NumberOfTwo(s, 10);
    assert s[0] == c && s[1] == d;
    assert Digit(c) >= 10 <==> !IsDecimal(c);
    assert Digit(d) >= 10 <==> !IsDecimal(d);
  }

  /** A nonce whose two size digits are decimal, and not 00, takes two characters less than
      twice that size, or what there is; any other size is an error. */
  lemma NonceTakes(c: char, d: char, tag: string, kind: NonceKind, t: string, size: int, taken: nat)
    requires IsHexDigit(c) && IsHexDigit(d) && (tag, kind) in NONCE_TAGS
    requires size == 10 * Digit(c) + Digit(d)
    requires size > 0 ==> taken == if 2 * size - 2 <= |t| then 2 * size - 2 else |t|
    ensures IsDecimal(c) && IsDecimal(d) && size > 0 ==>
              taken <= |t| && ReadNonce([c, d] + (tag + t)) == Ok((Nonce(kind, t[..taken]), t[taken..]))
    ensures !(IsDecimal(c) && IsDecimal(d)) ==> ReadNonce([c, d] + (tag + t)) == Err(ValueError)
  {
    var s := [c, d];
    CutJoined(s, tag + t);
    CutJoined(tag, t);
    SizeOf(c, d);
  }

  lemma PlainText(data: string, t: string)
    requires |data| == 64
    ensures WriteField(Nonce(PaymentId, data)) == "022100" + data
    ensures "022100" + data + t == "02" + (['2', '1'] + ("00" + (data + t)))
  {
    assert HexByte(33) == "21";
    assert "02" + ("21" + ("00" + data)) == "022100" + data;
  }

  lemma NonceField(s: string)
    ensures ReadField("02" + s) == ReadNonce(s)
  {
    UpperTags();
    TagRead("02", s);
  }

  lemma CutInside(data: string, t: string, k: nat)
    requires k <= |data|
    ensures (data + t)[..k] == data[..k] && (data + t)[k..] == data[k..] + t
  {
  }

  /** A payment id of 32 bytes has the size byte 21, and the decoder takes 40 of its 64
      digits; the other 24 are read as if fields began there. */
  lemma PlainPaymentId(data: string, t: string)
    requires |data| == 64
    ensures WriteField(Nonce(PaymentId, data)) == "022100" + data
    ensures ReadField("022100" + data + t) == Ok((Nonce(PaymentId, data[..40]), data[40..] + t))
  {
    PlainText(data, t);
    NonceField(['2', '1'] + ("00" + (data + t)));
    NonceTakes('2', '1', "00", PaymentId, data + t, 21, 40);
    CutInside(data, t, 40);
  }

  // ----- a whole text

  const ONS_TAGS: set<(string, OnsType)> := {
    ("00", Session), ("01", Wallet), ("02", Lokinet), ("03", Lokinet2Year), ("04", Lokinet5Year),
    ("05", Lokinet10Year)}

  lemma NonceText(tag: string, kind: NonceKind, id: string)
    requires (tag, kind) in NONCE_TAGS && |id| == 16
    ensures WriteField(Nonce(kind, id)) == "0209" + tag + id
  {
    assert HexByte(9) == "09";
    assert "02" + ("09" + (tag + id)) == "0209" + tag + id;
  }

  function SampleOns(kind: OnsType, hash: string, txid: string, spend: string, view: string, value: string): Field {
    Ons(OnsHeader("00", kind, hash, txid, 9),
        OnsExtras(Some(Owner("00", spend, view, "00")), None, None, Some(value)))
  }

  lemma HeaderText(tag: string, kind: OnsType, hash: string, txid: string)
    requires (tag, kind) in ONS_TAGS
    ensures WriteOnsHeader(OnsHeader("00", kind, hash, txid, 9)) == "00" + tag + hash + txid + "09"
  {
    assert HexByte(9) == "09";
    assert "00" + (tag + (hash + (txid + "09"))) == "00" + tag + hash + txid + "09";
  }

  lemma ExtrasText(spend: string, view: string, value: string)
    requires |value| == 146
    ensures WriteOnsExtras(OnsExtras(Some(Owner("00", spend, view, "00")), None, None, Some(value)))
         == "00" + spend + view + "0049" + value
  {
    var o := Owner("00", spend, view, "00");
    OwnerText(o);
    assert HexByte(73) == "49";
    assert WriteOwner(o) + ("" + ("" + ("49" + value))) == WriteOwner(o) + ("49" + value);
    assert "00" + "49" == "0049";
    assert "00" + spend + view + "00" + ("49" + value) == "00" + spend + view + ("00" + "49") + value;
  }

  lemma OnsText(tag: string, kind: OnsType, hash: string, txid: string, spend: string, view: string, value: string)
    requires (tag, kind) in ONS_TAGS && |hash| == |txid| == |spend| == |view| == 64 && |value| == 146
    ensures Fits(SampleOns(kind, hash, txid, spend, view, value))
    ensures WriteField(SampleOns(kind, hash, txid, spend, view, value))
         == "7a" + ("00" + tag + hash + txid + "09" + ("00" + spend + view + "0049" + value))
  {
    HeaderText(tag, kind, hash, txid);
    ExtrasText(spend, view, value);
  }

  lemma ByteText(v: nat, first: nat, text: string, rest: nat, restText: string, bytes: nat)
    requires v == first + 256 * rest && first < 256 && HexByte(first) == text
    requires WriteLittleEndian(rest, bytes) == restText
    ensures WriteLittleEndian(v, bytes + 1) == text + restText
  {
    TxExtraWriteBack.WriteByte(v, first, rest, bytes);
  }

  lemma ByteTexts()
    ensures HexByte(0) == "00" && HexByte(1) == "01" && HexByte(59) == "3b" && HexByte(134) == "86"
    ensures HexByte(161) == "a1"
  {
  }

  lemma BurnText()
    ensures WriteField(Burn(7_000_000_000)) == "79" + "00863ba101000000"
  {
    ByteTexts();
    ByteText(0, 0, "00", 0, "", 0);
    ByteText(0, 0, "00", 0, "00" + "", 1);
    ByteText(0, 0, "00", 0, "00" + ("00" + ""), 2);
    assert "00" + ("00" + ("00" + "")) == "000000";
    ByteText(1, 1, "01", 0, "000000", 3);
    ByteText(417, 161, "a1", 1, "01" + "000000", 4);
    ByteText(106811, 59, "3b", 417, "a1" + ("01" + "000000"), 5);
    assert "3b" + ("a1" + ("01" + "000000")) == "3ba101000000";
    ByteText(27343750, 134, "86", 106811, "3ba101000000", 6);
    ByteText(7_000_000_000, 0, "00", 27343750, "86" + "3ba101000000", 7);
    assert "00" + ("86" + "3ba101000000") == "00863ba101000000";
  }

  type Decoder = string -> Decoded

  /** Whatever follows it, the text u is decoded to f. */
  ghost predicate Prepends(decode: Decoder, u: string, f: Field) {
    forall t {:trigger decode(u + t)} :: decode(u + t) == Decoded([f] + decode(t).fields, decode(t).error)
  }

  lemma WrittenPrepends(f: Field)
    requires Fits(f) && Readable(f)
    ensures Prepends(Decode, WriteField(f), f)
  {
    forall t ensures Decode(WriteField(f) + t) == Decoded([f] + Decode(t).fields, Decode(t).error) {
      var d, e := DecodeWritten(f, t);
    }
  }

  lemma FourFields(decode: Decoder, f: Field, g: Field, h: Field, i: Field, s: string, t: string, u: string, v: string)
    requires decode("") == Decoded([], None)
    requires Prepends(decode, s, f) && Prepends(decode, t, g) && Prepends(decode, u, h) && Prepends(decode, v, i)
    ensures decode(s + (t + (u + v))) == Decoded([f, g, h, i], None)
  {
    assert v + "" == v;
    assert decode(v) == Decoded([i], None);
    assert decode(u + v) == Decoded([h, i], None);
    assert decode(t + (u + v)) == Decoded([g, h, i], None);
  }

  /** The text of a transaction that buys a name, laid out as in the decoder's usage note and
      with any contents: a key, a nonce of 8 bytes, a name-system field with flags 09 and
      its owner and value, and a burn of 7 000 000 000. */
  lemma NamePurchase(key: string, nonceTag: string, nonceKind: NonceKind, id: string, tag: string, kind: OnsType,
                     hash: string, txid: string, spend: string, view: string, value: string,
                     first: string, second: string, third: string, fourth: string)
    requires |key| == |hash| == |txid| == |spend| == |view| == 64 && |id| == 16 && |value| == 146
    requires (nonceTag, nonceKind) in NONCE_TAGS && (tag, kind) in ONS_TAGS
    requires first == "01" + key && second == "0209" + nonceTag + id
    requires third == "7a" + ("00" + tag + hash + txid + "09" + ("00" + spend + view + "0049" + value))
    requires fourth == "79" + "00863ba101000000"
    ensures Decode(first + (second + (third + fourth)))
         == Decoded([Pubkey(key), Nonce(nonceKind, id), SampleOns(kind, hash, txid, spend, view, value),
                     Burn(7_000_000_000)], None)
  {
    var ons, burn := SampleOns(kind, hash, txid, spend, view, value), Burn(7_000_000_000);
    assert Prepends(Decode, first, Pubkey(key)) by {
      WrittenPrepends(Pubkey(key));
    }
    assert Prepends(Decode, second, Nonce(nonceKind, id)) by {
      NonceText(nonceTag, nonceKind, id);
      WrittenPrepends(Nonce(nonceKind, id));
    }
    assert Prepends(Decode, third, ons) by {
      OnsText(tag, kind, hash, txid, spend, view, value);
      WrittenPrepends(ons);
    }
    assert Prepends(Decode, fourth, burn) by {
      BurnText();
      WrittenPrepends(burn);
    }
    FourFields(Decode, Pubkey(key), Nonce(nonceKind, id), ons, burn, first, second, third, fourth);
  }
}
