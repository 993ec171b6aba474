/** The fields of a transaction's extra data as hexadecimal text: how the decoder reads them,
    how they are written, and when the two agree.

    The decoder reads the size of a nonce and the flags of a name-system field as decimal
    numbers, although both are written as hexadecimal bytes. */
module TxExtraFormat {
  import opened Options

  datatype Error = KeyError | ValueError

  datatype Result<+T> = Ok(value: T) | Err(error: Error) {
    predicate IsFailure() { Err? }
    function PropagateFailure<U>(): Result<U>
      requires Err?
    {
      Err(error)
    }
    function Extract(): T
      requires Ok?
    {
      value
    }
  }

  // ----- the fields

  datatype NonceKind = PaymentId | EncryptedPaymentId

  datatype OnsType = Session | Wallet | Lokinet | Lokinet2Year | Lokinet5Year | Lokinet10Year

  datatype Owner = Owner(kind: string, spendKey: string, viewKey: string, isSubaddress: string)

  datatype OnsHeader = OnsHeader(version: string, kind: OnsType, nameHash: string, prevTxid: string, flags: nat)

  datatype OnsExtras = OnsExtras(
    owner: Option<Owner>, backupOwner: Option<Owner>, signature: Option<string>, encryptedValue: Option<string>)

  datatype Field =
    | Pubkey(key: string)
    | Nonce(kind: NonceKind, data: string)
    | Ons(header: OnsHeader, extras: OnsExtras)
    | Burn(amount: nat)

  // ----- Python's slices and numbers

  /** The index at which Python cuts s for the slices s[:k] and s[k:]. */
  function CutIndex(s: string, k: int): (i: nat)
    ensures i <= |s|
  {
    if k >= 0 then (if k <= |s| then k else |s|)
    else if |s| + k >= 0 then |s| + k else 0
  }

  function Head(s: string, k: int): string {
    s[..CutIndex(s, k)]
  }

  function Tail(s: string, k: int): string {
    s[CutIndex(s, k)..]
  }

  predicate IsHexDigit(c: char) {
    '0' <= c <= '9' || 'a' <= c <= 'f' || 'A' <= c <= 'F'
  }

  predicate IsHex(s: string) {
    forall i :: 0 <= i < |s| ==> IsHexDigit(s[i])
  }

  function Digit(c: char): (d: nat)
    ensures d < 16
  {
    if '0' <= c <= '9' then c as int - '0' as int
    else if 'a' <= c <= 'f' then c as int - 'a' as int + 10
    else if 'A' <= c <= 'F' then c as int - 'A' as int + 10
    else 0
  }

  function Number(s: string, base: nat): nat {
    if s == "" then 0 else Number(s[..|s| - 1], base) * base + Digit(s[|s| - 1])
  }

  /** int(s, base) of a string of hexadecimal digits. */
  function IntOf(s: string, base: nat): Result<nat> {
    if s == "" || exists i :: 0 <= i < |s| && Digit(s[i]) >= base then Err(ValueError) else Ok(Number(s, base))
  }

  function UpperChar(c: char): char {
    if 'a' <= c <= 'z' then c - 'a' + 'A' else c
  }

  function Upper(s: string): string {
    seq(|s|, i requires 0 <= i < |s| => UpperChar(s[i]))
  }

  /** bytearray.fromhex and int.from_bytes, little end first. */
  function LittleEndian(s: string): nat
    requires |s| % 2 == 0
  {
    if s == "" then 0 else Number(s[..2], 16) + 256 * LittleEndian(s[2..])
  }

  // ----- reading

  function NonceKindOf(tag: string): Result<NonceKind> {
    if tag == "00" then Ok(PaymentId)
    else if tag == "01" then Ok(EncryptedPaymentId)
    else Err(KeyError)
  }

  function OnsTypeOf(tag: string): Result<OnsType> {
    if tag == "00" then Ok(Session)
    else if tag == "01" then Ok(Wallet)
    else if tag == "02" then Ok(Lokinet)
    else if tag == "03" then Ok(Lokinet2Year)
    else if tag == "04" then Ok(Lokinet5Year)
    else if tag == "05" then Ok(Lokinet10Year)
    else Err(KeyError)
  }

  function ReadNonce(s: string): Result<(Field, string)> {
    var size :- IntOf(Head(s, 2), 10);
    var s1 := Tail(s, 2);
    var s2 := Tail(s1, 2);
    var kind :- NonceKindOf(Head(s1, 2));
    Ok((Nonce(kind, Head(s2, (size - 1) * 2)), Tail(s2, (size - 1) * 2)))
  }

  function ReadOwner(s: string): (Owner, string) {
    var s1 := Tail(s, 2);
    var s2 := Tail(s1, 64);
    var s3 := Tail(s2, 64);
    (Owner(Head(s, 2), Head(s1, 64), Head(s2, 64), Head(s3, 2)), Tail(s3, 2))
  }

  predicate HasOwner(flags: nat) { flags % 2 == 1 }
  predicate HasBackupOwner(flags: nat) { flags / 2 % 2 == 1 }
  predicate HasSignature(flags: nat) { flags / 4 % 2 == 1 }
  predicate HasEncryptedValue(flags: nat) { flags / 8 % 2 == 1 }

  function ReadOptionalOwner(present: bool, s: string): (Option<Owner>, string) {
    if present then var (owner, rest) := ReadOwner(s); (Some(owner), rest) else (None, s)
  }

  function ReadOptionalSignature(present: bool, s: string): (Option<string>, string) {
    if present then (Some(Head(s, 64)), Tail(s, 64)) else (None, s)
  }

  function ReadOptionalValue(present: bool, s: string): Result<(Option<string>, string)> {
    if !present then Ok((None, s)) else
    var size :- IntOf(Head(s, 2), 16);
    var s1 := Tail(s, 2);
    Ok((Some(Head(s1, size * 2)), Tail(s1, size * 2)))
  }

  function ReadOnsHeader(s: string): Result<(OnsHeader, string)> {
    var s1 := Tail(s, 2);
    var s2 := Tail(s1, 2);
    var s3 := Tail(s2, 64);
    var s4 := Tail(s3, 64);
    var flags :- IntOf(Head(s4, 2), 10);
    var kind :- OnsTypeOf(Head(s1, 2));
    Ok((OnsHeader(Head(s, 2), kind, Head(s2, 64), Head(s3, 64), flags), Tail(s4, 2)))
  }

  function ReadOnsExtras(flags: nat, s: string): Result<(OnsExtras, string)> {
    var (owner, s1) := ReadOptionalOwner(HasOwner(flags), s);
    var (backup, s2) := ReadOptionalOwner(HasBackupOwner(flags), s1);
    var (signature, s3) := ReadOptionalSignature(HasSignature(flags), s2);
    var value :- ReadOptionalValue(HasEncryptedValue(flags), s3);
    Ok((OnsExtras(owner, backup, signature, value.0), value.1))
  }

  function ReadOns(s: string): Result<(Field, string)> {
    var header :- ReadOnsHeader(s);
    var extras :- ReadOnsExtras(header.0.flags, header.1);
    Ok((Ons(header.0, extras.0), extras.1))
  }

  function ReadBurn(s: string): Result<(Field, string)> {
    if |Head(s, 16)| % 2 == 1 then Err(ValueError) else Ok((Burn(LittleEndian(Head(s, 16))), Tail(s, 16)))
  }

  /** The data of a field whose tag, in upper case, has just been read. A tag that is not in
      the table and one without a reader are both failed look-ups. */
  function ReadData(tag: string, s: string): Result<(Field, string)> {
    if tag == "01" then Ok((Pubkey(Head(s, 64)), Tail(s, 64)))
    else if tag == "02" then ReadNonce(s)
    else if tag == "7A" then ReadOns(s)
    else if tag == "79" then ReadBurn(s)
    else Err(KeyError)
  }

  function ReadField(s: string): Result<(Field, string)> {
    ReadData(Upper(Head(s, 2)), Tail(s, 2))
  }

  /** What the decoder prints, and the exception that stops it, if any. */
  datatype Decoded = Decoded(fields: seq<Field>, error: Option<Error>)

  // ----- what is left after reading is a proper suffix

  predicate Suffix(t: string, s: string) {
    |t| <= |s| && t == s[|s| - |t|..]
  }

  lemma SuffixTrans(t: string, u: string, s: string)
    requires Suffix(t, u) && Suffix(u, s)
    ensures Suffix(t, s)
  {
  }

  lemma TailSuffix(s: string, k: int)
    ensures Suffix(Tail(s, k), s)
  {
  }

  /** Cutting once more off a suffix leaves a suffix. */
  lemma TailChain(t: string, s: string, k: int)
    requires Suffix(t, s)
    ensures Suffix(Tail(t, k), s)
  {
    TailSuffix(t, k);
    SuffixTrans(Tail(t, k), t, s);
  }

  lemma ReadOwnerSuffix(s: string)
    ensures Suffix(ReadOwner(s).1, s)
  {
    TailSuffix(s, 2);
    TailChain(Tail(s, 2), s, 64);
    TailChain(Tail(Tail(s, 2), 64), s, 64);
    TailChain(Tail(Tail(Tail(s, 2), 64), 64), s, 2);
  }

  /** What is left after the five cuts of a header. */
  function HeaderRest(s: string): string {
    Tail(Tail(Tail(Tail(Tail(s, 2), 2), 64), 64), 2)
  }

  lemma HeaderRestSuffix(s: string)
    ensures Suffix(HeaderRest(s), s)
  {
    TailSuffix(s, 2);
    TailChain(Tail(s, 2), s, 2);
    TailChain(Tail(Tail(s, 2), 2), s, 64);
    TailChain(Tail(Tail(Tail(s, 2), 2), 64), s, 64);
    TailChain(Tail(Tail(Tail(Tail(s, 2), 2), 64), 64), s, 2);
  }

  lemma ReadOnsHeaderSuffix(s: string)
    ensures ReadOnsHeader(s).Ok? ==> Suffix(ReadOnsHeader(s).value.1, s)
  {
    if ReadOnsHeader(s).Ok? {
      assert ReadOnsHeader(s).value.1 == HeaderRest(s);
      HeaderRestSuffix(s);
    }
  }

  lemma ReadOptionalValueSuffix(present: bool, s: string)
    ensures var r := ReadOptionalValue(present, s); r.Ok? ==> Suffix(r.value.1, s)
  {
    var r := ReadOptionalValue(present, s);
    if present && r.Ok? {
      TailSuffix(s, 2);
      TailChain(Tail(s, 2), s, IntOf(Head(s, 2), 16).value * 2);
    }
  }

  lemma ReadOnsExtrasSuffix(flags: nat, s: string)
    ensures var r := ReadOnsExtras(flags, s); r.Ok? ==> Suffix(r.value.1, s)
  {
    var s1 := ReadOptionalOwner(HasOwner(flags), s).1;
    var s2 := ReadOptionalOwner(HasBackupOwner(flags), s1).1;
    var s3 := ReadOptionalSignature(HasSignature(flags), s2).1;
    ReadOwnerSuffix(s);
    ReadOwnerSuffix(s1);
    TailSuffix(s2, 64);
    SuffixTrans(s2, s1, s);
    SuffixTrans(s3, s2, s);
    var value := ReadOptionalValue(HasEncryptedValue(flags), s3);
    if value.Ok? {
      ReadOptionalValueSuffix(HasEncryptedValue(flags), s3);
      SuffixTrans(value.value.1, s3, s);
    }
  }

  lemma ReadDataSuffix(tag: string, s: string)
    ensures ReadData(tag, s).Ok? ==> Suffix(ReadData(tag, s).value.1, s)
  {
    if tag == "01" {
      TailSuffix(s, 64);
    } else if tag == "02" {
      var s1 := Tail(s, 2);
      var s2 := Tail(s1, 2);
      SuffixTrans(s2, s1, s);
      var r := ReadNonce(s);
      if r.Ok? {
        SuffixTrans(r.value.1, s2, s);
      }
    } else if tag == "7A" {
      var header := ReadOnsHeader(s);
      if header.Ok? {
        ReadOnsHeaderSuffix(s);
        ReadOnsExtrasSuffix(header.value.0.flags, header.value.1);
        var r := ReadOns(s);
        if r.Ok? {
          SuffixTrans(r.value.1, header.value.1, s);
        }
      }
    } else if tag == "79" {
      TailSuffix(s, 16);
    }
  }

  /** Every field that is read takes at least its two tag digits off the text and leaves a
      suffix of it. */
  lemma ReadFieldShrinks(s: string)
    ensures var r := ReadField(s); r.Ok? ==> Suffix(r.value.1, s) && |r.value.1| + 2 <= |s|
  {
    var r := ReadField(s);
    if r.Ok? {
      ReadDataSuffix(Upper(Head(s, 2)), Tail(s, 2));
      SuffixTrans(r.value.1, Tail(s, 2), s);
      assert |Upper(Head(s, 2))| == 2;
    }
  }

  function Decode(s: string): Decoded
    decreases |s|
  {
    if s == "" then Decoded([], None) else
    match ReadField(s)
    case Err(e) => Decoded([], Some(e))
    case Ok((f, rest)) =>
      ReadFieldShrinks(s);
      var d := Decode(rest);
      Decoded([f] + d.fields, d.error)
  }

  lemma DecodeOk(s: string, f: Field, rest: string)
    requires s != "" && ReadField(s) == Ok((f, rest))
    ensures |rest| < |s| && Decode(s) == Decoded([f] + Decode(rest).fields, Decode(rest).error)
  {
    ReadFieldShrinks(s);
  }
}
