/** The decoder as it runs: every reader cuts pieces off the front of the remaining text. */
module TxExtraReader {
  import opened Options
  import opened TxExtraFormat

  ghost function Joined(pieces: seq<string>): string {
    if pieces == [] then "" else Joined(pieces[..|pieces| - 1]) + pieces[|pieces| - 1]
  }

  /** A reader that returned r and left the text `rest` did what the specification says. An
      exception ends the decoder, so nothing is said of what it leaves behind. */
  ghost predicate Agrees<T>(spec: Result<(T, string)>, r: Result<T>, rest: string) {
    spec == match r
            case Err(e) => Err(e)
            case Ok(v) => Ok((v, rest))
  }

  function Prepend(printed: seq<Field>, d: Decoded): Decoded {
    Decoded(printed + d.fields, d.error)
  }

  lemma PrependField(printed: seq<Field>, f: Field, d: Decoded)
    ensures Prepend(printed, Decoded([f] + d.fields, d.error)) == Prepend(printed + [f], d)
  {
    assert printed + ([f] + d.fields) == printed + [f] + d.fields;
  }

  /** One turn of the decoder's loop. */
  lemma DecodeStep(s: string, r: Result<Field>, rest: string, printed: seq<Field>)
    requires s != "" && Agrees(ReadField(s), r, rest)
    ensures r.Err? ==> Prepend(printed, Decode(s)) == Decoded(printed, Some(r.error))
    ensures r.Ok? ==> |rest| < |s| && Prepend(printed, Decode(s)) == Prepend(printed + [r.value], Decode(rest))
  {
    match r
    case Ok(f) =>
      DecodeOk(s, f, rest);
      PrependField(printed, f, Decode(rest));
    case Err(e) =>
      assert printed + [] == printed;
  }

  class Reader {
    var rest: string
    ghost var pieces: seq<string>

    /** The pieces cut so far and the remaining text, put together again. */
    ghost function Text(): string
      reads this
    {
      Joined(pieces) + rest
    }

    constructor (text: string)
      ensures rest == text && pieces == [] && Text() == text
    {
      rest, pieces := text, [];
    }

    method Cut(k: int) returns (piece: string)
      modifies this
      ensures piece == Head(old(rest), k) && rest == Tail(old(rest), k)
      ensures pieces == old(pieces) + [piece]
      ensures Text() == old(Text())
    {
      piece := Head(rest, k);
      assert rest == piece + Tail(rest, k);
      rest := Tail(rest, k);
      pieces := pieces + [piece];
      assert pieces[..|pieces| - 1] == old(pieces);
      assert Joined(old(pieces)) + piece + rest == Joined(old(pieces)) + (piece + rest);
    }

    method EatPubkeyData() returns (f: Field)
      modifies this
      ensures Agrees(ReadData("01", old(rest)), Ok(f), rest)
      ensures Text() == old(Text()) && old(pieces) <= pieces
    {
      var pubkey := Cut(64);
      f := Pubkey(pubkey);
    }

    method EatNonceData() returns (r: Result<Field>)
      modifies this
      ensures Agrees(ReadNonce(old(rest)), r, rest)
      ensures Text() == old(Text()) && old(pieces) <= pieces
    {
      var sizeText := Cut(2);
      var number := IntOf(sizeText, 10);
      if number.Err? {
        return Err(number.error);
      }
      var size: int := number.value;
      var nonceTag := Cut(2);
      var nonceData := Cut((size - 1) * 2);
      var kind := NonceKindOf(nonceTag);
      r := if kind.Err? then Err(kind.error) else Ok(Nonce(kind.value, nonceData));
    }

    method EatOnsGenericOwner() returns (o: Owner)
      modifies this
      ensures ReadOwner(old(rest)) == (o, rest)
      ensures Text() == old(Text()) && old(pieces) <= pieces
    {
      var ownerType := Cut(2);
      var spendKey := Cut(64);
      var viewKey := Cut(64);
      var isSubaddress := Cut(2);
      o := Owner(ownerType, spendKey, viewKey, isSubaddress);
    }

    method EatOnsHeader() returns (r: Result<OnsHeader>)
      modifies this
      ensures Agrees(ReadOnsHeader(old(rest)), r, rest)
      ensures Text() == old(Text()) && old(pieces) <= pieces
    {
      var version := Cut(2);
      var onsType := Cut(2);
      var nameHash := Cut(64);
      var prevTxid := Cut(64);
      var flagsText := Cut(2);
      var flags := IntOf(flagsText, 10);
      if flags.Err? {
        return Err(flags.error);
      }
      var kind := OnsTypeOf(onsType);
      r := if kind.Err? then Err(kind.error)
           else Ok(OnsHeader(version, kind.value, nameHash, prevTxid, flags.value));
    }

    method EatOptionalOwner(present: bool) returns (o: Option<Owner>)
      modifies this
      ensures ReadOptionalOwner(present, old(rest)) == (o, rest)
      ensures Text() == old(Text()) && old(pieces) <= pieces
    {
      o := None;
      if present {
        var owner := EatOnsGenericOwner();
        o := Some(owner);
      }
    }

    method EatOptionalSignature(present: bool) returns (o: Option<string>)
      modifies this
      ensures ReadOptionalSignature(present, old(rest)) == (o, rest)
      ensures Text() == old(Text()) && old(pieces) <= pieces
    {
      o := None;
      if present {
        var signature := Cut(64);
        o := Some(signature);
      }
    }

    method EatOptionalValue(present: bool) returns (r: Result<Option<string>>)
      modifies this
      ensures Agrees(ReadOptionalValue(present, old(rest)), r, rest)
      ensures Text() == old(Text()) && old(pieces) <= pieces
    {
      if !present {
        return Ok(None);
      }
      var sizeText := Cut(2);
      var size := IntOf(sizeText, 16);
      if size.Err? {
        return Err(size.error);
      }
      var value := Cut(size.value * 2);
      r := Ok(Some(value));
    }

    method EatOnsExtras(flags: nat) returns (r: Result<OnsExtras>)
      modifies this
      ensures Agrees(ReadOnsExtras(flags, old(rest)), r, rest)
      ensures Text() == old(Text()) && old(pieces) <= pieces
    {
      var owner := EatOptionalOwner(HasOwner(flags));
      var backup := EatOptionalOwner(HasBackupOwner(flags));
      var signature := EatOptionalSignature(HasSignature(flags));
      var value := EatOptionalValue(HasEncryptedValue(flags));
      r := if value.Err? then Err(value.error)
           else Ok(OnsExtras(owner, backup, signature, value.value));
    }

    method EatOnsData() returns (r: Result<Field>)
      modifies this
      ensures Agrees(ReadOns(old(rest)), r, rest)
      ensures Text() == old(Text()) && old(pieces) <= pieces
    {
      var header := EatOnsHeader();
      if header.Err? {
        return Err(header.error);
      }
      var extras := EatOnsExtras(header.value.flags);
      r := if extras.Err? then Err(extras.error) else Ok(Ons(header.value, extras.value));
    }

    method EatBurn() returns (r: Result<Field>)
      modifies this
      ensures Agrees(ReadBurn(old(rest)), r, rest)
      ensures Text() == old(Text()) && old(pieces) <= pieces
    {
      var amount := Cut(8 * 2);
      r := if |amount| % 2 == 1 then Err(ValueError) else Ok(Burn(LittleEndian(amount)));
    }

    method EatData(tag: string) returns (r: Result<Field>)
      modifies this
      ensures Agrees(ReadData(tag, old(rest)), r, rest)
      ensures Text() == old(Text()) && old(pieces) <= pieces
    {
      match tag
      case "01" =>
        var f := EatPubkeyData();
        r := Ok(f);
      case "02" => r := EatNonceData();
      case "7A" => r := EatOnsData();
      case "79" => r := EatBurn();
      case _ => r := Err(KeyError);
    }

    method EatField() returns (r: Result<Field>)
      modifies this
      ensures Agrees(ReadField(old(rest)), r, rest)
      ensures Text() == old(Text()) && old(pieces) <= pieces
    {
      var tag := Cut(2);
      r := EatData(Upper(tag));
    }

    /** Reads field after field until the text is used up or an exception is raised. When all
        goes well, the pieces that were cut make up the whole text. */
    method Run() returns (d: Decoded)
      requires IsHex(rest) && pieces == []
      modifies this
      ensures d == Decode(old(rest))
      ensures d.error.None? ==> rest == "" && Joined(pieces) == old(rest)
    {
      ghost var text := rest;
      var printed: seq<Field> := [];
      assert printed + Decode(rest).fields == Decode(rest).fields;
      while |rest| > 0
        invariant Text() == text
        invariant Decode(text) == Prepend(printed, Decode(rest))
        decreases |rest|
      {
        ghost var before := rest;
        var r := EatField();
        DecodeStep(before, r, rest, printed);
        if r.Err? {
          return Decoded(printed, Some(r.error));
        }
        printed := printed + [r.value];
      }
      assert printed + [] == printed;
      assert Joined(pieces) + "" == Joined(pieces);
      d := Decoded(printed, None);
    }
  }
}
