/** Amounts printed as C++ literals, with the coin's nine decimals set off by a digit
    separator and the whole padded to a fixed width. */
module AmountPrinter {

  const COIN: nat := 1_000_000_000

  function DigitChar(d: nat): char
    requires d < 10
  {
    '0' + d as char
  }

  function Numeral(n: nat): string {
    if n < 10 then [DigitChar(n)] else Numeral(n / 10) + [DigitChar(n % 10)]
  }

  function Repeat(c: char, k: nat): (s: string)
    ensures |s| == k
  {
    if k == 0 then "" else [c] + Repeat(c, k - 1)
  }

  /** Padding on the left, as a field width in a format string does. */
  function Padded(s: string, width: nat, c: char): string {
    if |s| < width then Repeat(c, width - |s|) + s else s
  }

  /** famt: an amount with room for the given number of digits before the separator. */
  function FormatAmount(amount: nat, digits: nat): string {
    if amount >= COIN
    then Padded(Numeral(amount / COIN), digits, ' ') + "'" + Padded(Numeral(amount % COIN), 9, '0')
    else Padded(Numeral(amount), digits + 10, ' ')
  }

  // ----- reading a literal

  predicate Skipped(c: char) {
    c == ' ' || c == '\''
  }

  /** The number a C++ compiler reads in decimal, without spaces and separators. */
  function Read(s: string): int {
    if s == "" then 0
    else if Skipped(s[|s| - 1]) then Read(s[..|s| - 1])
    else Read(s[..|s| - 1]) * 10 + (s[|s| - 1] as int - '0' as int)
  }

  function Power10(k: nat): (p: nat)
    ensures p > 0
  {
    if k == 0 then 1 else 10 * Power10(k - 1)
  }

  predicate AllDigits(s: string) {
    forall i :: 0 <= i < |s| ==> '0' <= s[i] <= '9'
  }

  lemma ReadSnoc(s: string, c: char)
    ensures Read(s + [c]) == if Skipped(c) then Read(s) else Read(s) * 10 + (c as int - '0' as int)
  {
    assert (s + [c])[..|s|] == s;
  }

  lemma {:induction false} NumeralFacts(n: nat)
    ensures Read(Numeral(n)) == n && AllDigits(Numeral(n))
    ensures Numeral(n) != "" && (Numeral(n)[0] == '0' <==> n == 0)
  {
    if n < 10 {
      ReadSnoc("", DigitChar(n));
      assert "" + [DigitChar(n)] == [DigitChar(n)];
    } else {
      NumeralFacts(n / 10);
      ReadSnoc(Numeral(n / 10), DigitChar(n % 10));
    }
  }

  lemma {:induction false} NumeralWidth(n: nat, w: nat)
    requires w > 0
    ensures |Numeral(n)| <= w <==> n < Power10(w)
  {
    if n < 10 {
      assert Power10(w) == 10 * Power10(w - 1);
    } else if w == 1 {
      assert Power10(1) == 10 * Power10(0);
    } else {
      NumeralWidth(n / 10, w - 1);
      assert Power10(w) == 10 * Power10(w - 1);
    }
  }

  lemma {:induction false} RepeatSnoc(c: char, k: nat)
    ensures Repeat(c, k + 1) == Repeat(c, k) + [c]
  {
    if k == 0 {
    } else {
      RepeatSnoc(c, k - 1);
      assert [c] + (Repeat(c, k - 1) + [c]) == [c] + Repeat(c, k - 1) + [c];
    }
  }

  lemma {:induction false} ReadFill(c: char, k: nat)
    requires c == ' ' || c == '0'
    ensures Read(Repeat(c, k)) == 0
  {
    if k == 0 {
    } else {
      ReadFill(c, k - 1);
      RepeatSnoc(c, k - 1);
      ReadSnoc(Repeat(c, k - 1), c);
    }
  }

  lemma ShiftDigit(a: int, p: int, b: int, d: int)
    ensures (a * p + b) * 10 + d == a * (10 * p) + (b * 10 + d)
  {
  }

  lemma ReadJoinedStep(s: string, u: string, c: char, p: nat)
    requires '0' <= c <= '9' && Read(s + u) == Read(s) * p + Read(u)
    ensures Read(s + u + [c]) == Read(s) * (10 * p) + Read(u + [c])
  {
    ReadSnoc(s + u, c);
    ReadSnoc(u, c);
    ShiftDigit(Read(s), p, Read(u), c as int - '0' as int);
  }

  /** Reading two texts one after the other, the second all digits. */
  lemma {:induction false} ReadJoined(s: string, t: string)
    requires AllDigits(t)
    ensures Read(s + t) == Read(s) * Power10(|t|) + Read(t)
  {
    if t == "" {
      assert s + t == s;
    } else {
      var u, c := t[..|t| - 1], t[|t| - 1];
      ReadJoined(s, u);
      assert t == u + [c] && s + t == s + u + [c];
      ReadJoinedStep(s, u, c, Power10(|u|));
    }
  }

  lemma ReadPadded(s: string, width: nat, c: char)
    requires AllDigits(s) && (c == ' ' || c == '0')
    ensures Read(Padded(s, width, c)) == Read(s)
  {
    if |s| < width {
      ReadFill(c, width - |s|);
      ReadJoined(Repeat(c, width - |s|), s);
    }
  }

  // ----- the printed literal

  lemma {:induction false} RepeatDigits(k: nat)
    ensures AllDigits(Repeat('0', k))
  {
    if k == 0 {
    } else {
      RepeatDigits(k - 1);
    }
  }

  lemma Billion()
    ensures Power10(9) == COIN
  {
    assert Power10(3) == 1000;
    assert Power10(6) == 1_000_000;
  }

  /** The decimals are printed with all nine digits. */
  lemma DecimalsPrinted(n: nat)
    requires n < COIN
    ensures var s := Padded(Numeral(n), 9, '0'); |s| == 9 && AllDigits(s) && Read(s) == n
  {
    NumeralFacts(n);
    Billion();
    NumeralWidth(n, 9);
    ReadPadded(Numeral(n), 9, '0');
    RepeatDigits(9 - |Numeral(n)|);
  }

  /** Reading a printed amount gives the amount back. */
  lemma FormatRoundTrip(amount: nat, digits: nat)
    ensures Read(FormatAmount(amount, digits)) == amount
  {
    if amount >= COIN {
      var q, m := amount / COIN, amount % COIN;
      var coins, decimals := Padded(Numeral(q), digits, ' ') + "'", Padded(Numeral(m), 9, '0');
      assert Read(coins) == q by {
        NumeralFacts(q);
        ReadPadded(Numeral(q), digits, ' ');
        ReadSnoc(Padded(Numeral(q), digits, ' '), '\'');
      }
      DecimalsPrinted(m);
      assert Read(coins + decimals) == q * COIN + m by {
        ReadJoined(coins, decimals);
        Billion();
      }
    } else {
      NumeralFacts(amount);
      ReadPadded(Numeral(amount), digits + 10, ' ');
    }
  }

  /** Different amounts are printed differently. */
  lemma FormatInjective(a: nat, b: nat, digits: nat)
    requires FormatAmount(a, digits) == FormatAmount(b, digits)
    ensures a == b
  {
    FormatRoundTrip(a, digits);
    FormatRoundTrip(b, digits);
  }

  lemma {:induction false} PowerSplit(k: nat)
    ensures Power10(k + 9) == Power10(k) * COIN
  {
    if k == 0 {
      Billion();
    } else {
      PowerSplit(k - 1);
    }
  }

  lemma QuotientBelow(amount: nat, p: nat)
    ensures amount / COIN < p <==> amount < p * COIN
  {
  }

  /** The text is exactly as wide as the column if and only if the coins fit the digits that
      are meant for them. */
  lemma FormatWidth(amount: nat, digits: nat)
    ensures |FormatAmount(amount, digits)| >= digits + 10
    ensures |FormatAmount(amount, digits)| == digits + 10 <==> amount < Power10(digits + 9)
  {
    Billion();
    PowerSplit(digits);
    if amount >= COIN {
      DecimalsPrinted(amount % COIN);
      if digits == 0 {
        assert |FormatAmount(amount, 0)| == |Numeral(amount / COIN)| + 10;
        NumeralFacts(amount / COIN);
      } else {
        NumeralWidth(amount / COIN, digits);
        QuotientBelow(amount, Power10(digits));
      }
    } else {
      NumeralWidth(amount, 9);
      assert Power10(digits + 9) >= COIN;
    }
  }

  lemma PaddedStart(s: string, width: nat) returns (pad: nat)
    requires s != ""
    ensures var t := Padded(s, width, ' '); pad < |t| && t[..pad] == Repeat(' ', pad) && t[pad] == s[0]
  {
    pad := if |s| < width then width - |s| else 0;
  }

  /** The first character after the padding is a digit, and it is 0 for the amount 0 only, so
      no amount is taken for an octal literal. */
  lemma NotOctal(amount: nat, digits: nat) returns (pad: nat)
    ensures var s := FormatAmount(amount, digits);
            && pad < |s| && s[..pad] == Repeat(' ', pad)
            && '0' <= s[pad] <= '9'
            && (s[pad] == '0' <==> amount == 0)
  {
    if amount >= COIN {
      NumeralFacts(amount / COIN);
      pad := PaddedStart(Numeral(amount / COIN), digits);
    } else {
      NumeralFacts(amount);
      pad := PaddedStart(Numeral(amount), digits + 10);
    }
  }

  lemma {:induction false} RepeatAt(c: char, k: nat, i: nat)
    requires i < k
    ensures Repeat(c, k)[i] == c
  {
    if i == 0 {
    } else {
      RepeatAt(c, k - 1, i - 1);
    }
  }

  /** A numeral in a column: spaces first, then digits only. */
  lemma PaddedLayout(s: string, width: nat) returns (pad: nat)
    requires AllDigits(s) && s != ""
    ensures var t := Padded(s, width, ' ');
            && pad < |t| && |t| == pad + |s|
            && (forall i :: 0 <= i < pad ==> t[i] == ' ')
            && (forall i :: pad <= i < |t| ==> '0' <= t[i] <= '9')
  {
    pad := if |s| < width then width - |s| else 0;
    forall i | 0 <= i < pad ensures Padded(s, width, ' ')[i] == ' ' {
      RepeatAt(' ', pad, i);
    }
  }

  /** A printed amount is padding, then digits, with the separator in the tenth place from the
      end exactly when there is a whole coin. */
  lemma FormatLayout(amount: nat, digits: nat) returns (pad: nat)
    ensures var s := FormatAmount(amount, digits);
            && pad < |s|
            && (forall i :: 0 <= i < pad ==> s[i] == ' ')
            && (forall i :: pad <= i < |s| ==>
                  if amount >= 1_000_000_000 && i == |s| - 10 then s[i] == '\'' else '0' <= s[i] <= '9')
            && (amount >= 1_000_000_000 ==> pad < |s| - 10)
  {
    if amount >= COIN {
      NumeralFacts(amount / COIN);
      DecimalsPrinted(amount % COIN);
      pad := PaddedLayout(Numeral(amount / COIN), digits);
    } else {
      NumeralFacts(amount);
      pad := PaddedLayout(Numeral(amount), digits + 10);
    }
  }
}
