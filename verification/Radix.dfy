/** Numbers in positional notation, as `printf` and `std::to_string` write them. */
module Radix {
  import opened Percent

  function Print(n: nat, base: nat): (s: string)
    requires 2 <= base <= 16
    ensures s != ""
  {
    if n < base then [HexDigit(n, false)]
    else Print(n / base, base) + [HexDigit(n % base, false)]
  }

  predicate IsNumeral(s: string, base: nat) {
    forall c <- s :: IsHexDigit(c) && HexValue(c) < base
  }

  function Value(s: string, base: nat): nat
    requires IsNumeral(s, base)
  {
    if s == "" then 0
    else Value(s[..|s| - 1], base) * base + HexValue(s[|s| - 1])
  }

  lemma {:induction false} PrintIsNumeral(n: nat, base: nat)
    requires 2 <= base <= 16
    ensures IsNumeral(Print(n, base), base)
  {
    if n >= base {
      PrintIsNumeral(n / base, base);
    }
  }

  lemma ValueAppend(s: string, c: char, base: nat)
    requires IsNumeral(s, base) && IsHexDigit(c) && HexValue(c) < base
    ensures IsNumeral(s + [c], base) && Value(s + [c], base) == Value(s, base) * base + HexValue(c)
  {
    assert (s + [c])[..|s|] == s;
  }

  lemma DivMod(n: nat, base: nat, q: nat, r: nat)
    requires base > 0 && q == n / base && r == n % base
    ensures q * base + r == n
  {
  }

  /** One more digit behind a number that is printed already. */
  lemma ValueOneMore(printed: string, q: nat, r: nat, base: nat)
    requires 2 <= base <= 16 && r < base
    requires IsNumeral(printed, base) && Value(printed, base) == q
    ensures var s := printed + [HexDigit(r, false)]; IsNumeral(s, base) && Value(s, base) == q * base + r
  {
    ValueAppend(printed, HexDigit(r, false), base);
  }

  /** `s` is a numeral for `n`. */
  ghost predicate Denotes(s: string, base: nat, n: nat) {
    IsNumeral(s, base) && Value(s, base) == n
  }

  /** The same, with the predicate passed along so that proofs need not unfold it. */
  ghost predicate Reads(denotes: (string, nat, nat) -> bool, s: string, base: nat, n: nat) {
    denotes(s, base, n)
  }

  lemma DenotesOneMore(s: string, base: nat, n: nat, q: nat, r: nat)
    requires 2 <= base <= 16 && q == n / base && r == n % base && Denotes(s, base, q)
    ensures Reads(Denotes, s + [HexDigit(r, false)], base, n)
  {
    ValueOneMore(s, q, r, base);
    DivMod(n, base, q, r);
  }

  lemma PrintMore(n: nat, base: nat)
    requires 2 <= base <= 16 && n >= base
    ensures Print(n, base) == Print(n / base, base) + [HexDigit(n % base, false)]
  {
  }

  lemma PrintOne(n: nat, base: nat)
    requires 2 <= base <= 16 && n < base
    ensures Print(n, base) == [HexDigit(n, false)]
  {
  }

  lemma DigitDenotes(n: nat, base: nat)
    requires 2 <= base <= 16 && n < base
    ensures Reads(Denotes, [HexDigit(n, false)], base, n)
  {
    ValueOneMore("", 0, n, base);
    assert "" + [HexDigit(n, false)] == [HexDigit(n, false)];
  }

  lemma PrintDigit(n: nat, base: nat)
    requires 2 <= base <= 16 && n < base
    ensures Reads(Denotes, Print(n, base), base, n)
  {
    PrintOne(n, base);
    DigitDenotes(n, base);
  }

  lemma {:induction false} PrintDenotes(n: nat, base: nat)
    requires 2 <= base <= 16
    ensures Reads(Denotes, Print(n, base), base, n)
  {
    if n < base {
      PrintDigit(n, base);
    } else {
      PrintDenotes(n / base, base);
      DenotesOneMore(Print(n / base, base), base, n, n / base, n % base);
      PrintMore(n, base);
    }
  }

  /** Reading undoes writing, for every number and base. */
  lemma ValuePrint(n: nat, base: nat)
    requires 2 <= base <= 16
    ensures IsNumeral(Print(n, base), base) && Value(Print(n, base), base) == n
  {
    PrintDenotes(n, base);
    assert Denotes(Print(n, base), base, n);
  }

  lemma DecimalDigits(n: nat)
    ensures forall c <- Print(n, 10) :: IsDigit(c)
  {
    PrintIsNumeral(n, 10);
  }

  // ---- The form of printed numbers ----

  /** Digits and small letters, without a zero in front unless it is the only digit. */
  predicate IsShortest(s: string) {
    s != "" && (|s| > 1 ==> s[0] != '0') && forall c <- s :: '0' <= c <= '9' || 'a' <= c <= 'f'
  }

  /** Printed, the number has this form, and no zero in front if it is not zero itself. */
  ghost predicate PrintsShortest(n: nat, base: nat) {
    2 <= base <= 16 && IsShortest(Print(n, base)) && (n > 0 ==> Print(n, base)[0] != '0')
  }

  /** The text is what is printed for its value. */
  ghost predicate IsPrinted(s: string, base: nat) {
    2 <= base <= 16 && IsNumeral(s, base) && s == Print(Value(s, base), base)
  }

  // The same, with the predicate passed along so that proofs need not unfold it.

  ghost predicate Printing(shortest: (nat, nat) -> bool, n: nat, base: nat) {
    shortest(n, base)
  }

  ghost predicate Printed(printed: (string, nat) -> bool, s: string, base: nat) {
    printed(s, base)
  }

  lemma {:induction false} PrintIsShortest(n: nat, base: nat)
    requires 2 <= base <= 16
    ensures Printing(PrintsShortest, n, base)
  {
    if n < base {
      DigitPrintsShortest(n, base);
    } else {
      PrintIsShortest(n / base, base);
      MorePrintsShortest(n, base, n / base, n % base);
    }
  }

  lemma DigitPrintsShortest(n: nat, base: nat)
    requires 2 <= base <= 16 && n < base
    ensures Printing(PrintsShortest, n, base)
  {
    DigitIsShortest(n);
    PrintOne(n, base);
  }

  lemma MorePrintsShortest(n: nat, base: nat, q: nat, r: nat)
    requires 2 <= base <= 16 && n >= base && q == n / base && r == n % base && Printing(PrintsShortest, q, base)
    ensures Printing(PrintsShortest, n, base)
  {
    QuotientPositive(n, base);
    assert PrintsShortest(q, base);
    DigitIsShortest(r);
    ShortestOneMore(Print(q, base), HexDigit(r, false));
    PrintMore(n, base);
  }

  lemma ShortestOneMore(front: string, c: char)
    requires IsShortest(front) && front[0] != '0' && IsShortest([c])
    ensures IsShortest(front + [c]) && (front + [c])[0] == front[0]
  {
    assert c in [c];
  }

  lemma DigitIsShortest(v: nat)
    requires v < 16
    ensures IsShortest([HexDigit(v, false)]) && (v > 0 ==> HexDigit(v, false) != '0')
  {
    HexDigitIsHexOf(v, false);
  }

  lemma QuotientPositive(n: nat, base: nat)
    requires 0 < base <= n
    ensures 0 < n / base
  {
  }

  lemma QuotientAndRest(q: nat, r: nat, base: nat)
    requires r < base
    ensures (q * base + r) / base == q && (q * base + r) % base == r
  {
    var n := q * base + r;
    DivMod(n, base, n / base, n % base);
    SameQuotient(q, r, n / base, n % base, base);
  }

  lemma SameQuotient(q: nat, r: nat, x: nat, y: nat, base: nat)
    requires r < base && y < base && q * base + r == x * base + y
    ensures q == x && r == y
  {
    assert (x - q) * base == x * base - q * base == r - y;
    assert (q - x) * base == q * base - x * base == y - r;
    if q < x {
      AtLeastBase(x - q, 0, base);
    } else if x < q {
      AtLeastBase(q - x, 0, base);
    }
  }

  lemma AtLeastBase(q: nat, r: nat, base: nat)
    requires q > 0
    ensures q * base + r >= base
  {
  }

  lemma DigitPrinted(c: char, base: nat)
    requires 2 <= base <= 16 && IsNumeral([c], base) && IsShortest([c])
    ensures Printed(IsPrinted, [c], base)
  {
    assert c in [c];
    ValueAppend("", c, base);
    HexOfIsHexDigit(c, false);
    assert "" + [c] == [c];
  }

  lemma NotZero(front: string, base: nat)
    requires IsPrinted(front, base) && front[0] != '0'
    ensures Value(front, base) > 0
  {
    assert Print(0, base)[0] == '0';
  }

  lemma LastDigitPrinted(front: string, c: char, base: nat)
    requires IsNumeral(front + [c], base) && IsShortest([c])
    requires Printed(IsPrinted, front, base) && front != "" && front[0] != '0'
    ensures Printed(IsPrinted, front + [c], base)
  {
    assert IsPrinted(front, base);
    assert (front + [c])[|front|] == c && c in front + [c] && c in [c];
    var q, r := Value(front, base), HexValue(c);
    NotZero(front, base);
    ValueAppend(front, c, base);
    QuotientAndRest(q, r, base);
    AtLeastBase(q, r, base);
    PrintMore(q * base + r, base);
    HexOfIsHexDigit(c, false);
  }

  lemma {:induction false} ShortestIsPrinted(s: string, base: nat)
    requires 2 <= base <= 16 && IsShortest(s) && IsNumeral(s, base)
    ensures Printed(IsPrinted, s, base)
  {
    var front, c := s[..|s| - 1], s[|s| - 1];
    assert s == front + [c] && c in s;
    if front == "" {
      assert [c] == s;
      DigitPrinted(c, base);
    } else {
      assert front[0] == s[0] && forall d <- front :: d in s;
      ShortestIsPrinted(front, base);
      LastDigitPrinted(front, c, base);
    }
  }

  /** What is printed is the one numeral of this form for the number. */
  lemma PrintExactly(s: string, n: nat, base: nat)
    requires 2 <= base <= 16
    ensures s == Print(n, base) <==> IsShortest(s) && IsNumeral(s, base) && Value(s, base) == n
  {
    PrintIsShortest(n, base);
    assert PrintsShortest(n, base);
    ValuePrint(n, base);
    if IsShortest(s) && IsNumeral(s, base) {
      ShortestIsPrinted(s, base);
      assert IsPrinted(s, base);
    }
  }
}
