/** Generated node ids: the decimal clock value and the decimal value of a 64-bit counter.  The printed
    form determines both numbers, and fits the 64-byte id field. */
module NodeId {

  const TWO_64: nat := 0x1_0000_0000_0000_0000

  /** Bytes of an id field, the terminating zero included. */
  const ID_SIZE: nat := 64

  function Digit(d: nat): char
    requires d < 10
  {
    "0123456789"[d]
  }

  /** What the `%lu` conversion prints. */
  function Decimal(n: nat): string {
    if n < 10 then [Digit(n)] else Decimal(n / 10) + [Digit(n % 10)]
  }

  function FormatId(stamp: nat, count: nat): string {
    "node_" + Decimal(stamp) + "_" + Decimal(count)
  }

  /** Copying through a field of `ID_SIZE` bytes keeps at most `ID_SIZE - 1` characters. */
  function Clip(s: string): (r: string)
    ensures r <= s && |r| == if |s| < 64 then |s| else 63
  {
    if |s| < ID_SIZE then s else s[..ID_SIZE - 1]
  }

  /** The number that a string of decimal digits denotes. */
  function Value(s: string): nat {
    if s == [] then 0
    else 10 * Value(s[..|s| - 1]) + if '0' <= s[|s| - 1] <= '9' then s[|s| - 1] as nat - '0' as nat else 0
  }

  /** The printed form denotes the number, consists of digits, and has no zero in front. */
  lemma {:induction false} DecimalDenotes(n: nat)
    ensures Decimal(n) != "" && Value(Decimal(n)) == n
    ensures forall i :: 0 <= i < |Decimal(n)| ==> '0' <= Decimal(n)[i] <= '9'
    ensures n > 0 ==> Decimal(n)[0] != '0'
  {
    DigitDenotes(n % 10);
    var s := Decimal(n);
    if n >= 10 {
      DecimalDenotes(n / 10);
      assert s[..|s| - 1] == Decimal(n / 10);
    } else {
      assert s[..0] == [];
    }
  }

  lemma DigitDenotes(d: nat)
    requires d < 10
    ensures '0' <= Digit(d) <= '9' && Digit(d) as nat == '0' as nat + d
  {
  }

  /** An id is the prefix, the digits of the clock value, a separator, and the digits of the counter value. */
  lemma FormatIdReads(stamp: nat, count: nat)
    ensures var id, i := FormatId(stamp, count), 5 + |Decimal(stamp)|;
            && i < |id| && id[..5] == "node_" && id[i] == '_'
            && Value(id[5..i]) == stamp && Value(id[i + 1..]) == count
            && '_' !in id[5..i] && '_' !in id[i + 1..]
  {
    hide Decimal, Value;
    DecimalDenotes(stamp);
    DecimalDenotes(count);
    DecimalHasNoSeparator(stamp);
    DecimalHasNoSeparator(count);
    PartsOf("node_", Decimal(stamp), Decimal(count));
  }

  lemma PartsOf(prefix: string, a: string, b: string)
    ensures var id, i := prefix + a + "_" + b, |prefix| + |a|;
            i < |id| && id[..|prefix|] == prefix && id[i] == '_' && id[|prefix|..i] == a && id[i + 1..] == b
  {
  }

  lemma DecimalHasNoSeparator(n: nat)
    ensures '_' !in Decimal(n)
    ensures Decimal(n) != ""
  {
    assert forall i :: 0 <= i < 10 ==> Digit(i) != '_';
  }

  lemma DigitsDiffer(d: nat, e: nat)
    requires d < 10 && e < 10
    ensures Digit(d) == Digit(e) ==> d == e
  {
  }

  lemma {:induction false} DecimalInjective(m: nat, n: nat)
    requires Decimal(m) == Decimal(n)
    ensures m == n
  {
    hide Digit;
    DecimalHasNoSeparator(m / 10);
    DecimalHasNoSeparator(n / 10);
    DigitsDiffer(m % 10, n % 10);
    var d, e := Decimal(m), Decimal(n);
    assert d[|d| - 1] == Digit(m % 10) && e[|e| - 1] == Digit(n % 10);
    if m >= 10 && n >= 10 {
      assert d[..|d| - 1] == Decimal(m / 10) && e[..|e| - 1] == Decimal(n / 10);
      DecimalInjective(m / 10, n / 10);
    }
  }

  function FirstSeparator(s: string): nat {
    if s == "" || s[0] == '_' then 0 else 1 + FirstSeparator(s[1..])
  }

  lemma {:induction false} FirstSeparatorAfter(a: string, b: string)
    requires '_' !in a
    ensures FirstSeparator(a + "_" + b) == |a|
  {
    if a != "" {
      assert (a + "_" + b)[1..] == a[1..] + "_" + b;
      FirstSeparatorAfter(a[1..], b);
    }
  }

  lemma SplitAtSeparator(a: string, b: string, c: string, d: string)
    requires '_' !in a && '_' !in c && a + "_" + b == c + "_" + d
    ensures a == c && b == d
  {
    var s := a + "_" + b;
    FirstSeparatorAfter(a, b);
    FirstSeparatorAfter(c, d);
    assert a == s[..|a|] && c == s[..|c|];
    assert b == s[|a| + 1..] && d == s[|c| + 1..];
  }

  /** Equal ids come from the same clock value and the same counter value. */
  lemma FormatIdInjective(t: nat, c: nat, t': nat, c': nat)
    requires FormatId(t, c) == FormatId(t', c')
    ensures t == t' && c == c'
  {
    var a, b := Decimal(t) + "_" + Decimal(c), Decimal(t') + "_" + Decimal(c');
    assert FormatId(t, c) == "node_" + a && FormatId(t', c') == "node_" + b;
    assert a == FormatId(t, c)[5..] && b == FormatId(t', c')[5..];
    DecimalHasNoSeparator(t);
    DecimalHasNoSeparator(t');
    SplitAtSeparator(Decimal(t), Decimal(c), Decimal(t'), Decimal(c'));
    DecimalInjective(t, t');
    DecimalInjective(c, c');
  }

  function Pow10(k: nat): nat {
    if k == 0 then 1 else 10 * Pow10(k - 1)
  }

  lemma {:induction false} DecimalLength(n: nat, k: nat)
    requires 1 <= k && n < Pow10(k)
    ensures |Decimal(n)| <= k
  {
    if n >= 10 {
      DecimalLength(n / 10, k - 1);
    }
  }

  /** An id built from 64-bit numbers fits the field with its terminator, so copying it loses nothing. */
  lemma FormatIdFits(stamp: nat, count: nat)
    requires stamp < TWO_64 && count < TWO_64
    ensures |FormatId(stamp, count)| < ID_SIZE && Clip(FormatId(stamp, count)) == FormatId(stamp, count)
  {
    assert Pow10(4) == 10_000 && Pow10(8) == 100_000_000 && Pow10(12) == 1_000_000_000_000;
    assert Pow10(16) == 10_000_000_000_000_000 && Pow10(20) == 100_000_000_000_000_000_000;
    DecimalLength(stamp, 20);
    DecimalLength(count, 20);
  }

  /** The process-wide counter behind generated ids. */
  class IdSource {
    var counter: nat

    ghost predicate Valid()
      reads this
    {
      counter < TWO_64
    }

    constructor ()
      ensures Valid() && counter == 0
    {
      counter := 0;
    }

    method Generate(stamp: nat) returns (id: string)
      requires Valid() && stamp < TWO_64
      modifies this
      ensures Valid() && counter == (old(counter) + 1) % TWO_64
      ensures id == FormatId(stamp, old(counter)) && |id| < ID_SIZE
    {
      id := FormatId(stamp, counter);
      FormatIdFits(stamp, counter);
      counter := (counter + 1) % TWO_64;
    }
  }
}
