/** The percentage the sender reports while it loads DATA records. */
module OtaProgress {

  /** The value of a product kept in a signed 32-bit word. */
  function Wrap32(n: int): int {
    (n + 0x8000_0000) % 0x1_0000_0000 - 0x8000_0000
  }

  /** Division that truncates toward zero. */
  function Quotient(a: int, b: int): int
    requires b > 0
  {
    if a >= 0 then a / b else -(-a / b)
  }

  /** The reported percentage after one more DATA record, `num1` having been loaded before. */
  function NextPercent(num1: int, num2: int, total: int): int
    requires total > 0
  {
    if Quotient(Wrap32(num1 * 649 * 100), total) >= num2 && num2 <= 99 then num2 + 1 else num2
  }

  function Min(a: int, b: int): int { if a <= b then a else b }

  /** The closed form: `n` records loaded out of an image of `total` bytes. */
  function Percent(n: nat, total: int): int
    requires total > 0
  {
    if n == 0 then 0 else Min(100, Min(n, 64900 * (n - 1) / total + 1))
  }

  lemma QuotientBelow(a: nat, total: int, q: nat)
    requires total > 0
    ensures a / total >= q <==> a >= q * total
  {
    assert total * (a / total) + a % total == a;
    if a / total >= q {
      assert total * (a / total) >= total * q;
    } else {
      assert total * (a / total + 1) <= total * q;
    }
  }

  lemma QuotientGrows(a: nat, b: nat, total: int)
    requires total > 0 && a <= b
    ensures a / total <= b / total
  {
    QuotientBelow(a, total, a / total);
    QuotientBelow(b, total, a / total);
  }

  /** Within an image no larger than the buffer the percentage is at its ceiling long before the product
      could leave the 32-bit range. */
  lemma CeilingBeforeOverflow(n: nat, total: int)
    requires 0 < total <= 524288 && n >= 33090
    ensures Percent(n, total) == 100
  {
    assert 64900 * (n - 1) >= 99 * total;
    QuotientBelow(64900 * (n - 1), total, 99);
  }

  lemma QuotientAdds(a: nat, d: nat, total: int)
    requires total > 0
    ensures d <= total ==> (a + d) / total <= a / total + 1
    ensures d >= total ==> (a + d) / total >= a / total + 1
  {
    var q := a / total;
    QuotientBelow(a, total, q);
    QuotientBelow(a, total, q + 1);
    QuotientBelow(a + d, total, q + 1);
    QuotientBelow(a + d, total, q + 2);
    assert (q + 1) * total == q * total + total && (q + 2) * total == q * total + total + total;
  }

  lemma QuotientStep(n: nat, total: int)
    requires total > 0 && n > 0
    ensures total >= 64900 ==> 64900 * n / total <= 64900 * (n - 1) / total + 1
    ensures total <= 64900 ==> 64900 * n / total >= 64900 * (n - 1) / total + 1
  {
    QuotientAdds(64900 * (n - 1), 64900, total);
  }

  lemma ManyPerRecord(n: nat, total: int)
    requires 0 < total <= 64900
    ensures 64900 * n / total >= n
  {
    QuotientBelow(64900 * n, total, n);
    assert n * total <= n * 64900;
  }

  lemma FewPerRecord(n: nat, total: int)
    requires 64900 <= total
    ensures 64900 * n / total <= n
  {
    QuotientBelow(64900 * n, total, n + 1);
    assert (n + 1) * total >= (n + 1) * 64900;
  }

  /** One step of the counter, with the quotient it compares as a variable. */
  function Counted(q: int, num2: int): int {
    if q >= num2 && num2 <= 99 then num2 + 1 else num2
  }

  lemma FirstRecord(total: int)
    requires total > 0
    ensures Counted(0, Percent(0, total)) == Percent(1, total)
  {}

  /** A small image: every record brings the percentage one up, to the ceiling. */
  lemma CountsEach(n: nat, total: int)
    requires 0 < total <= 64900 && n > 0
    ensures Counted(64900 * n / total, Percent(n, total)) == Percent(n + 1, total)
  {
    ManyPerRecord(n, total);
    ManyPerRecord(n - 1, total);
  }

  /** A large one: the percentage is one more than the quotient for the record before. */
  lemma CountsSome(n: nat, total: int)
    requires 64900 <= total && n > 0
    ensures Counted(64900 * n / total, Percent(n, total)) == Percent(n + 1, total)
  {
    QuotientStep(n, total);
    QuotientGrows(64900 * (n - 1), 64900 * n, total);
    FewPerRecord(n, total);
    FewPerRecord(n - 1, total);
    CountsFrom(64900 * (n - 1) / total, 64900 * n / total, n);
  }

  lemma CountsFrom(p: int, q: int, n: nat)
    requires 0 <= p <= q <= p + 1 && p <= n - 1 && q <= n && n > 0
    ensures Counted(q, Min(100, Min(n, p + 1))) == Min(100, Min(n + 1, q + 1))
  {}

  lemma NoOverflow(n: nat)
    requires n < 33090
    ensures Wrap32(n * 649 * 100) == 64900 * n
  {}

  /** The percentage follows the closed form: loading one more record keeps it, with the product wrapped as
      the machine wraps it. */
  lemma PercentFollows(n: nat, total: int)
    requires 0 < total <= 524288
    ensures NextPercent(n, Percent(n, total), total) == Percent(n + 1, total)
  {
    hide Percent, Wrap32;
    if n >= 33090 {
      CeilingBeforeOverflow(n, total);
      CeilingBeforeOverflow(n + 1, total);
    } else {
      NoOverflow(n);
      if n == 0 {
        FirstRecord(total);
      } else if total <= 64900 {
        CountsEach(n, total);
      } else {
        CountsSome(n, total);
      }
    }
  }

  /** The percentage never falls, rises by at most one with each record, and stays between 0 and 100. */
  lemma PercentSteady(n: nat, total: int)
    requires 0 < total
    ensures Percent(n, total) <= Percent(n + 1, total) <= Percent(n, total) + 1
    ensures 0 <= Percent(n, total) <= 100
  {
    if n > 0 {
      QuotientStep(n, total);
      QuotientGrows(64900 * (n - 1), 64900 * n, total);
      if total <= 64900 {
        ManyPerRecord(n, total);
        ManyPerRecord(n - 1, total);
      }
    }
  }
}
