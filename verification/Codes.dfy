/** Public display codes: a bijection between row ids and 8-digit numbers. */
module Codes {
  import opened Common
  import opened NumberTheory

  const BASE := 10_000_000
  const SPAN := 90_000_000
  const MULT_INVOICE := 73_939_133
  const MULT_PAYMENT := 51_345_271

  const INV_INVOICE := Inverse(MULT_INVOICE, SPAN)
  const INV_PAYMENT := Inverse(MULT_PAYMENT, SPAN)

  /** `_code`; `None` stands for an id that is no integer. */
  function Code(id: Option<int>, mult: int): (c: int)
    ensures 10_000_000 <= c <= 99_999_999
  {
    match id case None => BASE case Some(n) => BASE + n * mult % SPAN
  }

  function InvoiceCode(id: int): int { Code(Some(id), MULT_INVOICE) }

  function PaymentCode(id: int): int { Code(Some(id), MULT_PAYMENT) }

  /** `_decode`; `None` stands for a text that is no integer. */
  function Decode(code: Option<int>, inv: int): Option<int> {
    if code.None? || !(BASE <= code.value < BASE + SPAN) then None
    else
      var n := (code.value - BASE) * inv % SPAN;
      if n == 0 then None else Some(n)
  }

  function DecodeInvoice(code: Option<int>): Option<int> { Decode(code, INV_INVOICE) }

  function DecodePayment(code: Option<int>): Option<int> { Decode(code, INV_PAYMENT) }

  lemma MultipliersCoprime()
    ensures Egcd(MULT_INVOICE, SPAN).0 == 1 && Egcd(MULT_PAYMENT, SPAN).0 == 1
  {
    hide Egcd;
    CoprimeByInverse(MULT_INVOICE, SPAN, 84_267_797, 69_229_865);
    CoprimeByInverse(MULT_PAYMENT, SPAN, 31_554_631, 18_002_012);
  }

  /** Decoding a row's code gives the row's id back, for every id the codes can tell apart. */
  lemma RoundTrip(id: int)
    requires 1 <= id < SPAN
    ensures DecodeInvoice(Some(InvoiceCode(id))) == Some(id)
    ensures DecodePayment(Some(PaymentCode(id))) == Some(id)
  {
    hide Inverse, Egcd;
    MultipliersCoprime();
    InverseInverts(MULT_INVOICE, SPAN);
    InverseInverts(MULT_PAYMENT, SPAN);
    var t :| MULT_INVOICE * INV_INVOICE == 1 + SPAN * t;
    UndoMultiply(id, MULT_INVOICE, INV_INVOICE, SPAN, t);
    var u :| MULT_PAYMENT * INV_PAYMENT == 1 + SPAN * u;
    UndoMultiply(id, MULT_PAYMENT, INV_PAYMENT, SPAN, u);
  }

  /** A code decodes exactly when it is an 8-digit number other than the base, and then to the one id
      in range that has it. */
  lemma DecodeExact(code: Option<int>, id: int)
    ensures DecodeInvoice(code) == Some(id) <==> 1 <= id < SPAN && code == Some(InvoiceCode(id))
    ensures DecodePayment(code) == Some(id) <==> 1 <= id < SPAN && code == Some(PaymentCode(id))
  {
    hide Inverse, Egcd;
    MultipliersCoprime();
    if 1 <= id < SPAN { RoundTrip(id); }
    if code.Some? && BASE <= code.value < BASE + SPAN {
      InverseInverts(MULT_INVOICE, SPAN);
      var t :| MULT_INVOICE * INV_INVOICE == 1 + SPAN * t;
      UndoMultiply(code.value - BASE, INV_INVOICE, MULT_INVOICE, SPAN, t);
      InverseInverts(MULT_PAYMENT, SPAN);
      var u :| MULT_PAYMENT * INV_PAYMENT == 1 + SPAN * u;
      UndoMultiply(code.value - BASE, INV_PAYMENT, MULT_PAYMENT, SPAN, u);
    }
  }

  /** No two ids in range share a code of the same kind. */
  lemma Distinct(i: int, j: int)
    requires 1 <= i < SPAN && 1 <= j < SPAN && i != j
    ensures InvoiceCode(i) != InvoiceCode(j) && PaymentCode(i) != PaymentCode(j)
  {
    hide InvoiceCode, PaymentCode, DecodeInvoice, DecodePayment;
    RoundTrip(i);
    RoundTrip(j);
  }

  /** An invoice and a payment with the same id share a code exactly for multiples of 45,000,000. */
  lemma SharedCode(id: int)
    ensures InvoiceCode(id) == PaymentCode(id) <==> id % 45_000_000 == 0
  {
    var half, c := 45_000_000, 11_296_931;
    var a, b := id * MULT_INVOICE, id * MULT_PAYMENT;
    assert a - b == 2 * (id * c);
    var qa, qb := a / SPAN, b / SPAN;
    assert a == SPAN * qa + a % SPAN && b == SPAN * qb + b % SPAN;
    if InvoiceCode(id) == PaymentCode(id) {
      assert id * c == half * (qa - qb);
      CoprimeHalf();
      InverseInverts(c, half);
      var u := Inverse(c, half);
      var t :| c * u == 1 + half * t;
      CancelCoprime(id, c, u, half, t, qa - qb);
    }
    if id % half == 0 {
      var k := id / half;
      assert id == half * k;
      assert a == SPAN * (k * c) + b by { assert 2 * (half * k * c) == SPAN * (k * c); }
      ModUnique(a, SPAN, b % SPAN, k * c + qb);
    }
  }

  lemma CoprimeHalf()
    ensures Egcd(11_296_931, 45_000_000).0 == 1
  {
    hide Egcd;
    CoprimeByInverse(11_296_931, 45_000_000, 20_280_971, 5_091_394);
  }

  lemma CancelCoprime(n: int, c: int, u: int, m: int, t: int, k: int)
    requires m > 0 && n * c == m * k && c * u == 1 + m * t
    ensures n % m == 0
  {
    assert n * c * u == n * (c * u) == n * (1 + m * t) == n + n * (m * t);
    assert n * (m * t) == m * (n * t);
    assert n * c * u == m * k * u == m * (k * u);
    assert n == m * (k * u - n * t) by { assert m * (k * u - n * t) == m * (k * u) - m * (n * t); }
    ModUnique(n, m, 0, k * u - n * t);
  }

  /** The codes of neighbouring rows lie one multiplier apart, up or, past the end of the span, down: far from each
      other, and never in sequence. */
  lemma Neighbours(id: int)
    ensures var step := InvoiceCode(id + 1) - InvoiceCode(id); step == 73_939_133 || step == 73_939_133 - 90_000_000
    ensures var step := PaymentCode(id + 1) - PaymentCode(id); step == 51_345_271 || step == 51_345_271 - 90_000_000
    ensures InvoiceCode(0) == PaymentCode(0) == 10_000_000
  {
    StepBy(id, MULT_INVOICE);
    StepBy(id, MULT_PAYMENT);
  }

  lemma StepBy(id: int, mult: int)
    requires 0 < mult < SPAN
    ensures (id + 1) * mult % SPAN - id * mult % SPAN in {mult, mult - SPAN}
  {
    var x := id * mult;
    assert (id + 1) * mult == x + mult;
    var q, r := x / SPAN, x % SPAN;
    assert x == SPAN * q + r;
    if r + mult < SPAN {
      ModUnique(x + mult, SPAN, r + mult, q);
    } else {
      ModUnique(x + mult, SPAN, r + mult - SPAN, q + 1);
    }
  }
}
