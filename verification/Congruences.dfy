/** Congruence modulo P = 2^255 - 19. */
module Congruences {
  import opened FieldElement

  lemma Reflexive(a: int)
    ensures Congruent(a, a)
  {
    CongruentByQuotient(a, a, 0);
  }

  lemma CongruentAdd(a: int, a': int, b: int, b': int)
    requires Congruent(a, a') && Congruent(b, b')
    ensures Congruent(a + b, a' + b') && Congruent(a - b, a' - b')
  {
    var k := CongruentQuotient(a, a');
    var m := CongruentQuotient(b, b');
    CongruentByQuotient(a + b, a' + b', k + m);
    CongruentByQuotient(a - b, a' - b', k - m);
  }

  lemma CongruentMul(a: int, a': int, b: int, b': int)
    requires Congruent(a, a') && Congruent(b, b')
    ensures Congruent(a * b, a' * b')
  {
    var k := CongruentQuotient(a, a');
    var m := CongruentQuotient(b, b');
    assert a * b == a' * b' + P * (k * b' + a' * m + P * (k * m));
    CongruentByQuotient(a * b, a' * b', k * b' + a' * m + P * (k * m));
  }

  lemma CongruentNeg(a: int, b: int)
    requires Congruent(a, b)
    ensures Congruent(-a, -b)
  {
    var k := CongruentQuotient(a, b);
    CongruentByQuotient(-a, -b, -k);
  }

  lemma CongruentTrans(a: int, b: int, c: int)
    requires Congruent(a, b) && Congruent(b, c)
    ensures Congruent(a, c)
  {
    CongruentAdd(a, b, b, c);
    var k := CongruentQuotient(a, b);
    var m := CongruentQuotient(b, c);
    CongruentByQuotient(a, c, k + m);
  }

  lemma NegProduct(a: int, b: int)
    ensures -a * b == -(a * b)
  {
  }
}
