/** Real arithmetic behind names, so that the solver multiplies only where asked to. */
module Reals {
  function Product(x: real, y: real): real {
    x * y
  }

  lemma SignOfProduct(x: real, y: real)
    ensures x > 0.0 && y > 0.0 ==> Product(x, y) > 0.0
    ensures x < 0.0 && y < 0.0 ==> Product(x, y) > 0.0
    ensures x == 0.0 ==> Product(x, y) == 0.0
  {
  }

  function Square(x: real): (y: real)
    ensures y >= 0.0
    ensures y == 0.0 <==> x == 0.0
  {
    SignOfProduct(x, x);
    Product(x, x)
  }
}
