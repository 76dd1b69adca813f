// Division of polynomials over GF(2), independent of the shift register, and the
// theorem that the register holds the remainder.
module CrcDivision {
  import opened CrcCore

  // A polynomial is its coefficients, highest power first.  The product of q and g is
  // the sum of the multiples of g shifted by the powers in q.
  function Product(q: Bits, g: Bits): (p: Bits)
    requires |g| > 0
    ensures |p| == |q| + |g| - 1
    decreases |q|
  {
    if q == [] then Zeros(|g| - 1)
    else Xor(if q[0] then g + Zeros(|q| - 1) else Zeros(|q| + |g| - 1), [false] + Product(q[1..], g))
  }

  // d == q g + r, for a remainder r of fewer terms than g.
  predicate Divides(d: Bits, g: Bits, q: Bits, r: Bits) {
    |g| == |r| + 1 && |d| == |q| + |r| && d == Xor(Product(q, g), Zeros(|q|) + r)
  }

  ghost predicate IsRemainder(d: Bits, g: Bits, r: Bits) {
    exists q :: Divides(d, g, q, r)
  }

  // reg x^|s| + s x^|reg|: what a register fed s is the remainder of.
  function Dividend(reg: Bits, s: Bits): (d: Bits)
    ensures |d| == |reg| + |s|
  {
    Xor(reg + Zeros(|s|), s + Zeros(|reg|))
  }

  // A multiple of g taken from the head of the dividend is one step of the register.
  lemma StepReduces(poly: Bits, reg: Bits, s: Bits)
    requires |poly| == |reg| > 0 && s != []
    ensures var k := reg[0] != s[0];
            Dividend(reg, s)
            == Xor(if k then [true] + poly + Zeros(|s| - 1) else Zeros(|s| + |poly|),
                   [false] + Dividend(Step(poly, reg, s[0]), s[1..]))
  {
  }

  lemma Regroup(a: Bits, p: Bits, r: Bits)
    requires |a| == |p| + 1 && |p| == |r|
    ensures Xor(a, [false] + Xor(p, r)) == Xor(Xor(a, [false] + p), [false] + r)
  {
  }

  lemma {:induction false} FeedDivides(poly: Bits, reg: Bits, s: Bits) returns (q: Bits)
    requires |poly| == |reg| > 0
    ensures Divides(Dividend(reg, s), [true] + poly, q, Feed(poly, reg, s))
    decreases |s|
  {
    if s == [] {
      q := [];
    } else {
      var next := Step(poly, reg, s[0]);
      var rest := FeedDivides(poly, next, s[1..]);
      q := [reg[0] != s[0]] + rest;
      assert q[1..] == rest;
      StepReduces(poly, reg, s);
      var g, f := [true] + poly, Feed(poly, reg, s);
      var a := if q[0] then g + Zeros(|s| - 1) else Zeros(|s| + |poly|);
      Regroup(a, Product(rest, g), Zeros(|rest|) + f);
      assert [false] + (Zeros(|rest|) + f) == Zeros(|q|) + f;
    }
  }

  lemma XorLeft(a: Bits, b: Bits, c: Bits)
    requires |a| == |b| == |c| && Xor(a, b) == Xor(a, c)
    ensures b == c
  {
    forall i | 0 <= i < |a|
      ensures b[i] == c[i]
    {
      assert Xor(a, b)[i] == Xor(a, c)[i];
    }
  }

  // Division by a polynomial with its leading term has one result.
  lemma {:induction false} RemainderUnique(d: Bits, g: Bits, q: Bits, r: Bits, p: Bits, t: Bits)
    requires g != [] && g[0] && Divides(d, g, q, r) && Divides(d, g, p, t)
    ensures q == p && r == t
    decreases |q|
  {
    if q == [] {
      assert d == r && d == t;
    } else {
      var x, y := [false] + (Zeros(|q| - 1) + r), [false] + (Zeros(|p| - 1) + t);
      assert Zeros(|q|) + r == x && Zeros(|p|) + t == y;
      assert d[0] == q[0] && d[0] == p[0];
      var a := if q[0] then g + Zeros(|q| - 1) else Zeros(|q| + |g| - 1);
      var e, f := Xor(Product(q[1..], g), Zeros(|q| - 1) + r), Xor(Product(p[1..], g), Zeros(|p| - 1) + t);
      Regroup(a, Product(q[1..], g), Zeros(|q| - 1) + r);
      Regroup(a, Product(p[1..], g), Zeros(|p| - 1) + t);
      XorLeft(a, [false] + e, [false] + f);
      assert ([false] + e)[1..] == e && ([false] + f)[1..] == f;
      RemainderUnique(e, g, q[1..], r, p[1..], t);
      assert q == [q[0]] + q[1..] && p == [p[0]] + p[1..];
    }
  }

  // What a register that held reg holds after s is the remainder of reg x^|s| + s x^n
  // by x^n + poly, and nothing else is.
  lemma FeedIsRemainder(poly: Bits, reg: Bits, s: Bits, r: Bits)
    requires |poly| == |reg| == |r| > 0
    ensures IsRemainder(Dividend(reg, s), [true] + poly, r) <==> r == Feed(poly, reg, s)
  {
    hide Feed, Dividend;
    var q := FeedDivides(poly, reg, s);
    forall p | Divides(Dividend(reg, s), [true] + poly, p, r)
      ensures r == Feed(poly, reg, s)
    {
      RemainderUnique(Dividend(reg, s), [true] + poly, q, Feed(poly, reg, s), p, r);
    }
  }
}
