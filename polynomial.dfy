/** A single-variable polynomial as a value: a coefficient vector (index = position
    of the term) and the character used for the indeterminate when it is rendered.
    Coefficients are modelled as `real`; "is zero" is ordinary equality with 0.0. */
module Polynom {
  import opened Decimal

  datatype Polynomial = Polynomial(coefficients: seq<real>, indeterminate: char)

  /** What `Polynomial::degree` produces: the degree, or the panic of a `usize`
      subtraction `0 - 1` when there are no coefficients. */
  datatype DegreeOutcome = Ok(degree: nat) | SubtractOverflow

  predicate NoZeros(s: seq<real>) {
    forall i :: 0 <= i < |s| ==> s[i] != 0.0
  }

  /** The invariant every constructed polynomial keeps: no stored coefficient is zero. */
  predicate Normal(p: Polynomial) {
    NoZeros(p.coefficients)
  }

  // ---------------------------------------------------------------------------
  // strip_zeros

  /** The coefficients with every zero removed, the others kept in order. */
  function NonZero(s: seq<real>): (r: seq<real>)
    ensures NoZeros(r)
    ensures |r| <= |s|
  {
    if s == [] then []
    else if s[0] != 0.0 then [s[0]] + NonZero(s[1..])
    else NonZero(s[1..])
  }

  /** Filtering a concatenation filters each part: the relative order of the
      surviving coefficients is that of the input. */
  lemma {:induction false} NonZeroAppend(a: seq<real>, b: seq<real>)
    ensures NonZero(a + b) == NonZero(a) + NonZero(b)
  {
    if a == [] {
      assert a + b == b;
    } else {
      assert (a + b)[0] == a[0] && (a + b)[1..] == a[1..] + b;
      NonZeroAppend(a[1..], b);
    }
  }

  /** Every non-zero value occurs as often in the output as in the input, and zero
      not at all. */
  lemma {:induction false} NonZeroCounts(s: seq<real>)
    ensures multiset(NonZero(s))[0.0] == 0
    ensures forall x :: x != 0.0 ==> multiset(NonZero(s))[x] == multiset(s)[x]
  {
    if s != [] {
      NonZeroCounts(s[1..]);
      assert s == [s[0]] + s[1..];
    }
  }

  /** The output is exactly as long as the input has non-zero entries. */
  lemma {:induction false} NonZeroLength(s: seq<real>)
    ensures |NonZero(s)| == |s| - multiset(s)[0.0]
  {
    if s != [] {
      NonZeroLength(s[1..]);
      assert s == [s[0]] + s[1..];
    }
  }

  /** A sequence is left unchanged exactly when it holds no zero. */
  lemma {:induction false} NonZeroFixpoint(s: seq<real>)
    ensures NonZero(s) == s <==> NoZeros(s)
  {
    if s != [] && NoZeros(s) {
      assert NoZeros(s[1..]) by {
        forall i | 0 <= i < |s| - 1 ensures s[1..][i] != 0.0 {
          assert s[1..][i] == s[i + 1];
        }
      }
      NonZeroFixpoint(s[1..]);
    }
  }

  /** Stripping twice is stripping once. */
  lemma NonZeroIdempotent(s: seq<real>)
    ensures NonZero(NonZero(s)) == NonZero(s)
  {
  }

  /** The output is empty exactly when every input entry is zero (the empty input included). */
  lemma {:induction false} NonZeroEmpty(s: seq<real>)
    ensures NonZero(s) == [] <==> forall i :: 0 <= i < |s| ==> s[i] == 0.0
  {
    if s != [] {
      NonZeroEmpty(s[1..]);
      if forall i :: 0 <= i < |s| - 1 ==> s[1..][i] == 0.0 {
        assert forall i :: 1 <= i < |s| ==> s[i] == s[1..][i - 1];
      }
    }
  }

  /** strip_zeros: walks the input and pushes every non-zero coefficient. */
  method StripZeros(coefficients: seq<real>) returns (result: seq<real>)
    ensures result == NonZero(coefficients)
  {
    result := [];
    for i := 0 to |coefficients|
      invariant result == NonZero(coefficients[..i])
    {
      var coeff := coefficients[i];
      if coeff != 0.0 {
        result := result + [coeff];
      }
      assert coefficients[..i + 1] == coefficients[..i] + [coeff];
      NonZeroAppend(coefficients[..i], [coeff]);
    }
    assert coefficients[..|coefficients|] == coefficients;
  }

  /** The concrete case the source's tests fix: an interior zero is removed too. */
  lemma StripZerosExample()
    ensures NonZero([1.0, 2.0, 0.0, 3.0, 0.0]) == [1.0, 2.0, 3.0]
  {
  }

  // ---------------------------------------------------------------------------
  // Polynomial::new

  /** Polynomial::new: keeps the indeterminate and stores the stripped coefficients. */
  function New(coefficients: seq<real>, indeterminate: char): (p: Polynomial)
    ensures p.indeterminate == indeterminate
    ensures p.coefficients == NonZero(coefficients)
    ensures Normal(p) && |p.coefficients| <= |coefficients|
  {
    Polynomial(NonZero(coefficients), indeterminate)
  }

  /** Rebuilding a polynomial from its own fields gives it back, so construction is
      idempotent; and a normal polynomial is what `new` builds from its fields. */
  lemma NewOfNormal(p: Polynomial)
    ensures Normal(p) <==> New(p.coefficients, p.indeterminate) == p
    ensures New(New(p.coefficients, p.indeterminate).coefficients, p.indeterminate)
            == New(p.coefficients, p.indeterminate)
  {
    NonZeroFixpoint(p.coefficients);
    NonZeroIdempotent(p.coefficients);
  }

  // ---------------------------------------------------------------------------
  // Polynomial::add

  /** The `zip`/`map` pipeline: pairwise sums, as many as the shorter operand has. */
  function ZipSum(a: seq<real>, b: seq<real>): (r: seq<real>)
    ensures |r| == if |a| <= |b| then |a| else |b|
    ensures forall i :: 0 <= i < |r| ==> r[i] == a[i] + b[i]
  {
    if a == [] || b == [] then [] else [a[0] + b[0]] + ZipSum(a[1..], b[1..])
  }

  /** Polynomial::add: strips the pairwise sums and always names the indeterminate 'x'. */
  function Add(a: Polynomial, b: Polynomial): (r: Polynomial)
    ensures r.indeterminate == 'x'
    ensures r.coefficients == NonZero(ZipSum(a.coefficients, b.coefficients))
    ensures Normal(r)
    ensures |r.coefficients| <= |a.coefficients| && |r.coefficients| <= |b.coefficients|
  {
    New(ZipSum(a.coefficients, b.coefficients), 'x')
  }

  /** Addition does not depend on the order of the operands (indeterminate included,
      since it is always 'x'). */
  lemma AddCommutes(a: Polynomial, b: Polynomial)
    ensures Add(a, b) == Add(b, a)
  {
    assert ZipSum(a.coefficients, b.coefficients) == ZipSum(b.coefficients, a.coefficients);
  }

  /** An operand with no coefficients absorbs the sum: the result has none either. */
  lemma AddEmpty(a: Polynomial, b: Polynomial)
    requires a.coefficients == [] || b.coefficients == []
    ensures Add(a, b).coefficients == []
  {
  }

  /** The concrete case the source's tests fix. */
  lemma AddExample()
    ensures Add(New([1.0, 2.0, 0.0, 3.0], 'x'), New([1.0, 2.0, 0.0, 3.0], 'x')).coefficients
            == [2.0, 4.0, 6.0]
  {
  }

  // ---------------------------------------------------------------------------
  // Polynomial::degree

  /** Polynomial::degree: one less than the number of stored coefficients; there is
      no degree for an empty vector, whose `len() - 1` underflows. */
  function Degree(p: Polynomial): (r: DegreeOutcome)
    ensures r.SubtractOverflow? <==> p.coefficients == []
    ensures r.Ok? ==> r.degree + 1 == |p.coefficients|
  {
    if |p.coefficients| == 0 then SubtractOverflow else Ok(|p.coefficients| - 1)
  }

  /** The degree of a constructed polynomial counts the non-zero input coefficients,
      not the position of the highest one; all-zero (or empty) input has no degree. */
  lemma DegreeOfNew(coefficients: seq<real>, indeterminate: char)
    ensures Degree(New(coefficients, indeterminate)).SubtractOverflow?
            <==> forall i :: 0 <= i < |coefficients| ==> coefficients[i] == 0.0
    ensures Degree(New(coefficients, indeterminate)).Ok?
            ==> Degree(New(coefficients, indeterminate)).degree
                == |coefficients| - multiset(coefficients)[0.0] - 1
  {
    NonZeroEmpty(coefficients);
    NonZeroLength(coefficients);
  }

  /** The concrete case the source's tests fix: the interior zero does not count. */
  lemma DegreeExample()
    ensures Degree(New([1.0, 2.0, 0.0, 3.0], 'x')) == Ok(2)
  {
  }

  /** A sum has a degree only when both operands have one, and it is at most the
      smaller of the two. */
  lemma AddDegree(a: Polynomial, b: Polynomial)
    ensures Degree(Add(a, b)).Ok? ==> Degree(a).Ok? && Degree(b).Ok?
    ensures Degree(Add(a, b)).Ok? ==>
              Degree(Add(a, b)).degree <= Degree(a).degree && Degree(Add(a, b)).degree <= Degree(b).degree
  {
  }

  // ---------------------------------------------------------------------------
  // Polynomial::as_string

  /** How the text of a term looks on its own: the coefficient, then for d >= 1 the
      indeterminate, then for d >= 2 "^" and the exponent. `fmt` stands for the
      decimal rendering of a coefficient. */
  function Monomial(d: nat, c: real, ind: char, fmt: real -> string): (m: string)
    ensures |m| >= |fmt(c)| && m[..|fmt(c)|] == fmt(c)
    ensures d == 0 <==> |m| == |fmt(c)|
    ensures d >= 1 ==> m[|fmt(c)|] == ind
    ensures d == 1 <==> |m| == |fmt(c)| + 1
    ensures d >= 2 ==> m[|fmt(c)| + 1] == '^' && m[|fmt(c)| + 2..] == NatStr(d)
  {
    if d == 0 then fmt(c)
    else if d == 1 then fmt(c) + [ind]
    else fmt(c) + [ind] + "^" + NatStr(d)
  }

  /** The parts separated by `sep`. */
  function Join(parts: seq<string>, sep: string): string {
    if |parts| == 0 then ""
    else if |parts| == 1 then parts[0]
    else Join(parts[..|parts| - 1], sep) + sep + parts[|parts| - 1]
  }

  /** The `terms` string after the loop has visited the first `n` coefficients. */
  function Terms(cs: seq<real>, n: nat, ind: char, fmt: real -> string): (t: string)
    requires n <= |cs|
    ensures n == 0 ==> t == []
    ensures n >= 1 ==> |t| >= |fmt(cs[0])| && t[..|fmt(cs[0])|] == fmt(cs[0])
  {
    if n == 0 then ""
    else if n == 1 then fmt(cs[0])
    else if n == 2 then Terms(cs, 1, ind, fmt) + " + " + fmt(cs[1]) + [ind]
    else Terms(cs, n - 1, ind, fmt) + " + " + fmt(cs[n - 1]) + [ind] + "^" + NatStr(n - 1)
  }

  /** The fixed opening "f(<ind>) = " of every rendering. */
  function Header(ind: char): (h: string)
    ensures |h| == 7 && h[2] == ind
    ensures h[..2] == "f(" && h[3..] == ") = "
  {
    "f(" + [ind] + ") = "
  }

  /** The whole rendering: "f(<ind>) = " followed by the terms. */
  function Render(p: Polynomial, fmt: real -> string): (s: string)
    ensures |s| >= |Header(p.indeterminate)|
    ensures s[..|Header(p.indeterminate)|] == Header(p.indeterminate)
    ensures p.coefficients == [] ==> s == Header(p.indeterminate)
  {
    Header(p.indeterminate) + Terms(p.coefficients, |p.coefficients|, p.indeterminate, fmt)
  }

  /** Polynomial::as_string: extends `terms` coefficient by coefficient. */
  method AsString(p: Polynomial, fmt: real -> string) returns (s: string)
    ensures s == Render(p, fmt)
  {
    var terms := "";
    for degree := 0 to |p.coefficients|
      invariant terms == Terms(p.coefficients, degree, p.indeterminate, fmt)
    {
      var coeff := p.coefficients[degree];
      if degree == 0 {
        terms := fmt(coeff);
        continue;
      }
      if degree == 1 {
        terms := terms + " + " + fmt(coeff) + [p.indeterminate];
        continue;
      }
      terms := terms + " + " + fmt(coeff) + [p.indeterminate] + "^" + NatStr(degree);
    }
    s := "f(" + [p.indeterminate] + ") = " + terms;
  }

  /** The monomial of every coefficient, in order. */
  function Monomials(cs: seq<real>, ind: char, fmt: real -> string): (ms: seq<string>)
    ensures |ms| == |cs|
    ensures forall d :: 0 <= d < |cs| ==> ms[d] == Monomial(d, cs[d], ind, fmt)
  {
    seq(|cs|, d requires 0 <= d < |cs| => Monomial(d, cs[d], ind, fmt))
  }

  /** Each coefficient after the first extends the terms by " + " and its monomial. */
  lemma TermsStep(cs: seq<real>, n: nat, ind: char, fmt: real -> string)
    requires 2 <= n <= |cs|
    ensures Terms(cs, n, ind, fmt) == Terms(cs, n - 1, ind, fmt) + " + " + Monomial(n - 1, cs[n - 1], ind, fmt)
  {
  }

  /** Joining one more part of a sequence adds the separator and that part. */
  lemma JoinPrefix(parts: seq<string>, n: nat, sep: string)
    requires 2 <= n <= |parts|
    ensures Join(parts[..n], sep) == Join(parts[..n - 1], sep) + sep + parts[n - 1]
  {
    assert parts[..n][..n - 1] == parts[..n - 1];
  }

  /** If the terms after `n - 1` coefficients are the joined monomials, so are those after `n`. */
  lemma TermsJoinStep(cs: seq<real>, n: nat, ind: char, fmt: real -> string)
    requires 2 <= n <= |cs|
    requires Terms(cs, n - 1, ind, fmt) == Join(Monomials(cs, ind, fmt)[..n - 1], " + ")
    ensures Terms(cs, n, ind, fmt) == Join(Monomials(cs, ind, fmt)[..n], " + ")
  {
    TermsStep(cs, n, ind, fmt);
    JoinPrefix(Monomials(cs, ind, fmt), n, " + ");
  }

  /** The accumulated terms are the monomials of the first `n` coefficients joined by " + ". */
  lemma {:induction false} TermsIsJoin(cs: seq<real>, n: nat, ind: char, fmt: real -> string)
    requires n <= |cs|
    ensures Terms(cs, n, ind, fmt) == Join(Monomials(cs, ind, fmt)[..n], " + ")
  {
    if n >= 2 {
      TermsIsJoin(cs, n - 1, ind, fmt);
      TermsJoinStep(cs, n, ind, fmt);
    } else if n == 1 {
      var ms := Monomials(cs, ind, fmt);
      assert ms[..n] == [ms[0]];
    }
  }

  /** The rendering is the header followed by every coefficient's monomial, in
      order, separated by " + ". */
  lemma RenderIsJoin(p: Polynomial, fmt: real -> string)
    ensures Render(p, fmt)
            == Header(p.indeterminate) + Join(Monomials(p.coefficients, p.indeterminate, fmt), " + ")
  {
    var ms := Monomials(p.coefficients, p.indeterminate, fmt);
    TermsIsJoin(p.coefficients, |p.coefficients|, p.indeterminate, fmt);
    assert ms[..|ms|] == ms;
  }

  /** The concrete case the source's tests fix, for a coefficient formatter that
      writes 1.0, 2.0 and 3.0 as Rust does. */
  lemma RenderExample(fmt: real -> string)
    requires fmt(1.0) == "1" && fmt(2.0) == "2" && fmt(3.0) == "3"
    ensures Render(New([1.0, 2.0, 0.0, 3.0], 'x'), fmt) == "f(x) = 1 + 2x + 3x^2"
  {
  }
}
