# polynom — a Dafny model of the polynomial value type

This project models `src/polynomial.rs` of the `polynom` crate. That file defines a
single-variable polynomial. It holds a coefficient vector, where index `i` is the
coefficient of the `i`-th term, and the character used for the indeterminate when
the polynomial is printed. The model covers its five pieces of behaviour:

- `strip_zeros` drops every zero coefficient. It is a loop that pushes each non-zero
  coefficient onto a new vector. The model is the method `Polynom.StripZeros`, proved
  equal to the filter function `Polynom.NonZero`.
- `Polynomial::new` stores the stripped coefficients together with the given
  indeterminate. The model is the function `Polynom.New`.
- `add` zips the two coefficient vectors, sums each pair, and rebuilds the result
  through `new` with the indeterminate `'x'`. The model is `Polynom.ZipSum` and
  `Polynom.Add`.
- `degree` is `len() - 1` on a `usize`. The model is `Polynom.Degree`, which returns
  `SubtractOverflow` for an empty vector.
- `as_string` is a loop that extends a `terms` string one coefficient at a time. The
  model is the method `Polynom.AsString`, proved equal to `Polynom.Render`. A separate
  lemma shows that this equals the header followed by every monomial joined with `" + "`.

Coefficients are `real`, and "non-zero" means `!= 0.0`. Rust's `{}` formatting of an
`f64` is a foreign routine, so it is passed in as a parameter `fmt: real -> string`.
Rust's `{}` formatting of the `usize` exponent is modelled in module `Decimal` as
`NatStr`, with a round trip back to the number.

## Behaviour worth noting

- `strip_zeros` removes interior zeros as well as trailing ones. The code's own test turns
  `[1,2,0,3,0]` into `[1,2,3]`. All-zero or empty input gives an empty vector.
- `add` stops at the shorter operand.
- `degree` subtracts one from the `usize` length. On an empty vector that subtraction underflows.
- `as_string` prints every stored coefficient. The code's test expects
  `"f(x) = 1 + 2x + 3x^2"` for `new([1,2,0,3])`.
- `sub`, `multiply` and `evaluate_at` are empty stubs.

## Model

| member | source | states |
|---|---|---|
| `Polynom.NonZero` | src/polynomial.rs:1-10 | the stripped coefficients contain no zero and are never longer than the input |
| `Polynom.StripZeros` | src/polynomial.rs:1-10 | the loop that pushes each non-zero coefficient returns exactly the input with its zeros filtered out (`NonZero`) |
| `Polynom.NonZeroAppend` | src/polynomial.rs:3-7 | filtering a concatenation is the concatenation of the filtered parts, so the kept coefficients stay in input order |
| `Polynom.NonZeroCounts` | src/polynomial.rs:3-7 | zero never occurs in the output; every non-zero value occurs exactly as often as in the input |
| `Polynom.NonZeroLength` | src/polynomial.rs:3-7 | the output length is the input length minus the number of zero entries |
| `Polynom.NonZeroFixpoint` | src/polynomial.rs:1-10 | stripping leaves a vector unchanged if and only if it holds no zero |
| `Polynom.NonZeroIdempotent` | src/polynomial.rs:1-10 | stripping twice gives the same result as stripping once |
| `Polynom.NonZeroEmpty` | src/polynomial.rs:1-10 | the output is empty if and only if every input coefficient is zero, the empty input included |
| `Polynom.StripZerosExample` | src/polynomial.rs:72-73 | `[1,2,0,3,0]` strips to `[1,2,3]`: the interior zero goes too |
| `Polynom.New` | src/polynomial.rs:18-24 | `new` keeps the indeterminate and stores the stripped coefficients, so no stored coefficient is zero and there are at most as many as given |
| `Polynom.NewOfNormal` | src/polynomial.rs:18-24 | rebuilding a polynomial from its own fields returns it unchanged if and only if it has no zero coefficient; construction is idempotent |
| `Polynom.ZipSum` | src/polynomial.rs:27-32 | the zipped sum is as long as the shorter operand, and element `i` is `a[i] + b[i]` |
| `Polynom.Add` | src/polynomial.rs:26-35 | the sum has indeterminate `'x'` whatever the operands use; its coefficients are the stripped pairwise sums, none zero and no more than either operand has |
| `Polynom.AddCommutes` | src/polynomial.rs:26-35 | `add(a, b)` and `add(b, a)` are the same polynomial |
| `Polynom.AddEmpty` | src/polynomial.rs:27-32 | when either operand has no coefficients, the sum has none either |
| `Polynom.AddExample` | src/polynomial.rs:89-96 | `new([1,2,0,3]) + new([1,2,0,3])` has coefficients `[2,4,6]` |
| `Polynom.Degree` | src/polynomial.rs:62-64 | the degree is one less than the number of stored coefficients; on an empty vector the subtraction underflows |
| `Polynom.DegreeOfNew` | src/polynomial.rs:62-64 | a constructed polynomial has no degree exactly when every input coefficient was zero; otherwise its degree is the number of non-zero inputs minus one |
| `Polynom.DegreeExample` | src/polynomial.rs:78-79 | `new([1,2,0,3])` has degree 2 |
| `Polynom.AddDegree` | src/polynomial.rs:26-35 | a sum has a degree only when both operands do, and then it is at most the smaller of the two |
| `Polynom.Header` | src/polynomial.rs:59 | every rendering opens with the seven characters `"f("`, the indeterminate, `") = "` |
| `Polynom.Monomial` | src/polynomial.rs:47-56 | a term's text starts with the formatted coefficient; index 0 adds nothing, index 1 adds the indeterminate only, index `d >= 2` adds the indeterminate, `^` and the decimal exponent |
| `Polynom.Terms` | src/polynomial.rs:44-57 | the `terms` accumulator is empty before the first coefficient and always starts with the first coefficient's text afterwards |
| `Polynom.Monomials` | src/polynomial.rs:45-56 | reference definition used by `RenderIsJoin`: one monomial per coefficient, in index order (its contract spells out that definition) |
| `Polynom.Render` | src/polynomial.rs:59 | the rendering always starts with `"f(<ind>) = "`, and for no coefficients it is exactly that header |
| `Polynom.AsString` | src/polynomial.rs:43-60 | the loop that extends `terms` coefficient by coefficient produces `Render` |
| `Polynom.TermsStep` | src/polynomial.rs:51-56 | each coefficient after the first adds `" + "` and its monomial: `c<ind>` at index 1, `c<ind>^d` at index `d >= 2` |
| `Polynom.TermsIsJoin` | src/polynomial.rs:44-57 | after `n` coefficients the accumulated terms are the first `n` monomials joined by `" + "`, the first being the bare coefficient |
| `Polynom.RenderIsJoin` | src/polynomial.rs:43-60 | the rendering is the header followed by every coefficient's monomial, in order, separated by `" + "` |
| `Polynom.RenderExample` | src/polynomial.rs:84-85 | `new([1,2,0,3])` renders as `"f(x) = 1 + 2x + 3x^2"` when 1, 2 and 3 format as `"1"`, `"2"`, `"3"` |
| `Decimal.DigitChar` | src/polynomial.rs:56 | one decimal digit of the exponent: a character from `'0'` to `'9'` whose distance from `'0'` is the digit's value |
| `Decimal.NatStr` | src/polynomial.rs:56 | the exponent is written in decimal digits only, with no leading zero, and has one digit exactly when it is below 10 |
| `Decimal.DigitsValueOfNatStr` | src/polynomial.rs:56 | reading back the digits of an exponent gives the exponent |
| `Decimal.NatStrInjective` | src/polynomial.rs:56 | different exponents are written differently |

## Left out

- `sub`, `multiply` and `evaluate_at` (src/polynomial.rs:37-39) have empty bodies and take no arguments. There is nothing to model.
- IEEE-754 `f64` arithmetic is not modelled: rounding of sums, NaN (which `!= 0.0` keeps) and `-0.0` (which compares equal to `0.0` and is stripped). Coefficients are exact reals.
- Rust's `Display` formatting of an `f64` is not modelled. It is the parameter `fmt` of `Render` and `AsString`, and nothing is assumed about it beyond what `RenderExample` requires.
- Degree: in a release build, `len() - 1` on an empty vector wraps to `usize::MAX` instead of panicking. The model reports the debug-build panic as `SubtractOverflow` and does not model the wrapped value.
- Ownership and moves are not modelled. `new` and `add` consume their vector or operand; in the model, values are immutable and copied.
- The test module is not modelled as code. Its four cases appear as the `...Example` lemmas.
