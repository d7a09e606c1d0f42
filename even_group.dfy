/** The even-integer demo: each button parses its fields, rejects input that
    is not a number, then rejects odd operands, and only then computes with
    ordinary addition. A field that `parseInt` cannot read is `None` (NaN). */
module EvenGroup {
  import opened Wrappers
  import opened JsNumber

  /** `isEven`: `n % 2 === 0` with JavaScript's truncating remainder. */
  predicate IsEven(n: int): (b: bool)
    ensures b <==> n % 2 == 0
  {
    Rem2ZeroIff(n);
    Rem(n, 2) == 0
  }

  /** An odd number fails isEven with remainder 1 when positive and -1 when
      negative: the truncating remainder is never 1 for a negative dividend. */
  lemma OddRemainder(n: int)
    ensures !IsEven(n) ==> Rem(n, 2) == (if n < 0 then -1 else 1)
  {
  }

  /** What a handler writes into its result panel: a validation message, or
      the values its success message reports. */
  datatype Report<T> = Rejected(message: string) | Shown(values: T)

  const ClosureNaN := "Please enter valid integers for a and b."
  const ClosureOdd := "Both a and b must be even numbers."
  const SingleNaN := "Please enter a valid integer for a."
  const SingleOdd := "Please enter an even number for a."
  const AssocNaN := "Please enter valid integers for a, b, and c."
  const AssocOdd := "All of a, b, and c must be even numbers."
  const AssocHolds := "Associativity holds."
  const AssocFails := "Associativity does not hold!"

  /** The sum of two even numbers is even. */
  lemma EvenSum(a: int, b: int)
    requires IsEven(a) && IsEven(b)
    ensures IsEven(a + b)
  {
  }

  /** The negation of an even number is even. */
  lemma EvenNegation(a: int)
    requires IsEven(a)
    ensures IsEven(-a)
  {
  }

  /** Closure button: reports (a, b, a + b), and a + b is even. */
  function Closure(a: Option<int>, b: Option<int>): (r: Report<(int, int, int)>)
    ensures a.None? || b.None? <==> r == Rejected(ClosureNaN)
    ensures r == Rejected(ClosureOdd) <==>
              a.Some? && b.Some? && !(IsEven(a.value) && IsEven(b.value))
    ensures r.Shown? <==> a.Some? && b.Some? && IsEven(a.value) && IsEven(b.value)
    ensures r.Shown? ==> r.values == (a.value, b.value, a.value + b.value) && IsEven(r.values.2)
  {
    if a.None? || b.None? then Rejected(ClosureNaN)
    else if !IsEven(a.value) || !IsEven(b.value) then Rejected(ClosureOdd)
    else
      EvenSum(a.value, b.value);
      Shown((a.value, b.value, a.value + b.value))
  }

  /** Identity button: reports (a, a + 0), which is (a, a). */
  function Identity(a: Option<int>): (r: Report<(int, int)>)
    ensures a.None? <==> r == Rejected(SingleNaN)
    ensures r == Rejected(SingleOdd) <==> a.Some? && !IsEven(a.value)
    ensures r.Shown? <==> a.Some? && IsEven(a.value)
    ensures r.Shown? ==> r.values == (a.value, a.value)
  {
    if a.None? then Rejected(SingleNaN)
    else if !IsEven(a.value) then Rejected(SingleOdd)
    else Shown((a.value, a.value + 0))
  }

  /** Associativity button: reports ((a + b) + c, a + (b + c), verdict); the
      two sums always agree, so the verdict is never "does not hold!". */
  function Associativity(a: Option<int>, b: Option<int>, c: Option<int>): (r: Report<(int, int, string)>)
    ensures a.None? || b.None? || c.None? <==> r == Rejected(AssocNaN)
    ensures r == Rejected(AssocOdd) <==>
              a.Some? && b.Some? && c.Some? &&
              !(IsEven(a.value) && IsEven(b.value) && IsEven(c.value))
    ensures r.Shown? <==>
              a.Some? && b.Some? && c.Some? && IsEven(a.value) && IsEven(b.value) && IsEven(c.value)
    ensures r.Shown? ==> r.values.0 == r.values.1 == a.value + b.value + c.value
    ensures r.Shown? ==> r.values.2 == AssocHolds
  {
    if a.None? || b.None? || c.None? then Rejected(AssocNaN)
    else if !IsEven(a.value) || !IsEven(b.value) || !IsEven(c.value) then Rejected(AssocOdd)
    else
      var left := (a.value + b.value) + c.value;
      var right := a.value + (b.value + c.value);
      Shown((left, right, if left == right then AssocHolds else AssocFails))
  }

  /** Inverse button: reports (-a, a + (-a)); -a is even and the sum is 0. */
  function Inverse(a: Option<int>): (r: Report<(int, int)>)
    ensures a.None? <==> r == Rejected(SingleNaN)
    ensures r == Rejected(SingleOdd) <==> a.Some? && !IsEven(a.value)
    ensures r.Shown? <==> a.Some? && IsEven(a.value)
    ensures r.Shown? ==> r.values == (-a.value, 0) && IsEven(r.values.0)
  {
    if a.None? then Rejected(SingleNaN)
    else if !IsEven(a.value) then Rejected(SingleOdd)
    else
      EvenNegation(a.value);
      var inverse := -a.value;
      Shown((inverse, a.value + inverse))
  }
}
