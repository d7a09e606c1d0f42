/** The dihedral group of order 6 (symmetries of an equilateral triangle) as
    the demo encodes it: six named elements, each standing for a pair (k, d)
    of a rotation count k in {0,1,2} (steps of 120 degrees) and a reflection
    flag d in {0,1}, multiplied by the semidirect-product law. */
module D3 {
  import opened Wrappers
  import opened JsNumber

  /** The six keys of `elementToObj`; Key gives the string each one is. */
  datatype Element = One | R | R2 | F | RF | R2F

  function Key(e: Element): (s: string)
    ensures IsKey(s)
  {
    match e
    case One => "1"
    case R => "r"
    case R2 => "r2"
    case F => "f"
    case RF => "rf"
    case R2F => "r2f"
  }

  /** A string that is one of the six keys. */
  predicate IsKey(s: string) {
    s == "1" || s == "r" || s == "r2" || s == "f" || s == "rf" || s == "r2f"
  }

  /** IsKey holds of exactly the strings Key gives. */
  lemma IsKeyIff(s: string)
    ensures IsKey(s) <==> exists e: Element :: Key(e) == s
  {
    if IsKey(s) {
      var e := if s == "1" then One else if s == "r" then R else if s == "r2" then R2
               else if s == "f" then F else if s == "rf" then RF else R2F;
      assert Key(e) == s;
    }
  }

  /** The keys are six different strings. */
  lemma KeyInjective(e: Element, e': Element)
    ensures Key(e) == Key(e') ==> e == e'
  {
    if Key(e) == Key(e') {
      assert |Key(e)| == |Key(e')| && Key(e)[0] == Key(e')[0];
      assert |Key(e)| > 1 ==> Key(e)[1] == Key(e')[1];
    }
  }

  /** The `{ k, d }` record of an element. */
  datatype Pair = Pair(k: int, d: int)

  predicate ValidPair(p: Pair) {
    0 <= p.k < 3 && 0 <= p.d < 2
  }

  /** The order in which `for..in` enumerates `elementToObj` (insertion
      order; "1" is an integer-like key and would come first anyway). */
  const Keys: seq<Element> := [One, R, R2, F, RF, R2F]

  /** The fixed element-to-pair table `elementToObj`. */
  function ElementToObj(e: Element): (p: Pair)
    ensures ValidPair(p)
  {
    match e
    case One => Pair(0, 0)
    case R => Pair(1, 0)
    case R2 => Pair(2, 0)
    case F => Pair(0, 1)
    case RF => Pair(1, 1)
    case R2F => Pair(2, 1)
  }

  /** The name of a valid pair: the table read backwards. */
  function NameOf(p: Pair): (e: Element)
    requires ValidPair(p)
    ensures ElementToObj(e) == p
  {
    if p.d == 0 then (if p.k == 0 then One else if p.k == 1 then R else R2)
    else (if p.k == 0 then F else if p.k == 1 then RF else R2F)
  }

  /** The table is a bijection between the six elements and {0,1,2} x {0,1}:
      every pair it gives is valid, and NameOf undoes it in both directions. */
  lemma TableBijection(e: Element, p: Pair)
    ensures ValidPair(ElementToObj(e))
    ensures NameOf(ElementToObj(e)) == e
    ensures ValidPair(p) ==> (ElementToObj(e) == p <==> e == NameOf(p))
  {
    match e
    case One =>
    case R =>
    case R2 =>
    case F =>
    case RF =>
    case R2F =>
  }

  /** Where the enumeration reaches an element: each of the six appears in
      Keys. */
  function Position(e: Element): (i: nat)
    ensures i < |Keys| && Keys[i] == e
  {
    match e
    case One => 0
    case R => 1
    case R2 => 2
    case F => 3
    case RF => 4
    case R2F => 5
  }

  /** The enumeration lists each element once: that index is the only one
      holding the element. */
  lemma PositionUnique(e: Element, i: int)
    requires 0 <= i < |Keys|
    ensures Keys[i] == e <==> i == Position(e)
  {
  }

  /** k2 as it enters the product: negated when the left factor reflects. */
  function Signed(d: int, x: int): int {
    if d == 0 then x else -x
  }

  /** The residue of x modulo m, for x in the range [-m, 2m) that a sum or a
      difference of two residues falls in. */
  function Reduce(x: int, m: int): (r: int)
    requires m > 0 && -m <= x < 2 * m
    ensures 0 <= r < m
  {
    if x < 0 then x + m else if x >= m then x - m else x
  }

  /** Reduce is the mathematical residue. */
  lemma ReduceIsResidue(x: int, m: int)
    requires m > 0 && -m <= x < 2 * m
    ensures Reduce(x, m) == x % m
  {
    if x < 0 {
      assert x == (-1) * m + (x + m);
    } else if x >= m {
      assert x == 1 * m + (x - m);
    }
  }

  /** The multiplication law on pairs, the semidirect product
      (k1, d1) . (k2, d2) = (k1 + (-1)^d1 * k2 mod 3, d1 + d2 mod 2). */
  function Mul(p: Pair, q: Pair): (r: Pair)
    requires ValidPair(p) && ValidPair(q)
    ensures ValidPair(r)
  {
    Pair(Reduce(p.k + Signed(p.d, q.k), 3), Reduce(p.d + q.d, 2))
  }

  /** (0, 0) is a two-sided identity of the pair law. */
  lemma MulIdentity(p: Pair)
    requires ValidPair(p)
    ensures Mul(Pair(0, 0), p) == p && Mul(p, Pair(0, 0)) == p
  {
  }

  /** The pair law is associative. */
  lemma MulAssociative(p: Pair, q: Pair, r: Pair)
    requires ValidPair(p) && ValidPair(q) && ValidPair(r)
    ensures Mul(Mul(p, q), r) == Mul(p, Mul(q, r))
  {
    ResidueShift(p.k, q.k, r.k, p.d, q.d);
    ReflectionShift(p.d, q.d, r.d);
  }

  /** The reflection part of associativity: adding bits modulo 2 is
      associative. */
  lemma ReflectionShift(d1: int, d2: int, d3: int)
    requires 0 <= d1 < 2 && 0 <= d2 < 2 && 0 <= d3 < 2
    ensures Reduce(Reduce(d1 + d2, 2) + d3, 2) == Reduce(d1 + Reduce(d2 + d3, 2), 2)
  {
  }

  /** The rotation part of associativity: the sign r.k takes on the left is
      that of d1 + d2, on the right the composite of the two signs. */
  lemma ResidueShift(x: int, y: int, z: int, d1: int, d2: int)
    requires 0 <= x < 3 && 0 <= y < 3 && 0 <= z < 3
    requires 0 <= d1 < 2 && 0 <= d2 < 2
    ensures Reduce(Reduce(x + Signed(d1, y), 3) + Signed(Reduce(d1 + d2, 2), z), 3)
         == Reduce(x + Signed(d1, Reduce(y + Signed(d2, z), 3)), 3)
  {
  }

  // ---------------------------------------------------------------------
  // composeD3

  /** The product of two elements: the unique element whose pair is the
      product of the operands' pairs. */
  function Compose(a: Element, b: Element): (r: Element)
    ensures ElementToObj(r) == Mul(ElementToObj(a), ElementToObj(b))
  {
    NameOf(Mul(ElementToObj(a), ElementToObj(b)))
  }

  /** The search at the end of `composeD3`: the first key, in enumeration
      order, whose pair is (k, d), or `None` (`null`) when no key has it,
      which happens exactly when (k, d) lies outside {0,1,2} x {0,1}. */
  method FindKey(k: int, d: int) returns (r: Option<Element>)
    ensures r.Some? <==> ValidPair(Pair(k, d))
    ensures r.Some? ==> ElementToObj(r.value) == Pair(k, d)
  {
    for i := 0 to |Keys|
      invariant ValidPair(Pair(k, d)) ==> i <= Position(NameOf(Pair(k, d)))
    {
      var key := Keys[i];
      var val := ElementToObj(key);
      TableBijection(key, Pair(k, d));
      if val.k == k && val.d == d {
        assert val == Pair(k, d);
        return Some(key);
      }
    }
    return None;
  }

  /** The arithmetic of `composeD3` on the operands' pairs, with
      JavaScript's `%`: it computes exactly the pair law. */
  method ProductPair(pa: Pair, pb: Pair) returns (k: int, d: int)
    requires ValidPair(pa) && ValidPair(pb)
    ensures Pair(k, d) == Mul(pa, pb)
  {
    k := pa.k + (if pa.d == 0 then pb.k else -pb.k);
    NormalizedRem3(k);
    ReduceIsResidue(k, 3);
    k := Rem(Rem(k, 3) + 3, 3);
    d := Rem(pa.d + pb.d, 2);
  }

  /** `composeD3`: compute the product pair, then look its name up. The
      lookup never yields `null`: the result is always the product. */
  method ComposeD3(a: Element, b: Element) returns (r: Option<Element>)
    ensures r == Some(Compose(a, b))
  {
    var pa := ElementToObj(a);
    var pb := ElementToObj(b);
    TableBijection(a, pa);
    TableBijection(b, pb);
    var k, d := ProductPair(pa, pb);
    r := FindKey(k, d);
    TableBijection(r.value, Mul(pa, pb));
  }

  /** One is a two-sided identity. */
  lemma ComposeIdentity(a: Element)
    ensures Compose(One, a) == a
    ensures Compose(a, One) == a
  {
    TableBijection(a, Pair(0, 0));
    MulIdentity(ElementToObj(a));
    assert ElementToObj(One) == Pair(0, 0);
  }

  /** Composition is associative on all 216 triples. */
  lemma ComposeAssociative(a: Element, b: Element, c: Element)
    ensures Compose(Compose(a, b), c) == Compose(a, Compose(b, c))
  {
    TableBijection(a, Pair(0, 0));
    TableBijection(b, Pair(0, 0));
    TableBijection(c, Pair(0, 0));
    var left, right := Compose(Compose(a, b), c), Compose(a, Compose(b, c));
    MulAssociative(ElementToObj(a), ElementToObj(b), ElementToObj(c));
    TableBijection(left, ElementToObj(right));
  }

  /** The two products the demo shows to exhibit that the group is not
      abelian: r . f = rf but f . r = r2f. */
  lemma ComposeNotCommutative()
    ensures Compose(R, F) == RF
    ensures Compose(F, R) == R2F
    ensures exists a, b :: Compose(a, b) != Compose(b, a)
  {
    TableBijection(Compose(R, F), Pair(1, 1));
    TableBijection(Compose(F, R), Pair(2, 1));
    assert Compose(R, F) != Compose(F, R);
  }

  // ---------------------------------------------------------------------
  // inverseD3

  /** The inverse of a pair: a reflection is its own inverse, a rotation by
      k steps is undone by the rotation by 3 - k steps. */
  function InversePair(p: Pair): (r: Pair)
    requires ValidPair(p)
    ensures ValidPair(r)
  {
    if p.d == 1 then p else Pair(Reduce(3 - p.k, 3), 0)
  }

  /** On pairs, InversePair gives the only right and the only left inverse. */
  lemma MulInverseUnique(p: Pair, q: Pair)
    requires ValidPair(p) && ValidPair(q)
    ensures Mul(p, q) == Pair(0, 0) <==> q == InversePair(p)
    ensures Mul(q, p) == Pair(0, 0) <==> q == InversePair(p)
  {
  }

  /** The closed form of the inverse of an element. */
  function Inverse(a: Element): (r: Element)
    ensures ElementToObj(r) == InversePair(ElementToObj(a))
  {
    NameOf(InversePair(ElementToObj(a)))
  }

  /** The closed form is the one and only two-sided inverse. */
  lemma InverseUnique(a: Element, b: Element)
    ensures Compose(a, b) == One <==> b == Inverse(a)
    ensures Compose(b, a) == One <==> b == Inverse(a)
  {
    TableBijection(a, Pair(0, 0));
    TableBijection(b, InversePair(ElementToObj(a)));
    MulInverseUnique(ElementToObj(a), ElementToObj(b));
    TableBijection(Compose(a, b), Pair(0, 0));
    TableBijection(Compose(b, a), Pair(0, 0));
  }

  /** Reflections are self-inverse, r and r2 swap, 1 is its own inverse. */
  lemma InverseTable()
    ensures Inverse(One) == One && Inverse(R) == R2 && Inverse(R2) == R
    ensures Inverse(F) == F && Inverse(RF) == RF && Inverse(R2F) == R2F
  {
    TableBijection(Inverse(One), Pair(0, 0));
    TableBijection(Inverse(R), Pair(2, 0));
    TableBijection(Inverse(R2), Pair(1, 0));
    TableBijection(Inverse(F), Pair(0, 1));
    TableBijection(Inverse(RF), Pair(1, 1));
    TableBijection(Inverse(R2F), Pair(2, 1));
  }

  /** `inverseD3`: scan the table for the first candidate c with
      `composeD3(a, c) === "1"`, or `None` (`null`) if there is none. The
      scan always succeeds, with the unique two-sided inverse. */
  method InverseD3(a: Element) returns (r: Option<Element>)
    ensures r == Some(Inverse(a))
    ensures Compose(a, r.value) == One && Compose(r.value, a) == One
  {
    ghost var at := Position(Inverse(a));
    for i := 0 to |Keys|
      invariant i <= at
    {
      var candidate := Keys[i];
      var product := ComposeD3(a, candidate);
      CandidateTest(a, candidate, product);
      if product == Some(One) {
        return Some(candidate);
      }
      PositionUnique(Inverse(a), i);
    }
    assert false;
    return None;
  }

  /** The test inside the scan: `composeD3(a, c) === "1"` picks out exactly
      the inverse, which then also composes to 1 on the other side. */
  lemma CandidateTest(a: Element, c: Element, product: Option<Element>)
    requires product == Some(Compose(a, c))
    ensures product == Some(One) <==> c == Inverse(a)
    ensures product == Some(One) ==> Compose(c, a) == One
  {
    InverseUnique(a, c);
  }

  // ---------------------------------------------------------------------
  // displayD3

  /** `displayD3`: the MathML markup of an element's key; any other string is
      rendered as a plain identifier `<mi>elem</mi>`. */
  function Display(elem: string): (r: string)
    ensures |r| > 0
    ensures !IsKey(elem) ==> r == "<mi>" + elem + "</mi>"
  {
    match elem
    case "1" => "<mi>1</mi>"
    case "r" => "<mi>r</mi>"
    case "r2" => R2Markup
    case "f" => "<mi>f</mi>"
    case "rf" => RFMarkup
    case "r2f" => R2FMarkup
    case _ => "<mi>" + elem + "</mi>"
  }

  /** The three markups that are not a single identifier. */
  const R2Markup := "<msup><mi>r</mi><mn>2</mn></msup>"
  const RFMarkup := "<mrow><mi>r</mi><mo>&#x22C5;</mo><mi>f</mi></mrow>"
  const R2FMarkup := "<mrow><msup><mi>r</mi><mn>2</mn></msup><mo>&#x22C5;</mo><mi>f</mi></mrow>"

  /** Reading markup back: the text of a `<mi>` identifier, or the key whose
      compound markup it is. Strings that `Display` never produces are
      returned unchanged. */
  function Undisplay(w: string): string {
    if |w| >= 9 && w[..4] == "<mi>" && w[|w| - 5..] == "</mi>" then w[4..|w| - 5]
    else if w == R2Markup then "r2"
    else if w == RFMarkup then "rf"
    else if w == R2FMarkup then "r2f"
    else w
  }

  lemma UndisplayOne() ensures Undisplay(Display("1")) == "1" {
    assert Display("1") == "<mi>1</mi>";
  }

  lemma UndisplayR() ensures Undisplay(Display("r")) == "r" {
    assert Display("r") == "<mi>r</mi>";
  }

  lemma UndisplayR2() ensures Undisplay(Display("r2")) == "r2" {
    assert Display("r2") == R2Markup;
  }

  lemma UndisplayF() ensures Undisplay(Display("f")) == "f" {
    assert Display("f") == "<mi>f</mi>";
  }

  lemma UndisplayRF() ensures Undisplay(Display("rf")) == "rf" {
    assert Display("rf") == RFMarkup;
  }

  lemma UndisplayR2F() ensures Undisplay(Display("r2f")) == "r2f" {
    assert Display("r2f") == R2FMarkup;
  }

  /** The markup of a key reads back as that key. */
  lemma KeyRoundTrip(s: string)
    requires IsKey(s)
    ensures Undisplay(Display(s)) == s
  {
    if s == "1" { UndisplayOne(); }
    else if s == "r" { UndisplayR(); }
    else if s == "r2" { UndisplayR2(); }
    else if s == "f" { UndisplayF(); }
    else if s == "rf" { UndisplayRF(); }
    else { UndisplayR2F(); }
  }

  /** The fallback identifier `<mi>s</mi>` reads back as `s`. */
  lemma FallbackRoundTrip(s: string)
    requires !IsKey(s)
    ensures Undisplay(Display(s)) == s
  {
    var w := Display(s);
    assert w == "<mi>" + s + "</mi>";
    assert w[..4] == "<mi>";
    assert w[|w| - 5..] == "</mi>";
    assert w[4..|w| - 5] == s;
  }

  /** Rendering loses nothing: every string's markup reads back as the
      string, keys and fallback alike. */
  lemma DisplayRoundTrip(s: string)
    ensures Undisplay(Display(s)) == s
  {
    if IsKey(s) { KeyRoundTrip(s); } else { FallbackRoundTrip(s); }
  }

  /** So different strings never render alike: the six elements render as
      six different strings and no other string is rendered like one of
      them. */
  lemma DisplayInjective(a: string, b: string)
    ensures Display(a) == Display(b) ==> a == b
  {
    DisplayRoundTrip(a);
    DisplayRoundTrip(b);
  }

  /** The six elements render as six different strings. */
  lemma DisplayKeysDistinct(e: Element, e': Element)
    ensures |Display(Key(e))| > 0
    ensures e != e' ==> Display(Key(e)) != Display(Key(e'))
  {
    DisplayInjective(Key(e), Key(e'));
    KeyInjective(e, e');
  }
}
