# Dihedral group D3 and the even-integer group, as web-component logic

This project models the arithmetic core of two small educational web
components.

- `triangle-group-demo.js` shows the dihedral group D3: the six symmetries of
  an equilateral triangle. Each element is named by a string key ("1", "r",
  "r2", "f", "rf", "r2f"). The key maps to a pair `{k, d}`, a rotation count
  modulo 3 and a reflection bit modulo 2. `composeD3` multiplies two elements
  with the semidirect-product formula
  `(k1, d1)·(k2, d2) = (k1 + (-1)^d1·k2 mod 3, d1 + d2 mod 2)`. It then looks the
  resulting pair up in the table. `inverseD3` searches the table for the
  element whose product with its argument is "1". `displayD3` renders an
  element as MathML. The component keeps an accumulated element: it starts at
  "1", each generator button left-multiplies it by the button's element, and
  Reset puts it back to "1". Four panels compute closure, identity,
  associativity and an inverse.
- `even-group-demo.js` shows the even integers under addition. Its test
  `isEven(n)` is `n % 2 === 0`. Four click handlers reject a missing number
  (NaN) first, then an odd one, and otherwise compute the property's values.

Modules:

- `Wrappers`: `Option`. `None` stands for JavaScript's `null` (a failed table
  search) and for NaN (an unparsable input).
- `JsNumber`: JavaScript's truncating `%` (`Rem`), which differs from Dafny's
  Euclidean `%` on negative operands.
- `D3`:
  - the elements as an enumeration `Element`, their string keys (`Key`) and
    the `elementToObj` table (`ElementToObj`, with its inverse `NameOf`);
  - the product on pairs, as a specification (`Mul`);
  - `composeD3` as the method `ComposeD3`, built from `ProductPair` (the
    JavaScript arithmetic) and `FindKey` (the `for…in` search), and specified
    by the function `Compose`;
  - `inverseD3` as `InverseD3`, specified by `Inverse`;
  - `displayD3` as `Display`.
- `TriangleDemo`: the component class `TriangleGroupDemo`, which holds the
  accumulated element, and the four panels of `setupInteractive`. The
  function `Accumulate(start, presses)` specifies what a run of presses
  reaches. `Press` takes one step of it: the `AccumulateSnoc` step.
- `EvenGroup`: `isEven` and the four handlers as pure functions, each
  returning either the message shown for a rejected input or the values
  printed in the result line.

`composeD3` walks the table with `for…in`. The keys are all non-numeric
except "1". An integer-like key is enumerated first, but "1" is also the
first key inserted, so the walk visits the keys in table order. This is the
order of `D3.Keys`.

Presses compose on the left, so pressing "r" and then "f" from the identity
reaches "r2f": `compose("f", "r") = (0 + (-1)·1 mod 3, 1) = (2, 1)`. The
lemma `TriangleDemo.PressRThenF` states this.

## Model

| member | source | states |
|---|---|---|
| JsNumber.Rem | triangle-group-demo.js:28-29 | JavaScript's `%` for a positive modulus: the result lies strictly between `-m` and `m` and has the sign of the dividend (zero for zero). Operands already inside `(-m, m)` come back unchanged. |
| JsNumber.RemQuotient | triangle-group-demo.js:28-29 | The value of JavaScript's `%` for a positive modulus: the dividend is a whole multiple of the modulus plus the remainder. Together with `Rem`'s range and sign this determines the remainder, e.g. `-5 % 3` is -2. |
| JsNumber.NormalizedRem3 | triangle-group-demo.js:28 | `((k % 3) + 3) % 3` with JavaScript's `%` is the mathematical residue of `k` modulo 3, for every integer, negative ones included. |
| JsNumber.Rem2ZeroIff | even-group-demo.js:15 | A JavaScript remainder modulo 2 is zero exactly when the mathematical remainder is zero. |
| D3.Key | triangle-group-demo.js:15-20 | Every element's string is one of the six keys of the table ("1", "r", "r2", "f", "rf", "r2f"). |
| D3.IsKeyIff | triangle-group-demo.js:14-21 | A string is a key of the table exactly when it is the key of one of the six elements. |
| D3.KeyInjective | triangle-group-demo.js:14-21 | Distinct elements have distinct keys. |
| D3.ElementToObj | triangle-group-demo.js:14-21 | Every table entry is a valid pair: rotation count in 0..2 and reflection bit in 0..1. |
| D3.NameOf | triangle-group-demo.js:14-21 | Every valid pair has an element whose table entry is exactly that pair. |
| D3.TableBijection | triangle-group-demo.js:14-21 | The table is a bijection between the six elements and the six valid pairs: each entry is valid, reading an element's entry back gives the element, and a valid pair is an element's entry exactly when that element is `NameOf` of the pair. |
| D3.Position | triangle-group-demo.js:30 | Every element occurs in the enumeration order of the table at the returned index. |
| D3.PositionUnique | triangle-group-demo.js:38 | The enumeration lists each element exactly once: an index holds the element exactly when it is the element's position. |
| D3.Reduce | triangle-group-demo.js:28-29 | For inputs in `[-m, 2m)`, the range a sum or difference of two residues falls in, the reduction lands in `0..m-1`. |
| D3.ReduceIsResidue | triangle-group-demo.js:28-29 | That reduction equals the residue modulo `m`. |
| D3.Mul | triangle-group-demo.js:26-29 | The product of two valid pairs is a valid pair, so the formula never leaves the table. |
| D3.MulIdentity | triangle-group-demo.js:26-29 | `(0,0)` is a two-sided identity for the pair product. |
| D3.MulAssociative | triangle-group-demo.js:26-29 | The pair product is associative on valid pairs. |
| D3.ResidueShift | triangle-group-demo.js:26-28 | The rotation components of the two bracketings of a triple product agree after reduction modulo 3. |
| D3.ReflectionShift | triangle-group-demo.js:29 | The reflection components of the two bracketings agree: adding bits modulo 2 is associative. |
| D3.MulInverseUnique | triangle-group-demo.js:26-29 | For a valid pair `p` and a valid `q`: `p·q = (0,0)` exactly when `q` is the inverse pair, and the same holds for `q·p`. Reflections are their own inverses and rotation `k` is undone by `3-k mod 3`. |
| D3.Compose | triangle-group-demo.js:23-35 | The result's table entry is the product of the operands' entries. |
| D3.FindKey | triangle-group-demo.js:30-34 | The `for…in` search finds a key exactly when `(k, d)` is a valid pair, and the key found has that pair as its entry. Otherwise it returns `null`. |
| D3.ProductPair | triangle-group-demo.js:24-29 | The JavaScript arithmetic, with the truncating `%` and the `+ 3` normalisation, computes exactly the pair product of the two entries. |
| D3.ComposeD3 | triangle-group-demo.js:23-35 | `composeD3` never returns `null` on two elements, and returns the element `Compose` specifies. |
| D3.ComposeIdentity | triangle-group-demo.js:23-35 | "1" is a two-sided identity for `composeD3`. |
| D3.ComposeAssociative | triangle-group-demo.js:23-35 | `composeD3` is associative on all 216 triples. |
| D3.ComposeNotCommutative | triangle-group-demo.js:26-29 | `compose("r","f")` is "rf" but `compose("f","r")` is "r2f", so the product is not commutative. |
| D3.InversePair | triangle-group-demo.js:37-42 | The inverse of a valid pair is a valid pair. |
| D3.Inverse | triangle-group-demo.js:37-42 | The inverse's table entry is the inverse pair of the argument's entry. |
| D3.InverseUnique | triangle-group-demo.js:37-42 | `compose(a, b)` is "1" exactly when `b` is the inverse of `a`, and likewise `compose(b, a)`. The candidate found by the search is therefore the unique two-sided inverse. |
| D3.InverseTable | triangle-group-demo.js:37-42 | "1" is its own inverse, "r" and "r2" are each other's, and the three reflections are self-inverse. |
| D3.CandidateTest | triangle-group-demo.js:39 | The test `composeD3(a, c) === "1"` holds exactly for `c = Inverse(a)`, and then `compose(c, a)` is "1" as well. |
| D3.InverseD3 | triangle-group-demo.js:37-42 | The search never returns `null`. It returns `Inverse(a)`, which composes with `a` to "1" on both sides. |
| D3.Display | triangle-group-demo.js:47-63 | The markup is never empty. A string that is not a key is wrapped as `<mi>…</mi>`. |
| D3.KeyRoundTrip | triangle-group-demo.js:48-60 | Every key's markup reads back, through `Undisplay`, as the key. The markups of lines 50-60 are taken one key at a time by six helper lemmas (`UndisplayOne` … `UndisplayR2F`). |
| D3.FallbackRoundTrip | triangle-group-demo.js:61-62 | For a string `s` that is not a key, the fallback `<mi>s</mi>` reads back as `s`. |
| D3.DisplayRoundTrip | triangle-group-demo.js:47-63 | `Undisplay` is a left inverse of `displayD3` on every string. |
| D3.DisplayInjective | triangle-group-demo.js:47-63 | Different strings get different markup: `displayD3` is injective on strings. A non-string argument is outside this claim: `null` renders the same as the string "null", and the number `1` the same as the string "1". |
| D3.DisplayKeysDistinct | triangle-group-demo.js:47-63 | The six elements get non-empty, pairwise distinct markup. |
| TriangleDemo.Accumulate | triangle-group-demo.js:411-485 | The element a run of generator presses reaches from `start`, each press left-multiplying the current element by the button's element. |
| TriangleDemo.AccumulateSnoc | triangle-group-demo.js:411-481 | One more press `g` left-multiplies the accumulated element by `g`. |
| TriangleDemo.AccumulateOne | triangle-group-demo.js:411-481 | A single press of `g` from `start` gives `compose(g, start)`. |
| TriangleDemo.AccumulateTwo | triangle-group-demo.js:411-481 | Pressing `g`, then `h`, from `start` gives `compose(h, compose(g, start))`. |
| TriangleDemo.AccumulateIsLeftAction | triangle-group-demo.js:411-481 | Any sequence of presses from `start` equals the element those presses reach from "1", composed on the right with `start`. |
| TriangleDemo.AccumulateAppend | triangle-group-demo.js:411-481 | Pressing `first` and then `second` is the same as pressing `second` from where `first` left off. |
| TriangleDemo.PressTwice | triangle-group-demo.js:411-481 | Pressing `g` then `h` is the same as one press of `compose(h, g)`. |
| TriangleDemo.PressRThenF | triangle-group-demo.js:424-455 | From the identity, pressing "r" and then "f" shows "r2f". |
| TriangleDemo.TriangleGroupDemo.constructor | triangle-group-demo.js:69-74 | The component starts with the accumulated element "1", which is `Accumulate(One, [])`. |
| TriangleDemo.TriangleGroupDemo.Press | triangle-group-demo.js:411-481 | A generator button's `pointerup` (`trans` is the button's element) makes the new element `compose(trans, current)`. That is one `AccumulateSnoc` step. The formula display gets `trans`, the old element and the new one. |
| TriangleDemo.TriangleGroupDemo.ResetDemo | triangle-group-demo.js:100-107 | Reset restores the accumulated element "1" from any state. |
| TriangleDemo.CheckClosure | triangle-group-demo.js:286-292 | The closure panel's product is never `null`, and its entry is the pair product of the operands' entries. |
| TriangleDemo.CheckIdentity | triangle-group-demo.js:294-299 | The identity panel's product `compose("1", a)` is `a`. |
| TriangleDemo.CheckAssociativity | triangle-group-demo.js:301-310 | Both bracketings are non-null and equal, so the verdict is always "Associativity holds." and never "Associativity fails!". |
| TriangleDemo.CheckInverse | triangle-group-demo.js:312-318 | The inverse is found and composes to "1" on the left. The panel's product is `compose(a, inv)`, it is "1", and its markup is the `<mi>1</mi>` the panel prints. |
| EvenGroup.IsEven | even-group-demo.js:15 | `isEven(n)`, written as `n % 2 === 0` with JavaScript's truncating remainder, holds exactly when `n` is even. |
| EvenGroup.OddRemainder | even-group-demo.js:15 | An odd `n` that `isEven` rejects leaves the JavaScript remainder 1 when positive and -1 when negative. |
| EvenGroup.EvenSum | even-group-demo.js:17-31 | The sum of two even integers is even. |
| EvenGroup.EvenNegation | even-group-demo.js:71-85 | The negation of an even integer is even. |
| EvenGroup.Closure | even-group-demo.js:18-32 | NaN in either input gives the "valid integers" message. Otherwise an odd input gives "Both a and b must be even numbers.". Otherwise the result line shows `a`, `b` and `a + b`, and that sum is even. Each outcome is stated in both directions. |
| EvenGroup.Identity | even-group-demo.js:35-48 | NaN is checked before parity. An even `a` shows `a + 0 = a`. |
| EvenGroup.Associativity | even-group-demo.js:51-69 | NaN is checked before parity. For three even inputs both bracketings equal `a + b + c` and the verdict is "Associativity holds."; "does not hold!" cannot be produced. |
| EvenGroup.Inverse | even-group-demo.js:72-86 | NaN is checked before parity. An even `a` shows the inverse `-a` and the sum 0, and `-a` is even. |

## Left out

- Invalid element names are outside the model. `composeD3`, `inverseD3` and the
  panels take an `Element`, so a string that is not a key cannot be passed.
  In the source, a name that is neither a key nor inherited from
  `Object.prototype` makes `elementToObj[a]` undefined, and reading `.k`
  throws. An inherited name such as "toString", "constructor" or
  "__proto__" instead yields a function or `Object.prototype`. Then `.k` and
  `.d` are undefined, `k` and `d` become NaN (lines 27-29), no key matches,
  and `composeD3` returns `null` (line 34); `composeD3("1", "toString")`
  does the same. `inverseD3("toString")` returns `null` too (line 41). So
  both `return null` lines can be reached in the source, only not with
  element names, and the model never reaches them. `displayD3` alone takes
  any string.
- The DOM is left out: the shadow root, `render()`, `innerHTML`,
  `textContent`, reading `<select>` and `<input>` values, and the text of the
  formula and result lines beyond the values they interpolate. The
  `render()` in this revision of `triangle-group-demo.js` creates no
  `check-closure` or other panel elements, so in the browser
  `setupInteractive` would fail at its first `getElementById`. The model
  covers the computations the panels' handlers would perform.
- Animations and transform parsing are left out: `resetTriangle`,
  `raiseTriangle`, `animateRotation`, `animateFlip`,
  `animateFlipThenRotation`, and the regex-based `getCurrentRotation` and
  `getCurrentScale`. These are visual and have no effect on the group
  arithmetic.
- `parseInt` is modelled only by its outcome: `None` for NaN and `Some(n)`
  for an integer. Doubles beyond 2^53, `-0` and the decimal formatting of the
  messages are not modelled. Integers are unbounded.
- EvenGroup.Associativity: its contract that the two bracketings agree, so
  that "Associativity does not hold!" is never shown, holds for unbounded
  integers only. The source adds doubles. With a = 2^54 = 18014398509481984
  and b = c = 2, `(a + b) + c` rounds to 2^54 while `a + (b + c)` is 2^54 + 4,
  and the source prints "Associativity does not hold!".
- EvenGroup.Closure, EvenGroup.Identity, EvenGroup.Associativity and
  EvenGroup.Inverse return the result line's values rather than the
  formatted text.
- `z-group-demo.js`, `script.js`, `rollup.config.js` and the `dist/` bundles
  are not part of this model.
