/** The interactive part of the triangle component: the accumulated element
    that the generator buttons left-multiply and the Reset button clears, and
    the computations behind the four group-property panels. */
module TriangleDemo {
  import opened Wrappers
  import opened D3

  /** The element reached from `start` by pressing the generator buttons
      `presses` in order, each press left-multiplying the current element. */
  function Accumulate(start: Element, presses: seq<Element>): Element
    decreases |presses|
  {
    if presses == [] then start
    else Compose(presses[|presses| - 1], Accumulate(start, presses[..|presses| - 1]))
  }

  /** One more press left-multiplies what the earlier presses reached. */
  lemma AccumulateSnoc(start: Element, presses: seq<Element>, g: Element)
    ensures Accumulate(start, presses + [g]) == Compose(g, Accumulate(start, presses))
  {
    assert (presses + [g])[..|presses|] == presses;
  }

  /** A single press. */
  lemma AccumulateOne(start: Element, g: Element)
    ensures Accumulate(start, [g]) == Compose(g, start)
  {
    assert [g][..0] == [];
  }

  /** Two presses. */
  lemma AccumulateTwo(start: Element, g: Element, h: Element)
    ensures Accumulate(start, [g, h]) == Compose(h, Compose(g, start))
  {
    assert [g] + [h] == [g, h];
    AccumulateSnoc(start, [g], h);
    AccumulateOne(start, g);
  }

  /** Pressing buttons is a left action: a run of presses acts on any start
      by left-multiplying it with the element the same run reaches from 1. */
  lemma {:induction false} AccumulateIsLeftAction(start: Element, presses: seq<Element>)
    ensures Accumulate(start, presses) == Compose(Accumulate(One, presses), start)
    decreases |presses|
  {
    if presses == [] {
      ComposeIdentity(start);
    } else {
      var init, g := presses[..|presses| - 1], presses[|presses| - 1];
      AccumulateIsLeftAction(start, init);
      ComposeAssociative(g, Accumulate(One, init), start);
    }
  }

  /** Two runs of presses one after the other are one run of all of them. */
  lemma {:induction false} AccumulateAppend(start: Element, first: seq<Element>, second: seq<Element>)
    ensures Accumulate(start, first + second) == Accumulate(Accumulate(start, first), second)
    decreases |second|
  {
    if second == [] {
      assert first + second == first;
    } else {
      var init := second[..|second| - 1];
      assert (first + second)[..|first + second| - 1] == first + init;
      AccumulateAppend(start, first, init);
    }
  }

  /** Pressing g and then h is the same as pressing the single element h . g
      once; the order matters because the group is not abelian. */
  lemma PressTwice(start: Element, g: Element, h: Element)
    ensures Accumulate(start, [g, h]) == Accumulate(start, [Compose(h, g)])
  {
    AccumulateTwo(start, g, h);
    AccumulateOne(start, Compose(h, g));
    ComposeAssociative(h, g, start);
  }

  /** Pressing r and then f from the identity reaches r2f (= f . r). */
  lemma PressRThenF()
    ensures Accumulate(One, [R, F]) == R2F
  {
    AccumulateTwo(One, R, F);
    ComposeIdentity(R);
    ComposeNotCommutative();
  }

  /** The `TriangleGroupDemo` element. Only `currentElement` is modelled: the
      accumulated element that the formula display reports. `Press` performs
      the step that `AccumulateSnoc` describes; the object keeps no record of
      past presses, so no invariant ties it to `Accumulate` over a run. */
  class TriangleGroupDemo {
    var currentElement: Element

    /** The component starts at the identity. */
    constructor ()
      ensures currentElement == One
    {
      currentElement := One;
    }

    /** A generator button's `pointerup`: left-multiply the accumulated
        element by the button's element `trans`, and return the three
        operands of the formula display (trans, old element, new element). */
    method Press(trans: Element) returns (factorLeft: Element, factorRight: Element, product: Element)
      modifies this
      ensures currentElement == Compose(trans, old(currentElement))
      ensures factorLeft == trans && factorRight == old(currentElement) && product == currentElement
    {
      var newElem := ComposeD3(trans, currentElement);
      factorLeft, factorRight, product := trans, currentElement, newElem.value;
      currentElement := newElem.value;
    }

    /** `resetDemo`: back to the identity, whatever was pressed before. */
    method ResetDemo()
      modifies this
      ensures currentElement == One
    {
      currentElement := One;
    }
  }

  // ---------------------------------------------------------------------
  // The group-property panels of `setupInteractive`.

  /** Closure panel: the product read back from `composeD3` is never `null`,
      so "Closure holds because the result is in D3" is true. */
  method CheckClosure(a: Element, b: Element) returns (product: Option<Element>)
    ensures product.Some?
    ensures ElementToObj(product.value) == Mul(ElementToObj(a), ElementToObj(b))
  {
    product := ComposeD3(a, b);
  }

  /** Identity panel: 1 . a is a. */
  method CheckIdentity(a: Element) returns (product: Option<Element>)
    ensures product == Some(a)
  {
    product := ComposeD3(One, a);
    ComposeIdentity(a);
  }

  /** Associativity panel: both bracketings agree, so the verdict is always
      "Associativity holds." and never "Associativity fails!". */
  method CheckAssociativity(a: Element, b: Element, c: Element)
    returns (left: Option<Element>, right: Option<Element>, verdict: string)
    ensures left.Some? && left == right
    ensures verdict == "Associativity holds."
  {
    var ab := ComposeD3(a, b);
    left := ComposeD3(ab.value, c);
    var bc := ComposeD3(b, c);
    right := ComposeD3(a, bc.value);
    ComposeAssociative(a, b, c);
    verdict := if left == right then "Associativity holds." else "Associativity fails!";
  }

  /** Inverse panel: the inverse is found, and a . inverse is 1, so the
      panel's fixed right-hand side `<mi>1</mi>` is the product's markup. */
  method CheckInverse(a: Element) returns (inv: Option<Element>, prod: Option<Element>)
    ensures inv.Some? && Compose(inv.value, a) == One
    ensures prod == Some(Compose(a, inv.value))
    ensures prod == Some(One)
    ensures Display(Key(prod.value)) == "<mi>1</mi>"
  {
    inv := InverseD3(a);
    prod := ComposeD3(a, inv.value);
  }
}
