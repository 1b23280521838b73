/**
 * The part of a DOM element the overlays touch: its class list and the
 * listeners registered for the `animationend` event.
 */
module Dom {

  /** The listener list without `h`. */
  function Without(listeners: seq<nat>, h: nat): (r: seq<nat>)
    ensures h !in r
    ensures forall g :: g != h ==> (g in r <==> g in listeners)
    ensures |r| <= |listeners|
  {
    if listeners == [] then []
    else if listeners[0] == h then Without(listeners[1..], h)
    else [listeners[0]] + Without(listeners[1..], h)
  }

  /** No listener is registered twice. */
  predicate Distinct(listeners: seq<nat>)
  {
    forall i, j :: 0 <= i < j < |listeners| ==> listeners[i] != listeners[j]
  }

  /** Removing a listener keeps the others distinct. */
  lemma {:induction false} WithoutDistinct(listeners: seq<nat>, h: nat)
    requires Distinct(listeners)
    ensures Distinct(Without(listeners, h))
  {
    if listeners != [] {
      WithoutDistinct(listeners[1..], h);
      var r := Without(listeners[1..], h);
      if listeners[0] != h {
        assert listeners[0] !in listeners[1..];
        assert listeners[0] !in r;
        assert Without(listeners, h) == [listeners[0]] + r;
      }
    }
  }

  lemma {:induction false} WithoutHead(listeners: seq<nat>)
    requires listeners != [] && Distinct(listeners)
    ensures Without(listeners, listeners[0]) == listeners[1..]
  {
    WithoutAbsent(listeners[1..], listeners[0]);
  }

  lemma {:induction false} WithoutAbsent(listeners: seq<nat>, h: nat)
    requires h !in listeners
    ensures Without(listeners, h) == listeners
  {
    if listeners != [] {
      WithoutAbsent(listeners[1..], h);
    }
  }

  class Element {
    /** `classList`, as a set of class names. */
    var classes: set<string>
    /**
     * The `animationend` listeners in registration order; a listener is
     * identified by the closure object it was registered with.
     */
    var listeners: seq<nat>

    /** An element rendered with the class names of its `className` attribute. */
    constructor (className: seq<string>)
      ensures classes == set c | c in className
      ensures listeners == []
    {
      classes := set c | c in className;
      listeners := [];
    }

    /** `classList.add(c)`. */
    method AddClass(c: string)
      modifies this
      ensures classes == old(classes) + {c}
      ensures listeners == old(listeners)
    {
      classes := classes + {c};
    }

    /** `classList.remove(c)`; removing an absent class changes nothing. */
    method RemoveClass(c: string)
      modifies this
      ensures classes == old(classes) - {c}
      ensures listeners == old(listeners)
    {
      classes := classes - {c};
    }

    /** `addEventListener("animationend", h)`; a listener already present is not added again. */
    method AddAnimationEndListener(h: nat)
      modifies this
      ensures listeners == if h in old(listeners) then old(listeners) else old(listeners) + [h]
      ensures Distinct(old(listeners)) ==> Distinct(listeners)
      ensures classes == old(classes)
    {
      if h !in listeners {
        listeners := listeners + [h];
      }
    }

    /** `removeEventListener("animationend", h)`. */
    method RemoveAnimationEndListener(h: nat)
      modifies this
      ensures listeners == Without(old(listeners), h)
      ensures Distinct(old(listeners)) ==> Distinct(listeners)
      ensures classes == old(classes)
    {
      if Distinct(listeners) {
        WithoutDistinct(listeners, h);
      }
      listeners := Without(listeners, h);
    }
  }
}
