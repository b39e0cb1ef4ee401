/** What every plain JavaScript object has without having been given it (section 20.1.3 of ECMA-262). */
module Inherited {

  /** The property names of `Object.prototype`. */
  predicate Inherits(name: string) {
    || name == "constructor"
    || name == "hasOwnProperty"
    || name == "isPrototypeOf"
    || name == "propertyIsEnumerable"
    || name == "toLocaleString"
    || name == "toString"
    || name == "valueOf"
    || name == "__proto__"
    || name == "__defineGetter__"
    || name == "__defineSetter__"
    || name == "__lookupGetter__"
    || name == "__lookupSetter__"
  }

  predicate IsCapital(c: char) {
    'A' <= c <= 'Z'
  }

  predicate HasCapital(name: string) {
    exists i :: 0 <= i < |name| && IsCapital(name[i])
  }

  /** All of them but two hold a capital letter. */
  lemma MostHaveCapitals(name: string)
    requires Inherits(name)
    ensures name == "constructor" || name == "__proto__" || HasCapital(name)
  {
    if name == "hasOwnProperty" {
      assert IsCapital(name[3]);
    } else if name == "isPrototypeOf" || name == "toString" || name == "toLocaleString" {
      assert IsCapital(name[2]);
    } else if name == "valueOf" {
      assert IsCapital(name[5]);
    } else if |name| > 8 {
      assert name == "constructor" || name == "__proto__" || IsCapital(name[8]);
    }
  }

  lemma OnlyTwoWithout()
    ensures Inherits("constructor") && !HasCapital("constructor")
    ensures Inherits("__proto__") && !HasCapital("__proto__")
  {
  }
}
