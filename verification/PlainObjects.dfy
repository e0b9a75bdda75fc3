/** JavaScript's plain objects used as tables: `{}` has more properties than were put into it. */
module PlainObjects {

  /** The names every plain object inherits from Object.prototype: functions, and `__proto__`. */
  const INHERITED: set<string> := {
    "constructor", "__proto__", "__defineGetter__", "__defineSetter__", "__lookupGetter__", "__lookupSetter__",
    "hasOwnProperty", "isPrototypeOf", "propertyIsEnumerable", "toLocaleString", "toString", "valueOf"
  }

  predicate IsInherited(name: string) { name in INHERITED }

  /** Letters and underscores only, seven to twenty of them, and no capital first. */
  predicate IsSpelling(name: string) {
    7 <= |name| <= 20 && name[0] as nat >= 95 && forall i :: 0 <= i < |name| ==> 65 <= name[i] as nat < 128
  }

  lemma InheritedSpelling(name: string)
    requires IsInherited(name)
    ensures IsSpelling(name)
  {
    hide IsSpelling;
    if name in {"constructor", "__proto__", "__defineGetter__", "__defineSetter__"} {
      FirstSpellings(name);
    } else if name in {"__lookupGetter__", "__lookupSetter__", "hasOwnProperty", "isPrototypeOf"} {
      SecondSpellings(name);
    } else {
      ThirdSpellings(name);
    }
  }

  lemma FirstSpellings(name: string)
    requires name in {"constructor", "__proto__", "__defineGetter__", "__defineSetter__"}
    ensures IsSpelling(name)
  {
  }

  lemma SecondSpellings(name: string)
    requires name in {"__lookupGetter__", "__lookupSetter__", "hasOwnProperty", "isPrototypeOf"}
    ensures IsSpelling(name)
  {
  }

  lemma ThirdSpellings(name: string)
    requires name in {"propertyIsEnumerable", "toLocaleString", "toString", "valueOf"}
    ensures IsSpelling(name)
  {
  }
}
