/**
  The category registry of the dress-up script: the fixed list of category
  files, the derivation of a category name from a file name, and the
  category -> stacking order (z-index) lookup, both as the script writes it
  (a JavaScript object lookup with its prototype and `hasWarned` quirks) and
  as it is evidently meant (own keys only, 0 otherwise).
 */
module Registry {
  import opened Text

  /** The category files, in load order. */
  const JsonFiles: seq<string> := [
    "Socks2.json", "BottomBikini1.json", "BottomBikini2.json",
    "TopBikini1.json", "OnePiece1.json", "Short1.json", "Short2.json",
    "Skirt1.json", "Dress1.json", "Hat1.json", "Hat2.json",
    "Jacket1.json", "Jacket2.json"
  ]

  /** The category names the files are expected to produce, in the same order. */
  const LoadOrder: seq<string> := [
    "socks2", "bottombikini1", "bottombikini2",
    "topbikini1", "onepiece1", "short1", "short2",
    "skirt1", "dress1", "hat1", "hat2",
    "jacket1", "jacket2"
  ]

  /** Stacking order of each known category. */
  const ZIndexMap: map<string, int> := map[
    "socks2" := 6,
    "bottombikini1" := 1,
    "bottombikini2" := 1,
    "topbikini1" := 2,
    "onepiece1" := 3,
    "short1" := 4,
    "short2" := 4,
    "skirt1" := 5,
    "dress1" := 7,
    "jacket1" := 8,
    "jacket2" := 8,
    "hat1" := 9,
    "hat2" := 9
  ]

  /**
    A category's name: the file name with its first ".json" removed,
    lower-cased. The name carries no capital, and a file name without ".json"
    is only lower-cased.
   */
  function CategoryName(file: string): (name: string)
    ensures forall k :: 0 <= k < |name| ==> !IsUpper(name[k])
    ensures NoOccurrence(file, ".json") ==> name == ToLower(file)
  {
    ToLower(ReplaceFirst(file, ".json", ""))
  }

  // ---------------------------------------------------------------------
  // The lookup as written: property access on a fresh object literal.
  // ---------------------------------------------------------------------

  /** The JavaScript values a property access on the z-index object can produce. */
  datatype JsValue =
    | Number(n: int)
    | Boolean(b: bool)
    | Undefined
      /** a member every object literal inherits from Object.prototype */
    | Inherited(name: string)

  /** JavaScript truthiness of those values. */
  predicate Truthy(v: JsValue) {
    match v
    case Number(n) => n != 0
    case Boolean(b) => b
    case Undefined => false
    case Inherited(_) => true
  }

  /** Property names every object literal inherits from Object.prototype (ECMAScript, with Annex B). */
  const ObjectPrototypeKeys: set<string> := {
    "constructor", "hasOwnProperty", "isPrototypeOf", "propertyIsEnumerable",
    "toLocaleString", "toString", "valueOf", "__proto__",
    "__defineGetter__", "__defineSetter__", "__lookupGetter__", "__lookupSetter__"
  }

  /** The flag property the lookup writes into its own table. */
  const WarnFlag: string := "hasWarned"

  /** `obj[key]` on an object literal whose own properties are `obj`. */
  function Get(obj: map<string, JsValue>, key: string): JsValue {
    if key in obj then obj[key]
    else if key in ObjectPrototypeKeys then Inherited(key)
    else Undefined
  }

  /**
    The object literal built on every call, as JavaScript values. Every order
    in the table is positive, so a property read on it is truthy exactly for
    an own key or an inherited member: no known category reads as falsy.
   */
  function ZIndexObject(): (obj: map<string, JsValue>)
    ensures obj.Keys == ZIndexMap.Keys
    ensures forall k :: k in obj ==> obj[k] == Number(ZIndexMap[k])
    ensures forall k :: Truthy(Get(obj, k)) <==> k in ZIndexMap || k in ObjectPrototypeKeys
  {
    map k | k in ZIndexMap :: Number(ZIndexMap[k])
  }

  /** The result of one call: the returned value and whether a warning was logged. */
  datatype Lookup = Lookup(value: JsValue, warned: bool)

  /**
    `getZIndex(categoryName)` as written. The table is a fresh object on every
    call, so `hasWarned` is never set on entry: every call whose lookup is
    falsy warns, and then `hasWarned` is written into the very table the final
    `table[categoryName] || 0` reads.
   */
  function GetZIndex(name: string): (r: Lookup)
    ensures r.warned <==> name !in ZIndexMap && name !in ObjectPrototypeKeys
    ensures name in ZIndexMap ==> r.value == Number(ZIndexMap[name])
    ensures name in ObjectPrototypeKeys && name !in ZIndexMap ==> r.value == Inherited(name)
  {
    var table := ZIndexObject();
    var warn := !Truthy(Get(table, name)) && !Truthy(Get(table, WarnFlag));
    var table' := if warn then table[WarnFlag := Boolean(true)] else table;
    var v := Get(table', name);
    Lookup(if Truthy(v) then v else Number(0), warn)
  }

  /**
    Every lookup of an unknown name warns: the lookup is a function of the
    name alone, with no flag surviving from an earlier call. Apart from the
    flag's own name, the result is 0.
   */
  lemma GetZIndexWarnsOnEveryCall(name: string)
    requires name !in ZIndexMap && name !in ObjectPrototypeKeys
    ensures GetZIndex(name).warned
    ensures name != WarnFlag ==> GetZIndex(name).value == Number(0)
  {
  }

  /** Finding: looking up the flag's own name returns `true`, not a number. */
  lemma GetZIndexOfWarnFlag()
    ensures GetZIndex(WarnFlag) == Lookup(Boolean(true), true)
  {
  }

  /** Finding: an inherited member name returns that member, not 0. */
  lemma GetZIndexOfInheritedName()
    ensures GetZIndex("toString") == Lookup(Inherited("toString"), false)
  {
  }

  // ---------------------------------------------------------------------
  // The lookup as intended.
  // ---------------------------------------------------------------------

  /**
    Stacking order of a category: the table's value for a known category and
    0 for every other name; total, never fails.
   */
  function ZIndex(name: string): (z: int)
    ensures 0 <= z <= 9
    ensures z == 0 <==> name !in ZIndexMap
    ensures name in ZIndexMap ==> z == ZIndexMap[name]
  {
    if name in ZIndexMap then ZIndexMap[name] else 0
  }

  /**
    Away from the flag name and the inherited names, the lookup as written
    returns exactly the intended stacking order, as a number.
   */
  lemma GetZIndexAgreesWithZIndex(name: string)
    requires name != WarnFlag && name !in ObjectPrototypeKeys
    ensures GetZIndex(name).value == Number(ZIndex(name))
    ensures GetZIndex(name).warned <==> ZIndex(name) == 0
  {
  }

  // ---------------------------------------------------------------------
  // Category names of the loaded files.
  // ---------------------------------------------------------------------

  /** Deriving a name from a dot-free stem plus ".json" lower-cases the stem. */
  lemma CategoryNameOfStem(stem: string)
    requires forall k :: 0 <= k < |stem| ==> stem[k] != '.'
    ensures CategoryName(stem + ".json") == ToLower(stem)
  {
    ReplaceJsonExtension(stem);
  }

  /** One file of the list: a dot-free stem plus ".json", whose stem lower-cases to `name`. */
  lemma CategoryNameOfFile(file: string, stem: string, name: string)
    requires file == stem + ".json"
    requires forall k :: 0 <= k < |stem| ==> stem[k] != '.'
    requires |stem| == |name| && forall k :: 0 <= k < |stem| ==> LowerChar(stem[k]) == name[k]
    ensures CategoryName(file) == name
  {
    CategoryNameOfStem(stem);
  }

  // The names are checked a few files at a time to keep each proof small.

  /** Files 0..2 produce the names at the same positions of LoadOrder. */
  lemma CategoryNamesPart1(i: nat)
    requires 0 <= i < 3
    ensures CategoryName(JsonFiles[i]) == LoadOrder[i]
  {
    if i == 0 {
      CategoryNameOfFile("Socks2.json", "Socks2", "socks2");
    } else if i == 1 {
      CategoryNameOfFile("BottomBikini1.json", "BottomBikini1", "bottombikini1");
    } else {
      CategoryNameOfFile("BottomBikini2.json", "BottomBikini2", "bottombikini2");
    }
  }

  /** Files 3..5 produce the names at the same positions of LoadOrder. */
  lemma CategoryNamesPart2(i: nat)
    requires 3 <= i < 6
    ensures CategoryName(JsonFiles[i]) == LoadOrder[i]
  {
    if i == 3 {
      CategoryNameOfFile("TopBikini1.json", "TopBikini1", "topbikini1");
    } else if i == 4 {
      CategoryNameOfFile("OnePiece1.json", "OnePiece1", "onepiece1");
    } else {
      CategoryNameOfFile("Short1.json", "Short1", "short1");
    }
  }

  /** Files 6..8 produce the names at the same positions of LoadOrder. */
  lemma CategoryNamesPart3(i: nat)
    requires 6 <= i < 9
    ensures CategoryName(JsonFiles[i]) == LoadOrder[i]
  {
    if i == 6 {
      CategoryNameOfFile("Short2.json", "Short2", "short2");
    } else if i == 7 {
      CategoryNameOfFile("Skirt1.json", "Skirt1", "skirt1");
    } else {
      CategoryNameOfFile("Dress1.json", "Dress1", "dress1");
    }
  }

  /** Files 9..12 produce the names at the same positions of LoadOrder. */
  lemma CategoryNamesPart4(i: nat)
    requires 9 <= i < 13
    ensures CategoryName(JsonFiles[i]) == LoadOrder[i]
  {
    if i == 9 {
      CategoryNameOfFile("Hat1.json", "Hat1", "hat1");
    } else if i == 10 {
      CategoryNameOfFile("Hat2.json", "Hat2", "hat2");
    } else if i == 11 {
      CategoryNameOfFile("Jacket1.json", "Jacket1", "jacket1");
    } else {
      CategoryNameOfFile("Jacket2.json", "Jacket2", "jacket2");
    }
  }

  /** The files produce exactly the names of LoadOrder, in order. */
  lemma CategoryNamesOfFiles()
    ensures |JsonFiles| == |LoadOrder|
    ensures forall i :: 0 <= i < |JsonFiles| ==> CategoryName(JsonFiles[i]) == LoadOrder[i]
  {
    forall i | 0 <= i < |JsonFiles| ensures CategoryName(JsonFiles[i]) == LoadOrder[i] {
      if i < 3 {
        CategoryNamesPart1(i);
      } else if i < 6 {
        CategoryNamesPart2(i);
      } else if i < 9 {
        CategoryNamesPart3(i);
      } else {
        CategoryNamesPart4(i);
      }
    }
  }

  /** The load order lists exactly the keys of the z-index table. */
  lemma LoadOrderIsTableKeys()
    ensures forall c :: c in LoadOrder <==> c in ZIndexMap
  {
  }

  /**
    Every loaded category is a key of the z-index table with a positive
    order, the lookup as written gives that order without a warning, and
    every key of the table is loaded.
   */
  lemma LoadedCategoriesAreKnown()
    ensures forall i :: 0 <= i < |JsonFiles| ==>
              CategoryName(JsonFiles[i]) in ZIndexMap && ZIndex(CategoryName(JsonFiles[i])) > 0
    ensures forall i :: 0 <= i < |JsonFiles| ==>
              GetZIndex(CategoryName(JsonFiles[i])) == Lookup(Number(ZIndex(CategoryName(JsonFiles[i]))), false)
    ensures forall c :: c in ZIndexMap ==> exists i :: 0 <= i < |JsonFiles| && CategoryName(JsonFiles[i]) == c
  {
    CategoryNamesOfFiles();
    LoadOrderIsTableKeys();
    forall i | 0 <= i < |JsonFiles| ensures CategoryName(JsonFiles[i]) in ZIndexMap {
      assert LoadOrder[i] in LoadOrder;
    }
    forall c | c in ZIndexMap
      ensures exists i :: 0 <= i < |JsonFiles| && CategoryName(JsonFiles[i]) == c
    {
      var i :| 0 <= i < |LoadOrder| && LoadOrder[i] == c;
      assert CategoryName(JsonFiles[i]) == c;
    }
  }
}
