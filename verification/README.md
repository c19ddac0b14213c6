# Dress-up visibility engine, modelled in Dafny

The dress-up page stacks one image layer per clothing item and gives each
item a toggle button. This project models the part of `script.js` that has
real logic:

- **Registry** (`registry.dfy`). This holds the fixed list of category files and
  derives a category name from each file name. It drops the first `.json` and
  lower-cases the rest. It also holds the category → stacking order (z-index)
  table. The lookup `getZIndex` appears twice:
  - as written (`GetZIndex`), as a JavaScript property read on a fresh object
    literal, including the warning flag and the members inherited from
    `Object.prototype`;
  - as evidently intended (`ZIndex`): the table value for known categories and
    0 for any other name.
- **Visibility engine** (`visibility.dfy`). The page's item images become a map
  from DOM id to `Item(category, visible)`. `toggleVisibility` is the pure
  function `Toggle`, with these steps:
  1. Hide the other items of the clicked category.
  2. Flip the clicked item.
  3. If the item is now visible, hide the categories the clicked category
     excludes. The table is keyed on the category the button passes; for a
     button's own click that is the item's category.
     Bikini top and bottom exclude the one-piece, and the reverse. The dress
     excludes the short and the skirt, and the reverse.

  `hideSpecificCategories` is `HideCategories`. A click on an id that names no
  item yields `threw`, together with the page as the first step left it. The
  lemmas state these properties:
  - at most one visible item per clicked category, after any click;
  - for a button (bound) click, the target flips, and a double click restores
    it; a bound click is one whose id names an item of the category passed;
  - exactly which other items a toggle can hide (frame);
  - the invariant "at most one visible item per category" is preserved by one
    button (bound) click and by any sequence of them; a click carrying another
    category can break it (`Visibility.MismatchedClickBreaksInvariant`);
  - `ToggleSpec`, an item-by-item statement of a click, is met by `Toggle` and
    determines the resulting page uniquely.
- **Text helpers** (`text.dfy`). These are the JavaScript string operations the
  above uses: replace-first, `toLowerCase`, `endsWith`, and the item-id
  normalisation (append `.png` unless present).

The comment at script.js:29, `// Prevent repeated warnings`, states that an
unknown category is meant to be warned about only once. The code does not do
that: `zIndexMap`, and with it the `hasWarned` flag, is a fresh object built on
every call (script.js:11). So every lookup of a name that is neither a table
key nor an `Object.prototype` member warns (`Registry.GetZIndexWarnsOnEveryCall`),
and the model follows the code. Names inherited from `Object.prototype` never
warn (see "## Findings").

## Model

| member | source | states |
|---|---|---|
| Text.ReplaceFirst | script.js:56 | `replace('.json', '')` changes only the first occurrence: a string without one is unchanged, otherwise the first occurrence is cut out and nothing else moves |
| Text.ReplaceFirstOfSuffix | script.js:56 | removing a pattern that ends the string returns the part before it when that part never contains the pattern's first character |
| Text.ReplaceJsonExtension | script.js:56 | a dot-free stem followed by ".json" loses exactly the ".json" |
| Text.ToLowerMapsCapitals | script.js:56 | lower-casing keeps the length, leaves no capital, keeps other characters and maps each capital to its lower-case letter |
| Text.ToLowerIdempotent | script.js:56 | lower-casing a lower-cased name changes nothing |
| Text.ToLower | script.js:56 | lower-casing keeps the length and leaves no ASCII capital |
| Text.EndsWith | script.js:65 | `s.endsWith(suffix)` holds exactly when `s` is some string followed by `suffix` |
| Text.NormalizeId | script.js:65 | the DOM id always ends with ".png" and starts with the data id, and it is either the data id itself or the data id with exactly ".png" appended |
| Text.NormalizeIdFixedPoints | script.js:65 | an id is left unchanged exactly when it already ends with ".png" |
| Text.NormalizeIdIdempotent | script.js:65 | normalising a normalised id changes nothing |
| Text.NormalizeIdMergesIds | script.js:65 | two different data ids ("a", "a.png") can become the same DOM id, so id uniqueness is an assumption, not a consequence of loading |
| Registry.GetZIndex | script.js:10-32 | as written: a warning is logged exactly when the name is neither a table key nor an inherited object member; a table key yields its number; an inherited member name yields that member |
| Registry.ZIndexObject | script.js:11-25 | the object literal has exactly the table's keys, each holding its order as a number, and a property read on it is truthy exactly for a table key or an `Object.prototype` member, because every order is positive |
| Registry.GetZIndexWarnsOnEveryCall | script.js:11-31 | the lookup depends on the name alone, so every lookup of a name that is neither a table key nor an `Object.prototype` member warns; apart from "hasWarned" it returns 0 |
| Registry.GetZIndexOfWarnFlag | script.js:27-31 | looking up "hasWarned" returns the boolean true (and warns) instead of a number |
| Registry.GetZIndexOfInheritedName | script.js:27-31 | looking up "toString" returns the inherited member, without a warning, instead of 0 |
| Registry.ZIndex | script.js:11-31 | as intended: total, between 0 and 9, 0 exactly for names outside the table, and the table value for names in it |
| Registry.GetZIndexAgreesWithZIndex | script.js:27-31 | for every name other than "hasWarned" and the inherited member names, the lookup as written returns the intended order as a number and warns exactly when that order is 0 |
| Registry.CategoryName | script.js:56 | a category name carries no capital, and a file name without ".json" is only lower-cased |
| Registry.CategoryNameOfStem | script.js:56 | the category name of a dot-free stem plus ".json" is the lower-cased stem |
| Registry.CategoryNamesOfFiles | script.js:2-7 | the thirteen files, in load order, produce socks2, bottombikini1, bottombikini2, topbikini1, onepiece1, short1, short2, skirt1, dress1, hat1, hat2, jacket1, jacket2 |
| Registry.LoadOrderIsTableKeys | script.js:11-25 | the loaded category names are exactly the keys of the z-index table |
| Registry.LoadedCategoriesAreKnown | script.js:2-31 | every loaded category is a table key with a positive order; the lookup as written returns that order without a warning; every table key is loaded by some file |
| Visibility.Exclusions | script.js:106-115 | a category never excludes itself, excludes at most two categories, and only known categories take part in the table |
| Visibility.ExclusionsSymmetric | script.js:107-115 | category a hides category b exactly when b hides a |
| Visibility.CategoriesWithoutRules | script.js:107-115 | socks2, bottombikini2, short2, hat1, hat2, jacket1 and jacket2 exclude nothing |
| Visibility.HideCategory | script.js:122-125 | every item of the category ends hidden, every other item keeps its state, and no item or category changes (pointwise, as the comprehension is written) |
| Visibility.HideOthers | script.js:96-101 | every item of the category except the clicked one ends hidden, and all other items keep their state (pointwise, as the comprehension is written) |
| Visibility.HideCategories | script.js:120-127 | after hiding a list of categories one after another, an item is visible exactly when it was visible and its category is not in the list |
| Visibility.Toggle | script.js:95-117 | a click throws exactly when the id names no item; items and categories never change; the other items of the clicked category end hidden; a toggle never shows any item but the clicked one |
| Visibility.ToggleLeavesOneVisibleInCategory | script.js:96-104 | after any click at most one item of the clicked category is visible |
| Visibility.ToggleFlipsTarget | script.js:103-104 | a bound click does not throw and turns a visible item hidden and a hidden item visible |
| Visibility.ToggleTwiceRestoresTarget | script.js:96-106 | two clicks on the same button give the item back its visibility |
| Visibility.ToggleCrossCategory | script.js:106-115 | for a bound click, an item outside the clicked category ends visible exactly when it was visible and is not in an excluded category while the clicked item ends visible |
| Visibility.ToggleFrame | script.js:95-127 | for a bound click, items outside the clicked category and the categories it excludes are unchanged |
| Visibility.ToggleWithoutRulesStaysInCategory | script.js:106-115 | a bound click in a category without exclusion rules changes nothing outside that category |
| Visibility.ToggleOffStaysInCategory | script.js:104-106 | a bound click that hides its item touches no other category |
| Visibility.TogglePreservesInvariant | script.js:95-117 | a bound click keeps at most one visible item in every category |
| Visibility.MismatchedClickBreaksInvariant | script.js:83 | a click carrying a category that is not the item's own can leave two visible items in one category, so the button's binding is needed |
| Visibility.ToggleMeetsSpec | script.js:95-117 | a bound click meets the item-by-item statement `ToggleSpec` |
| Visibility.ToggleSpecDeterminesPage | script.js:95-117 | two pages that both meet `ToggleSpec` for the same click are equal, so `Toggle` is the only engine meeting it |
| Visibility.Replay | script.js:83 | a sequence of button clicks keeps every item and its category |
| Visibility.ReplayPreservesInvariant | script.js:95-117 | any sequence of button clicks keeps at most one visible item in every category |
| Visibility.OnePieceHidesBikiniTop | script.js:109-110 | with a bikini top shown, showing a one-piece leaves the one-piece visible and the top hidden |
| Visibility.ShortHidesDress | script.js:113-114 | with a dress shown, showing a short leaves the short visible and the dress hidden |

## Left out

- `loadItemFile` (script.js:35-44) is left out: it is network I/O and JSON parsing. Its result is an external item list, which may be empty.
- `loadItemsInBatches` (script.js:47-92) is left out: it does asynchronous batching and DOM construction. Its batches resolve concurrently, so the order of controls is not fixed. Only its category-name derivation (line 56) and id normalisation (line 65) are modelled.
- Initial visibility from data (script.js:73) is left out. The data can mark several items of one category visible. So "at most one visible item per category" is a precondition of the invariant lemmas, not a consequence of loading.
- The button image path rewrite (script.js:79) is left out: it only names an asset.
- `adjustCanvasLayout`, the `onload`/`resize` handlers and `enterGame` (script.js:130-162) are left out: they are presentation only.
- Registry.GetZIndex: the console warning is a boolean flag; its text is not modelled.
- Text.ToLower: only ASCII capitals are mapped, and its "keeps the length" clause holds for the model only; full Unicode `toLowerCase` can change the length ("İ" lower-cases to two code units). Text.ToLowerMapsCapitals inherits the same restriction. Neither matters for the page, because every file name is ASCII.
- Visibility.Toggle: the selector `.${categoryName}` is modelled as equality of category names. That is exact only for names that are CSS identifiers. For a name such as "" or "1x" the script throws a SyntaxError before hiding anything, and a name such as "a.b" would select a compound class; the model does not promise either. Every name the page can produce is a lower-case letter-and-digit identifier (`Registry.CategoryNamesOfFiles`), so the model is exact for all of them. The buttons' and containers' own classes ("item-button", "category") are not modelled, because no category has those names. An item whose DOM id is "" would make `getElementById` return null and the script throw, while the model flips it; no page has such an item, because every DOM id ends with ".png" (`Text.NormalizeId`, script.js:65).
- Duplicate DOM ids cannot be represented: a `Wardrobe` map holds one item per id, and the model assumes the page has no two items with the same id. Loading can produce such duplicates (`Text.NormalizeIdMergesIds`), and then `getElementById` (script.js:103) would act on the first match in document order, which the model does not cover.
- Visibility.Toggle: a style visibility other than "visible" or "hidden" is not modelled, because the script writes only those two values.

## Findings

| source | as written | input that shows it | evidently intended | confidence | as-written member | corrected member |
|---|---|---|---|---|---|---|
| script.js:27-31 | the warning branch writes `hasWarned` into the lookup table that `zIndexMap[categoryName] \|\| 0` then reads | `getZIndex("hasWarned")` returns `true` | 0 for every name outside the table | not executed; unreachable from the fixed file list (Registry.LoadedCategoriesAreKnown) | Registry.GetZIndexOfWarnFlag | Registry.ZIndex |
| script.js:27-31 | a plain object literal also answers names inherited from `Object.prototype` | `getZIndex("toString")` returns the inherited function, with no warning | 0 and a warning for every name outside the table | not executed; unreachable from the fixed file list (Registry.LoadedCategoriesAreKnown) | Registry.GetZIndexOfInheritedName | Registry.ZIndex |
