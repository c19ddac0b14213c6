/**
  The visibility and exclusivity engine of the dress-up script. The page's
  item images are abstracted to a map from DOM id to the item's category
  (its CSS class) and its visible/hidden flag; a toggle button's click is a
  pure function from one such map to the next.
 */
module Visibility {
  import opened Registry

  /** An item image: the category it was rendered under, and whether it is shown. */
  datatype Item = Item(category: string, visible: bool)

  /**
    Every item image on the page by DOM id. A map holds one item per id,
    which is the uniqueness `getElementById` relies on.
   */
  type Wardrobe = map<string, Item>

  /** What a toggle button passes: the item's id and the category it was rendered under. */
  datatype Click = Click(item: string, category: string)

  /**
    The page after a toggle. `threw` is set when the id names no item: the
    lookup yields null and reading its style throws, after the first step has
    already hidden the other items of the category (the page keeps that).
   */
  datatype Outcome = Outcome(state: Wardrobe, threw: bool)

  /** The click is one a button of the page can produce: the item exists and has that category. */
  predicate Bound(w: Wardrobe, id: string, c: string) {
    id in w && w[id].category == c
  }

  /** `w'` has the same items as `w`, each in the same category; only visibility differs. */
  predicate SameItems(w: Wardrobe, w': Wardrobe) {
    && w'.Keys == w.Keys
    && forall x :: x in w ==> w'[x].category == w[x].category
  }

  /** At most one item of category `c` is visible. */
  predicate AtMostOneVisibleIn(w: Wardrobe, c: string) {
    forall x, y ::
      x in w && y in w && w[x].category == c && w[y].category == c && w[x].visible && w[y].visible ==> x == y
  }

  /** The page invariant: at most one visible item in every category. */
  predicate AtMostOnePerCategory(w: Wardrobe) {
    forall x, y ::
      x in w && y in w && w[x].visible && w[y].visible && w[x].category == w[y].category ==> x == y
  }

  // ---------------------------------------------------------------------
  // The cross-category exclusion table.
  // ---------------------------------------------------------------------

  /**
    The categories hidden when an item of category `c` becomes visible:
    a bikini piece excludes the one-piece and back, a dress excludes the short
    and the skirt and back, and every other category excludes nothing.
   */
  function Exclusions(c: string): (hidden: seq<string>)
    ensures c !in hidden
    ensures |hidden| <= 2
    ensures forall h :: h in hidden ==> h in ZIndexMap && c in ZIndexMap
  {
    if c in ["topbikini1", "bottombikini1"] then ["onepiece1"]
    else if c == "onepiece1" then ["topbikini1", "bottombikini1"]
    else if c == "dress1" then ["short1", "skirt1"]
    else if c in ["short1", "skirt1"] then ["dress1"]
    else []
  }

  /** Exclusion is symmetric: `a` hides `b` exactly when `b` hides `a`. */
  lemma ExclusionsSymmetric(a: string, b: string)
    ensures b in Exclusions(a) <==> a in Exclusions(b)
  {
  }

  /** The categories that take part in no exclusion rule. */
  lemma CategoriesWithoutRules()
    ensures Exclusions("socks2") == [] && Exclusions("bottombikini2") == []
    ensures Exclusions("short2") == [] && Exclusions("hat1") == [] && Exclusions("hat2") == []
    ensures Exclusions("jacket1") == [] && Exclusions("jacket2") == []
  {
  }

  // ---------------------------------------------------------------------
  // The steps of a toggle.
  // ---------------------------------------------------------------------

  /** Hide every item of category `c`. */
  function HideCategory(w: Wardrobe, c: string): (r: Wardrobe)
    ensures SameItems(w, r)
    ensures forall x :: x in w ==> (r[x].visible <==> w[x].visible && w[x].category != c)
  {
    map x | x in w :: if w[x].category == c then w[x].(visible := false) else w[x]
  }

  /** Hide every item of each category of `cats`, one category after the other. */
  function HideCategories(w: Wardrobe, cats: seq<string>): (r: Wardrobe)
    ensures SameItems(w, r)
    ensures forall x :: x in w ==> (r[x].visible <==> w[x].visible && w[x].category !in cats)
    decreases |cats|
  {
    if |cats| == 0 then w
    else
      var r := HideCategories(HideCategory(w, cats[0]), cats[1..]);
      assert forall x :: x in w ==> (w[x].category !in cats <==> w[x].category != cats[0] && w[x].category !in cats[1..]);
      r
  }

  /** First step of a toggle: hide every item of category `c` except the one with id `id`. */
  function HideOthers(w: Wardrobe, id: string, c: string): (r: Wardrobe)
    ensures SameItems(w, r)
    ensures forall x :: x in w ==> (r[x].visible <==> w[x].visible && (x == id || w[x].category != c))
  {
    map x | x in w :: if x != id && w[x].category == c then w[x].(visible := false) else w[x]
  }

  /**
    The click on the button of item `id` rendered under category `c`: hide the
    other items of `c`, flip the item, and if it is now visible hide the
    categories `c` excludes.
   */
  function Toggle(w: Wardrobe, id: string, c: string): (r: Outcome)
    ensures r.threw <==> id !in w
    ensures SameItems(w, r.state)
    ensures forall x :: x in w && x != id && w[x].category == c ==> !r.state[x].visible
    ensures forall x :: x in w && x != id && r.state[x].visible ==> w[x].visible
  {
    var w1 := HideOthers(w, id, c);
    if id !in w1 then
      Outcome(w1, true)
    else
      var w2 := w1[id := w1[id].(visible := !w1[id].visible)];
      if w2[id].visible then Outcome(HideCategories(w2, Exclusions(c)), false)
      else Outcome(w2, false)
  }

  // ---------------------------------------------------------------------
  // Properties of one toggle.
  // ---------------------------------------------------------------------

  /** After any toggle at most one item of the clicked category is visible. */
  lemma ToggleLeavesOneVisibleInCategory(w: Wardrobe, id: string, c: string)
    ensures AtMostOneVisibleIn(Toggle(w, id, c).state, c)
  {
  }

  /** A bound click flips its item: visible becomes hidden, hidden becomes visible. */
  lemma ToggleFlipsTarget(w: Wardrobe, id: string, c: string)
    requires Bound(w, id, c)
    ensures !Toggle(w, id, c).threw
    ensures Toggle(w, id, c).state[id].visible == !w[id].visible
  {
  }

  /** Clicking the same button twice gives the item back its visibility. */
  lemma ToggleTwiceRestoresTarget(w: Wardrobe, id: string, c: string)
    requires Bound(w, id, c)
    ensures Toggle(Toggle(w, id, c).state, id, c).state[id].visible == w[id].visible
  {
    var w1 := Toggle(w, id, c).state;
    ToggleFlipsTarget(w, id, c);
    assert Bound(w1, id, c);
    ToggleFlipsTarget(w1, id, c);
  }

  /**
    Outside the clicked category an item ends visible exactly when it was
    visible and was not hidden by the exclusion table, which applies only
    when the clicked item ends visible.
   */
  lemma ToggleCrossCategory(w: Wardrobe, id: string, c: string)
    requires Bound(w, id, c)
    ensures forall x :: x in w && w[x].category != c ==>
              (Toggle(w, id, c).state[x].visible <==>
                 w[x].visible && !(Toggle(w, id, c).state[id].visible && w[x].category in Exclusions(c)))
  {
  }

  /**
    Frame: items outside the clicked category and outside the categories it
    excludes are left exactly as they were.
   */
  lemma ToggleFrame(w: Wardrobe, id: string, c: string)
    requires Bound(w, id, c)
    ensures forall x :: x in w && w[x].category != c && w[x].category !in Exclusions(c) ==>
              Toggle(w, id, c).state[x] == w[x]
  {
    ToggleCrossCategory(w, id, c);
  }

  /** A click in a category without exclusion rules changes no other category. */
  lemma ToggleWithoutRulesStaysInCategory(w: Wardrobe, id: string, c: string)
    requires Bound(w, id, c) && Exclusions(c) == []
    ensures forall x :: x in w && w[x].category != c ==> Toggle(w, id, c).state[x] == w[x]
  {
    ToggleFrame(w, id, c);
  }

  /** A click that ends with its item hidden only hides items of its own category. */
  lemma ToggleOffStaysInCategory(w: Wardrobe, id: string, c: string)
    requires Bound(w, id, c) && w[id].visible
    ensures forall x :: x in w && w[x].category != c ==> Toggle(w, id, c).state[x] == w[x]
  {
    ToggleFlipsTarget(w, id, c);
    ToggleCrossCategory(w, id, c);
  }

  /** A bound click keeps at most one visible item in every category. */
  lemma TogglePreservesInvariant(w: Wardrobe, id: string, c: string)
    requires Bound(w, id, c) && AtMostOnePerCategory(w)
    ensures AtMostOnePerCategory(Toggle(w, id, c).state)
  {
    var r := Toggle(w, id, c).state;
    forall x, y | x in r && y in r && r[x].visible && r[y].visible && r[x].category == r[y].category
      ensures x == y
    {
      if r[x].category == c {
        ToggleLeavesOneVisibleInCategory(w, id, c);
      } else if x != id && y != id {
        assert w[x].visible && w[y].visible;
      }
    }
  }

  /**
    The click must carry the item's own category: a click on an item under a
    category that is not its own can leave two visible items in the item's
    category.
   */
  lemma MismatchedClickBreaksInvariant()
    ensures var w := map["hat1a.png" := Item("hat1", true), "hat1b.png" := Item("hat1", false)];
            && "hat1b.png" in w && AtMostOnePerCategory(w)
            && !AtMostOnePerCategory(Toggle(w, "hat1b.png", "hat2").state)
  {
    var w := map["hat1a.png" := Item("hat1", true), "hat1b.png" := Item("hat1", false)];
    var r := Toggle(w, "hat1b.png", "hat2").state;
    assert r["hat1a.png"].visible && r["hat1b.png"].visible;
  }

  // ---------------------------------------------------------------------
  // An independent statement of the whole toggle.
  // ---------------------------------------------------------------------

  /**
    What a bound click does, item by item: the item flips; the other items of
    its category end hidden; an item of another category stays visible
    exactly when it was visible and is not excluded by a now-visible item.
   */
  ghost predicate ToggleSpec(w: Wardrobe, id: string, c: string, w': Wardrobe) {
    && SameItems(w, w')
    && id in w
    && w'[id].visible == !w[id].visible
    && forall x :: x in w && x != id ==>
         (w'[x].visible <==> w[x].visible && w[x].category != c && !(w'[id].visible && w[x].category in Exclusions(c)))
  }

  /** The engine meets the statement for every bound click. */
  lemma ToggleMeetsSpec(w: Wardrobe, id: string, c: string)
    requires Bound(w, id, c)
    ensures ToggleSpec(w, id, c, Toggle(w, id, c).state)
  {
    ToggleFlipsTarget(w, id, c);
    ToggleCrossCategory(w, id, c);
  }

  /** The statement leaves no freedom: two pages meeting it are the same page. */
  lemma ToggleSpecDeterminesPage(w: Wardrobe, id: string, c: string, a: Wardrobe, b: Wardrobe)
    requires ToggleSpec(w, id, c, a) && ToggleSpec(w, id, c, b)
    ensures a == b
  {
    forall x | x in a ensures a[x] == b[x] {
      assert a[x].category == b[x].category;
    }
  }

  // ---------------------------------------------------------------------
  // Sequences of clicks.
  // ---------------------------------------------------------------------

  /** Every click of `clicks` is bound on page `w`. */
  predicate AllBound(w: Wardrobe, clicks: seq<Click>) {
    forall i :: 0 <= i < |clicks| ==> Bound(w, clicks[i].item, clicks[i].category)
  }

  /** The page after the clicks of `clicks`, in order. */
  function Replay(w: Wardrobe, clicks: seq<Click>): (r: Wardrobe)
    requires AllBound(w, clicks)
    ensures SameItems(w, r)
    decreases |clicks|
  {
    if |clicks| == 0 then w
    else
      var next := Toggle(w, clicks[0].item, clicks[0].category).state;
      assert AllBound(next, clicks[1..]) by {
        forall i | 0 <= i < |clicks[1..]|
          ensures Bound(next, clicks[1..][i].item, clicks[1..][i].category)
        {
          assert clicks[1..][i] == clicks[i + 1];
        }
      }
      Replay(next, clicks[1..])
  }

  /** Any sequence of button clicks keeps at most one visible item in every category. */
  lemma {:induction false} ReplayPreservesInvariant(w: Wardrobe, clicks: seq<Click>)
    requires AllBound(w, clicks) && AtMostOnePerCategory(w)
    ensures AtMostOnePerCategory(Replay(w, clicks))
    decreases |clicks|
  {
    if |clicks| > 0 {
      var next := Toggle(w, clicks[0].item, clicks[0].category).state;
      TogglePreservesInvariant(w, clicks[0].item, clicks[0].category);
      assert AllBound(next, clicks[1..]) by {
        forall i | 0 <= i < |clicks[1..]|
          ensures Bound(next, clicks[1..][i].item, clicks[1..][i].category)
        {
          assert clicks[1..][i] == clicks[i + 1];
        }
      }
      ReplayPreservesInvariant(next, clicks[1..]);
    }
  }

  // ---------------------------------------------------------------------
  // Worked examples.
  // ---------------------------------------------------------------------

  /** With a bikini top shown, showing a one-piece hides the top. */
  lemma OnePieceHidesBikiniTop()
    ensures var w := map["topbikini1item.png" := Item("topbikini1", true),
                         "onepiece1item.png" := Item("onepiece1", false)];
            var r := Toggle(w, "onepiece1item.png", "onepiece1").state;
            r["onepiece1item.png"].visible && !r["topbikini1item.png"].visible
  {
    var w := map["topbikini1item.png" := Item("topbikini1", true),
                 "onepiece1item.png" := Item("onepiece1", false)];
    ToggleMeetsSpec(w, "onepiece1item.png", "onepiece1");
  }

  /** With a dress shown, showing a short hides the dress. */
  lemma ShortHidesDress()
    ensures var w := map["dress1item.png" := Item("dress1", true),
                         "short1item.png" := Item("short1", false)];
            var r := Toggle(w, "short1item.png", "short1").state;
            r["short1item.png"].visible && !r["dress1item.png"].visible
  {
    var w := map["dress1item.png" := Item("dress1", true),
                 "short1item.png" := Item("short1", false)];
    ToggleMeetsSpec(w, "short1item.png", "short1");
  }
}
