/**
 * `buildSimpleHierarchy` of script-orgchart.js, the chart drawn when no
 * org-chart file is loaded: the report entries are grouped into one node
 * per category and, below it, one node per position label, whose person
 * is the first entry with a name.
 *
 * Categories are looked up in a plain JavaScript object, so a category
 * is identified by the property key it turns into (`PropertyKey`), and a
 * category whose key is a property every object inherits (`toString`,
 * `constructor`, ...) finds that inherited member instead of a node: the
 * following `.children.find` throws a TypeError.
 */
module Hierarchy {
  import opened Wrappers
  import opened Cells
  import opened Columns
  import opened Report

  /** A position node: its id, label (`caption`), and the person and period shown on it. */
  datatype PositionNode = PositionNode(id: string, caption: string, person: Cell, period: string)

  /** A category node: its id, its label (the first category value seen for its key) and its positions. */
  datatype CategoryNode = CategoryNode(id: string, caption: Cell, children: seq<PositionNode>)

  /** The properties every plain object inherits from `Object.prototype`. */
  const INHERITED_KEYS: set<string> := {
    "constructor", "hasOwnProperty", "isPrototypeOf", "propertyIsEnumerable",
    "toString", "toLocaleString", "valueOf", "__proto__",
    "__defineGetter__", "__defineSetter__", "__lookupGetter__", "__lookupSetter__"
  }

  /** `item.category && item.position`: only such entries are placed. */
  predicate Qualifies(e: ReportRow) {
    Truthy(e.category) && e.position != ""
  }

  /** The property key an entry's category is filed under. */
  function Key(e: ReportRow): string {
    PropertyKey(e.category)
  }

  function CatKey(c: CategoryNode): string {
    PropertyKey(c.caption)
  }

  /** The entry is placed under category key `k`. */
  predicate InCategory(e: ReportRow, k: string) {
    Qualifies(e) && Key(e) == k
  }

  /** The index of the first entry placed under category key `k`, or `|items|` when there is none. */
  function FirstAt(items: seq<ReportRow>, k: string): (f: nat)
    ensures f <= |items|
    ensures f < |items| ==> InCategory(items[f], k)
    ensures forall j :: 0 <= j < f ==> !InCategory(items[j], k)
    ensures f == |items| ==> forall j :: 0 <= j < |items| ==> !InCategory(items[j], k)
  {
    if items == [] then 0
    else
      var init := items[..|items| - 1];
      var f := FirstAt(init, k);
      if f < |init| then f
      else if InCategory(items[|items| - 1], k) then |init|
      else |items|
  }

  /** The entries placed under category key `k` and position caption `caption`, in order. */
  function Occurrences(items: seq<ReportRow>, k: string, caption: string): seq<ReportRow> {
    if items == [] then []
    else
      var last := items[|items| - 1];
      Occurrences(items[..|items| - 1], k, caption) + (if InCategory(last, k) && last.position == caption then [last] else [])
  }

  /** The entry is placed under category key `k` and position caption `caption`. */
  predicate PlacedAs(e: ReportRow, k: string, caption: string) {
    InCategory(e, k) && e.position == caption
  }

  /**
   * The index of the first entry placed under key `k` and label `caption`,
   * or `|items|` when there is none.
   */
  function FirstPlaced(items: seq<ReportRow>, k: string, caption: string): (f: nat)
    ensures f <= |items|
    ensures f < |items| ==> PlacedAs(items[f], k, caption)
    ensures forall j :: 0 <= j < f && j < |items| ==> !PlacedAs(items[j], k, caption)
  {
    if items == [] then 0
    else
      var init := items[..|items| - 1];
      var f := FirstPlaced(init, k, caption);
      if f < |init| then f
      else if PlacedAs(items[|items| - 1], k, caption) then |init|
      else |items|
  }

  function NamedTest(): ReportRow -> bool {
    (e: ReportRow) => Truthy(e.name)
  }

  /** The entry whose person a position node shows: the first with a truthy name, else the first. */
  function Incumbent(occurrences: seq<ReportRow>): ReportRow
    requires occurrences != []
  {
    match Find(occurrences, NamedTest())
    case Some(i) => occurrences[i]
    case None => occurrences[0]
  }

  /** The position node for caption `caption` under key `k`, given the entries placed there. */
  function PositionFor(k: string, caption: string, occurrences: seq<ReportRow>): PositionNode
    requires occurrences != []
  {
    PositionNode("pos-" + k + "-" + caption, caption, Incumbent(occurrences).name, Incumbent(occurrences).period)
  }

  /** Some child carries the label `caption`. */
  predicate Lists(children: seq<PositionNode>, caption: string) {
    exists j :: 0 <= j < |children| && children[j].caption == caption
  }

  /** A node shows the incumbent of the entries placed under its key and label, of which there is at least one. */
  ghost predicate ShowsIncumbent(node: PositionNode, items: seq<ReportRow>, k: string) {
    Occurrences(items, k, node.caption) != [] && node == PositionFor(k, node.caption, Occurrences(items, k, node.caption))
  }

  /**
   * The children of the category with key `k` after `items`: labels are
   * unique and in the order their first entries appear, every label some
   * entry is placed under has a node, and each node shows the incumbent of
   * its entries.
   */
  ghost predicate PositionsOf(children: seq<PositionNode>, items: seq<ReportRow>, k: string) {
    && (forall a, b :: 0 <= a < b < |children| ==> children[a].caption != children[b].caption)
    && InFirstOrder(children, items, k)
    && (forall j :: 0 <= j < |children| ==> ShowsIncumbent(children[j], items, k))
    && (forall caption :: Occurrences(items, k, caption) != [] ==> Lists(children, caption))
  }

  /** The labels come in the order their first entries under key `k` appear. */
  ghost predicate InFirstOrder(children: seq<PositionNode>, items: seq<ReportRow>, k: string) {
    forall a, b :: 0 <= a < b < |children| ==>
      FirstPlaced(items, k, children[a].caption) < FirstPlaced(items, k, children[b].caption)
  }

  /** Some root is filed under key `k`. */
  predicate HasRoot(roots: seq<CategoryNode>, k: string) {
    exists i :: 0 <= i < |roots| && CatKey(roots[i]) == k
  }

  /**
   * The roots after `items`: one category node per key some entry is placed
   * under, in the order the keys first appear, each labelled with the
   * category of its first entry and holding its positions.
   */
  ghost predicate CategoriesOf(roots: seq<CategoryNode>, items: seq<ReportRow>) {
    && (forall i, j :: 0 <= i < j < |roots| ==> FirstAt(items, CatKey(roots[i])) < FirstAt(items, CatKey(roots[j])))
    && (forall i :: 0 <= i < |roots| ==> RootOf(roots[i], items))
    && (forall k :: FirstAt(items, k) < |items| ==> HasRoot(roots, k))
  }

  /** One root after `items`: its key has an entry, the first such entry gives its label, and it holds that key's positions. */
  ghost predicate RootOf(root: CategoryNode, items: seq<ReportRow>) {
    && FirstAt(items, CatKey(root)) < |items|
    && root.caption == items[FirstAt(items, CatKey(root))].category
    && root.id == "cat-" + CatKey(root)
    && PositionsOf(root.children, items, CatKey(root))
  }

  /** `categoryMap` files every root under its key. */
  ghost predicate IndexesRoots(categoryMap: map<string, nat>, roots: seq<CategoryNode>) {
    && (forall k :: k in categoryMap ==> categoryMap[k] < |roots| && CatKey(roots[categoryMap[k]]) == k)
    && (forall i :: 0 <= i < |roots| ==> CatKey(roots[i]) in categoryMap)
  }

  /** No entry placed so far is filed under an inherited key. */
  predicate NoInheritedKey(items: seq<ReportRow>) {
    forall e :: e in items && Qualifies(e) ==> Key(e) !in INHERITED_KEYS
  }

  /**
   * `buildSimpleHierarchy(data)`: the category roots, or the TypeError
   * thrown for an entry whose category is an inherited property name.
   */
  method BuildSimpleHierarchy(rows: seq<Pair<ReportRow>>) returns (r: Result<seq<CategoryNode>, Error>)
    ensures r.Err? <==> !NoInheritedKey(Entries(rows))
    ensures r.Err? ==> r.error == TypeError
    ensures r.Ok? ==> CategoriesOf(r.value, Entries(rows))
    ensures r.Ok? ==> forall i, j :: 0 <= i < j < |r.value| ==> CatKey(r.value[i]) != CatKey(r.value[j])
  {
    var roots: seq<CategoryNode> := [];
    var categoryMap: map<string, nat> := map[];
    ghost var seen: seq<ReportRow> := [];
    for i := 0 to |rows|
      invariant seen == Entries(rows[..i])
      invariant IndexesRoots(categoryMap, roots)
      invariant CategoriesOf(roots, seen)
      invariant NoInheritedKey(seen)
    {
      ghost var done := seen;
      assert done + Sides(rows[i])[..0] == done;
      for side := 0 to 2
        invariant seen == done + Sides(rows[i])[..side]
        invariant IndexesRoots(categoryMap, roots)
        invariant CategoriesOf(roots, seen)
        invariant NoInheritedKey(seen)
      {
        var item := if side == 0 then rows[i].left else rows[i].right;
        assert done + Sides(rows[i])[..side + 1] == seen + [item];
        var failed;
        failed, roots, categoryMap := Visit(roots, categoryMap, item, seen);
        if failed {
          EntriesAt(rows, i);
          assert Entries(rows)[2 * i + side] == item;
          return Err(TypeError);
        }
        seen := seen + [item];
      }
      assert rows[..i + 1][..i] == rows[..i];
      assert Sides(rows[i])[..2] == Sides(rows[i]);
    }
    assert rows[..|rows|] == rows;
    KeysDistinct(roots, seen);
    r := Ok(roots);
  }

  /**
   * The body of the `forEach` over one side: an entry with a category and
   * a position is placed, others are passed over; `failed` is the
   * TypeError of an inherited category name.
   */
  method Visit(roots: seq<CategoryNode>, categoryMap: map<string, nat>, item: ReportRow, ghost seen: seq<ReportRow>)
    returns (failed: bool, roots': seq<CategoryNode>, categoryMap': map<string, nat>)
    requires IndexesRoots(categoryMap, roots) && CategoriesOf(roots, seen) && NoInheritedKey(seen)
    ensures failed <==> Qualifies(item) && Key(item) in INHERITED_KEYS
    ensures !failed ==> IndexesRoots(categoryMap', roots') && CategoriesOf(roots', seen + [item]) && NoInheritedKey(seen + [item])
  {
    failed, roots', categoryMap' := false, roots, categoryMap;
    if Truthy(item.category) && item.position != "" {
      if PropertyKey(item.category) in INHERITED_KEYS {
        return true, roots, categoryMap;
      }
      roots', categoryMap' := Place(roots, categoryMap, item, seen);
    } else {
      SkipEntry(roots, seen, item);
    }
  }

  /** The roots carry pairwise distinct keys: their first entries are in strictly increasing order. */
  lemma KeysDistinct(roots: seq<CategoryNode>, items: seq<ReportRow>)
    requires CategoriesOf(roots, items)
    ensures forall i, j :: 0 <= i < j < |roots| ==> CatKey(roots[i]) != CatKey(roots[j])
  {
    forall i, j | 0 <= i < j < |roots|
      ensures CatKey(roots[i]) != CatKey(roots[j])
    {
      assert FirstAt(items, CatKey(roots[i])) < FirstAt(items, CatKey(roots[j]));
    }
  }

  /**
   * One placed entry: `getCategoryNode(item.category)`, then the position
   * node with the entry's caption is created, or given the entry's person
   * when it has none yet.
   */
  method Place(roots: seq<CategoryNode>, categoryMap: map<string, nat>, item: ReportRow, ghost seen: seq<ReportRow>)
    returns (roots': seq<CategoryNode>, categoryMap': map<string, nat>)
    requires Qualifies(item)
    requires IndexesRoots(categoryMap, roots) && CategoriesOf(roots, seen)
    ensures IndexesRoots(categoryMap', roots') && CategoriesOf(roots', seen + [item])
  {
    var c;
    roots', categoryMap', c := GetCategoryNode(roots, categoryMap, item.category);
    CategoryStart(roots, categoryMap, seen, item, roots', c);
    var children := PlacePosition(roots'[c].children, item, seen);
    CategoryStep(roots, categoryMap, seen, item, roots', categoryMap', c, children);
    roots' := roots'[c := roots'[c].(children := children)];
  }

  /**
   * `getCategoryNode(catName)`: the node filed under the category's key,
   * created with no children and pushed onto the roots when there is none.
   */
  method GetCategoryNode(roots: seq<CategoryNode>, categoryMap: map<string, nat>, catName: Cell)
    returns (roots': seq<CategoryNode>, categoryMap': map<string, nat>, c: nat)
    requires IndexesRoots(categoryMap, roots)
    ensures IndexesRoots(categoryMap', roots')
    ensures c < |roots'| && CatKey(roots'[c]) == PropertyKey(catName)
    ensures PropertyKey(catName) in categoryMap ==>
              roots' == roots && categoryMap' == categoryMap && c == categoryMap[PropertyKey(catName)]
    ensures PropertyKey(catName) !in categoryMap ==>
              && roots' == roots + [CategoryNode("cat-" + PropertyKey(catName), catName, [])]
              && categoryMap' == categoryMap[PropertyKey(catName) := |roots|]
              && c == |roots|
  {
    var key := PropertyKey(catName);
    if key !in categoryMap {
      var node := CategoryNode("cat-" + key, catName, []);
      categoryMap' := categoryMap[key := |roots|];
      roots' := roots + [node];
    } else {
      roots', categoryMap' := roots, categoryMap;
    }
    c := categoryMap'[key];
  }

  /**
   * `catNode.children.find(c => c.label === item.position)`, then either a
   * new node or, for an existing one without a person, the entry's person.
   */
  method PlacePosition(children: seq<PositionNode>, item: ReportRow, ghost seen: seq<ReportRow>)
    returns (children': seq<PositionNode>)
    requires Qualifies(item)
    requires PositionsOf(children, seen, Key(item))
    ensures PositionsOf(children', seen + [item], Key(item))
  {
    var key := PropertyKey(item.category);
    var found := Find(children, (c: PositionNode) => c.caption == item.position);
    if found.None? {
      children' := children + [PositionNode("pos-" + key + "-" + item.position, item.position, item.name, item.period)];
      NewPosition(children, seen, item);
    } else {
      var p := found.value;
      var node := children[p];
      children' := children;
      if Truthy(item.name) && (!Truthy(node.person) || node.person == Str("")) {
        children' := children[p := node.(person := item.name, period := item.period)];
      }
      ExistingPosition(children, children', seen, item, p);
    }
  }

  // ------------------------------------------------------- step lemmas

  /** Line `i` of the layout is walked as entries `2i` (left) and `2i + 1` (right). */
  lemma {:induction false} EntriesAt(rows: seq<Pair<ReportRow>>, i: nat)
    requires i < |rows|
    ensures 2 * i + 1 < |Entries(rows)|
    ensures Entries(rows)[2 * i] == rows[i].left && Entries(rows)[2 * i + 1] == rows[i].right
    decreases |rows|
  {
    var n := |rows| - 1;
    if i < n {
      EntriesAt(rows[..n], i);
    }
  }

  /** Appending an entry extends an occurrence list exactly when the entry is placed there. */
  lemma OccurrencesSnoc(items: seq<ReportRow>, x: ReportRow, k: string, caption: string)
    ensures Occurrences(items + [x], k, caption) ==
            Occurrences(items, k, caption) + (if InCategory(x, k) && x.position == caption then [x] else [])
  {
    assert (items + [x])[..|items|] == items;
  }

  /** Appending an entry keeps an existing first place and makes the entry first for a new key. */
  lemma FirstAtSnoc(items: seq<ReportRow>, x: ReportRow, k: string)
    ensures FirstAt(items + [x], k) ==
            if FirstAt(items, k) < |items| then FirstAt(items, k)
            else if InCategory(x, k) then |items|
            else |items| + 1
  {
    assert (items + [x])[..|items|] == items;
  }

  /** Appending an entry keeps an existing first place and makes the entry first for a new key and label. */
  lemma FirstPlacedSnoc(items: seq<ReportRow>, x: ReportRow, k: string, caption: string)
    ensures FirstPlaced(items + [x], k, caption) ==
            if FirstPlaced(items, k, caption) < |items| then FirstPlaced(items, k, caption)
            else if PlacedAs(x, k, caption) then |items|
            else |items| + 1
  {
    assert (items + [x])[..|items|] == items;
  }

  /** A label has a first place exactly when some entry is placed under it. */
  lemma {:induction false} FirstPlacedFound(items: seq<ReportRow>, k: string, caption: string)
    ensures FirstPlaced(items, k, caption) < |items| <==> Occurrences(items, k, caption) != []
  {
    if items != [] {
      FirstPlacedFound(items[..|items| - 1], k, caption);
    }
  }

  /** A label that has entries keeps its first place when an entry is appended. */
  lemma FirstPlaceKept(seen: seq<ReportRow>, item: ReportRow, k: string, caption: string)
    requires Occurrences(seen, k, caption) != []
    ensures FirstPlaced(seen + [item], k, caption) == FirstPlaced(seen, k, caption) < |seen|
  {
    FirstPlacedFound(seen, k, caption);
    FirstPlacedSnoc(seen, item, k, caption);
  }

  /** A label first met at the appended entry has that entry as its first place. */
  lemma FirstPlaceNew(seen: seq<ReportRow>, item: ReportRow, k: string, caption: string)
    requires Occurrences(seen, k, caption) == [] && PlacedAs(item, k, caption)
    ensures FirstPlaced(seen + [item], k, caption) == |seen|
  {
    FirstPlacedFound(seen, k, caption);
    FirstPlacedSnoc(seen, item, k, caption);
  }

  /**
   * Appending an entry keeps the labels in first-appearance order when the
   * old labels keep their first places and at most one label, first met at
   * the new entry, is added after them.
   */
  lemma OrderKept(children: seq<PositionNode>, children': seq<PositionNode>, seen: seq<ReportRow>, after: seq<ReportRow>, k: string)
    requires InFirstOrder(children, seen, k)
    requires |children| <= |children'| <= |children| + 1
    requires forall j :: 0 <= j < |children| ==>
               children'[j].caption == children[j].caption &&
               FirstPlaced(after, k, children[j].caption) == FirstPlaced(seen, k, children[j].caption) < |seen|
    requires |children'| == |children| + 1 ==> FirstPlaced(after, k, children'[|children|].caption) == |seen|
    ensures InFirstOrder(children', after, k)
  {
    forall a, b | 0 <= a < b < |children'|
      ensures FirstPlaced(after, k, children'[a].caption) < FirstPlaced(after, k, children'[b].caption)
    {
      var ca := children[a].caption;
      assert children'[a].caption == ca && FirstPlaced(after, k, ca) == FirstPlaced(seen, k, ca) < |seen|;
      if b < |children| {
        var cb := children[b].caption;
        assert children'[b].caption == cb && FirstPlaced(after, k, cb) == FirstPlaced(seen, k, cb);
        assert FirstPlaced(seen, k, ca) < FirstPlaced(seen, k, cb);
      } else {
        assert b == |children|;
      }
    }
  }

  /** The incumbent after one more entry: the new entry takes over only from a nameless incumbent. */
  lemma IncumbentSnoc(occurrences: seq<ReportRow>, x: ReportRow)
    requires occurrences != []
    ensures Incumbent(occurrences + [x]) ==
            if Truthy(x.name) && !Truthy(Incumbent(occurrences).name) then x else Incumbent(occurrences)
  {
    FindSnoc(occurrences, x, NamedTest());
    assert (occurrences + [x])[0] == occurrences[0];
    var f := Find(occurrences, NamedTest());
    if f.Some? {
      assert (occurrences + [x])[f.value] == occurrences[f.value];
    }
  }

  /** A key no entry is placed under has no occurrences under any label. */
  lemma {:induction false} NoOccurrencesWithoutEntry(items: seq<ReportRow>, k: string, caption: string)
    requires FirstAt(items, k) == |items|
    ensures Occurrences(items, k, caption) == []
  {
    if items != [] {
      NoOccurrencesWithoutEntry(items[..|items| - 1], k, caption);
    }
  }

  /** An entry placed under a key and label occurs in that list, and its key's first place is no later. */
  lemma {:induction false} EntryOccurs(items: seq<ReportRow>, j: nat)
    requires j < |items| && Qualifies(items[j])
    ensures Occurrences(items, Key(items[j]), items[j].position) != []
    ensures FirstAt(items, Key(items[j])) <= j
    decreases |items|
  {
    var n := |items| - 1;
    if j < n {
      EntryOccurs(items[..n], j);
    }
  }

  /** A label nobody has been placed under before gets a new node showing the new entry. */
  lemma NewPosition(children: seq<PositionNode>, seen: seq<ReportRow>, item: ReportRow)
    requires Qualifies(item) && PositionsOf(children, seen, Key(item))
    requires !Lists(children, item.position)
    ensures PositionsOf(children + [PositionNode("pos-" + Key(item) + "-" + item.position, item.position, item.name, item.period)],
                        seen + [item], Key(item))
  {
    var key := Key(item);
    var after := seen + [item];
    var node := PositionNode("pos-" + key + "-" + item.position, item.position, item.name, item.period);
    var children' := children + [node];
    assert Occurrences(seen, key, item.position) == [];
    OccurrencesSnoc(seen, item, key, item.position);
    assert Find([item], NamedTest()) == if Truthy(item.name) then Some(0) else None;
    assert ShowsIncumbent(children'[|children|], after, key);
    OthersShown(children, children', seen, item, |children|);
    assert Lists(children', item.position) by {
      assert children'[|children|].caption == item.position;
    }
    CaptionsListed(children, children', seen, item);
    NewLabelInOrder(children, seen, item);
  }


  /** A node whose label and key the new entry is not placed under keeps showing its incumbent. */
  lemma PositionKept(node: PositionNode, seen: seq<ReportRow>, item: ReportRow, k: string)
    requires ShowsIncumbent(node, seen, k)
    requires !(InCategory(item, k) && item.position == node.caption)
    ensures ShowsIncumbent(node, seen + [item], k)
  {
    OccurrencesSnoc(seen, item, k, node.caption);
    assert Occurrences(seen + [item], k, node.caption) == Occurrences(seen, k, node.caption);
  }

  /** A label placed before keeps its node; the node takes the new entry's person only if it had none. */
  lemma ExistingPosition(children: seq<PositionNode>, children': seq<PositionNode>, seen: seq<ReportRow>, item: ReportRow, p: nat)
    requires Qualifies(item) && PositionsOf(children, seen, Key(item))
    requires p < |children| && children[p].caption == item.position
    requires children' == if Truthy(item.name) && (!Truthy(children[p].person) || children[p].person == Str(""))
                          then children[p := children[p].(person := item.name, period := item.period)]
                          else children
    ensures PositionsOf(children', seen + [item], Key(item))
  {
    var key := Key(item);
    var after := seen + [item];
    var occ := Occurrences(seen, key, item.position);
    assert ShowsIncumbent(children[p], seen, key);
    OccurrencesSnoc(seen, item, key, item.position);
    IncumbentSnoc(occ, item);
    assert ShowsIncumbent(children'[p], after, key);
    OthersShown(children, children', seen, item, p);
    assert Lists(children', item.position) by {
      assert children'[p].caption == item.position;
    }
    CaptionsListed(children, children', seen, item);
    SameLabelsInOrder(children, children', seen, item, key);
  }

  /** The nodes of other positions go on showing their incumbents after an entry for a different position. */
  lemma OthersShown(children: seq<PositionNode>, children': seq<PositionNode>, seen: seq<ReportRow>, item: ReportRow, p: nat)
    requires Qualifies(item) && PositionsOf(children, seen, Key(item))
    requires |children| <= |children'|
    requires forall j :: 0 <= j < |children| && j != p ==> children'[j] == children[j] && children[j].caption != item.position
    ensures forall j :: 0 <= j < |children| && j != p ==> ShowsIncumbent(children'[j], seen + [item], Key(item))
  {
    forall j | 0 <= j < |children| && j != p
      ensures ShowsIncumbent(children'[j], seen + [item], Key(item))
    {
      assert ShowsIncumbent(children[j], seen, Key(item));
      PositionKept(children[j], seen, item, Key(item));
    }
  }

  /** When the node list keeps its captions and lists the entry's position, every position met so far is listed. */
  lemma CaptionsListed(children: seq<PositionNode>, children': seq<PositionNode>, seen: seq<ReportRow>, item: ReportRow)
    requires Qualifies(item) && PositionsOf(children, seen, Key(item))
    requires |children| <= |children'|
    requires forall j :: 0 <= j < |children| ==> children'[j].caption == children[j].caption
    requires Lists(children', item.position)
    ensures forall caption :: Occurrences(seen + [item], Key(item), caption) != [] ==> Lists(children', caption)
  {
    forall caption | Occurrences(seen + [item], Key(item), caption) != []
      ensures Lists(children', caption)
    {
      OccurrencesSnoc(seen, item, Key(item), caption);
      if caption != item.position {
        var j :| 0 <= j < |children| && children[j].caption == caption;
        assert children'[j].caption == caption;
      }
    }
  }


  /** Another category's children stay well-formed when an entry is placed elsewhere. */
  lemma OtherCategoryKept(children: seq<PositionNode>, seen: seq<ReportRow>, item: ReportRow, k: string)
    requires PositionsOf(children, seen, k)
    requires !InCategory(item, k)
    ensures PositionsOf(children, seen + [item], k)
  {
    forall caption
      ensures Occurrences(seen + [item], k, caption) == Occurrences(seen, k, caption)
    {
      OccurrencesSnoc(seen, item, k, caption);
    }
    SameLabelsInOrder(children, children, seen, item, k);
  }

  /** A node list whose labels stay as they were stays in first-appearance order. */
  lemma SameLabelsInOrder(children: seq<PositionNode>, children': seq<PositionNode>, seen: seq<ReportRow>, item: ReportRow, k: string)
    requires PositionsOf(children, seen, k)
    requires |children'| == |children|
    requires forall j :: 0 <= j < |children| ==> children'[j].caption == children[j].caption
    ensures InFirstOrder(children', seen + [item], k)
  {
    forall j | 0 <= j < |children|
      ensures FirstPlaced(seen + [item], k, children[j].caption) == FirstPlaced(seen, k, children[j].caption) < |seen|
    {
      assert ShowsIncumbent(children[j], seen, k);
      FirstPlaceKept(seen, item, k, children[j].caption);
    }
    OrderKept(children, children', seen, seen + [item], k);
  }

  /** The node of a new label goes last, after the labels met before it. */
  lemma NewLabelInOrder(children: seq<PositionNode>, seen: seq<ReportRow>, item: ReportRow)
    requires Qualifies(item) && PositionsOf(children, seen, Key(item))
    requires !Lists(children, item.position)
    ensures InFirstOrder(children + [PositionNode("pos-" + Key(item) + "-" + item.position, item.position, item.name, item.period)],
                         seen + [item], Key(item))
  {
    var children' := children + [PositionNode("pos-" + Key(item) + "-" + item.position, item.position, item.name, item.period)];
    var k := Key(item);
    forall j | 0 <= j < |children|
      ensures children'[j].caption == children[j].caption
      ensures FirstPlaced(seen + [item], k, children[j].caption) == FirstPlaced(seen, k, children[j].caption) < |seen|
    {
      assert ShowsIncumbent(children[j], seen, k);
      FirstPlaceKept(seen, item, k, children[j].caption);
    }
    assert Occurrences(seen, k, item.position) == [];
    FirstPlaceNew(seen, item, k, item.position);
    OrderKept(children, children', seen, seen + [item], k);
  }

  /** A root whose key the new entry is not placed under stays well-formed. */
  lemma RootKept(root: CategoryNode, seen: seq<ReportRow>, item: ReportRow)
    requires RootOf(root, seen) && !InCategory(item, CatKey(root))
    ensures RootOf(root, seen + [item])
    ensures FirstAt(seen + [item], CatKey(root)) == FirstAt(seen, CatKey(root))
  {
    var k := CatKey(root);
    FirstAtSnoc(seen, item, k);
    assert (seen + [item])[FirstAt(seen, k)] == seen[FirstAt(seen, k)];
    OtherCategoryKept(root.children, seen, item, k);
  }

  /** A key no root is filed under has had no entry placed under it, so its node starts well-formed. */
  lemma NewCategoryIsEmpty(roots: seq<CategoryNode>, seen: seq<ReportRow>, key: string)
    requires CategoriesOf(roots, seen)
    requires forall i :: 0 <= i < |roots| ==> CatKey(roots[i]) != key
    ensures FirstAt(seen, key) == |seen|
    ensures PositionsOf([], seen, key)
  {
    assert !HasRoot(roots, key);
    forall caption
      ensures Occurrences(seen, key, caption) == []
    {
      NoOccurrencesWithoutEntry(seen, key, caption);
    }
  }

  /** The category node `getCategoryNode` hands back holds the positions placed so far under the entry's key. */
  lemma CategoryStart(roots: seq<CategoryNode>, categoryMap: map<string, nat>, seen: seq<ReportRow>, item: ReportRow,
                      roots': seq<CategoryNode>, c: nat)
    requires IndexesRoots(categoryMap, roots) && CategoriesOf(roots, seen)
    requires c < |roots'|
    requires Key(item) in categoryMap ==> roots' == roots && c == categoryMap[Key(item)]
    requires Key(item) !in categoryMap ==> roots' == roots + [CategoryNode("cat-" + Key(item), item.category, [])] && c == |roots|
    ensures PositionsOf(roots'[c].children, seen, Key(item))
  {
    if Key(item) in categoryMap {
      assert RootOf(roots[c], seen);
    } else {
      NewCategoryIsEmpty(roots, seen, Key(item));
    }
  }

  /** After the entry's position is placed, the updated node keeps the roots and their index well-formed. */
  lemma CategoryStep(roots: seq<CategoryNode>, categoryMap: map<string, nat>, seen: seq<ReportRow>, item: ReportRow,
                     roots': seq<CategoryNode>, categoryMap': map<string, nat>, c: nat, children: seq<PositionNode>)
    requires Qualifies(item)
    requires IndexesRoots(categoryMap, roots) && CategoriesOf(roots, seen)
    requires IndexesRoots(categoryMap', roots') && c < |roots'| && CatKey(roots'[c]) == Key(item)
    requires Key(item) in categoryMap ==> roots' == roots && categoryMap' == categoryMap && c == categoryMap[Key(item)]
    requires Key(item) !in categoryMap ==> roots' == roots + [CategoryNode("cat-" + Key(item), item.category, [])] && c == |roots|
    requires PositionsOf(children, seen + [item], Key(item))
    ensures IndexesRoots(categoryMap', roots'[c := roots'[c].(children := children)])
    ensures CategoriesOf(roots'[c := roots'[c].(children := children)], seen + [item])
  {
    if Key(item) in categoryMap {
      CategoryUpdated(roots, seen, item, c, children);
    } else {
      CategoryAdded(roots, seen, item, children);
      ReplaceLast(roots, roots'[c], roots'[c].(children := children));
    }
    IndexKept(categoryMap', roots', c, children);
  }

  /** Replacing a root's children keeps every root under its key. */
  /** Replacing the last node of a sequence. */
  lemma ReplaceLast(roots: seq<CategoryNode>, last: CategoryNode, last': CategoryNode)
    ensures (roots + [last])[|roots| := last'] == roots + [last']
  {
  }

  lemma IndexKept(categoryMap: map<string, nat>, roots: seq<CategoryNode>, c: nat, children: seq<PositionNode>)
    requires IndexesRoots(categoryMap, roots) && c < |roots|
    ensures IndexesRoots(categoryMap, roots[c := roots[c].(children := children)])
  {
    var roots' := roots[c := roots[c].(children := children)];
    assert forall i :: 0 <= i < |roots'| ==> CatKey(roots'[i]) == CatKey(roots[i]);
  }

  /** Placing an entry of a new category appends its node to the roots. */
  lemma CategoryAdded(roots: seq<CategoryNode>, seen: seq<ReportRow>, item: ReportRow, children: seq<PositionNode>)
    requires Qualifies(item) && CategoriesOf(roots, seen)
    requires forall i :: 0 <= i < |roots| ==> CatKey(roots[i]) != Key(item)
    requires PositionsOf(children, seen + [item], Key(item))
    ensures CategoriesOf(roots + [CategoryNode("cat-" + Key(item), item.category, children)], seen + [item])
  {
    var after := seen + [item];
    var root := CategoryNode("cat-" + Key(item), item.category, children);
    var roots' := roots + [root];
    AddedRoots(roots, seen, item, root);
    AddedCovers(roots, seen, item, root);
    forall i | 0 <= i < |roots|
      ensures roots'[i] == roots[i]
    {
    }
    assert roots'[|roots|] == root;
  }

  /** After a new category: the old roots keep their first entries and stay well-formed, and the new one is first met at the entry just placed. */
  lemma AddedRoots(roots: seq<CategoryNode>, seen: seq<ReportRow>, item: ReportRow, root: CategoryNode)
    requires Qualifies(item) && CategoriesOf(roots, seen)
    requires forall i :: 0 <= i < |roots| ==> CatKey(roots[i]) != Key(item)
    requires root == CategoryNode("cat-" + Key(item), item.category, root.children)
    requires PositionsOf(root.children, seen + [item], Key(item))
    ensures FirstAt(seen + [item], Key(item)) == |seen| && RootOf(root, seen + [item])
    ensures forall i :: 0 <= i < |roots| ==>
              && FirstAt(seen + [item], CatKey(roots[i])) == FirstAt(seen, CatKey(roots[i])) < |seen|
              && RootOf(roots[i], seen + [item])
  {
    NewCategoryIsEmpty(roots, seen, Key(item));
    FirstAtSnoc(seen, item, Key(item));
    assert CatKey(root) == Key(item);
    forall i | 0 <= i < |roots|
      ensures FirstAt(seen + [item], CatKey(roots[i])) == FirstAt(seen, CatKey(roots[i])) < |seen|
      ensures RootOf(roots[i], seen + [item])
    {
      assert RootOf(roots[i], seen);
      RootKept(roots[i], seen, item);
    }
  }

  /** After a new category every key met so far has a root. */
  lemma AddedCovers(roots: seq<CategoryNode>, seen: seq<ReportRow>, item: ReportRow, root: CategoryNode)
    requires Qualifies(item) && CategoriesOf(roots, seen)
    requires CatKey(root) == Key(item)
    ensures forall k :: FirstAt(seen + [item], k) < |seen| + 1 ==> HasRoot(roots + [root], k)
  {
    var roots' := roots + [root];
    forall k | FirstAt(seen + [item], k) < |seen| + 1
      ensures HasRoot(roots', k)
    {
      FirstAtSnoc(seen, item, k);
      if FirstAt(seen, k) < |seen| {
        var i :| 0 <= i < |roots| && CatKey(roots[i]) == k;
        assert roots'[i] == roots[i];
      } else {
        assert CatKey(roots'[|roots|]) == k;
      }
    }
  }

  /** Placing an entry of a known category changes only that category's children. */
  lemma CategoryUpdated(roots: seq<CategoryNode>, seen: seq<ReportRow>, item: ReportRow, c: nat, children: seq<PositionNode>)
    requires Qualifies(item) && CategoriesOf(roots, seen)
    requires c < |roots| && CatKey(roots[c]) == Key(item)
    requires PositionsOf(children, seen + [item], Key(item))
    ensures CategoriesOf(roots[c := roots[c].(children := children)], seen + [item])
  {
    UpdatedRoots(roots, seen, item, c, children);
    UpdatedCovers(roots, seen, item, c, children);
  }

  /** After the entry joins an existing category every root keeps its key, its first entry and its well-formedness. */
  lemma UpdatedRoots(roots: seq<CategoryNode>, seen: seq<ReportRow>, item: ReportRow, c: nat, children: seq<PositionNode>)
    requires Qualifies(item) && CategoriesOf(roots, seen)
    requires c < |roots| && CatKey(roots[c]) == Key(item)
    requires PositionsOf(children, seen + [item], Key(item))
    ensures var roots' := roots[c := roots[c].(children := children)];
            forall i :: 0 <= i < |roots| ==>
              && CatKey(roots'[i]) == CatKey(roots[i])
              && FirstAt(seen + [item], CatKey(roots'[i])) == FirstAt(seen, CatKey(roots[i]))
              && RootOf(roots'[i], seen + [item])
  {
    var after := seen + [item];
    var key := Key(item);
    var roots' := roots[c := roots[c].(children := children)];
    assert RootOf(roots[c], seen);
    FirstAtSnoc(seen, item, key);
    assert after[FirstAt(seen, key)] == seen[FirstAt(seen, key)];
    assert RootOf(roots'[c], after);
    forall i | 0 <= i < |roots|
      ensures CatKey(roots'[i]) == CatKey(roots[i])
      ensures FirstAt(after, CatKey(roots'[i])) == FirstAt(seen, CatKey(roots[i]))
      ensures RootOf(roots'[i], after)
    {
      if i != c {
        assert FirstAt(seen, CatKey(roots[i])) != FirstAt(seen, CatKey(roots[c]));
        assert RootOf(roots[i], seen);
        RootKept(roots[i], seen, item);
      }
    }
  }

  /** After the entry joins an existing category every key met so far still has a root. */
  lemma UpdatedCovers(roots: seq<CategoryNode>, seen: seq<ReportRow>, item: ReportRow, c: nat, children: seq<PositionNode>)
    requires Qualifies(item) && CategoriesOf(roots, seen)
    requires c < |roots| && CatKey(roots[c]) == Key(item)
    ensures var roots' := roots[c := roots[c].(children := children)];
            forall k :: FirstAt(seen + [item], k) < |seen| + 1 ==> HasRoot(roots', k)
  {
    var roots' := roots[c := roots[c].(children := children)];
    forall k | FirstAt(seen + [item], k) < |seen| + 1
      ensures HasRoot(roots', k)
    {
      FirstAtSnoc(seen, item, k);
      if FirstAt(seen, k) < |seen| {
        var i :| 0 <= i < |roots| && CatKey(roots[i]) == k;
        assert CatKey(roots'[i]) == k;
      }
    }
  }


  /** An entry without a category or a position changes nothing. */
  lemma SkipEntry(roots: seq<CategoryNode>, seen: seq<ReportRow>, item: ReportRow)
    requires !Qualifies(item) && CategoriesOf(roots, seen)
    ensures CategoriesOf(roots, seen + [item])
  {
    forall i | 0 <= i < |roots|
      ensures RootOf(roots[i], seen + [item])
      ensures FirstAt(seen + [item], CatKey(roots[i])) == FirstAt(seen, CatKey(roots[i]))
    {
      assert RootOf(roots[i], seen);
      RootKept(roots[i], seen, item);
    }
    forall k | FirstAt(seen + [item], k) < |seen| + 1
      ensures FirstAt(seen, k) < |seen|
    {
      FirstAtSnoc(seen, item, k);
    }
  }

  /**
   * What the roots promise about each entry: a placed entry's category has
   * a root, and that root has a node for the entry's position.
   */
  lemma EntryIsPlaced(roots: seq<CategoryNode>, items: seq<ReportRow>, j: nat)
    requires CategoriesOf(roots, items)
    requires j < |items| && Qualifies(items[j])
    ensures exists i :: 0 <= i < |roots| && CatKey(roots[i]) == Key(items[j]) && Lists(roots[i].children, items[j].position)
  {
    EntryOccurs(items, j);
    var i :| 0 <= i < |roots| && CatKey(roots[i]) == Key(items[j]);
    assert RootOf(roots[i], items);
  }
}
