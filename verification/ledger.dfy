/**
  The option ledger of the reservation view: the `selectedOptions` object,
  mapping an add-on name to how many units were chosen and the unit price
  copied from the catalog when the add-on was first chosen.

  A JavaScript object is modelled as the sequence of its (key, entry) pairs in
  the order `Object.keys` lists them, which for these names is insertion
  order. Such an object never holds a key twice. `Decrease` and `Select`
  require `UniqueKeys` and keep it; `Increase` needs no precondition and keeps
  `UniqueKeys` whenever its input has it.
 */
module Ledger {
  import opened Wrappers

  /** One chosen add-on: the number of units and the unit price. */
  datatype Entry = Entry(count: int, price: int)

  /** An add-on offered by the catalog (`optionName`, `optionPrice`). */
  datatype CatalogOption = CatalogOption(name: string, price: int)

  type Catalog = seq<CatalogOption>

  /** The selection object as its (key, entry) pairs, in key order. */
  type Selection = seq<(string, Entry)>

  predicate UniqueKeys(sel: Selection) {
    forall i, j :: 0 <= i < j < |sel| ==> sel[i].0 != sel[j].0
  }

  /** `Object.keys(sel)`. */
  function Keys(sel: Selection): (ks: seq<string>)
    ensures |ks| == |sel|
    ensures forall i :: 0 <= i < |sel| ==> ks[i] == sel[i].0
  {
    seq(|sel|, i requires 0 <= i < |sel| => sel[i].0)
  }

  /** The key sequence with every occurrence of `name` dropped, order kept. */
  function Without(ks: seq<string>, name: string): (r: seq<string>)
    ensures name !in r
  {
    if ks == [] then []
    else if ks[0] == name then Without(ks[1..], name)
    else [ks[0]] + Without(ks[1..], name)
  }

  /** The position of `name` among the keys: the first one holding it, if any. */
  function IndexOf(sel: Selection, name: string): (r: Option<nat>)
    ensures r.Some? ==> r.value < |sel| && sel[r.value].0 == name
    ensures r.Some? ==> forall j :: 0 <= j < r.value ==> sel[j].0 != name
    ensures r.None? ==> forall j :: 0 <= j < |sel| ==> sel[j].0 != name
  {
    if |sel| == 0 then None
    else if sel[0].0 == name then Some(0)
    else
      match IndexOf(sel[1..], name)
      case None => None
      case Some(i) => Some(i + 1)
  }

  /** `sel[name]`: the entry stored under `name`, or None when the key is absent. */
  function Lookup(sel: Selection, name: string): (r: Option<Entry>)
    ensures r.None? <==> name !in Keys(sel)
    ensures r.Some? ==> (name, r.value) in sel
  {
    match IndexOf(sel, name)
    case None => None
    case Some(i) => Some(sel[i].1)
  }

  /** The position of the first catalog option called `name`, if any. */
  function CatalogIndex(catalog: Catalog, name: string): (r: Option<nat>)
    ensures r.Some? ==> r.value < |catalog| && catalog[r.value].name == name
    ensures r.Some? ==> forall j :: 0 <= j < r.value ==> catalog[j].name != name
    ensures r.None? ==> forall j :: 0 <= j < |catalog| ==> catalog[j].name != name
  {
    if |catalog| == 0 then None
    else if catalog[0].name == name then Some(0)
    else
      match CatalogIndex(catalog[1..], name)
      case None => None
      case Some(i) => Some(i + 1)
  }

  /** `options.find(o => o.optionName === name)`: the first catalog option with that name. */
  function FindOption(catalog: Catalog, name: string): (r: Option<CatalogOption>)
    ensures r.None? <==> forall j :: 0 <= j < |catalog| ==> catalog[j].name != name
    ensures r.Some? ==> r.value.name == name
    ensures r.Some? ==> exists i :: 0 <= i < |catalog| && catalog[i] == r.value
                                    && forall j :: 0 <= j < i ==> catalog[j].name != name
  {
    match CatalogIndex(catalog, name)
    case None => None
    case Some(i) => Some(catalog[i])
  }

  // ---------------------------------------------------------------------------
  // Facts about keys and lookups used by the operations below
  // ---------------------------------------------------------------------------

  /** A key found at position i with no earlier occurrence is where IndexOf points. */
  lemma IndexOfFirst(sel: Selection, name: string, i: nat)
    requires i < |sel| && sel[i].0 == name
    requires forall j :: 0 <= j < i ==> sel[j].0 != name
    ensures IndexOf(sel, name) == Some(i)
  {
  }

  /** Two selections with the same key sequence locate every key at the same place. */
  lemma IndexOfSameKeys(a: Selection, b: Selection)
    requires Keys(a) == Keys(b)
    ensures forall k :: IndexOf(a, k) == IndexOf(b, k)
  {
    forall k ensures IndexOf(a, k) == IndexOf(b, k) {
      assert forall j :: 0 <= j < |a| ==> a[j].0 == Keys(a)[j] == b[j].0;
      match IndexOf(a, k)
      case None =>
      case Some(i) => IndexOfFirst(b, k, i);
    }
  }

  lemma SameKeysUnique(a: Selection, b: Selection)
    requires Keys(a) == Keys(b)
    ensures UniqueKeys(a) ==> UniqueKeys(b)
  {
    assert forall j :: 0 <= j < |a| ==> a[j].0 == Keys(a)[j] == b[j].0;
  }

  /** Removing an entry whose key is not `k` leaves the lookup of `k` alone. */
  lemma LookupRemove(sel: Selection, i: nat, k: string)
    requires i < |sel| && sel[i].0 != k
    ensures Lookup(sel[..i] + sel[i + 1..], k) == Lookup(sel, k)
  {
    var r := sel[..i] + sel[i + 1..];
    assert forall x :: 0 <= x < i ==> r[x] == sel[x];
    assert forall x :: i <= x < |r| ==> r[x] == sel[x + 1];
    match IndexOf(sel, k)
    case None =>
      assert forall x :: 0 <= x < |r| ==> r[x].0 != k;
    case Some(j) =>
      if j < i {
        IndexOfFirst(r, k, j);
      } else {
        assert forall x :: 0 <= x < j - 1 ==> r[x].0 != k by {
          forall x | 0 <= x < j - 1 ensures r[x].0 != k {
            if x >= i { assert r[x] == sel[x + 1]; }
          }
        }
        IndexOfFirst(r, k, j - 1);
      }
  }

  lemma WithoutAbsent(ks: seq<string>, name: string)
    requires name !in ks
    ensures Without(ks, name) == ks
  {
    if ks != [] {
      WithoutAbsent(ks[1..], name);
    }
  }

  lemma WithoutAppend(a: seq<string>, b: seq<string>, name: string)
    ensures Without(a + b, name) == Without(a, name) + Without(b, name)
  {
    if a == [] {
      assert a + b == b;
    } else {
      assert (a + b)[1..] == a[1..] + b;
      WithoutAppend(a[1..], b, name);
    }
  }

  /** Dropping a key that occurs once, between two stretches free of it, just closes the gap. */
  lemma WithoutSplice(front: seq<string>, name: string, back: seq<string>)
    requires name !in front && name !in back
    ensures Without(front + ([name] + back), name) == front + back
  {
    WithoutAppend(front, [name] + back, name);
    assert ([name] + back)[1..] == back;
    WithoutAbsent(front, name);
    WithoutAbsent(back, name);
  }

  /** With unique keys, removing the entry at i drops exactly key sel[i].0 from the key order. */
  lemma KeysRemove(sel: Selection, i: nat)
    requires UniqueKeys(sel) && i < |sel|
    ensures Keys(sel[..i] + sel[i + 1..]) == Without(Keys(sel), sel[i].0)
  {
    var ks := Keys(sel);
    var front, back := ks[..i], ks[i + 1..];
    assert ks == front + ([sel[i].0] + back);
    assert Keys(sel[..i] + sel[i + 1..]) == front + back;
    assert sel[i].0 !in front;
    assert sel[i].0 !in back by {
      assert forall x :: 0 <= x < |back| ==> back[x] == sel[i + 1 + x].0;
    }
    WithoutSplice(front, sel[i].0, back);
  }

  /** Deleting the entry at i: keys stay unique, its key leaves the key order, other lookups stay. */
  lemma RemoveFacts(sel: Selection, i: nat)
    requires UniqueKeys(sel) && i < |sel|
    ensures UniqueKeys(sel[..i] + sel[i + 1..])
    ensures Keys(sel[..i] + sel[i + 1..]) == Without(Keys(sel), sel[i].0)
    ensures Lookup(sel[..i] + sel[i + 1..], sel[i].0).None?
    ensures forall k :: k != sel[i].0 ==> Lookup(sel[..i] + sel[i + 1..], k) == Lookup(sel, k)
  {
    var r := sel[..i] + sel[i + 1..];
    KeysRemove(sel, i);
    assert forall x :: 0 <= x < |r| ==> r[x] == if x < i then sel[x] else sel[x + 1];
    forall k | k != sel[i].0 ensures Lookup(r, k) == Lookup(sel, k) {
      LookupRemove(sel, i, k);
    }
  }

  /** Appending an entry under a new key: it is found there, and every other lookup stays. */
  lemma AppendFacts(sel: Selection, name: string, e: Entry)
    requires UniqueKeys(sel) && name !in Keys(sel)
    ensures UniqueKeys(sel + [(name, e)])
    ensures Keys(sel + [(name, e)]) == Keys(sel) + [name]
    ensures Lookup(sel + [(name, e)], name) == Some(e)
    ensures forall k :: k != name ==> Lookup(sel + [(name, e)], k) == Lookup(sel, k)
  {
    var r := sel + [(name, e)];
    assert Keys(r) == Keys(sel) + [name];
    assert forall j :: 0 <= j < |sel| ==> sel[j].0 == Keys(sel)[j] != name;
    IndexOfFirst(r, name, |sel|);
    forall k | k != name ensures IndexOf(r, k) == IndexOf(sel, k) {
      match IndexOf(sel, k)
      case None =>
      case Some(j) => IndexOfFirst(r, k, j);
    }
  }

  // ---------------------------------------------------------------------------
  // The three ledger operations
  // ---------------------------------------------------------------------------

  /** `increaseCount(name)`: one more unit of a chosen add-on; an absent name changes nothing. */
  function Increase(sel: Selection, name: string): (r: Selection)
    ensures Keys(r) == Keys(sel)
    ensures Lookup(sel, name).None? ==> r == sel
    ensures Lookup(sel, name).Some? ==>
              Lookup(r, name) == Some(Entry(Lookup(sel, name).value.count + 1, Lookup(sel, name).value.price))
    ensures forall k :: k != name ==> Lookup(r, k) == Lookup(sel, k)
    ensures UniqueKeys(sel) ==> UniqueKeys(r)
  {
    match IndexOf(sel, name)
    case None => sel
    case Some(i) =>
      var r := sel[i := (name, Entry(sel[i].1.count + 1, sel[i].1.price))];
      assert Keys(r) == Keys(sel);
      IndexOfSameKeys(sel, r);
      SameKeysUnique(sel, r);
      r
  }

  /** Where "+" acts: the entry at the key's position, one unit up. */
  lemma IncreaseAt(sel: Selection, name: string, i: nat)
    requires IndexOf(sel, name) == Some(i)
    ensures Increase(sel, name) == sel[i := (name, Entry(sel[i].1.count + 1, sel[i].1.price))]
  {
  }

  /**
    `decreaseCount(name)`: one unit fewer while more than one is chosen; at one
    unit (or fewer) the key is deleted; an absent name changes nothing.
   */
  function Decrease(sel: Selection, name: string): (r: Selection)
    requires UniqueKeys(sel)
    ensures UniqueKeys(r)
    ensures Lookup(sel, name).None? ==> r == sel
    ensures Lookup(sel, name).Some? && Lookup(sel, name).value.count > 1 ==>
              && Keys(r) == Keys(sel)
              && Lookup(r, name) == Some(Entry(Lookup(sel, name).value.count - 1, Lookup(sel, name).value.price))
    ensures Lookup(sel, name).Some? && Lookup(sel, name).value.count <= 1 ==>
              && Keys(r) == Without(Keys(sel), name)
              && Lookup(r, name).None?
    ensures forall k :: k != name ==> Lookup(r, k) == Lookup(sel, k)
  {
    match IndexOf(sel, name)
    case None => sel
    case Some(i) =>
      if sel[i].1.count > 1 then
        var r := sel[i := (name, Entry(sel[i].1.count - 1, sel[i].1.price))];
        assert Keys(r) == Keys(sel);
        IndexOfSameKeys(sel, r);
        SameKeysUnique(sel, r);
        r
      else
        var r := sel[..i] + sel[i + 1..];
        RemoveFacts(sel, i);
        r
  }

  /** Where "-" acts: the entry at the key's position, one unit down or deleted. */
  lemma DecreaseAt(sel: Selection, name: string, i: nat)
    requires UniqueKeys(sel) && IndexOf(sel, name) == Some(i)
    ensures sel[i].1.count > 1 ==>
              Decrease(sel, name) == sel[i := (name, Entry(sel[i].1.count - 1, sel[i].1.price))]
    ensures sel[i].1.count <= 1 ==> Decrease(sel, name) == sel[..i] + sel[i + 1..]
  {
  }

  /**
    `handleOptionChange` with the chosen name: an empty name changes nothing; a
    name already chosen gets one more unit at its stored price; a new name found
    in the catalog is appended with one unit at the price of the first catalog
    match; any other name changes nothing.
   */
  function Select(catalog: Catalog, sel: Selection, name: string): (r: Selection)
    requires UniqueKeys(sel)
    ensures UniqueKeys(r)
    ensures name == "" ==> r == sel
    ensures name != "" && Lookup(sel, name).Some? ==> r == Increase(sel, name)
    ensures name != "" && Lookup(sel, name).None? && FindOption(catalog, name).None? ==> r == sel
    ensures name != "" && Lookup(sel, name).None? && FindOption(catalog, name).Some? ==>
              && Keys(r) == Keys(sel) + [name]
              && Lookup(r, name) == Some(Entry(1, FindOption(catalog, name).value.price))
    ensures forall k :: k != name ==> Lookup(r, k) == Lookup(sel, k)
  {
    if name == "" then sel
    else
      match IndexOf(sel, name)
      case Some(_) => Increase(sel, name)
      case None =>
        match FindOption(catalog, name)
        case None => sel
        case Some(o) =>
          var r := sel + [(name, Entry(1, o.price))];
          AppendFacts(sel, name, Entry(1, o.price));
          r
  }

  // ---------------------------------------------------------------------------
  // The ledger invariant and what the operations promise together
  // ---------------------------------------------------------------------------

  /** An entry is well formed: a non-empty catalog name, at least one unit, the first match's price. */
  predicate EntryOk(catalog: Catalog, name: string, e: Entry) {
    && name != ""
    && e.count >= 1
    && FindOption(catalog, name) == Some(CatalogOption(name, e.price))
  }

  /** The invariant the view keeps on `selectedOptions` for a fixed catalog. */
  ghost predicate Valid(catalog: Catalog, sel: Selection) {
    && UniqueKeys(sel)
    && forall k :: Lookup(sel, k).Some? ==> EntryOk(catalog, k, Lookup(sel, k).value)
  }

  /** The empty object the view starts from satisfies the invariant. */
  lemma EmptyValid(catalog: Catalog)
    ensures Valid(catalog, [])
  {
  }

  /** With unique keys, the entry at position i is exactly what its key looks up. */
  lemma LookupAt(sel: Selection, i: nat)
    requires UniqueKeys(sel) && i < |sel|
    ensures Lookup(sel, sel[i].0) == Some(sel[i].1)
  {
    IndexOfFirst(sel, sel[i].0, i);
  }

  /** The invariant, read entry by entry. */
  lemma ValidEntries(catalog: Catalog, sel: Selection)
    requires Valid(catalog, sel)
    ensures forall i :: 0 <= i < |sel| ==> EntryOk(catalog, sel[i].0, sel[i].1)
  {
    forall i | 0 <= i < |sel| ensures EntryOk(catalog, sel[i].0, sel[i].1) {
      LookupAt(sel, i);
    }
  }

  /** Two selections with unique keys, the same key order and the same lookups are equal. */
  lemma SelectionExt(a: Selection, b: Selection)
    requires UniqueKeys(a) && Keys(a) == Keys(b)
    requires forall k :: Lookup(a, k) == Lookup(b, k)
    ensures a == b
  {
    SameKeysUnique(a, b);
    forall i | 0 <= i < |a| ensures a[i] == b[i] {
      assert a[i].0 == Keys(a)[i] == b[i].0;
      LookupAt(a, i);
      LookupAt(b, i);
    }
  }

  lemma IncreaseValid(catalog: Catalog, sel: Selection, name: string)
    requires Valid(catalog, sel)
    ensures Valid(catalog, Increase(sel, name))
  {
  }

  lemma DecreaseValid(catalog: Catalog, sel: Selection, name: string)
    requires Valid(catalog, sel)
    ensures Valid(catalog, Decrease(sel, name))
  {
  }

  lemma SelectValid(catalog: Catalog, sel: Selection, name: string)
    requires Valid(catalog, sel)
    ensures Valid(catalog, Select(catalog, sel, name))
  {
  }

  /** Choosing an add-on twice is choosing it once and then pressing "+": it ends at two units. */
  lemma SelectTwice(catalog: Catalog, sel: Selection, name: string)
    requires UniqueKeys(sel) && name != ""
    requires Lookup(sel, name).None? && FindOption(catalog, name).Some?
    ensures Select(catalog, Select(catalog, sel, name), name) == Increase(Select(catalog, sel, name), name)
    ensures Lookup(Select(catalog, Select(catalog, sel, name), name), name)
            == Some(Entry(2, FindOption(catalog, name).value.price))
  {
  }

  /** Pressing "-" at one unit deletes the key; pressing it again changes nothing. */
  lemma DecreaseToRemoval(sel: Selection, name: string, price: int)
    requires UniqueKeys(sel) && Lookup(sel, name) == Some(Entry(1, price))
    ensures Lookup(Decrease(sel, name), name).None?
    ensures name !in Keys(Decrease(sel, name))
    ensures Decrease(Decrease(sel, name), name) == Decrease(sel, name)
  {
  }

  /** "-" undoes "+" on any entry with at least one unit (and an absent name is left alone by both). */
  lemma DecreaseUndoesIncrease(sel: Selection, name: string)
    requires UniqueKeys(sel)
    requires Lookup(sel, name).Some? ==> Lookup(sel, name).value.count >= 1
    ensures Decrease(Increase(sel, name), name) == sel
  {
    var up := Increase(sel, name);
    var down := Decrease(up, name);
    SelectionExt(sel, down);
  }

  /** On a valid selection, "-" undoes any choice from the drop-down. */
  lemma DecreaseUndoesSelect(catalog: Catalog, sel: Selection, name: string)
    requires Valid(catalog, sel)
    ensures Decrease(Select(catalog, sel, name), name) == sel
  {
    var picked := Select(catalog, sel, name);
    if name != "" && Lookup(sel, name).None? && FindOption(catalog, name).Some? {
      var down := Decrease(picked, name);
      WithoutAppend(Keys(sel), [name], name);
      WithoutAbsent(Keys(sel), name);
      SelectionExt(sel, down);
    } else if name != "" && Lookup(sel, name).Some? {
      DecreaseUndoesIncrease(sel, name);
    }
  }
}
