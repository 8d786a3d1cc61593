/**
  The price aggregator of the reservation view: the product subtotal
  (`productPrice * nights`) plus one line total (`count * price`) per chosen
  add-on, folded over the selection's keys in order.
 */
module Pricing {
  import opened Wrappers
  import opened Ledger

  /** `productDetails?.price || 0`: a missing (or zero) nightly price counts as 0. */
  function ProductPrice(price: Option<int>): (p: int)
    ensures price.None? ==> p == 0
    ensures price.Some? ==> p == price.value
  {
    price.GetOr(0)
  }

  /** The line total of one chosen add-on. */
  function LineTotal(kv: (string, Entry)): (r: int) {
    kv.1.count * kv.1.price
  }

  /** Σ count × price over the entries: the reference sum the fold is measured against. */
  function Sum(sel: Selection): (r: int) {
    if sel == [] then 0 else LineTotal(sel[0]) + Sum(sel[1..])
  }

  /** The `reduce` over `Object.keys(selectedOptions)`, adding each line to the accumulator. */
  function FoldTotal(sel: Selection, acc: int): (r: int)
    ensures r == acc + Sum(sel)
  {
    if sel == [] then acc else FoldTotal(sel[1..], acc + LineTotal(sel[0]))
  }

  /** `totalProductPrice`: the nightly price times the nights. */
  function TotalProductPrice(price: Option<int>, nights: int): (r: int)
    ensures price.None? ==> r == 0
    ensures price.Some? ==> r == price.value * nights
    ensures nights == 0 ==> r == 0
  {
    ProductPrice(price) * nights
  }

  /** `totalPrice`: the fold started from the product subtotal. */
  function TotalPrice(price: Option<int>, nights: int, sel: Selection): (r: int)
    ensures r == ProductPrice(price) * nights + Sum(sel)
  {
    FoldTotal(sel, TotalProductPrice(price, nights))
  }

  lemma {:induction false} SumAppend(a: Selection, b: Selection)
    ensures Sum(a + b) == Sum(a) + Sum(b)
  {
    if a == [] {
      assert a + b == b;
    } else {
      assert (a + b)[1..] == a[1..] + b;
      SumAppend(a[1..], b);
    }
  }

  /** Splitting the entries around position i. */
  lemma SumSplit(s: Selection, i: nat)
    requires i < |s|
    ensures Sum(s) == Sum(s[..i]) + LineTotal(s[i]) + Sum(s[i + 1..])
  {
    assert s == s[..i] + s[i..];
    SumAppend(s[..i], s[i..]);
    assert s[i..][1..] == s[i + 1..];
  }

  /** One unit more or less changes a line by exactly one unit price. */
  lemma LineStep(c: int, p: int)
    ensures (c + 1) * p == c * p + p
    ensures (c - 1) * p == c * p - p
  {
  }

  /** Replacing the entry at i changes the sum by the difference of the two lines. */
  lemma SumUpdate(s: Selection, i: nat, x: (string, Entry))
    requires i < |s|
    ensures Sum(s[i := x]) == Sum(s) - LineTotal(s[i]) + LineTotal(x)
  {
    var t := s[i := x];
    assert t[..i] == s[..i] && t[i + 1..] == s[i + 1..];
    SumSplit(s, i);
    SumSplit(t, i);
  }

  /** Deleting the entry at i takes its line out of the sum. */
  lemma SumRemove(s: Selection, i: nat)
    requires i < |s|
    ensures Sum(s[..i] + s[i + 1..]) == Sum(s) - LineTotal(s[i])
  {
    SumSplit(s, i);
    SumAppend(s[..i], s[i + 1..]);
  }

  /** The sum depends only on the multiset of entries, not on their order. */
  lemma {:induction false} SumOrderIndependent(a: Selection, b: Selection)
    requires multiset(a) == multiset(b)
    ensures Sum(a) == Sum(b)
    decreases |a|
  {
    if a == [] {
      assert |b| == |multiset(b)| == 0;
    } else {
      var x := a[0];
      assert x in multiset(b);
      var j :| 0 <= j < |b| && b[j] == x;
      var b' := b[..j] + b[j + 1..];
      assert b == b[..j] + [b[j]] + b[j + 1..];
      assert a == [x] + a[1..];
      assert multiset(b') == multiset(b) - multiset{x};
      assert multiset(a[1..]) == multiset(a) - multiset{x};
      SumOrderIndependent(a[1..], b');
      SumRemove(b, j);
    }
  }

  /** The total likewise depends only on the multiset of entries. */
  lemma TotalOrderIndependent(price: Option<int>, nights: int, a: Selection, b: Selection)
    requires multiset(a) == multiset(b)
    ensures TotalPrice(price, nights, a) == TotalPrice(price, nights, b)
  {
    SumOrderIndependent(a, b);
  }

  /** "+" on a chosen add-on adds one more line of its stored unit price to the sum. */
  lemma IncreaseSum(sel: Selection, name: string)
    requires Lookup(sel, name).Some?
    ensures Sum(Increase(sel, name)) == Sum(sel) + Lookup(sel, name).value.price
  {
    var i := IndexOf(sel, name).value;
    var x := (name, Entry(sel[i].1.count + 1, sel[i].1.price));
    IncreaseAt(sel, name, i);
    LineStep(sel[i].1.count, sel[i].1.price);
    SumUpdate(sel, i, x);
  }

  /** "+" on a chosen add-on raises the total by exactly its stored unit price. */
  lemma IncreaseRaisesTotal(price: Option<int>, nights: int, sel: Selection, name: string)
    requires Lookup(sel, name).Some?
    ensures TotalPrice(price, nights, Increase(sel, name))
            == TotalPrice(price, nights, sel) + Lookup(sel, name).value.price
  {
    IncreaseSum(sel, name);
  }

  /**
    Choosing from the drop-down raises the total by the stored price of an
    add-on already chosen, by the catalog price of a new one, and by nothing
    otherwise.
   */
  lemma SelectRaisesTotal(catalog: Catalog, price: Option<int>, nights: int, sel: Selection, name: string)
    requires UniqueKeys(sel)
    ensures name != "" && Lookup(sel, name).Some? ==>
              TotalPrice(price, nights, Select(catalog, sel, name))
              == TotalPrice(price, nights, sel) + Lookup(sel, name).value.price
    ensures name != "" && Lookup(sel, name).None? && FindOption(catalog, name).Some? ==>
              TotalPrice(price, nights, Select(catalog, sel, name))
              == TotalPrice(price, nights, sel) + FindOption(catalog, name).value.price
    ensures name == "" || (Lookup(sel, name).None? && FindOption(catalog, name).None?) ==>
              TotalPrice(price, nights, Select(catalog, sel, name)) == TotalPrice(price, nights, sel)
  {
    if name != "" && Lookup(sel, name).Some? {
      IncreaseSum(sel, name);
    } else if name != "" && Lookup(sel, name).None? && FindOption(catalog, name).Some? {
      SumAppend(sel, [(name, Entry(1, FindOption(catalog, name).value.price))]);
    }
  }

  /** One unit off the entry at i, or the entry gone at one unit: either way one unit price less. */
  lemma SumDownAt(s: Selection, i: nat)
    requires i < |s| && s[i].1.count >= 1
    ensures s[i].1.count > 1 ==>
              Sum(s[i := (s[i].0, Entry(s[i].1.count - 1, s[i].1.price))]) == Sum(s) - s[i].1.price
    ensures s[i].1.count <= 1 ==> Sum(s[..i] + s[i + 1..]) == Sum(s) - s[i].1.price
  {
    LineStep(s[i].1.count, s[i].1.price);
    if s[i].1.count > 1 {
      SumUpdate(s, i, (s[i].0, Entry(s[i].1.count - 1, s[i].1.price)));
    } else {
      SumRemove(s, i);
    }
  }

  /** "-" on a chosen add-on with at least one unit takes one line of its stored unit price off the sum. */
  lemma DecreaseSum(sel: Selection, name: string)
    requires UniqueKeys(sel)
    requires Lookup(sel, name).Some? && Lookup(sel, name).value.count >= 1
    ensures Sum(Decrease(sel, name)) == Sum(sel) - Lookup(sel, name).value.price
  {
    var i := IndexOf(sel, name).value;
    assert Lookup(sel, name).value == sel[i].1;
    DecreaseAt(sel, name, i);
    SumDownAt(sel, i);
  }

  /** "-" on a chosen add-on with at least one unit lowers the total by its stored unit price. */
  lemma DecreaseLowersTotal(price: Option<int>, nights: int, sel: Selection, name: string)
    requires UniqueKeys(sel)
    requires Lookup(sel, name).Some? && Lookup(sel, name).value.count >= 1
    ensures TotalPrice(price, nights, Decrease(sel, name))
            == TotalPrice(price, nights, sel) - Lookup(sel, name).value.price
  {
    DecreaseSum(sel, name);
  }

  /** The worked example: 3 nights at 100000 with two 20000 fire-pit sets come to 340000. */
  lemma TotalExample()
    ensures TotalPrice(Some(100000), 3, [("불멍 세트", Entry(2, 20000))]) == 340000
  {
  }
}
