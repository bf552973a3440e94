/** The product dashboard's grouping (components/Dashboard.tsx): products are
    grouped by palette, groups appear in first-seen order, and each group is
    headed by a "Palette" label. */
module Dashboard {
  import opened Wrappers
  import opened Text
  import opened Types

  const Uncategorized: string := "Uncategorized"
  const PaletteWord: string := "Palette"

  /** `p.palette || 'Uncategorized'`: the group a product belongs to. */
  function GroupKey(p: Product): (key: string)
    ensures key != []
    ensures Present(p.palette) ==> key == p.palette.value
    ensures !Present(p.palette) ==> key == Uncategorized
  {
    OrDefault(p.palette, Uncategorized)
  }

  /** The products of one group, in input order. */
  function Group(ps: seq<Product>, key: string): (g: seq<Product>)
    ensures forall p :: p in g <==> p in ps && GroupKey(p) == key
    ensures IsSubsequence(g, ps)
  {
    Filter(ps, p => GroupKey(p) == key)
  }

  /** The group keys in the order their first product appears. */
  function GroupKeys(ps: seq<Product>): seq<string>
    decreases |ps|
  {
    if ps == [] then []
    else
      var key := GroupKey(ps[|ps| - 1]);
      var keys := GroupKeys(ps[..|ps| - 1]);
      if key in keys then keys else keys + [key]
  }

  /** The keys are distinct, and they are exactly the keys of the products. */
  lemma {:induction false} GroupKeysFacts(ps: seq<Product>)
    ensures Distinct(GroupKeys(ps))
    ensures forall i :: 0 <= i < |ps| ==> GroupKey(ps[i]) in GroupKeys(ps)
    ensures forall k :: k in GroupKeys(ps) ==> exists i :: 0 <= i < |ps| && GroupKey(ps[i]) == k
    decreases |ps|
  {
    if ps != [] {
      var init := ps[..|ps| - 1];
      GroupKeysFacts(init);
      assert forall i :: 0 <= i < |init| ==> init[i] == ps[i];
    }
  }

  /** Adding one product at the end: its group grows by it, the others stay. */
  lemma GroupAppend(ps: seq<Product>, p: Product, key: string)
    ensures Group(ps + [p], key) == Group(ps, key) + (if GroupKey(p) == key then [p] else [])
  {
    FilterAppend(ps, p, q => GroupKey(q) == key);
  }

  /** A non-empty group's key is listed: a key not yet listed has an empty group. */
  lemma NonEmptyGroupListed(ps: seq<Product>, key: string)
    ensures Group(ps, key) != [] ==> key in GroupKeys(ps)
  {
    GroupKeysFacts(ps);
    if Group(ps, key) != [] {
      var p := Group(ps, key)[0];
      assert p in Group(ps, key);
      var i :| 0 <= i < |ps| && ps[i] == p;
    }
  }

  /** How the keys and groups of a prefix grow by the next product. */
  lemma GroupsGrow(ps: seq<Product>, i: nat)
    requires i < |ps|
    ensures GroupKeys(ps[..i + 1]) ==
      if GroupKey(ps[i]) in GroupKeys(ps[..i]) then GroupKeys(ps[..i]) else GroupKeys(ps[..i]) + [GroupKey(ps[i])]
    ensures forall k :: Group(ps[..i + 1], k) == Group(ps[..i], k) + (if GroupKey(ps[i]) == k then [ps[i]] else [])
    ensures GroupKey(ps[i]) !in GroupKeys(ps[..i]) ==> Group(ps[..i], GroupKey(ps[i])) == []
  {
    assert ps[..i + 1] == ps[..i] + [ps[i]];
    assert ps[..i + 1][..i] == ps[..i];
    forall k
      ensures Group(ps[..i + 1], k) == Group(ps[..i], k) + (if GroupKey(ps[i]) == k then [ps[i]] else [])
    {
      GroupAppend(ps[..i], ps[i], k);
    }
    if GroupKey(ps[i]) !in GroupKeys(ps[..i]) {
      NonEmptyGroupListed(ps[..i], GroupKey(ps[i]));
    }
  }

  /** `keys` and `groups` hold the grouping of `ps`. */
  ghost predicate GroupedAs(ps: seq<Product>, keys: seq<string>, groups: map<string, seq<Product>>) {
    && keys == GroupKeys(ps)
    && (forall k :: k in groups <==> k in keys)
    && (forall k :: k in groups ==> groups[k] == Group(ps, k))
  }

  /** One step of the loop: pushing product `i` onto its group, creating it first if needed. */
  lemma GroupStep(ps: seq<Product>, i: nat, keys: seq<string>, groups: map<string, seq<Product>>)
    requires i < |ps| && GroupedAs(ps[..i], keys, groups)
    ensures var key := GroupKey(ps[i]);
      GroupedAs(ps[..i + 1],
                if key in groups then keys else keys + [key],
                groups[key := (if key in groups then groups[key] else []) + [ps[i]]])
  {
    var key := GroupKey(ps[i]);
    var groups' := groups[key := (if key in groups then groups[key] else []) + [ps[i]]];
    GroupsGrow(ps, i);
    forall k | k in groups'
      ensures groups'[k] == Group(ps[..i + 1], k)
    {
      if k != key {
        assert groups'[k] == groups[k];
      }
    }
  }

  /** The `groupedProducts` memo: a key list in first-seen order (the order the
      entries of the record are listed in) and a map from key to the group. */
  method GroupProducts(products: seq<Product>) returns (keys: seq<string>, groups: map<string, seq<Product>>)
    ensures keys == GroupKeys(products)
    ensures forall k :: k in groups <==> k in keys
    ensures forall k :: k in groups ==> groups[k] == Group(products, k)
  {
    keys := [];
    groups := map[];
    var i := 0;
    while i < |products|
      invariant 0 <= i <= |products|
      invariant GroupedAs(products[..i], keys, groups)
    {
      var p := products[i];
      var key := GroupKey(p);
      GroupStep(products, i, keys, groups);
      var group := if key in groups then groups[key] else [];
      if key !in groups {
        keys := keys + [key];
      }
      groups := groups[key := group + [p]];
      i := i + 1;
    }
    assert products[..i] == products;
  }

  /** Every product lands in exactly one group: the one named by its key. */
  lemma EachProductInOneGroup(ps: seq<Product>, p: Product, key: string)
    requires p in ps
    ensures p in Group(ps, key) <==> key == GroupKey(p)
    ensures GroupKey(p) in GroupKeys(ps)
  {
    GroupKeysFacts(ps);
    var i :| 0 <= i < |ps| && ps[i] == p;
  }

  /** Total size of the groups named in `keys`. */
  function SizeSum(ps: seq<Product>, keys: seq<string>): nat
    decreases |keys|
  {
    if keys == [] then 0 else |Group(ps, keys[0])| + SizeSum(ps, keys[1..])
  }

  lemma {:induction false} SizeSumAppendKey(ps: seq<Product>, keys: seq<string>, key: string)
    ensures SizeSum(ps, keys + [key]) == SizeSum(ps, keys) + |Group(ps, key)|
    decreases |keys|
  {
    if keys != [] {
      assert (keys + [key])[1..] == keys[1..] + [key];
      SizeSumAppendKey(ps, keys[1..], key);
    }
  }

  /** One more product adds one to the group sizes when its key is listed once. */
  lemma {:induction false} SizeSumAppendProduct(ps: seq<Product>, p: Product, keys: seq<string>)
    requires Distinct(keys)
    ensures SizeSum(ps + [p], keys) == SizeSum(ps, keys) + (if GroupKey(p) in keys then 1 else 0)
    decreases |keys|
  {
    if keys != [] {
      GroupAppend(ps, p, keys[0]);
      assert Distinct(keys[1..]);
      SizeSumAppendProduct(ps, p, keys[1..]);
      if GroupKey(p) == keys[0] {
        assert GroupKey(p) !in keys[1..];
      } else {
        assert GroupKey(p) in keys <==> GroupKey(p) in keys[1..];
      }
    }
  }

  /** Nothing is lost or duplicated: the group sizes add up to the product count. */
  lemma {:induction false} GroupSizesSum(ps: seq<Product>)
    ensures SizeSum(ps, GroupKeys(ps)) == |ps|
    decreases |ps|
  {
    if ps != [] {
      var init, p := ps[..|ps| - 1], ps[|ps| - 1];
      assert ps == init + [p];
      var keys := GroupKeys(init);
      GroupSizesSum(init);
      GroupKeysFacts(init);
      SizeSumAppendProduct(init, p, keys);
      if GroupKey(p) !in keys {
        SizeSumAppendKey(ps, keys, GroupKey(p));
        GroupAppend(init, p, GroupKey(p));
        NonEmptyGroupListed(init, GroupKey(p));
      }
    }
  }

  /** The section heading: the key itself when it already starts with "Palette",
      otherwise "Palette " before it. */
  function Heading(key: string): (h: string)
    ensures StartsWith(h, PaletteWord)
  {
    if StartsWith(key, PaletteWord) then key else PaletteWord + " " + key
  }

  /** A heading always ends with its key; a key that does not start with "Palette"
      gets exactly the prefix "Palette " (with its space); labelling a heading again
      changes nothing. */
  lemma HeadingKeepsKey(key: string)
    ensures |Heading(key)| >= |key| && Heading(key)[|Heading(key)| - |key|..] == key
    ensures |Heading(key)| <= |key| + |PaletteWord| + 1
    ensures Heading(key) == key <==> StartsWith(key, PaletteWord)
    ensures !StartsWith(key, PaletteWord) ==>
      |Heading(key)| == |key| + |PaletteWord| + 1 && Heading(key)[..|PaletteWord| + 1] == PaletteWord + " "
    ensures Heading(Heading(key)) == Heading(key)
  {
    if !StartsWith(key, PaletteWord) {
      assert (PaletteWord + " " + key)[|PaletteWord| + 1..] == key;
      assert (PaletteWord + " " + key)[..|PaletteWord| + 1] == PaletteWord + " ";
    }
  }
}
