/**
 * getSections, the view helper behind the documentation sidebar: the entries of a
 * collection grouped by `meta.category`, each group a section, each entry an item,
 * with the current entry's section and item marked active.
 */
module Sections {
  import opened Wrappers
  import opened Content

  datatype Item = Item(href: string, title: string, isActive: bool)

  datatype Section = Section(title: string, isActive: bool, items: seq<Item>)

  /** The group key of collect.js's `groupBy('meta.category')`: the category, or '' when it is missing or empty. */
  function GroupKey(e: Entry): string
  {
    match e.category
    case Some(c) => c
    case None => ""
  }

  /** One group: its key and its entries in collection order. */
  datatype Group = Group(key: string, members: seq<Entry>)

  /** The entries with the given key, in order: what the group with that key must hold. */
  function FilterKey(es: seq<Entry>, key: string): seq<Entry>
    decreases |es|
  {
    if es == [] then []
    else FilterKey(es[..|es| - 1], key) + (if GroupKey(es[|es| - 1]) == key then [es[|es| - 1]] else [])
  }

  lemma {:induction false} FilterKeyHasMember(es: seq<Entry>, k: nat)
    requires k < |es|
    decreases |es|
    ensures FilterKey(es, GroupKey(es[k])) != []
  {
    var n := |es|;
    if k < n - 1 {
      assert es[..n - 1][k] == es[k];
      FilterKeyHasMember(es[..n - 1], k);
    }
  }

  function KeyIndex(gs: seq<Group>, key: string): (r: Option<nat>)
    ensures r.Some? ==> r.value < |gs| && gs[r.value].key == key
    ensures r.None? ==> forall i :: 0 <= i < |gs| ==> gs[i].key != key
  {
    if gs == [] then None
    else if gs[|gs| - 1].key == key then Some(|gs| - 1)
    else KeyIndex(gs[..|gs| - 1], key)
  }

  /** One step of groupBy: the entry joins the group of its key, which is opened at the end when new. */
  function AddTo(gs: seq<Group>, e: Entry): seq<Group>
  {
    match KeyIndex(gs, GroupKey(e))
    case None => gs + [Group(GroupKey(e), [e])]
    case Some(i) => gs[i := gs[i].(members := gs[i].members + [e])]
  }

  /** collect(entries).groupBy('meta.category'), groups in the order their keys first appear. */
  function GroupBy(es: seq<Entry>): (gs: seq<Group>)
    decreases |es|
    ensures |gs| <= |es|
    ensures forall i :: 0 <= i < |gs| ==> gs[i].members != []
  {
    if es == [] then [] else AddTo(GroupBy(es[..|es| - 1]), es[|es| - 1])
  }

  /** A grouping of `es`: distinct keys, each group exactly the entries of its key, and every key present. */
  ghost predicate Partitions(gs: seq<Group>, es: seq<Entry>)
  {
    && (forall i, j :: 0 <= i < j < |gs| ==> gs[i].key != gs[j].key)
    && (forall i :: 0 <= i < |gs| ==> gs[i].members == FilterKey(es, gs[i].key) && gs[i].members != [])
    && (forall key :: FilterKey(es, key) != [] ==> KeyIndex(gs, key).Some?)
  }

  lemma FilterKeySnoc(es: seq<Entry>, e: Entry, key: string)
    ensures FilterKey(es + [e], key) == FilterKey(es, key) + (if GroupKey(e) == key then [e] else [])
  {
    assert (es + [e])[..|es|] == es;
  }

  lemma AddToKeepsKeysDistinct(gs: seq<Group>, e: Entry)
    requires forall i, j :: 0 <= i < j < |gs| ==> gs[i].key != gs[j].key
    ensures var gs' := AddTo(gs, e);
            forall i, j :: 0 <= i < j < |gs'| ==> gs'[i].key != gs'[j].key
  {
  }

  lemma AddToKeepsMembers(gs: seq<Group>, es: seq<Entry>, e: Entry)
    requires Partitions(gs, es)
    ensures var gs' := AddTo(gs, e);
            forall i :: 0 <= i < |gs'| ==> gs'[i].members == FilterKey(es + [e], gs'[i].key) && gs'[i].members != []
  {
    var gs' := AddTo(gs, e);
    var key := GroupKey(e);
    forall i | 0 <= i < |gs'| ensures gs'[i].members == FilterKey(es + [e], gs'[i].key) {
      FilterKeySnoc(es, e, gs'[i].key);
      if KeyIndex(gs, key).None? && i == |gs| {
        assert FilterKey(es, key) == [];
      }
    }
  }

  lemma AddToKeepsCover(gs: seq<Group>, es: seq<Entry>, e: Entry)
    requires Partitions(gs, es)
    ensures forall k :: FilterKey(es + [e], k) != [] ==> KeyIndex(AddTo(gs, e), k).Some?
  {
    var gs' := AddTo(gs, e);
    var key := GroupKey(e);
    forall k | FilterKey(es + [e], k) != [] ensures KeyIndex(gs', k).Some? {
      FilterKeySnoc(es, e, k);
      if k != key {
        var i := KeyIndex(gs, k).value;
        assert gs'[i].key == k;
      } else {
        match KeyIndex(gs, key)
        case None => assert gs'[|gs|].key == k;
        case Some(i) => assert gs'[i].key == k;
      }
    }
  }

  lemma AddToPartitions(gs: seq<Group>, es: seq<Entry>, e: Entry, es': seq<Entry>)
    requires Partitions(gs, es) && es' == es + [e]
    ensures Partitions(AddTo(gs, e), es')
  {
    AddToKeepsKeysDistinct(gs, e);
    AddToKeepsMembers(gs, es, e);
    AddToKeepsCover(gs, es, e);
  }

  /** groupBy puts every entry in exactly one group, the one of its key, keeping their order. */
  lemma {:induction false} GroupByPartitions(es: seq<Entry>)
    decreases |es|
    ensures Partitions(GroupBy(es), es)
  {
    if es != [] {
      var init, last := es[..|es| - 1], es[|es| - 1];
      assert init + [last] == es;
      GroupByPartitions(init);
      AddToPartitions(GroupBy(init), init, last, es);
    }
  }

  /** The items of a group: href, title, and whether the item is the current entry. */
  function ItemsFor(es: seq<Entry>, current: Entry): (r: seq<Item>)
    ensures |r| == |es|
    ensures forall k :: 0 <= k < |es| ==>
              r[k].href == es[k].permalink && r[k].title == es[k].title && (r[k].isActive <==> es[k].permalink == current.permalink)
  {
    seq(|es|, k requires 0 <= k < |es| => Item(es[k].permalink, es[k].title, es[k].permalink == current.permalink))
  }

  function SectionFor(g: Group, current: Entry): Section
  {
    Section(g.key, current.category == Some(g.key), ItemsFor(g.members, current))
  }

  /**
   * getSections(collection, entry): one section per category with distinct titles;
   * a section is active exactly when its title is the current entry's category; a
   * section's items are the entries of its category in collection order; and every
   * entry's category has its section.
   */
  function GetSections(entries: seq<Entry>, current: Entry): (r: seq<Section>)
    ensures forall i, j :: 0 <= i < j < |r| ==> r[i].title != r[j].title
    ensures forall i :: 0 <= i < |r| ==> (r[i].isActive <==> current.category == Some(r[i].title))
    ensures forall i :: 0 <= i < |r| ==> r[i].items == ItemsFor(FilterKey(entries, r[i].title), current) && r[i].items != []
    ensures forall k :: 0 <= k < |entries| ==> exists i :: 0 <= i < |r| && r[i].title == GroupKey(entries[k])
  {
    var gs := GroupBy(entries);
    GroupByPartitions(entries);
    var r := seq(|gs|, i requires 0 <= i < |gs| => SectionFor(gs[i], current));
    forall k | 0 <= k < |entries| ensures exists i :: 0 <= i < |r| && r[i].title == GroupKey(entries[k]) {
      FilterKeyHasMember(entries, k);
      var i := KeyIndex(gs, GroupKey(entries[k])).value;
      assert r[i].title == GroupKey(entries[k]);
    }
    r
  }

  /** At most one section is active: section titles are distinct and only the current category is active. */
  lemma AtMostOneActive(entries: seq<Entry>, current: Entry)
    ensures var r := GetSections(entries, current);
            forall i, j :: 0 <= i < |r| && 0 <= j < |r| && r[i].isActive && r[j].isActive ==> i == j
  {
  }

  lemma {:induction false} FilterKeyMembers(es: seq<Entry>, key: string)
    decreases |es|
    ensures forall e :: e in FilterKey(es, key) ==> e in es && GroupKey(e) == key
  {
    if es != [] {
      FilterKeyMembers(es[..|es| - 1], key);
    }
  }

  /** The current entry, when it is in the collection, is an active item of the one active section. */
  lemma CurrentIsShownActive(entries: seq<Entry>, current: Entry)
    requires current in entries && current.category.Some?
    ensures var r := GetSections(entries, current);
            exists i, k :: 0 <= i < |r| && 0 <= k < |r[i].items| && r[i].isActive && r[i].items[k].isActive
                          && r[i].items[k].href == current.permalink
  {
    var r := GetSections(entries, current);
    var n :| 0 <= n < |entries| && entries[n] == current;
    var i :| 0 <= i < |r| && r[i].title == GroupKey(entries[n]);
    var members := FilterKey(entries, r[i].title);
    assert current in members by {
      CurrentInFilter(entries, n);
    }
    var k :| 0 <= k < |members| && members[k] == current;
    assert r[i].items[k].isActive && r[i].items[k].href == current.permalink;
  }

  lemma {:induction false} CurrentInFilter(es: seq<Entry>, n: nat)
    requires n < |es|
    decreases |es|
    ensures es[n] in FilterKey(es, GroupKey(es[n]))
  {
    var m := |es|;
    if n < m - 1 {
      assert es[..m - 1][n] == es[n];
      CurrentInFilter(es[..m - 1], n);
    }
  }
}
