/**
 * `groupedQuestions` of app.js: the active instrument's items partitioned
 * into named sections, in order of first appearance, each item kept in its
 * catalog order, each section keyed `testId + "_" + name`.
 */
module Grouping {
  import opened Wrappers
  import opened Catalog

  /** One displayed section: its group name, its section-note key and its items. */
  datatype Section = Section(name: string, key: string, items: seq<Item>)

  /** `${activeTest}_${name}`: the instrument id, an underscore, then the group name. */
  function SectionKey(testId: string, name: string): (key: string)
    ensures |key| == |testId| + 1 + |name|
    ensures key[..|testId|] == testId && key[|testId|] == '_' && key[|testId| + 1..] == name
  {
    testId + "_" + name
  }

  /** Two sections of one instrument have the same key only when they have the same name. */
  lemma SectionKeyInjective(testId: string, a: string, b: string)
    requires SectionKey(testId, a) == SectionKey(testId, b)
    ensures a == b
  {
    assert a == SectionKey(testId, a)[|testId| + 1..];
  }

  /** The distinct group names of a list, in the order in which the scan first meets them. */
  function GroupNames(items: seq<Item>): seq<string> {
    if |items| == 0 then []
    else
      var names := GroupNames(items[..|items| - 1]);
      var g := GroupName(items[|items| - 1]);
      if g in names then names else names + [g]
  }

  /** Each group name is listed once, and every item's name is listed. */
  lemma {:induction false} GroupNamesDistinctAndComplete(items: seq<Item>)
    ensures forall j, k :: 0 <= j < k < |GroupNames(items)| ==> GroupNames(items)[j] != GroupNames(items)[k]
    ensures forall i :: 0 <= i < |items| ==> GroupName(items[i]) in GroupNames(items)
  {
    if |items| > 0 {
      var init := items[..|items| - 1];
      GroupNamesDistinctAndComplete(init);
      forall i | 0 <= i < |items|
        ensures GroupName(items[i]) in GroupNames(items)
      {
        if i < |init| {
          assert init[i] == items[i];
        }
      }
    }
  }

  /** Every listed group name is the name of some item: no group is invented. */
  lemma {:induction false} GroupNamesHaveItems(items: seq<Item>, j: nat)
    requires j < |GroupNames(items)|
    ensures exists i :: 0 <= i < |items| && GroupName(items[i]) == GroupNames(items)[j]
  {
    var n := |items|;
    var init := items[..n - 1];
    var names := GroupNames(init);
    var g := GroupName(items[n - 1]);
    assert GroupNames(items) == if g in names then names else names + [g];
    if j < |names| {
      GroupNamesHaveItems(init, j);
      var i :| 0 <= i < |init| && GroupName(init[i]) == names[j];
      assert init[i] == items[i];
    } else {
      assert GroupName(items[n - 1]) == GroupNames(items)[j];
    }
  }

  /** The items of the list whose group name is `name`, in list order (what the `push` calls accumulate). */
  function Members(items: seq<Item>, name: string): seq<Item> {
    if |items| == 0 then []
    else
      var x := items[|items| - 1];
      Members(items[..|items| - 1], name) + (if GroupName(x) == name then [x] else [])
  }

  /** A group holds only items of its name, and is empty exactly when no item has that name. */
  lemma {:induction false} MembersOfName(items: seq<Item>, name: string)
    ensures forall x :: x in Members(items, name) ==> GroupName(x) == name
    ensures Members(items, name) == [] <==> forall i :: 0 <= i < |items| ==> GroupName(items[i]) != name
  {
    if |items| > 0 {
      var init := items[..|items| - 1];
      var last := items[|items| - 1];
      MembersOfName(init, name);
      var m0 := Members(init, name);
      var e := if GroupName(last) == name then [last] else [];
      assert Members(items, name) == m0 + e;
      assert forall x :: x in m0 + e ==> x in m0 || x in e;
      if forall i :: 0 <= i < |items| ==> GroupName(items[i]) != name {
        assert forall i :: 0 <= i < |init| ==> GroupName(init[i]) != name by {
          forall i | 0 <= i < |init| ensures GroupName(init[i]) != name {
            assert init[i] == items[i];
          }
        }
      } else {
        var i :| 0 <= i < |items| && GroupName(items[i]) == name;
        if i < |init| {
          assert init[i] == items[i];
          assert m0 != [];
        }
        assert m0 + e != [];
      }
    }
  }

  /** The positions in the list of the items of group `name`, in increasing order. */
  function MemberPositions(items: seq<Item>, name: string): seq<nat> {
    if |items| == 0 then []
    else MemberPositions(items[..|items| - 1], name) + (if GroupName(items[|items| - 1]) == name then [|items| - 1] else [])
  }

  /**
   * The members of a group are exactly the list's items of that group, taken
   * at increasing positions: each item keeps its original relative order.
   */
  lemma MembersInOrder(items: seq<Item>, name: string)
    ensures var p := MemberPositions(items, name);
            && |p| == |Members(items, name)|
            && (forall k :: 0 <= k < |p| ==> p[k] < |items| && items[p[k]] == Members(items, name)[k])
            && (forall k, l :: 0 <= k < l < |p| ==> p[k] < p[l])
            && (forall i :: 0 <= i < |items| && GroupName(items[i]) == name ==> i in p)
  {
    PositionsPickMembers(items, name);
    PositionsIncrease(items, name);
    PositionsComplete(items, name);
  }

  lemma {:induction false} PositionsPickMembers(items: seq<Item>, name: string)
    ensures var p := MemberPositions(items, name);
            && |p| == |Members(items, name)|
            && forall k :: 0 <= k < |p| ==> p[k] < |items| && items[p[k]] == Members(items, name)[k]
  {
    if |items| > 0 {
      var n := |items|;
      var init := items[..n - 1];
      PositionsPickMembers(init, name);
      var p0 := MemberPositions(init, name);
      var m0 := Members(init, name);
      var p := MemberPositions(items, name);
      var m := Members(items, name);
      assert p[..|p0|] == p0;
      assert m[..|m0|] == m0;
      forall k | 0 <= k < |p|
        ensures p[k] < |items| && items[p[k]] == m[k]
      {
        if k < |p0| {
          assert p[k] == p0[k] && m[k] == m0[k];
          assert init[p0[k]] == items[p0[k]];
        }
      }
    }
  }

  lemma {:induction false} PositionsIncrease(items: seq<Item>, name: string)
    ensures forall k :: 0 <= k < |MemberPositions(items, name)| ==> MemberPositions(items, name)[k] < |items|
    ensures forall k, l :: 0 <= k < l < |MemberPositions(items, name)| ==>
              MemberPositions(items, name)[k] < MemberPositions(items, name)[l]
  {
    if |items| > 0 {
      var init := items[..|items| - 1];
      PositionsIncrease(init, name);
      var p0 := MemberPositions(init, name);
      var p := MemberPositions(items, name);
      var tail := if GroupName(items[|items| - 1]) == name then [|items| - 1] else [];
      assert p == p0 + tail;
      assert forall k :: 0 <= k < |p0| ==> p0[k] < |init|;
      forall k | 0 <= k < |p|
        ensures p[k] < |items|
      {
        if k < |p0| { assert p[k] == p0[k]; }
      }
      forall k, l | 0 <= k < l < |p|
        ensures p[k] < p[l]
      {
        assert p[k] == p0[k];
        if l < |p0| { assert p[l] == p0[l]; } else { assert p[l] == |items| - 1; }
      }
    }
  }

  lemma {:induction false} PositionsComplete(items: seq<Item>, name: string)
    ensures forall i :: 0 <= i < |items| && GroupName(items[i]) == name ==> i in MemberPositions(items, name)
  {
    if |items| > 0 {
      var init := items[..|items| - 1];
      PositionsComplete(init, name);
      forall i | 0 <= i < |items| && GroupName(items[i]) == name
        ensures i in MemberPositions(items, name)
      {
        if i < |init| {
          assert init[i] == items[i];
          assert i in MemberPositions(init, name);
        }
      }
    }
  }

  /** The sections the store shows for an instrument's item list. */
  function Sections(testId: string, items: seq<Item>): (r: seq<Section>)
    ensures |r| == |GroupNames(items)|
  {
    var names := GroupNames(items);
    seq(|names|, k requires 0 <= k < |names| => Section(names[k], SectionKey(testId, names[k]), Members(items, names[k])))
  }

  /**
   * `groupedQuestions`: nothing without an active instrument; otherwise one
   * pass over the items that creates a group the first time its name is met
   * and appends each item to its group, then one section per group in
   * creation order.
   */
  method GroupedQuestions(questions: Questions, activeTest: Option<string>) returns (sections: seq<Section>)
    ensures !Truthy(activeTest) ==> sections == []
    ensures Truthy(activeTest) ==> sections == Sections(activeTest.value, ItemsOf(questions, activeTest.value))
  {
    if !Truthy(activeTest) {
      return [];
    }
    var testId := activeTest.value;
    var list := ItemsOf(questions, testId);
    var names: seq<string> := [];
    var groups: map<string, seq<Item>> := map[];
    for i := 0 to |list|
      invariant GroupsSoFar(list[..i], names, groups)
    {
      var name := GroupName(list[i]);
      var names', groups' := names, groups;
      if name !in groups' {
        names' := names' + [name];
        groups' := groups'[name := []];
      }
      groups' := groups'[name := groups'[name] + [list[i]]];
      GroupStep(list[..i], list[i], names, groups, names', groups');
      assert list[..i] + [list[i]] == list[..i + 1];
      names, groups := names', groups';
    }
    assert list[..|list|] == list;
    sections := seq(|names|, k requires 0 <= k < |names| => Section(names[k], SectionKey(testId, names[k]), groups[names[k]]));
    SectionsFromGroups(testId, list, names, groups, sections);
  }

  /** The loop's view of the dictionary after scanning `items`: key order and contents. */
  ghost predicate GroupsSoFar(items: seq<Item>, names: seq<string>, groups: map<string, seq<Item>>) {
    && names == GroupNames(items)
    && (forall n :: n in groups <==> n in names)
    && (forall n :: n in groups ==> groups[n] == Members(items, n))
  }

  /** One iteration: create the item's group if it is new, then append the item to it. */
  lemma GroupStep(items: seq<Item>, x: Item, names: seq<string>, groups: map<string, seq<Item>>,
                  names': seq<string>, groups': map<string, seq<Item>>)
    requires GroupsSoFar(items, names, groups)
    requires names' == if GroupName(x) in groups then names else names + [GroupName(x)]
    requires var groups0 := if GroupName(x) in groups then groups else groups[GroupName(x) := []];
             groups' == groups0[GroupName(x) := groups0[GroupName(x)] + [x]]
    ensures GroupsSoFar(items + [x], names', groups')
  {
    var name := GroupName(x);
    var groups0 := if name in groups then groups else groups[name := []];
    StepNames(items, x, names, name in groups);
    StepContents(items, x, names, groups, groups0, groups');
    assert forall n :: n in groups' <==> n in names';
  }

  lemma StepNames(items: seq<Item>, x: Item, names: seq<string>, known: bool)
    requires names == GroupNames(items)
    requires known <==> GroupName(x) in names
    ensures GroupNames(items + [x]) == if known then names else names + [GroupName(x)]
  {
    assert (items + [x])[..|items|] == items;
  }

  lemma StepContents(items: seq<Item>, x: Item, names: seq<string>,
                     groups: map<string, seq<Item>>, groups0: map<string, seq<Item>>, groups': map<string, seq<Item>>)
    requires GroupsSoFar(items, names, groups)
    requires groups0 == if GroupName(x) in groups then groups else groups[GroupName(x) := []]
    requires groups' == groups0[GroupName(x) := groups0[GroupName(x)] + [x]]
    ensures forall n :: n in groups' ==> groups'[n] == Members(items + [x], n)
  {
    var name := GroupName(x);
    assert groups0[name] == Members(items, name) by {
      if name !in groups {
        AbsentNameHasNoMembers(items, name);
      }
    }
    forall n | n in groups'
      ensures groups'[n] == Members(items + [x], n)
    {
      MembersSnoc(items, x, n);
    }
  }

  lemma SectionsFromGroups(testId: string, items: seq<Item>, names: seq<string>, groups: map<string, seq<Item>>, sections: seq<Section>)
    requires GroupsSoFar(items, names, groups)
    requires sections == seq(|names|, k requires 0 <= k < |names| => Section(names[k], SectionKey(testId, names[k]), groups[names[k]]))
    ensures sections == Sections(testId, items)
  {
  }

  // ---------------------------------------------------------------- laws

  /** No two sections of an instrument share a key, so section notes never collide within an instrument. */
  lemma SectionKeysDistinct(testId: string, items: seq<Item>, j: nat, k: nat)
    requires j < k < |Sections(testId, items)|
    ensures Sections(testId, items)[j].key != Sections(testId, items)[k].key
  {
    var s := Sections(testId, items);
    GroupNamesDistinctAndComplete(items);
    if s[j].key == s[k].key {
      SectionKeyInjective(testId, s[j].name, s[k].name);
    }
  }

  /**
   * Sections come in order of first appearance: before any item of the k-th
   * section, an item of every earlier section has already been seen.
   */
  lemma {:induction false} GroupsInFirstAppearanceOrder(items: seq<Item>, j: nat, k: nat, i: nat)
    requires j < k < |GroupNames(items)|
    requires i < |items| && GroupName(items[i]) == GroupNames(items)[k]
    ensures exists i' :: 0 <= i' < i && GroupName(items[i']) == GroupNames(items)[j]
  {
    var n := |items|;
    var init := items[..n - 1];
    var names := GroupNames(init);
    var g := GroupName(items[n - 1]);
    var all := GroupNames(items);
    assert all == if g in names then names else names + [g];
    assert j < |names| && all[j] == names[j];
    if i < n - 1 {
      assert init[i] == items[i];
      GroupNamesDistinctAndComplete(init);
      assert GroupName(init[i]) in names;
      assert k < |names|;
      GroupsInFirstAppearanceOrder(init, j, k, i);
      var i' :| 0 <= i' < i && GroupName(init[i']) == names[j];
      assert init[i'] == items[i'];
    } else {
      GroupNamesHaveItems(init, j);
      var i' :| 0 <= i' < |init| && GroupName(init[i']) == names[j];
      assert init[i'] == items[i'];
    }
  }

  /** All the items of a list of sections, section after section. */
  function AllItems(sections: seq<Section>): seq<Item> {
    if |sections| == 0 then [] else sections[0].items + AllItems(sections[1..])
  }

  /** The items of the sections named `names`, in that order. */
  function Flatten(items: seq<Item>, names: seq<string>): seq<Item> {
    if |names| == 0 then [] else Members(items, names[0]) + Flatten(items, names[1..])
  }

  lemma {:induction false} AllItemsOfSections(testId: string, items: seq<Item>, names: seq<string>)
    ensures AllItems(seq(|names|, k requires 0 <= k < |names| => Section(names[k], SectionKey(testId, names[k]), Members(items, names[k]))))
         == Flatten(items, names)
  {
    var s := seq(|names|, k requires 0 <= k < |names| => Section(names[k], SectionKey(testId, names[k]), Members(items, names[k])));
    if |names| > 0 {
      var tail := names[1..];
      assert s[1..] == seq(|tail|, k requires 0 <= k < |tail| => Section(tail[k], SectionKey(testId, tail[k]), Members(items, tail[k])));
      AllItemsOfSections(testId, items, tail);
    }
  }

  lemma AbsentNameHasNoMembers(items: seq<Item>, name: string)
    requires name !in GroupNames(items)
    ensures Members(items, name) == []
  {
    GroupNamesDistinctAndComplete(items);
    MembersOfName(items, name);
  }

  lemma MembersSnoc(items: seq<Item>, x: Item, name: string)
    ensures Members(items + [x], name) == Members(items, name) + (if GroupName(x) == name then [x] else [])
  {
    assert (items + [x])[..|items|] == items;
  }

  /** No name occurs twice, stated head first. */
  predicate NoRepeats(names: seq<string>) {
    |names| == 0 || (names[0] !in names[1..] && NoRepeats(names[1..]))
  }

  lemma {:induction false} PairwiseDistinctNoRepeats(names: seq<string>)
    requires forall j, k :: 0 <= j < k < |names| ==> names[j] != names[k]
    ensures NoRepeats(names)
  {
    if |names| > 0 {
      var tail := names[1..];
      forall j, k | 0 <= j < k < |tail| ensures tail[j] != tail[k] {
        assert tail[j] == names[j + 1] && tail[k] == names[k + 1];
      }
      PairwiseDistinctNoRepeats(tail);
    }
  }

  lemma {:induction false} FlattenSnoc(items: seq<Item>, x: Item, names: seq<string>)
    requires NoRepeats(names)
    ensures multiset(Flatten(items + [x], names))
         == multiset(Flatten(items, names)) + (if GroupName(x) in names then multiset{x} else multiset{})
  {
    if |names| > 0 {
      var g := GroupName(x);
      var tail := names[1..];
      FlattenSnoc(items, x, tail);
      MembersSnoc(items, x, names[0]);
      assert Flatten(items, names) == Members(items, names[0]) + Flatten(items, tail);
      assert Flatten(items + [x], names) == Members(items + [x], names[0]) + Flatten(items + [x], tail);
      assert g in names <==> g == names[0] || g in tail;
      if g == names[0] {
        SnocHead(Members(items, names[0]), Flatten(items, tail), Flatten(items + [x], tail), x);
      } else {
        SnocTail(Members(items, names[0]), Flatten(items, tail), Flatten(items + [x], tail),
                 if g in tail then multiset{x} else multiset{});
      }
    }
  }

  lemma SnocHead(a: seq<Item>, rest: seq<Item>, rest': seq<Item>, x: Item)
    requires multiset(rest') == multiset(rest)
    ensures multiset((a + [x]) + rest') == multiset(a + rest) + multiset{x}
  {
  }

  lemma SnocTail(a: seq<Item>, rest: seq<Item>, rest': seq<Item>, extra: multiset<Item>)
    requires multiset(rest') == multiset(rest) + extra
    ensures multiset(a + rest') == multiset(a + rest) + extra
  {
  }

  lemma {:induction false} FlattenAppend(items: seq<Item>, names: seq<string>, g: string)
    ensures Flatten(items, names + [g]) == Flatten(items, names) + Members(items, g)
  {
    if |names| == 0 {
      assert names + [g] == [g];
      assert [g][1..] == [];
    } else {
      assert (names + [g])[1..] == names[1..] + [g];
      FlattenAppend(items, names[1..], g);
    }
  }

  /** The sections' names and items partition the list: every item lands in exactly one section, once. */
  lemma {:induction false} PartitionOfItems(items: seq<Item>)
    ensures multiset(Flatten(items, GroupNames(items))) == multiset(items)
  {
    if |items| > 0 {
      var init := items[..|items| - 1];
      var x := items[|items| - 1];
      assert items == init + [x];
      var names := GroupNames(init);
      var g := GroupName(x);
      PartitionOfItems(init);
      GroupNamesDistinctAndComplete(init);
      PairwiseDistinctNoRepeats(names);
      FlattenSnoc(init, x, names);
      if g !in names {
        FlattenAppend(items, names, g);
        MembersSnoc(init, x, g);
        AbsentNameHasNoMembers(init, g);
      }
    }
  }

  /** Every item of the active instrument appears in exactly one of its sections. */
  lemma SectionsCoverItemsOnce(testId: string, items: seq<Item>)
    ensures multiset(AllItems(Sections(testId, items))) == multiset(items)
  {
    AllItemsOfSections(testId, items, GroupNames(items));
    PartitionOfItems(items);
  }

  /** Items that declare neither a group nor a part all land, in order, in one "Questions" section. */
  lemma {:induction false} UngroupedItemsShareDefault(items: seq<Item>)
    requires |items| > 0
    requires forall i :: 0 <= i < |items| ==> !Truthy(items[i].group) && !Truthy(items[i].part)
    ensures GroupNames(items) == [DefaultGroup]
    ensures Members(items, DefaultGroup) == items
  {
    var n := |items|;
    var init := items[..n - 1];
    var x := items[n - 1];
    assert GroupName(x) == DefaultGroup;
    assert items == init + [x];
    if n == 1 {
      assert init == [];
      assert GroupNames(items) == [] + [DefaultGroup];
      assert Members(items, DefaultGroup) == [] + [x];
    } else {
      assert forall i :: 0 <= i < |init| ==> init[i] == items[i];
      UngroupedItemsShareDefault(init);
      assert GroupNames(items) == GroupNames(init);
      assert Members(items, DefaultGroup) == Members(init, DefaultGroup) + [x];
    }
  }
}
