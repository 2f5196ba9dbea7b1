/**
 * The read-only instrument catalog that the session state is measured against:
 * the list of instruments (`TEST_CONFIG`) and the item lists keyed by instrument
 * id (`QUESTIONS`).  Both are supplied from outside app.js and never change.
 */
module Catalog {
  import opened Wrappers

  /** One question.  `group` and `part` are the optional section names an item may declare. */
  datatype Item = Item(id: string, group: Option<string>, part: Option<string>)

  /** One instrument of `TEST_CONFIG`: its id and the number of levels of its response scale. */
  datatype TestConfig = TestConfig(id: string, scaleLength: nat)

  /** `QUESTIONS`: instrument id to its ordered item list. */
  type Questions = map<string, seq<Item>>

  /** The section name used for an item that declares neither a group nor a part. */
  const DefaultGroup: string := "Questions"

  /** JavaScript truthiness of an optional string: absent and "" are both false. */
  predicate Truthy(s: Option<string>) {
    s.Some? && s.value != ""
  }

  /** `item.group || item.part || "Questions"`: never empty, and always one of the three candidates. */
  function GroupName(item: Item): (name: string)
    ensures name != ""
    ensures name == DefaultGroup || Some(name) == item.group || Some(name) == item.part
    ensures Truthy(item.group) ==> Some(name) == item.group
    ensures !Truthy(item.group) && Truthy(item.part) ==> Some(name) == item.part
    ensures !Truthy(item.group) && !Truthy(item.part) ==> name == DefaultGroup
  {
    if Truthy(item.group) then item.group.value
    else if Truthy(item.part) then item.part.value
    else DefaultGroup
  }

  /** `QUESTIONS[testId] || []`: the items of an instrument; none for an unknown id. */
  function ItemsOf(questions: Questions, testId: string): (items: seq<Item>)
    ensures testId !in questions ==> items == []
    ensures testId in questions ==> items == questions[testId]
  {
    if testId in questions then questions[testId] else []
  }

  /** `TEST_CONFIG.find(t => t.id === testId)`: the FIRST instrument with that id, if any. */
  function FindConfig(config: seq<TestConfig>, testId: string): (r: Option<TestConfig>)
    ensures r.None? <==> forall i :: 0 <= i < |config| ==> config[i].id != testId
    ensures r.Some? ==> exists i :: 0 <= i < |config| && config[i] == r.value && r.value.id == testId
                                    && forall j :: 0 <= j < i ==> config[j].id != testId
  {
    if |config| == 0 then None
    else if config[0].id == testId then Some(config[0])
    else
      var r := FindConfig(config[1..], testId);
      assert forall i :: 1 <= i < |config| ==> config[i] == config[1..][i - 1];
      r
  }

  /** The set of ids of an item list: never more ids than items, exactly as many when ids are distinct. */
  function Ids(items: seq<Item>): (ids: set<string>)
    ensures forall i :: 0 <= i < |items| ==> items[i].id in ids
    ensures forall id :: id in ids ==> exists i :: 0 <= i < |items| && items[i].id == id
    ensures |ids| <= |items|
    ensures DistinctIds(items) ==> |ids| == |items|
  {
    if |items| == 0 then {}
    else
      var rest := Ids(items[..|items| - 1]);
      assert forall i :: 0 <= i < |items| - 1 ==> items[..|items| - 1][i] == items[i];
      rest + {items[|items| - 1].id}
  }

  /** No two items of the list share an id. */
  predicate DistinctIds(items: seq<Item>) {
    forall i, j :: 0 <= i < j < |items| ==> items[i].id != items[j].id
  }
}
