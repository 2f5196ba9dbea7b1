/**
 * The completion percentages of app.js: `calculateProgress` for one
 * instrument, `overallProgress` over the whole instrument list, and the
 * answered/total counter of a section header.
 */
module Progress {
  import opened Wrappers
  import opened Catalog
  import opened Session

  /**
   * `Math.round(answered / total * 100)` for a non-negative ratio, in integers:
   * the result is the nearest integer to 100*answered/total, halves rounded up.
   */
  function RoundedPercent(answered: nat, total: nat): (r: nat)
    requires total > 0
    ensures 2 * total * r <= 200 * answered + total < 2 * total * (r + 1)
  {
    var n, d := 200 * answered + total, 2 * total;
    var q := n / d;
    assert n == d * q + n % d;
    q
  }

  /** `total > 0 ? Math.round(answered / total * 100) : 0`. */
  function Percent(answered: nat, total: nat): (r: nat)
    ensures total == 0 ==> r == 0
    ensures total > 0 ==> 2 * total * r <= 200 * answered + total < 2 * total * (r + 1)
    ensures answered <= total ==> r <= 100
    ensures 0 < total && answered <= total ==> (r == 100 <==> 200 * answered >= 199 * total)
  {
    if total > 0 then
      var r := RoundedPercent(answered, total);
      RoundingFacts(answered, total, r);
      r
    else 0
  }

  /** What the two rounding bounds imply when no more items are answered than exist. */
  lemma RoundingFacts(answered: nat, total: nat, r: nat)
    requires total > 0
    requires 2 * total * r <= 200 * answered + total < 2 * total * (r + 1)
    ensures answered <= total ==> r <= 100
    ensures answered <= total ==> (r == 100 <==> 200 * answered >= 199 * total)
  {
    if answered <= total {
      if r >= 101 {
        MulMonotone(2 * total, 101, r);
        assert false;
      }
      if r <= 99 {
        MulMonotone(2 * total, r + 1, 100);
        assert 200 * answered < 199 * total;
      }
    }
  }

  lemma MulMonotone(x: nat, y: nat, z: nat)
    requires y <= z
    ensures x * y <= x * z
  {
    assert x * z == x * y + x * (z - y);
  }

  /** For instruments under 200 items the percentage is 100 exactly when every item is answered. */
  lemma {:induction false} PercentFullIffAll(answered: nat, total: nat)
    requires 0 < total < 200 && answered <= total
    ensures Percent(answered, total) == 100 <==> answered == total
  {
    if answered < total {
      assert 200 * answered <= 200 * total - 200 < 199 * total;
    }
  }

  /** From 200 items on, one unanswered item can still round to 100. */
  lemma RoundsUpToFull()
    ensures Percent(199, 200) == 100
  {
  }

  /** `Object.keys(responses[testId] || {}).length`. */
  function AnsweredCount(responses: Responses, testId: string): (n: nat)
    ensures n == |AnswersOf(responses, testId).Keys|
    ensures testId !in responses ==> n == 0
  {
    |AnswersOf(responses, testId).Keys|
  }

  /** `calculateProgress(testId)`: 0 for an instrument without items, otherwise the rounded percentage answered. */
  function CalculateProgress(questions: Questions, responses: Responses, testId: string): (r: nat)
    ensures |ItemsOf(questions, testId)| == 0 ==> r == 0
    ensures AnsweredCount(responses, testId) == 0 ==> r == 0
    ensures AnsweredCount(responses, testId) <= |ItemsOf(questions, testId)| ==> r <= 100
    ensures |ItemsOf(questions, testId)| > 0 ==>
              2 * |ItemsOf(questions, testId)| * r
              <= 200 * AnsweredCount(responses, testId) + |ItemsOf(questions, testId)|
              < 2 * |ItemsOf(questions, testId)| * (r + 1)
  {
    Percent(AnsweredCount(responses, testId), |ItemsOf(questions, testId)|)
  }

  /** The stored answer keys of an instrument are ids of its items (true of everything the UI stores). */
  predicate AnswersWithinItems(questions: Questions, responses: Responses, testId: string) {
    AnswersOf(responses, testId).Keys <= Ids(ItemsOf(questions, testId))
  }

  /** With the stored keys among the instrument's item ids, the percentage lies in [0, 100]. */
  lemma ProgressBounded(questions: Questions, responses: Responses, testId: string)
    requires AnswersWithinItems(questions, responses, testId)
    ensures 0 <= CalculateProgress(questions, responses, testId) <= 100
  {
    var ids := Ids(ItemsOf(questions, testId));
    var keys := AnswersOf(responses, testId).Keys;
    assert |keys| <= |ids| by { SubsetCard(keys, ids); }
  }

  /**
   * With the stored keys among the item ids, distinct ids and fewer than 200
   * items, the percentage is 100 exactly when every item has an answer.
   */
  lemma ProgressComplete(questions: Questions, responses: Responses, testId: string)
    requires AnswersWithinItems(questions, responses, testId)
    requires DistinctIds(ItemsOf(questions, testId))
    requires 0 < |ItemsOf(questions, testId)| < 200
    ensures CalculateProgress(questions, responses, testId) == 100 <==>
            forall i :: 0 <= i < |ItemsOf(questions, testId)| ==> ItemsOf(questions, testId)[i].id in AnswersOf(responses, testId)
  {
    var items := ItemsOf(questions, testId);
    var ids := Ids(items);
    var keys := AnswersOf(responses, testId).Keys;
    SubsetCard(keys, ids);
    PercentFullIffAll(|keys|, |items|);
    if forall i :: 0 <= i < |items| ==> items[i].id in AnswersOf(responses, testId) {
      assert ids <= keys;
      assert keys == ids;
    } else {
      var i :| 0 <= i < |items| && items[i].id !in AnswersOf(responses, testId);
      assert keys < ids;
      StrictSubsetCard(keys, ids);
    }
  }

  lemma SubsetCard(a: set<string>, b: set<string>)
    requires a <= b
    ensures |a| <= |b|
  {
    assert b == a + (b - a);
  }

  lemma StrictSubsetCard(a: set<string>, b: set<string>)
    requires a < b
    ensures |a| < |b|
  {
    assert b == a + (b - a);
    assert b - a != {};
  }

  // ---------------------------------------------------------------- overall

  /** The summed item counts of the listed instruments. */
  function TotalItems(config: seq<TestConfig>, questions: Questions): nat {
    if |config| == 0 then 0
    else TotalItems(config[..|config| - 1], questions) + |ItemsOf(questions, config[|config| - 1].id)|
  }

  /** The summed answered counts of the listed instruments. */
  function TotalAnswered(config: seq<TestConfig>, responses: Responses): nat {
    if |config| == 0 then 0
    else TotalAnswered(config[..|config| - 1], responses) + AnsweredCount(responses, config[|config| - 1].id)
  }

  /**
   * `overallProgress`: the `forEach` accumulation over `TEST_CONFIG` of the
   * item and answered counts, then one rounded percentage of the two sums
   * (a weighted aggregate, not an average of the per-instrument percentages).
   */
  method OverallProgress(config: seq<TestConfig>, questions: Questions, responses: Responses) returns (r: nat)
    ensures r == Percent(TotalAnswered(config, responses), TotalItems(config, questions))
  {
    var total, answered := 0, 0;
    for i := 0 to |config|
      invariant total == TotalItems(config[..i], questions)
      invariant answered == TotalAnswered(config[..i], responses)
    {
      assert config[..i + 1][..i] == config[..i];
      total := total + |ItemsOf(questions, config[i].id)|;
      answered := answered + AnsweredCount(responses, config[i].id);
    }
    assert config[..|config|] == config;
    r := if total > 0 then RoundedPercent(answered, total) else 0;
  }

  /** When no instrument has more answers than items, neither do the sums, so the overall figure is at most 100. */
  lemma {:induction false} OverallBounded(config: seq<TestConfig>, questions: Questions, responses: Responses)
    requires forall i :: 0 <= i < |config| ==> AnsweredCount(responses, config[i].id) <= |ItemsOf(questions, config[i].id)|
    ensures TotalAnswered(config, responses) <= TotalItems(config, questions)
    ensures Percent(TotalAnswered(config, responses), TotalItems(config, questions)) <= 100
  {
    if |config| > 0 {
      var init := config[..|config| - 1];
      assert forall i :: 0 <= i < |init| ==> init[i] == config[i];
      OverallBounded(init, questions, responses);
    }
  }

  /** With one instrument the overall figure is that instrument's own percentage. */
  lemma OverallOfOne(t: TestConfig, questions: Questions, responses: Responses)
    ensures Percent(TotalAnswered([t], responses), TotalItems([t], questions)) == CalculateProgress(questions, responses, t.id)
  {
    assert [t][..0] == [];
  }

  /** Two items of two answered plus eighteen unanswered gives 10, not the 50 an average would. */
  lemma OverallIsWeighted()
    ensures var config := [TestConfig("a", 4), TestConfig("b", 4)];
            var questions := map["a" := SampleItems("a", 2), "b" := SampleItems("b", 18)];
            var responses := map["a" := map["a1" := 0, "a2" := 3]];
            AnswersWithinItems(questions, responses, "a") && AnswersWithinItems(questions, responses, "b")
            && Percent(TotalAnswered(config, responses), TotalItems(config, questions)) == 10
            && (CalculateProgress(questions, responses, "a") + CalculateProgress(questions, responses, "b")) / 2 == 50
  {
    var config := [TestConfig("a", 4), TestConfig("b", 4)];
    var questions := map["a" := SampleItems("a", 2), "b" := SampleItems("b", 18)];
    var responses := map["a" := map["a1" := 0, "a2" := 3]];
    var inner: map<string, int> := map["a1" := 0, "a2" := 3];
    assert inner.Keys == {"a1", "a2"};
    var items := SampleItems("a", 2);
    assert items[0].id == "a1" && items[1].id == "a2";
    assert AnsweredCount(responses, "a") == 2;
    assert AnsweredCount(responses, "b") == 0;
    assert config[..1] == [TestConfig("a", 4)];
    assert config[..1][..0] == [];
    assert TotalItems(config, questions) == 20;
    assert TotalAnswered(config, responses) == 2;
    assert Percent(2, 20) == 10;
    assert CalculateProgress(questions, responses, "a") == 100;
  }

  /** `n` items of one instrument, with the ids `prefix` + "1" up to `prefix` + `n`, as the catalog numbers them. */
  function SampleItems(prefix: string, n: nat): (items: seq<Item>)
    ensures |items| == n
  {
    seq(n, (k: nat) => Item(prefix + Numeral(k + 1), None, None))
  }

  /** The decimal digits of `k`. */
  function Numeral(k: nat): string
    decreases k
  {
    if k < 10 then [(48 + k) as char] else Numeral(k / 10) + Numeral(k % 10)
  }

  // ---------------------------------------------------------------- effect of the handlers

  /** Answering adds one to the instrument's answered count exactly when the item had no answer yet. */
  lemma AnswerCount(st: SessionState, testId: string, itemId: string, value: int)
    ensures AnsweredCount(WithAnswer(st, testId, itemId, value).responses, testId)
         == AnsweredCount(st.responses, testId) + (if itemId in AnswersOf(st.responses, testId) then 0 else 1)
  {
    var a := AnswersOf(st.responses, testId);
    if itemId !in a {
      assert (a[itemId := value]).Keys == a.Keys + {itemId};
    } else {
      assert (a[itemId := value]).Keys == a.Keys;
    }
  }

  /** Clearing takes one from the answered count exactly when the item had an answer. */
  lemma ClearCount(st: SessionState, testId: string, itemId: string)
    ensures AnsweredCount(WithoutAnswer(st, testId, itemId).responses, testId)
         == AnsweredCount(st.responses, testId) - (if itemId in AnswersOf(st.responses, testId) then 1 else 0)
  {
    var a := AnswersOf(st.responses, testId);
    if itemId in a {
      assert (a - {itemId}).Keys == a.Keys - {itemId};
    } else {
      assert (a - {itemId}).Keys == a.Keys;
    }
  }

  // ---------------------------------------------------------------- section header

  /**
   * `section.items.filter(i => responses[i.id] !== undefined).length`: the
   * answered items of a section; the section is complete (`answered ===
   * total`) exactly when every one of its items has an answer.
   */
  function SectionAnswered(items: seq<Item>, answers: Answers): (n: nat)
    ensures n == |AnsweredPositions(items, answers)|
    ensures n <= |items|
    ensures n == |items| <==> forall i :: 0 <= i < |items| ==> items[i].id in answers
  {
    if |items| == 0 then 0
    else
      var init := items[..|items| - 1];
      var rest := SectionAnswered(init, answers);
      assert forall i :: 0 <= i < |init| ==> init[i] == items[i];
      var last: set<nat> := if items[|items| - 1].id in answers then {|items| - 1} else {};
      assert AnsweredPositions(items, answers) == AnsweredPositions(init, answers) + last;
      rest + (if items[|items| - 1].id in answers then 1 else 0)
  }

  /** The positions of a section's items that have an answer. */
  function AnsweredPositions(items: seq<Item>, answers: Answers): set<nat> {
    set i: nat | i < |items| && items[i].id in answers
  }
}
