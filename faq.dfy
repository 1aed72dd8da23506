/** The FAQ section: a fixed table of question/answer items tagged by
    category, the category buttons derived from it, the filtered list for
    the selected category, and a single-open accordion over that list. */
module Faq {

  datatype QAItem = QAItem(question: string, answer: string, category: string)

  /** The FAQ table, in display order. */
  const Faqs: seq<QAItem> := [
    QAItem("What AI models are currently supported?",
      "Queryo currently supports Claude, GPT-4, Gemini, Deepseek, Llama, and Mistral. We regularly add new models as they become available. You can also integrate custom models via our API.",
      "General"),
    QAItem("Is my data secure and private?",
      "Yes, we take security seriously. All conversations are encrypted end-to-end, and we never store or train on your data. We comply with GDPR, SOC 2, and other security standards.",
      "Security"),
    QAItem("What happens to my conversations if I switch models?",
      "Your conversation context is preserved and maintained across all models. You can switch between different AI models mid-conversation without losing any context.",
      "Features"),
    QAItem("Can I use Queryo for my team?",
      "Absolutely! Our Professional and Enterprise plans support team collaboration. You can manage permissions, share conversations, and work together in real-time.",
      "Pricing"),
    QAItem("What is included in the free trial?",
      "The free trial gives you full access to all features for 14 days. You can access all supported AI models, use unlimited messages, and explore our advanced features.",
      "Pricing"),
    QAItem("How can I integrate Queryo with my existing tools?",
      "We provide a REST API and webhooks for integrations. Check our API documentation for detailed guides on connecting with your favorite tools.",
      "Integration"),
    QAItem("Can I self-host Queryo?",
      "Enterprise customers can request self-hosted or on-premise deployments. Contact our sales team for more information about private deployment options.",
      "Deployment"),
    QAItem("What are the rate limits?",
      "Rate limits depend on your plan. Starter has 100 messages/month, Professional has unlimited, and Enterprise has custom limits. All plans support concurrent connections.",
      "Technical")
  ]

  /** The category selected when the section is mounted. */
  const InitialCategory: string := "General"

  /** The sentinel index meaning "no item is open". */
  const NoneOpen: int := -1

  // ---------------------------------------------------------------------
  // Distinct values in first-seen order (the Set built from the mapped
  // categories and turned back into an array)
  // ---------------------------------------------------------------------

  ghost predicate NoDuplicates<T>(s: seq<T>) {
    forall i, j :: 0 <= i < j < |s| ==> s[i] != s[j]
  }

  /** Index of the first occurrence of x in xs. */
  function FirstIndex<T(==)>(xs: seq<T>, x: T): (k: nat)
    requires x in xs
    ensures k < |xs| && xs[k] == x && x !in xs[..k]
  {
    if xs[0] == x then 0
    else
      var k := 1 + FirstIndex(xs[1..], x);
      assert xs[..k] == [xs[0]] + xs[1..][..k - 1];
      k
  }

  /** A JavaScript Set keeps insertion order and ignores re-insertion, so
      converting it to an array yields each value once, at the position of
      its first insertion: a value is kept where it does not occur earlier. */
  function Distinct<T(==)>(xs: seq<T>): (r: seq<T>)
    ensures |r| <= |xs|
    ensures forall x :: x in r ==> x in xs
    decreases |xs|
  {
    if |xs| == 0 then []
    else
      var n := |xs| - 1;
      Distinct(xs[..n]) + (if xs[n] in xs[..n] then [] else [xs[n]])
  }

  lemma FirstIndexIsUnique<T>(xs: seq<T>, x: T, k: nat)
    requires k < |xs| && xs[k] == x && x !in xs[..k]
    ensures FirstIndex(xs, x) == k
  {
  }

  /** Exactly the values of xs appear in Distinct(xs). */
  lemma {:induction false} DistinctMembers<T>(xs: seq<T>)
    ensures forall x :: x in Distinct(xs) <==> x in xs
    decreases |xs|
  {
    if |xs| > 0 {
      var n := |xs| - 1;
      DistinctMembers(xs[..n]);
      assert xs == xs[..n] + [xs[n]];
    }
  }

  /** No value appears twice in Distinct(xs). */
  lemma {:induction false} DistinctNoDuplicates<T>(xs: seq<T>)
    ensures NoDuplicates(Distinct(xs))
    decreases |xs|
  {
    if |xs| > 0 {
      var n := |xs| - 1;
      DistinctNoDuplicates(xs[..n]);
      DistinctMembers(xs[..n]);
    }
  }

  /** A value occurring in a prefix has the same first index in the prefix
      as in the whole sequence. */
  lemma FirstIndexInPrefix<T>(xs: seq<T>, n: nat, z: T)
    requires n <= |xs| && z in xs[..n]
    ensures FirstIndex(xs, z) == FirstIndex(xs[..n], z) < n
  {
    var f := FirstIndex(xs[..n], z);
    assert xs[..f] == xs[..n][..f];
    FirstIndexIsUnique(xs, z, f);
  }

  /** The values of Distinct(xs) are ordered by their first occurrence in xs. */
  lemma {:induction false} DistinctFirstSeen<T>(xs: seq<T>)
    ensures forall x :: x in Distinct(xs) ==> x in xs
    ensures forall i, j :: 0 <= i < j < |Distinct(xs)| ==>
              FirstIndex(xs, Distinct(xs)[i]) < FirstIndex(xs, Distinct(xs)[j])
    decreases |xs|
  {
    DistinctMembers(xs);
    if |xs| > 0 {
      var n := |xs| - 1;
      var init, y, r := xs[..n], xs[n], Distinct(xs);
      DistinctFirstSeen(init);
      DistinctMembers(init);
      var p := Distinct(init);
      assert r == p + (if y in init then [] else [y]);
      forall i, j | 0 <= i < j < |r|
        ensures FirstIndex(xs, r[i]) < FirstIndex(xs, r[j])
      {
        assert r[i] == p[i] && p[i] in init;
        FirstIndexInPrefix(xs, n, p[i]);
        if j < |p| {
          assert r[j] == p[j] && p[j] in init;
          FirstIndexInPrefix(xs, n, p[j]);
        } else {
          assert r[j] == y && y !in init;
          assert xs[..n] == init;
          FirstIndexIsUnique(xs, y, n);
        }
      }
    }
  }

  /** Each value appears at most once, exactly the values of xs appear,
      and they appear in the order of their first occurrence in xs. */
  lemma DistinctIsFirstSeenOrder<T>(xs: seq<T>)
    ensures NoDuplicates(Distinct(xs))
    ensures forall x :: x in Distinct(xs) <==> x in xs
    ensures forall i, j :: 0 <= i < j < |Distinct(xs)| ==>
              FirstIndex(xs, Distinct(xs)[i]) < FirstIndex(xs, Distinct(xs)[j])
  {
    DistinctMembers(xs);
    DistinctNoDuplicates(xs);
    DistinctFirstSeen(xs);
  }

  /** The category of every item, in table order. */
  function CategoryColumn(items: seq<QAItem>): (cs: seq<string>)
    ensures |cs| == |items|
    ensures forall k :: 0 <= k < |items| ==> cs[k] == items[k].category
  {
    seq(|items|, k requires 0 <= k < |items| => items[k].category)
  }

  /** The category buttons: each category of the table once, in first-seen order. */
  function Categories(items: seq<QAItem>): (cs: seq<string>)
    ensures |cs| <= |items|
    ensures forall c :: c in cs ==> exists k :: 0 <= k < |items| && items[k].category == c
  {
    Distinct(CategoryColumn(items))
  }

  /** A category has a button exactly when some item carries it; no button is repeated. */
  lemma CategoriesAreTheItemCategories(items: seq<QAItem>)
    ensures NoDuplicates(Categories(items))
    ensures forall c :: c in Categories(items) <==> c in CategoryColumn(items)
    ensures forall c :: c in Categories(items) <==>
              exists k :: 0 <= k < |items| && items[k].category == c
    ensures forall i, j :: 0 <= i < j < |Categories(items)| ==>
              FirstIndex(CategoryColumn(items), Categories(items)[i])
                < FirstIndex(CategoryColumn(items), Categories(items)[j])
  {
    var cs := CategoryColumn(items);
    DistinctIsFirstSeenOrder(cs);
    forall c
      ensures c in Categories(items) <==> exists k :: 0 <= k < |items| && items[k].category == c
    {
      if c in cs {
        var k :| 0 <= k < |cs| && cs[k] == c;
        assert items[k].category == c;
      }
    }
  }

  // ---------------------------------------------------------------------
  // The filtered list of the selected category
  // ---------------------------------------------------------------------

  /** The items whose category is c, in table order. */
  function Filtered(items: seq<QAItem>, c: string): (r: seq<QAItem>)
    ensures |r| <= |items|
    ensures forall x :: x in r ==> x in items && x.category == c
    decreases |items|
  {
    if |items| == 0 then []
    else
      var last := items[|items| - 1];
      Filtered(items[..|items| - 1], c) + (if last.category == c then [last] else [])
  }

  /** The positions, in increasing order, of the items whose category is c. */
  ghost function FilterIndices(items: seq<QAItem>, c: string): seq<nat>
    decreases |items|
  {
    if |items| == 0 then []
    else
      FilterIndices(items[..|items| - 1], c)
        + (if items[|items| - 1].category == c then [|items| - 1] else [])
  }

  /** r is the subsequence of items picked, in increasing order, at the
      positions idx, and idx holds exactly the positions whose category is c. */
  ghost predicate PicksExactly(r: seq<QAItem>, items: seq<QAItem>, c: string, idx: seq<nat>) {
    |idx| == |r|
    && (forall j :: 0 <= j < |idx| ==> idx[j] < |items| && r[j] == items[idx[j]])
    && (forall i, j :: 0 <= i < j < |idx| ==> idx[i] < idx[j])
    && (forall k :: 0 <= k < |items| ==> (items[k].category == c <==> k in idx))
  }

  /** Element j of the filtered list is the item at position j of the indices. */
  lemma {:induction false} FilteredAtIndices(items: seq<QAItem>, c: string)
    ensures |FilterIndices(items, c)| == |Filtered(items, c)|
    ensures forall j :: 0 <= j < |FilterIndices(items, c)| ==>
              FilterIndices(items, c)[j] < |items| && Filtered(items, c)[j] == items[FilterIndices(items, c)[j]]
    decreases |items|
  {
    if |items| > 0 {
      var n := |items| - 1;
      var init := items[..n];
      FilteredAtIndices(init, c);
      var r0, idx0 := Filtered(init, c), FilterIndices(init, c);
      var r, idx := Filtered(items, c), FilterIndices(items, c);
      assert r == r0 + (if items[n].category == c then [items[n]] else []);
      assert idx == idx0 + (if items[n].category == c then [n] else []);
      forall j | 0 <= j < |idx|
        ensures idx[j] < |items| && r[j] == items[idx[j]]
      {
        if j < |idx0| {
          assert idx[j] == idx0[j] && r[j] == r0[j] && init[idx0[j]] == items[idx0[j]];
        }
      }
    }
  }

  /** The indices increase strictly and are exactly the positions whose category is c. */
  lemma {:induction false} FilterIndicesAreThePositions(items: seq<QAItem>, c: string)
    ensures forall j :: 0 <= j < |FilterIndices(items, c)| ==> FilterIndices(items, c)[j] < |items|
    ensures forall i, j :: 0 <= i < j < |FilterIndices(items, c)| ==>
              FilterIndices(items, c)[i] < FilterIndices(items, c)[j]
    ensures forall k :: 0 <= k < |items| ==> (items[k].category == c <==> k in FilterIndices(items, c))
    decreases |items|
  {
    if |items| > 0 {
      var n := |items| - 1;
      var init := items[..n];
      FilterIndicesAreThePositions(init, c);
      var idx0 := FilterIndices(init, c);
      var idx := FilterIndices(items, c);
      assert idx == idx0 + (if items[n].category == c then [n] else []);
      forall k | 0 <= k < |items| ensures items[k].category == c <==> k in idx {
        if k < n {
          assert items[k] == init[k];
        } else {
          assert k !in idx0;
        }
      }
    }
  }

  /** The filtered list is exactly the order-preserving subsequence of the
      items whose category equals c. */
  lemma FilteredIsOrderedSubsequence(items: seq<QAItem>, c: string)
    ensures PicksExactly(Filtered(items, c), items, c, FilterIndices(items, c))
  {
    FilteredAtIndices(items, c);
    FilterIndicesAreThePositions(items, c);
  }

  /** The filtered list is non-empty exactly when c is one of the derived
      categories: every category button shows at least one item. */
  lemma FilteredNonEmptyIffCategory(items: seq<QAItem>, c: string)
    ensures |Filtered(items, c)| > 0 <==> c in Categories(items)
  {
    CategoriesAreTheItemCategories(items);
    FilteredIsOrderedSubsequence(items, c);
    var idx := FilterIndices(items, c);
    if |idx| > 0 {
      assert items[idx[0]].category == c;
    }
    if k :| 0 <= k < |items| && items[k].category == c {
      assert k in idx;
    }
  }

  // ---------------------------------------------------------------------
  // Facts about the concrete table
  // ---------------------------------------------------------------------

  /** The category column of the table, one entry per question: this is
      CategoryColumn(Faqs) written out, and FaqCategories proves the two
      equal. Facts about the buttons are proved over this short column
      rather than over the full question table. */
  const FaqColumn: seq<string> := ["General", "Security", "Features", "Pricing", "Pricing",
                                   "Integration", "Deployment", "Technical"]

  /** The buttons derived from the category column. */
  lemma FaqColumnButtons()
    ensures Distinct(FaqColumn)
      == ["General", "Security", "Features", "Pricing", "Integration", "Deployment", "Technical"]
  {
    var xs := FaqColumn;
    assert xs[..1][..0] == xs[..0];
    assert Distinct(xs[..1]) == ["General"];
    assert xs[..2][..1] == xs[..1];
    assert Distinct(xs[..2]) == ["General", "Security"];
    assert xs[..3][..2] == xs[..2];
    assert Distinct(xs[..3]) == ["General", "Security", "Features"];
    assert xs[..4][..3] == xs[..3];
    assert Distinct(xs[..4]) == ["General", "Security", "Features", "Pricing"];
    assert xs[..5][..4] == xs[..4];
    assert Distinct(xs[..5]) == ["General", "Security", "Features", "Pricing"];
    assert xs[..6][..5] == xs[..5];
    assert Distinct(xs[..6]) == ["General", "Security", "Features", "Pricing", "Integration"];
    assert xs[..7][..6] == xs[..6];
    assert Distinct(xs[..7])
      == ["General", "Security", "Features", "Pricing", "Integration", "Deployment"];
    assert xs[..8][..7] == xs[..7];
    assert xs[..8] == xs;
  }

  /** The derived buttons of the table, and the initial category is the first of them. */
  lemma FaqCategories()
    ensures Categories(Faqs)
      == ["General", "Security", "Features", "Pricing", "Integration", "Deployment", "Technical"]
    ensures Categories(Faqs)[0] == InitialCategory
  {
    assert CategoryColumn(Faqs) == FaqColumn;
    FaqColumnButtons();
  }

  /** A strictly increasing sequence drawn from S is no longer than S. */
  lemma {:induction false} IncreasingWithin(s: seq<nat>, S: set<nat>)
    requires forall i, j :: 0 <= i < j < |s| ==> s[i] < s[j]
    requires forall j :: 0 <= j < |s| ==> s[j] in S
    ensures |s| <= |S|
  {
    if |s| > 0 {
      IncreasingWithin(s[1..], S - {s[0]});
    }
  }

  /** A category carried by exactly one item selects a one-item list. */
  lemma FilteredSingleton(items: seq<QAItem>, c: string, k: nat)
    requires k < |items| && items[k].category == c
    requires forall m :: 0 <= m < |items| && items[m].category == c ==> m == k
    ensures Filtered(items, c) == [items[k]]
  {
    FilteredIsOrderedSubsequence(items, c);
    var idx := FilterIndices(items, c);
    assert k in idx;
    forall j | 0 <= j < |idx| ensures idx[j] == k {
      assert idx[j] in idx;
    }
    IncreasingWithin(idx, {k});
  }

  /** A category carried by exactly two items selects those two, in order. */
  lemma FilteredPair(items: seq<QAItem>, c: string, k1: nat, k2: nat)
    requires k1 < k2 < |items| && items[k1].category == c && items[k2].category == c
    requires forall m :: 0 <= m < |items| && items[m].category == c ==> m == k1 || m == k2
    ensures Filtered(items, c) == [items[k1], items[k2]]
  {
    FilteredIsOrderedSubsequence(items, c);
    var idx := FilterIndices(items, c);
    assert k1 in idx && k2 in idx;
    forall j | 0 <= j < |idx| ensures idx[j] == k1 || idx[j] == k2 {
      assert idx[j] in idx;
    }
    IncreasingWithin(idx, {k1, k2});
    assert |idx| == 2;
    assert idx[0] < idx[1];
    assert idx == [k1, k2];
  }

  /** "Pricing" selects the two pricing questions, in table order. */
  lemma FaqPricingQuestions()
    ensures Filtered(Faqs, "Pricing") == [Faqs[3], Faqs[4]]
  {
    assert CategoryColumn(Faqs) == FaqColumn;
    FilteredPair(Faqs, "Pricing", 3, 4);
  }

  /** In a table with the FAQ's category column, every category other
      than "Pricing" selects exactly one item. */
  lemma OneItemPerOtherCategory(items: seq<QAItem>, c: string)
    requires CategoryColumn(items) == FaqColumn
    requires c in FaqColumn && c != "Pricing"
    ensures |Filtered(items, c)| == 1
  {
    var k := FirstIndex(FaqColumn, c);
    assert k != 3 && k != 4;
    FilteredSingleton(items, c, k);
  }

  /** Every category button other than "Pricing" selects exactly one item. */
  lemma FaqOtherCategories()
    ensures forall c :: c in Categories(Faqs) && c != "Pricing" ==> |Filtered(Faqs, c)| == 1
  {
    FaqCategories();
    assert CategoryColumn(Faqs) == FaqColumn;
    forall c | c in Categories(Faqs) && c != "Pricing"
      ensures |Filtered(Faqs, c)| == 1
    {
      OneItemPerOtherCategory(Faqs, c);
    }
  }

  // ---------------------------------------------------------------------
  // The accordion: which visible item is open
  // ---------------------------------------------------------------------

  /** The new open index after a click on the question at position index:
      the open question closes, any other question opens. */
  function ToggleIndex(activeIndex: int, index: nat): (r: int)
    ensures r == NoneOpen || r == index
    ensures r == NoneOpen <==> activeIndex == index
  {
    if activeIndex == index then NoneOpen else index
  }

  /** Clicking the same question twice leaves it open exactly when it was
      open before the two clicks, and nothing else open. */
  lemma ToggleTwice(activeIndex: int, index: nat)
    ensures ToggleIndex(ToggleIndex(activeIndex, index), index)
      == if activeIndex == index then index else NoneOpen
  {
  }

  /** The expanded flag of each of the n visible items: an item is expanded
      when its position equals the open index. */
  function OpenFlags(activeIndex: int, n: nat): (flags: seq<bool>)
    ensures |flags| == n
    ensures forall k :: 0 <= k < n ==> (flags[k] <==> k == activeIndex)
  {
    seq(n, k requires 0 <= k < n => k == activeIndex)
  }

  /** At most one item is expanded, and one is expanded exactly when the
      open index points into the visible list. */
  lemma AtMostOneOpen(activeIndex: int, n: nat)
    ensures forall i, j :: 0 <= i < j < n ==> !(OpenFlags(activeIndex, n)[i] && OpenFlags(activeIndex, n)[j])
    ensures (exists k :: 0 <= k < n && OpenFlags(activeIndex, n)[k]) <==> 0 <= activeIndex < n
  {
    if 0 <= activeIndex < n {
      assert OpenFlags(activeIndex, n)[activeIndex];
    }
  }

  // ---------------------------------------------------------------------
  // The component state: selected category and open index
  // ---------------------------------------------------------------------

  class FaqSection {
    /** The question table the section renders. */
    const items: seq<QAItem>
    var selectedCategory: string
    var activeIndex: int

    /** The items shown for the selected category. */
    function Visible(): (v: seq<QAItem>)
      reads this
      ensures |v| <= |items|
      ensures forall x :: x in v ==> x in items && x.category == selectedCategory
    {
      Filtered(items, selectedCategory)
    }

    /** The expanded flag of each visible item. */
    function OpenItems(): (flags: seq<bool>)
      reads this
      ensures |flags| == |Visible()|
      ensures forall k :: 0 <= k < |flags| ==> (flags[k] <==> k == activeIndex)
      ensures forall i, j :: 0 <= i < j < |flags| ==> !(flags[i] && flags[j])
      ensures (exists k :: 0 <= k < |flags| && flags[k]) <==> 0 <= activeIndex < |Visible()|
    {
      AtMostOneOpen(activeIndex, |Visible()|);
      OpenFlags(activeIndex, |Visible()|)
    }

    /** Either nothing is open or the open index points at a visible item.
        The handlers do not rely on it; the constructor and Toggle establish
        it, and SelectCategory establishes it exactly for a derived category. */
    ghost predicate Valid()
      reads this
    {
      activeIndex == NoneOpen || 0 <= activeIndex < |Visible()|
    }

    /** Mounting the section over a question table (the page passes
        Faqs, which meets the requirement by FaqCategories): "General" is
        selected and its first question is open. */
    constructor (table: seq<QAItem>)
      requires InitialCategory in Categories(table)
      ensures items == table
      ensures selectedCategory == InitialCategory && activeIndex == 0
      ensures Valid() && OpenItems()[0]
    {
      items := table;
      selectedCategory := InitialCategory;
      activeIndex := 0;
      new;
      FilteredNonEmptyIffCategory(table, InitialCategory);
    }

    /** A click on a category button: select it and open its first item.
        The open item exists exactly when the category is a derived one,
        which every rendered button is. */
    method SelectCategory(category: string)
      modifies this
      ensures selectedCategory == category && activeIndex == 0
      ensures Valid() <==> category in Categories(items)
    {
      selectedCategory := category;
      activeIndex := 0;
      FilteredNonEmptyIffCategory(items, category);
    }

    /** A click on the question at position index of the visible list:
        close it if it is the open one, otherwise open it (closing any
        other). */
    method Toggle(index: nat)
      requires index < |Visible()|
      modifies this
      ensures selectedCategory == old(selectedCategory)
      ensures activeIndex == ToggleIndex(old(activeIndex), index)
      ensures Valid()
      ensures OpenItems()[index] <==> !old(OpenItems())[index]
      ensures forall k :: 0 <= k < |Visible()| && k != index ==> !OpenItems()[k]
    {
      activeIndex := ToggleIndex(activeIndex, index);
    }
  }
}
