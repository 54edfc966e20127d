/**
 * The helpers of the page header. Both header variants of the repository
 * carry the same four helpers line for line; this module models them once.
 */
module Header {
  import opened Strings
  import opened Lists

  /** Only the Enter key runs the search; every other key does nothing. */
  predicate TriggersSearch(key: string) {
    key == "Enter"
  }

  /** The number the "Filter by Tags" button reports. */
  function SelectedTagsCount(selectedTags: seq<string>): nat {
    |selectedTags|
  }

  /**
   * What the button prints after "Filter by Tags": `(n)` for n selected tags,
   * and nothing at all when none is selected.
   */
  function TagCountLabel(selectedTags: seq<string>): (r: string)
    ensures r == [] <==> |selectedTags| == 0
    ensures r != [] ==>
              && |r| >= 3 && r[0] == '(' && r[|r| - 1] == ')'
              && (forall i :: 1 <= i < |r| - 1 ==> IsDigit(r[i]))
              && DigitsValue(r[1..|r| - 1]) == |selectedTags|
  {
    var n := SelectedTagsCount(selectedTags);
    if n > 0 then
      var text := "(" + Decimal(n) + ")";
      assert text[1..|text| - 1] == Decimal(n);
      DecimalRoundTrip(n);
      text
    else ""
  }

  /**
   * "Clear all": one tag-filter toggle per tag of the selection as it was when
   * clicked, in list order, each applied to the selection the previous one left.
   */
  method ClearAllTags(selectedTags: seq<string>) returns (r: seq<string>)
    ensures r == ToggledEach(selectedTags, selectedTags)
    ensures NoDuplicates(selectedTags) ==> r == []
  {
    r := selectedTags;
    for i := 0 to |selectedTags|
      invariant ToggledEach(r, selectedTags[i..]) == ToggledEach(selectedTags, selectedTags)
      invariant NoDuplicates(selectedTags) ==> r == selectedTags[i..]
    {
      assert selectedTags[i..][1..] == selectedTags[i + 1..];
      if NoDuplicates(selectedTags) {
        ToggleHead(selectedTags[i..]);
      }
      r := Toggled(r, selectedTags[i]);
    }
  }

  /** A selection holding a tag twice is not emptied: the second toggle adds it back. */
  lemma ClearAllWithDuplicateKeepsTag(tag: string)
    ensures ToggledEach([tag, tag], [tag, tag]) == [tag]
  {
    var pair := [tag, tag];
    assert Toggled(pair, tag) == [];
    assert Toggled([], tag) == [tag];
    assert pair[1..] == [tag] && pair[1..][1..] == [];
    calc {
      ToggledEach(pair, pair);
      ToggledEach(Toggled(pair, tag), pair[1..]);
      ToggledEach([], [tag]);
      ToggledEach(Toggled([], tag), [tag][1..]);
      ToggledEach([tag], []);
    }
  }
}
