/**
 * The "remove if present, append if absent" selection lists used for the
 * selected users and the selected tags.
 */
module Lists {

  /** `list.filter(x => x !== v)`: every occurrence of `v` removed, the rest kept in order. */
  function Without(list: seq<string>, v: string): (r: seq<string>)
    ensures v !in r
    ensures forall y :: y in r <==> y in list && y != v
    ensures |r| <= |list|
    ensures v in list <==> |r| < |list|
  {
    if list == [] then []
    else if list[0] == v then Without(list[1..], v)
    else [list[0]] + Without(list[1..], v)
  }

  /** Filtering distributes over concatenation, so the survivors keep their relative order. */
  lemma {:induction false} WithoutAppend(a: seq<string>, b: seq<string>, v: string)
    ensures Without(a + b, v) == Without(a, v) + Without(b, v)
  {
    if a != [] {
      WithoutAppend(a[1..], b, v);
      assert (a + b)[1..] == a[1..] + b;
    } else {
      assert a + b == b;
    }
  }

  lemma {:induction false} WithoutAbsent(list: seq<string>, v: string)
    requires v !in list
    ensures Without(list, v) == list
  {
    if list != [] {
      WithoutAbsent(list[1..], v);
    }
  }

  /** The toggle behind the tag filter and the user avatars. */
  function Toggled(list: seq<string>, v: string): (r: seq<string>)
    ensures v in list ==> v !in r && forall y :: y != v ==> (y in r <==> y in list)
    ensures v in list ==> |r| < |list|
    ensures v !in list ==> r == list + [v]
  {
    if v in list then Without(list, v) else list + [v]
  }

  /** Toggling an absent entry twice gives back the original list. */
  lemma ToggleTwiceRestores(list: seq<string>, v: string)
    requires v !in list
    ensures Toggled(Toggled(list, v), v) == list
  {
    WithoutAppend(list, [v], v);
    WithoutAbsent(list, v);
  }

  predicate NoDuplicates(list: seq<string>) {
    forall i, j :: 0 <= i < j < |list| ==> list[i] != list[j]
  }

  /** Removing a value keeps a list duplicate-free. */
  lemma {:induction false} WithoutKeepsNoDuplicates(list: seq<string>, v: string)
    requires NoDuplicates(list)
    ensures NoDuplicates(Without(list, v))
    decreases |list|
  {
    if list != [] {
      var rest := list[1..];
      assert NoDuplicates(rest) by {
        forall i, j | 0 <= i < j < |rest|
          ensures rest[i] != rest[j]
        {
          assert rest[i] == list[i + 1] && rest[j] == list[j + 1];
        }
      }
      WithoutKeepsNoDuplicates(rest, v);
      if list[0] != v {
        var w := Without(rest, v);
        assert list[0] !in rest by {
          forall j | 0 <= j < |rest|
            ensures rest[j] != list[0]
          {
            assert rest[j] == list[j + 1];
          }
        }
        assert list[0] !in w;
        var r := [list[0]] + w;
        forall i, j | 0 <= i < j < |r|
          ensures r[i] != r[j]
        {
          if i == 0 {
            assert r[j] == w[j - 1] && r[j] in w;
          } else {
            assert r[i] == w[i - 1] && r[j] == w[j - 1];
          }
        }
      }
    }
  }

  /** A toggle keeps a selection duplicate-free: it removes every copy, or appends a value that is absent. */
  lemma ToggledKeepsNoDuplicates(list: seq<string>, v: string)
    requires NoDuplicates(list)
    ensures NoDuplicates(Toggled(list, v))
  {
    if v in list {
      WithoutKeepsNoDuplicates(list, v);
    } else {
      var r := list + [v];
      forall i, j | 0 <= i < j < |r|
        ensures r[i] != r[j]
      {
        if j == |list| {
          assert r[i] == list[i];
        }
      }
    }
  }

  /** Toggles each of `toggles` in turn, each time on the list the previous toggle produced. */
  function ToggledEach(list: seq<string>, toggles: seq<string>): seq<string>
    decreases |toggles|
  {
    if toggles == [] then list else ToggledEach(Toggled(list, toggles[0]), toggles[1..])
  }

  /** Toggling the head of a duplicate-free list removes exactly the head. */
  lemma ToggleHead(list: seq<string>)
    requires list != [] && NoDuplicates(list)
    ensures Toggled(list, list[0]) == list[1..]
  {
    WithoutAbsent(list[1..], list[0]);
  }

  /** Toggling every entry of a duplicate-free list, in its own order, empties it. */
  lemma {:induction false} ToggleEachOwnEmpties(list: seq<string>)
    requires NoDuplicates(list)
    ensures ToggledEach(list, list) == []
    decreases |list|
  {
    if list != [] {
      ToggleHead(list);
      ToggleEachOwnEmpties(list[1..]);
    }
  }
}
