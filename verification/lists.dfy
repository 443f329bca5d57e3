/** The Python list operations the editor applies to its annotation lists:
    a comprehension that keeps some elements, list.remove(x), and the
    removal of a single matching element. */
module Lists {
  import opened Results

  /** The indices of `s` whose elements `keep` accepts, in increasing order. */
  function KeptIndices<T>(s: seq<T>, keep: T -> bool): (ix: seq<nat>)
    ensures forall i :: 0 <= i < |ix| ==> ix[i] < |s| && keep(s[ix[i]])
    ensures forall i, j :: 0 <= i < j < |ix| ==> ix[i] < ix[j]
    ensures forall k :: 0 <= k < |s| && keep(s[k]) ==> k in ix
    decreases |s|
  {
    if |s| == 0 then []
    else KeptIndices(s[..|s| - 1], keep) + (if keep(s[|s| - 1]) then [|s| - 1] else [])
  }

  /** `[c for c in s if keep(c)]`. */
  function Filter<T>(s: seq<T>, keep: T -> bool): (r: seq<T>)
    ensures |r| <= |s|
    decreases |s|
  {
    if |s| == 0 then []
    else Filter(s[..|s| - 1], keep) + (if keep(s[|s| - 1]) then [s[|s| - 1]] else [])
  }

  /** The comprehension returns the elements at the kept indices, in their
      original order. */
  lemma {:induction false} FilterPicksKept<T>(s: seq<T>, keep: T -> bool)
    ensures |Filter(s, keep)| == |KeptIndices(s, keep)|
    ensures forall i :: 0 <= i < |Filter(s, keep)| ==> Filter(s, keep)[i] == s[KeptIndices(s, keep)[i]]
    decreases |s|
  {
    if |s| > 0 {
      FilterPicksKept(s[..|s| - 1], keep);
    }
  }

  /** Membership both ways: what the comprehension returns is accepted and
      comes from the list, and every accepted element of the list is in it. */
  lemma FilterMembers<T>(s: seq<T>, keep: T -> bool)
    ensures forall i :: 0 <= i < |Filter(s, keep)| ==> Filter(s, keep)[i] in s && keep(Filter(s, keep)[i])
    ensures forall k :: 0 <= k < |s| && keep(s[k]) ==> s[k] in Filter(s, keep)
  {
    FilterPicksKept(s, keep);
    var ix := KeptIndices(s, keep);
    forall k | 0 <= k < |s| && keep(s[k]) ensures s[k] in Filter(s, keep) {
      var j :| 0 <= j < |ix| && ix[j] == k;
      assert Filter(s, keep)[j] == s[k];
    }
  }

  /** Every accepted value keeps all its copies and every rejected value
      loses them all. */
  lemma {:induction false} FilterCounts<T(!new)>(s: seq<T>, keep: T -> bool)
    ensures forall x :: multiset(Filter(s, keep))[x] == if keep(x) then multiset(s)[x] else 0
    decreases |s|
  {
    if |s| > 0 {
      var init := s[..|s| - 1];
      assert s == init + [s[|s| - 1]];
      FilterCounts(init, keep);
    }
  }

  /** `after` holds the elements of `before` that `keep` accepts, in their
      original order, and nothing else: each accepted value with all its
      copies, each rejected one with none. */
  ghost predicate KeepsExactly<T(!new)>(before: seq<T>, after: seq<T>, keep: T -> bool) {
    && |after| == |KeptIndices(before, keep)|
    && (forall i :: 0 <= i < |after| ==> after[i] == before[KeptIndices(before, keep)[i]])
    && (forall x :: multiset(after)[x] == if keep(x) then multiset(before)[x] else 0)
  }

  lemma FilterKeepsExactly<T(!new)>(s: seq<T>, keep: T -> bool)
    ensures KeepsExactly(s, Filter(s, keep), keep)
  {
    FilterPicksKept(s, keep);
    FilterCounts(s, keep);
  }

  /** The test "the key is not d", as a comprehension's condition. */
  function KeyIsNot<T(!new), U(==)>(key: T -> U, d: U): (keep: T -> bool)
    ensures forall x :: keep(x) <==> key(x) != d
  {
    (x: T) => key(x) != d
  }

  /** `[x for x in s if key(x) != d]`: every element whose key is d goes,
      the rest stay in order; nothing changes if no key is d. */
  function DropKeyed<T(!new), U(==)>(s: seq<T>, key: T -> U, d: U): (r: seq<T>)
    ensures KeepsExactly(s, r, KeyIsNot(key, d))
    ensures d !in Keys(s, key) ==> r == s
  {
    FilterKeepsExactly(s, KeyIsNot(key, d));
    if d in Keys(s, key) then Filter(s, KeyIsNot(key, d))
    else
      FilterKeepsAll(s, KeyIsNot(key, d));
      Filter(s, KeyIsNot(key, d))
  }

  /** One more element is kept at the end exactly when it is accepted. */
  lemma FilterSnoc<T>(s: seq<T>, x: T, keep: T -> bool)
    ensures Filter(s + [x], keep) == Filter(s, keep) + (if keep(x) then [x] else [])
  {
    assert (s + [x])[..|s|] == s;
  }

  /** The comprehension distributes over concatenation. */
  lemma {:induction false} FilterConcat<T>(s: seq<T>, t: seq<T>, keep: T -> bool)
    ensures Filter(s + t, keep) == Filter(s, keep) + Filter(t, keep)
    decreases |t|
  {
    if |t| == 0 {
      assert s + t == s;
    } else {
      var init := t[..|t| - 1];
      assert (s + t)[..|s + t| - 1] == s + init;
      FilterConcat(s, init, keep);
    }
  }

  /** A comprehension that keeps every element returns the list unchanged. */
  lemma {:induction false} FilterKeepsAll<T>(s: seq<T>, keep: T -> bool)
    requires forall i :: 0 <= i < |s| ==> keep(s[i])
    ensures Filter(s, keep) == s
    decreases |s|
  {
    if |s| > 0 {
      FilterKeepsAll(s[..|s| - 1], keep);
      assert s == s[..|s| - 1] + [s[|s| - 1]];
    }
  }

  /** Appending an element the comprehension rejects to a list it keeps
      whole, and filtering, gives the list back. */
  lemma FilterDropsAppended<T>(s: seq<T>, x: T, keep: T -> bool)
    requires forall i :: 0 <= i < |s| ==> keep(s[i])
    requires !keep(x)
    ensures Filter(s + [x], keep) == s
  {
    FilterKeepsAll(s, keep);
    assert (s + [x])[..|s|] == s;
  }

  /** The first index holding x. */
  function FirstIndex<T(==)>(s: seq<T>, x: T): (i: nat)
    requires x in s
    ensures i < |s| && s[i] == x && x !in s[..i]
    decreases |s|
  {
    if s[0] == x then 0
    else
      var j := FirstIndex(s[1..], x);
      assert s[..j + 1] == [s[0]] + s[1..][..j];
      j + 1
  }

  /** `s.remove(x)` guarded by `x in s`: drop the first element equal to x.
      The result holds the same elements less one copy of x. */
  function RemoveFirst<T(==)>(s: seq<T>, x: T): (r: seq<T>)
    ensures x !in s ==> r == s
    ensures x in s ==> r == s[..FirstIndex(s, x)] + s[FirstIndex(s, x) + 1..]
    ensures x in s ==> |r| == |s| - 1 && multiset(r) == multiset(s) - multiset{x}
  {
    if x !in s then s
    else
      var i := FirstIndex(s, x);
      assert s == s[..i] + [x] + s[i + 1..];
      s[..i] + s[i + 1..]
  }

  /** Appending x to a list without x and removing x again restores the list. */
  lemma RemoveFirstOfAppend<T>(s: seq<T>, x: T)
    requires x !in s
    ensures RemoveFirst(s + [x], x) == s
  {
    assert (s + [x])[|s|] == x;
    assert (s + [x])[..|s|] == s;
  }

  /** The last index whose element satisfies `hit`, if any. */
  function LastWhere<T>(s: seq<T>, hit: T -> bool): (r: Option<nat>)
    ensures r.Some? ==> r.value < |s| && hit(s[r.value]) && forall j :: r.value < j < |s| ==> !hit(s[j])
    ensures r.None? <==> forall j :: 0 <= j < |s| ==> !hit(s[j])
    decreases |s|
  {
    if |s| == 0 then None
    else if hit(s[|s| - 1]) then Some(|s| - 1)
    else LastWhere(s[..|s| - 1], hit)
  }

  /** Drop the last element satisfying `hit`; no change if there is none. */
  function RemoveLastWhere<T>(s: seq<T>, hit: T -> bool): (r: seq<T>)
    ensures LastWhere(s, hit).None? ==> r == s
    ensures LastWhere(s, hit).Some? ==>
      |r| == |s| - 1 && r == s[..LastWhere(s, hit).value] + s[LastWhere(s, hit).value + 1..]
  {
    match LastWhere(s, hit)
    case None => s
    case Some(i) => s[..i] + s[i + 1..]
  }

  /** The key of every element, in order. */
  function Keys<T, U>(s: seq<T>, key: T -> U): (ks: seq<U>)
    ensures |ks| == |s| && forall i :: 0 <= i < |s| ==> ks[i] == key(s[i])
  {
    seq(|s|, i requires 0 <= i < |s| => key(s[i]))
  }

  /** The last index holding x. */
  function LastIndex<T(==)>(s: seq<T>, x: T): (i: nat)
    requires x in s
    ensures i < |s| && s[i] == x && x !in s[i + 1..]
    decreases |s|
  {
    var init := s[..|s| - 1];
    if s[|s| - 1] == x then |s| - 1
    else
      assert s == init + [s[|s| - 1]];
      var i := LastIndex(init, x);
      assert s[i + 1..] == init[i + 1..] + [s[|s| - 1]];
      i
  }

  /** Drop the last element whose key is d; no change if no key is d. */
  function RemoveLastKeyed<T, U(==)>(s: seq<T>, key: T -> U, d: U): (r: seq<T>)
    ensures d in Keys(s, key) ==> |r| == |s| - 1
    ensures d !in Keys(s, key) ==> r == s
    ensures |s| > 0 && key(s[|s| - 1]) == d ==> r == s[..|s| - 1]
    ensures d in Keys(s, key) ==> r == s[..LastIndex(Keys(s, key), d)] + s[LastIndex(Keys(s, key), d) + 1..]
  {
    var hit := (x: T) => key(x) == d;
    assert d in Keys(s, key) ==> LastWhere(s, hit).Some? by {
      if d in Keys(s, key) {
        var i :| 0 <= i < |s| && Keys(s, key)[i] == d;
        assert hit(s[i]);
      }
    }
    assert d !in Keys(s, key) ==> LastWhere(s, hit).None? by {
      if LastWhere(s, hit).Some? {
        assert Keys(s, key)[LastWhere(s, hit).value] == d;
      }
    }
    assert d in Keys(s, key) ==> LastWhere(s, hit).value == LastIndex(Keys(s, key), d) by {
      if d in Keys(s, key) {
        var i, j := LastWhere(s, hit).value, LastIndex(Keys(s, key), d);
        assert hit(s[j]);
      }
    }
    RemoveLastWhere(s, hit)
  }

  /** Appending an element with key d and removing the last element with
      key d gives the list back. */
  lemma RemoveLastKeyedOfAppend<T, U>(s: seq<T>, x: T, key: T -> U, d: U)
    requires key(x) == d
    ensures RemoveLastKeyed(s + [x], key, d) == s
  {
    assert (s + [x])[..|s|] == s;
  }
}
