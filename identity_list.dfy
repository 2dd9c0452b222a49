/**
 * The common-domain identity list: entity IDs, least recently used first,
 * and the update an `append` request makes to it.
 */
module IdentityList {
  import opened Wrappers
  import opened Text

  /** No entity ID occurs twice. */
  ghost predicate NoDuplicates(list: seq<Bytes>)
  {
    forall i, j :: 0 <= i < j < |list| ==> list[i] != list[j]
  }

  /**
   * The list an append of `e` stores: the first entry equal to `e` (if any)
   * is removed and `e` is put at the end.
   */
  function MoveToEnd(list: seq<Bytes>, e: Bytes): (r: seq<Bytes>)
    ensures |r| > 0 && r[|r| - 1] == e
  {
    match FirstIndex(list, e)
    case None => list + [e]
    case Some(i) => list[..i] + list[i + 1..] + [e]
  }

  /**
   * Append loses no entry and invents none: one copy of `e` is taken out
   * when present, and one is added.
   */
  lemma MoveToEndCounts(list: seq<Bytes>, e: Bytes)
    ensures multiset(MoveToEnd(list, e))
      == (if e in list then multiset(list) - multiset{e} else multiset(list)) + multiset{e}
  {
    match FirstIndex(list, e)
    case None =>
    case Some(i) =>
      assert list == list[..i] + [e] + list[i + 1..];
  }

  /** `list` with every entry equal to `e` left out, the others in their order. */
  function Without<T(==)>(list: seq<T>, e: T): seq<T>
  {
    if |list| == 0 then []
    else if list[0] == e then Without(list[1..], e)
    else [list[0]] + Without(list[1..], e)
  }

  lemma {:induction false} WithoutMembers<T>(list: seq<T>, e: T, x: T)
    ensures x in Without(list, e) <==> x in list && x != e
  {
    if |list| > 0 {
      WithoutMembers(list[1..], e, x);
      assert list == [list[0]] + list[1..];
    }
  }

  lemma {:induction false} WithoutAbsent<T>(list: seq<T>, e: T)
    requires e !in list
    ensures Without(list, e) == list
  {
    if |list| > 0 {
      WithoutAbsent(list[1..], e);
      assert list == [list[0]] + list[1..];
    }
  }

  lemma {:induction false} WithoutConcat<T>(a: seq<T>, b: seq<T>, e: T)
    ensures Without(a + b, e) == Without(a, e) + Without(b, e)
  {
    if |a| == 0 {
      assert a + b == b;
    } else {
      WithoutConcat(a[1..], b, e);
      assert (a + b)[1..] == a[1..] + b;
    }
  }

  /**
   * On a list without duplicates, append keeps every other entry in its
   * relative order and makes `e` the last entry.
   */
  lemma {:induction false} MoveToEndKeepsOrder(list: seq<Bytes>, e: Bytes)
    requires NoDuplicates(list)
    ensures MoveToEnd(list, e) == Without(list, e) + [e]
  {
    match FirstIndex(list, e)
    case None =>
      WithoutAbsent(list, e);
    case Some(i) =>
      var pre, post := list[..i], list[i + 1..];
      assert e !in post by {
        forall k | 0 <= k < |post| ensures post[k] != e {
          assert post[k] == list[i + 1 + k];
        }
      }
      assert list == pre + [e] + post;
      WithoutConcat(pre + [e], post, e);
      WithoutConcat(pre, [e], e);
      WithoutAbsent(pre, e);
      WithoutAbsent(post, e);
      assert Without([e], e) == [];
  }

  lemma {:induction false} WithoutNoDuplicates(list: seq<Bytes>, e: Bytes)
    requires NoDuplicates(list)
    ensures NoDuplicates(Without(list, e))
  {
    if |list| > 0 {
      WithoutNoDuplicates(list[1..], e);
      var rest := Without(list[1..], e);
      assert list[0] !in list[1..] by {
        forall k | 0 <= k < |list[1..]| ensures list[1..][k] != list[0] {
          assert list[1..][k] == list[k + 1];
        }
      }
      WithoutMembers(list[1..], e, list[0]);
    }
  }

  /**
   * Append keeps the list free of duplicates, and afterwards `e` is the last
   * entry and occurs exactly once.
   */
  lemma MoveToEndNoDuplicates(list: seq<Bytes>, e: Bytes)
    requires NoDuplicates(list)
    ensures var r := MoveToEnd(list, e);
      && NoDuplicates(r)
      && |r| > 0 && r[|r| - 1] == e
      && multiset(r)[e] == 1
  {
    MoveToEndKeepsOrder(list, e);
    WithoutNoDuplicates(list, e);
    var w := Without(list, e);
    WithoutMembers(list, e, e);
    assert multiset(w)[e] == 0;
    assert multiset(w + [e]) == multiset(w) + multiset{e};
  }

  /** Appending the same entity twice stores the same list as appending it once. */
  lemma MoveToEndIdempotent(list: seq<Bytes>, e: Bytes)
    requires NoDuplicates(list)
    ensures MoveToEnd(MoveToEnd(list, e), e) == MoveToEnd(list, e)
  {
    MoveToEndNoDuplicates(list, e);
    var once := MoveToEnd(list, e);
    MoveToEndKeepsOrder(once, e);
    MoveToEndKeepsOrder(list, e);
    WithoutConcat(Without(list, e), [e], e);
    WithoutMembers(list, e, e);
    WithoutAbsent(Without(list, e), e);
  }

  /** Only the first equal entry is removed: a list already holding `e` twice keeps the second copy. */
  lemma RemovesFirstOnly(e: Bytes)
    ensures MoveToEnd([e, e], e) == [e, e]
  {
    assert FirstIndex([e, e], e) == Some(0);
  }

  /** Appending A, then B, then A to an empty list stores B before A. */
  lemma AppendSequence(a: Bytes, b: Bytes)
    requires a != b
    ensures MoveToEnd(MoveToEnd(MoveToEnd([], a), b), a) == [b, a]
  {
    assert MoveToEnd([], a) == [a];
    assert FirstIndex([a], b) == None;
    assert MoveToEnd([a], b) == [a, b];
    assert FirstIndex([a, b], a) == Some(0);
    assert [a, b][..0] + [a, b][1..] == [b];
  }
}
