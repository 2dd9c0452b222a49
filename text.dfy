/**
 * PHP strings as byte strings, and the three string routines the server
 * relies on: strict first-occurrence search (`array_search(..., true)` and
 * the space search inside `explode`), `explode(' ', s)`, `explode(' ', s, 2)`
 * and `implode(' ', list)`.
 */
module Text {
  import opened Wrappers

  /** One byte of a PHP string. */
  type Byte = c: char | c as int < 256

  /** A PHP string: a sequence of bytes. */
  type Bytes = seq<Byte>

  const Space: Byte := ' '

  /** Index of the first element equal to `x`, or None when there is none. */
  function FirstIndex<T(==)>(s: seq<T>, x: T): (r: Option<nat>)
    ensures r.None? <==> x !in s
    ensures r.Some? ==> r.value < |s| && s[r.value] == x && x !in s[..r.value]
  {
    if |s| == 0 then None
    else if s[0] == x then Some(0)
    else match FirstIndex(s[1..], x)
      case None => None
      case Some(i) =>
        assert s[..i + 1] == [s[0]] + s[1..][..i];
        Some(i + 1)
  }

  /** `implode(' ', ts)`: the tokens joined by single spaces. */
  function Join(ts: seq<Bytes>): (r: Bytes)
    ensures |ts| == 1 ==> r == ts[0]
    ensures NoSpaces(ts) ==> (Space in r <==> |ts| > 1)
  {
    if |ts| == 0 then []
    else if |ts| == 1 then ts[0]
    else
      var r := ts[0] + [Space] + Join(ts[1..]);
      assert r[|ts[0]|] == Space;
      r
  }

  /** `explode(' ', s)`: the pieces of `s` between single spaces (at least one). */
  function Split(s: Bytes): (r: seq<Bytes>)
    ensures |r| > 0
    decreases |s|
  {
    match FirstIndex(s, Space)
    case None => [s]
    case Some(i) => [s[..i]] + Split(s[i + 1..])
  }

  /** The pieces hold no space, and joining them with spaces gives the text back. */
  lemma {:induction false} SplitPieces(s: Bytes)
    ensures NoSpaces(Split(s))
    ensures Join(Split(s)) == s
    decreases |s|
  {
    match FirstIndex(s, Space)
    case None =>
    case Some(i) =>
      SplitPieces(s[i + 1..]);
      var rest := Split(s[i + 1..]);
      var r := [s[..i]] + rest;
      assert r[1..] == rest;
      assert s == s[..i] + [Space] + s[i + 1..];
      assert forall k :: 1 <= k < |r| ==> r[k] == rest[k - 1];
  }

  /**
   * `explode(' ', s, 2)`: `[s]` when `s` holds no space, otherwise the part
   * before the first space and everything after it.
   */
  function SplitOnce(s: Bytes): (r: seq<Bytes>)
    ensures |r| == 1 || |r| == 2
    ensures |r| == 1 <==> Space !in s
    ensures |r| == 1 ==> r[0] == s
    ensures |r| == 2 ==> Space !in r[0] && s == r[0] + [Space] + r[1]
  {
    match FirstIndex(s, Space)
    case None => [s]
    case Some(i) =>
      assert s == s[..i] + [Space] + s[i + 1..];
      [s[..i], s[i + 1..]]
  }

  /** No token contains the separator. */
  ghost predicate NoSpaces(ts: seq<Bytes>)
  {
    forall i :: 0 <= i < |ts| ==> Space !in ts[i]
  }

  /** `a` is a suffix of `b`. */
  ghost predicate IsSuffix(a: Bytes, b: Bytes)
  {
    |a| <= |b| && b[|b| - |a|..] == a
  }

  lemma FirstIndexAfter<T>(a: seq<T>, x: T, b: seq<T>)
    requires x !in a
    ensures FirstIndex(a + [x] + b, x) == Some(|a|)
  {
    var s := a + [x] + b;
    assert s[|a|] == x;
    assert s[..|a|] == a;
  }

  /** Splitting undoes joining when no token contains a space. */
  lemma {:induction false} SplitJoin(ts: seq<Bytes>)
    requires |ts| > 0 && NoSpaces(ts)
    ensures Split(Join(ts)) == ts
  {
    assert Space !in ts[0];
    if |ts| > 1 {
      var s, i := Join(ts), |ts[0]|;
      FirstIndexAfter(ts[0], Space, Join(ts[1..]));
      assert s[..i] == ts[0] && s[i + 1..] == Join(ts[1..]);
      NoSpacesDrop(ts, 1);
      SplitJoin(ts[1..]);
      assert Split(s) == [ts[0]] + ts[1..];
      assert ts == [ts[0]] + ts[1..];
    }
  }

  /** Splitting once at the first space of a join separates off exactly the first token. */
  lemma SplitOnceJoin(ts: seq<Bytes>)
    requires |ts| > 0 && NoSpaces(ts)
    ensures |ts| == 1 ==> SplitOnce(Join(ts)) == [ts[0]]
    ensures |ts| > 1 ==> SplitOnce(Join(ts)) == [ts[0], Join(ts[1..])]
  {
    assert Space !in ts[0];
    if |ts| > 1 {
      FirstIndexAfter(ts[0], Space, Join(ts[1..]));
      var s := Join(ts);
      assert s[..|ts[0]|] == ts[0];
      assert s[|ts[0]| + 1..] == Join(ts[1..]);
    }
  }

  /** Dropping leading tokens leaves a suffix of the joined text. */
  lemma {:induction false} JoinDropIsSuffix(ts: seq<Bytes>, k: nat)
    requires k <= |ts|
    ensures IsSuffix(Join(ts[k..]), Join(ts))
  {
    if k == 0 {
      assert ts[k..] == ts;
    } else if k == |ts| {
      assert ts[k..] == [];
    } else {
      JoinDropIsSuffix(ts[1..], k - 1);
      assert ts[1..][k - 1..] == ts[k..];
      var whole, rest := Join(ts), Join(ts[1..]);
      assert |ts| > 1;
      assert whole == ts[0] + [Space] + rest;
      assert whole[|whole| - |rest|..] == rest;
    }
  }

  lemma NoSpacesDrop(ts: seq<Bytes>, k: nat)
    requires NoSpaces(ts) && k <= |ts|
    ensures NoSpaces(ts[k..])
  {
    forall i | 0 <= i < |ts[k..]| ensures Space !in ts[k..][i] {
      assert ts[k..][i] == ts[k + i];
    }
  }
}
