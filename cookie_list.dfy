/**
 * The value of the `_saml_idp` cookie: the identity list with every entry
 * base64-encoded and the tokens joined by single spaces, cut to at most
 * 4000 bytes by dropping the oldest tokens, never the last one.
 */
module CookieList {
  import opened Wrappers
  import opened Text
  import opened Errors
  import Base64

  /** Longest cookie value the server writes unless a single token is longer. */
  const MaxLength := 4000

  /** Every entry base64-encoded, in order. */
  function EncodeAll(list: seq<Bytes>): seq<Bytes>
  {
    seq(|list|, i requires 0 <= i < |list| => Base64.Encode(list[i]))
  }

  /**
   * The tokens left after dropping the oldest ones while the joined text is
   * longer than MaxLength and more than one token remains.
   */
  function Truncate(ts: seq<Bytes>): (r: seq<Bytes>)
    ensures |r| <= |ts|
    ensures |ts| > 0 ==> |r| > 0
    ensures |Join(r)| <= MaxLength || |r| == 1
    decreases |ts|
  {
    if |Join(ts)| > MaxLength && |ts| > 1 then Truncate(ts[1..]) else ts
  }

  /** What Truncate keeps is the newest tokens, in order. */
  lemma {:induction false} TruncateSuffix(ts: seq<Bytes>)
    ensures Truncate(ts) == ts[|ts| - |Truncate(ts)|..]
    decreases |ts|
  {
    if |Join(ts)| > MaxLength && |ts| > 1 {
      TruncateSuffix(ts[1..]);
      assert ts[1..][|ts| - 1 - |Truncate(ts)|..] == ts[|ts| - |Truncate(ts)|..];
    }
  }

  /** Truncate drops no token it did not have to: every longer suffix is over MaxLength. */
  lemma {:induction false} TruncateMinimal(ts: seq<Bytes>)
    ensures forall j :: 0 <= j < |ts| - |Truncate(ts)| ==> |Join(ts[j..])| > MaxLength
    decreases |ts|
  {
    if |Join(ts)| > MaxLength && |ts| > 1 {
      TruncateMinimal(ts[1..]);
      assert forall j :: 1 <= j < |ts| - |Truncate(ts)| ==> ts[j..] == ts[1..][j - 1..];
    }
  }

  /**
   * The cookie value written for `list`: at most MaxLength bytes, unless it
   * is a single token (which holds no space).
   */
  function Encode(list: seq<Bytes>): (c: Bytes)
    ensures |c| <= MaxLength || Space !in c
  {
    var ts := EncodeAll(list);
    var kept := Truncate(ts);
    TruncateSuffix(ts);
    EncodeAllNoSpaces(list);
    NoSpacesDrop(ts, |ts| - |kept|);
    Join(kept)
  }

  /** How many of the oldest entries the cookie value leaves out. */
  function Dropped(list: seq<Bytes>): nat
  {
    |list| - |Truncate(EncodeAll(list))|
  }

  /** One cookie token: valid base64 of a non-empty string that is a valid URI. */
  function DecodeToken(t: Bytes, validUri: Bytes -> bool): Result<Bytes, Error>
  {
    if !Base64.IsValid(t) then Err(BadBase64)
    else
      var b := Base64.Decode(t).value;
      if validUri(b) then Ok(b) else Err(BadUri)
  }

  /** A token read successfully is the encoding of its entry. */
  lemma DecodeTokenEncodes(t: Bytes, validUri: Bytes -> bool)
    requires DecodeToken(t, validUri).Ok?
    ensures Base64.Encode(DecodeToken(t, validUri).value) == t
  {
    Base64.EncodeDecode(t);
  }

  /** Encoding one more entry adds its token at the end. */
  lemma EncodeAllSnoc(list: seq<Bytes>, b: Bytes)
    ensures EncodeAll(list + [b]) == EncodeAll(list) + [Base64.Encode(b)]
  {
  }

  /** All tokens decoded in order; the first bad token decides the error. */
  function DecodeTokens(ts: seq<Bytes>, validUri: Bytes -> bool): (r: Result<seq<Bytes>, Error>)
    ensures r.Ok? ==> |r.value| == |ts|
    ensures r.Err? ==> r.error == BadBase64 || r.error == BadUri
    decreases |ts|
  {
    if |ts| == 0 then Ok([])
    else
      match DecodeTokens(ts[..|ts| - 1], validUri)
      case Err(e) => Err(e)
      case Ok(init) =>
        match DecodeToken(ts[|ts| - 1], validUri)
        case Err(e) => Err(e)
        case Ok(b) => Ok(init + [b])
  }

  /** A successful read returns entries whose encodings are exactly the tokens read. */
  lemma {:induction false} DecodeTokensEncodes(ts: seq<Bytes>, validUri: Bytes -> bool)
    requires DecodeTokens(ts, validUri).Ok?
    ensures EncodeAll(DecodeTokens(ts, validUri).value) == ts
    decreases |ts|
  {
    if |ts| > 0 {
      var n := |ts| - 1;
      DecodeTokensEncodes(ts[..n], validUri);
      var init := DecodeTokens(ts[..n], validUri).value;
      var b := DecodeToken(ts[n], validUri).value;
      calc {
        EncodeAll(DecodeTokens(ts, validUri).value);
        EncodeAll(init + [b]);
        { EncodeAllSnoc(init, b); }
        EncodeAll(init) + [Base64.Encode(b)];
        { DecodeTokenEncodes(ts[n], validUri); }
        ts[..n] + [ts[n]];
        { assert ts == ts[..n] + [ts[n]]; }
        ts;
      }
    }
  }

  /** Decoding one more token: the earlier error, else this token's error, else one more entry. */
  lemma DecodeTokensStep(ts: seq<Bytes>, i: nat, validUri: Bytes -> bool)
    requires i < |ts|
    ensures var before, t := DecodeTokens(ts[..i], validUri), DecodeToken(ts[i], validUri);
      DecodeTokens(ts[..i + 1], validUri) ==
        if before.Err? then before
        else if t.Err? then Err(t.error)
        else Ok(before.value + [t.value])
  {
    assert ts[..i + 1][..i] == ts[..i];
  }

  /** Tokens that each decode on their own decode together, in order. */
  lemma {:induction false} DecodeTokensPointwise(ts: seq<Bytes>, out: seq<Bytes>, validUri: Bytes -> bool)
    requires |out| == |ts|
    requires forall j :: 0 <= j < |ts| ==> DecodeToken(ts[j], validUri) == Ok(out[j])
    ensures DecodeTokens(ts, validUri) == Ok(out)
    decreases |ts|
  {
    if |ts| > 0 {
      var n := |ts| - 1;
      forall j | 0 <= j < n ensures DecodeToken(ts[..n][j], validUri) == Ok(out[..n][j]) {
        assert ts[..n][j] == ts[j] && out[..n][j] == out[j];
      }
      DecodeTokensPointwise(ts[..n], out[..n], validUri);
      assert DecodeToken(ts[n], validUri) == Ok(out[n]);
      assert out == out[..n] + [out[n]];
    }
  }

  /** When every earlier token decodes, the first token that does not decides the error. */
  lemma DecodeTokensFirstError(ts: seq<Bytes>, i: nat, validUri: Bytes -> bool)
    requires i < |ts|
    requires forall j :: 0 <= j < i ==> DecodeToken(ts[j], validUri).Ok?
    requires DecodeToken(ts[i], validUri).Err?
    ensures DecodeTokens(ts, validUri) == Err(DecodeToken(ts[i], validUri).error)
  {
    var out := seq(i, j requires 0 <= j < i => DecodeToken(ts[j], validUri).value);
    DecodeTokensPointwise(ts[..i], out, validUri);
    DecodeTokensStep(ts, i, validUri);
    DecodeTokensPrefixError(ts, i + 1, validUri);
  }

  /** The identity list read from the cookie; no cookie is the empty list. */
  function Decode(cookie: Option<Bytes>, validUri: Bytes -> bool): (r: Result<seq<Bytes>, Error>)
    ensures cookie.None? ==> r == Ok([])
    ensures r.Err? ==> cookie.Some? && (r.error == BadBase64 || r.error == BadUri)
    ensures r.Ok? && cookie.Some? ==> |r.value| > 0
  {
    match cookie
    case None => Ok([])
    case Some(c) => DecodeTokens(Split(c), validUri)
  }

  /** A cookie read successfully is the encodings of the entries read, joined by spaces. */
  lemma DecodeJoins(cookie: Option<Bytes>, validUri: Bytes -> bool)
    requires cookie.Some? && Decode(cookie, validUri).Ok?
    ensures Join(EncodeAll(Decode(cookie, validUri).value)) == cookie.value
  {
    SplitPieces(cookie.value);
    DecodeTokensEncodes(Split(cookie.value), validUri);
  }

  /** Every entry is something a cookie token can decode to. */
  ghost predicate Storable(list: seq<Bytes>, validUri: Bytes -> bool)
  {
    forall i :: 0 <= i < |list| ==> |list[i]| > 0 && validUri(list[i])
  }

  /** An error in the first k tokens is the error of the whole cookie. */
  lemma {:induction false} DecodeTokensPrefixError(ts: seq<Bytes>, k: nat, validUri: Bytes -> bool)
    requires k <= |ts| && DecodeTokens(ts[..k], validUri).Err?
    ensures DecodeTokens(ts, validUri) == DecodeTokens(ts[..k], validUri)
    decreases |ts| - k
  {
    if k < |ts| {
      var ts' := ts[..k + 1];
      assert ts'[..|ts'| - 1] == ts[..k];
      DecodeTokensPrefixError(ts, k + 1, validUri);
    } else {
      assert ts[..k] == ts;
    }
  }

  /** Whatever a successful read returns is storable again: non-empty valid URIs. */
  lemma {:induction false} DecodeTokensStorable(ts: seq<Bytes>, validUri: Bytes -> bool)
    requires DecodeTokens(ts, validUri).Ok?
    ensures |DecodeTokens(ts, validUri).value| == |ts|
    ensures Storable(DecodeTokens(ts, validUri).value, validUri)
    decreases |ts|
  {
    if |ts| > 0 {
      DecodeTokensStorable(ts[..|ts| - 1], validUri);
      var t := ts[|ts| - 1];
      var b := Base64.Decode(t).value;
      assert |b| > 0 && validUri(b);
    }
  }

  lemma DecodeStorable(cookie: Option<Bytes>, validUri: Bytes -> bool)
    requires Decode(cookie, validUri).Ok?
    ensures Storable(Decode(cookie, validUri).value, validUri)
  {
    if cookie.Some? {
      DecodeTokensStorable(Split(cookie.value), validUri);
    }
  }

  /** Tokens produced by encoding storable entries decode back to those entries. */
  lemma {:induction false} DecodeEncodedTokens(list: seq<Bytes>, validUri: Bytes -> bool)
    requires Storable(list, validUri)
    ensures DecodeTokens(EncodeAll(list), validUri) == Ok(list)
    decreases |list|
  {
    if |list| > 0 {
      var ts := EncodeAll(list);
      var init := list[..|list| - 1];
      assert ts[..|ts| - 1] == EncodeAll(init);
      DecodeEncodedTokens(init, validUri);
      var last := list[|list| - 1];
      Base64.DecodeEncode(last);
      assert Base64.Decode(ts[|ts| - 1]) == Some(last);
      assert list == init + [last];
    }
  }

  lemma EncodeAllNoSpaces(list: seq<Bytes>)
    ensures NoSpaces(EncodeAll(list))
  {
    forall i | 0 <= i < |list| ensures Space !in EncodeAll(list)[i] {
      Base64.EncodeHasNoSpace(list[i]);
    }
  }

  /**
   * The cookie value is the encoding of the newest entries only: whole
   * tokens are dropped from the front, and never the newest one.
   */
  lemma EncodeDropsOldest(list: seq<Bytes>)
    ensures Encode(list) == Join(EncodeAll(list[Dropped(list)..]))
    ensures |list| > 0 ==> Dropped(list) < |list|
  {
    var ts, k := EncodeAll(list), Dropped(list);
    TruncateSuffix(ts);
    assert ts[k..] == EncodeAll(list[k..]);
  }

  /**
   * The cookie value is a suffix of the full space-joined encoding; it is at
   * most MaxLength bytes or else a single token with no space; and no fewer
   * entries could have been dropped.
   */
  lemma EncodeBounded(list: seq<Bytes>)
    ensures var c, k := Encode(list), Dropped(list);
      && IsSuffix(c, Join(EncodeAll(list)))
      && (|c| <= MaxLength || (k == |list| - 1 && Space !in c))
      && (forall j :: 0 <= j < k ==> |Join(EncodeAll(list)[j..])| > MaxLength)
  {
    var ts, k := EncodeAll(list), Dropped(list);
    TruncateSuffix(ts);
    TruncateMinimal(ts);
    JoinDropIsSuffix(ts, k);
    EncodeAllNoSpaces(list);
    if |Join(ts[k..])| > MaxLength {
      assert |ts[k..]| == 1;
      assert ts[k..][0] == ts[k];
    }
  }

  /** An empty list is written as an empty cookie value, which reading rejects. */
  lemma EmptyListUnreadable(validUri: Bytes -> bool)
    ensures Encode([]) == []
    ensures Decode(Some(Encode([])), validUri) == Err(BadBase64)
  {
    assert Split([]) == [[]];
    assert Base64.Decode([]) == Some([]);
  }

  /** The newest entries of a storable list are storable. */
  lemma StorableDrop(list: seq<Bytes>, k: nat, validUri: Bytes -> bool)
    requires Storable(list, validUri) && k <= |list|
    ensures Storable(list[k..], validUri)
  {
    forall i | 0 <= i < |list| - k ensures |list[k..][i]| > 0 && validUri(list[k..][i]) {
      assert list[k..][i] == list[k + i];
    }
  }

  /** Reading back what was written for a non-empty list gives its newest entries, in order. */
  lemma RoundTrip(list: seq<Bytes>, validUri: Bytes -> bool)
    requires Storable(list, validUri) && |list| > 0
    ensures Decode(Some(Encode(list)), validUri) == Ok(list[Dropped(list)..])
  {
    var k := Dropped(list);
    var kept := list[k..];
    EncodeDropsOldest(list);
    EncodeAllNoSpaces(kept);
    SplitJoin(EncodeAll(kept));
    StorableDrop(list, k, validUri);
    DecodeEncodedTokens(kept, validUri);
  }

  /** When the full encoding fits in MaxLength bytes, reading gives back exactly the list written. */
  lemma RoundTripWhenFits(list: seq<Bytes>, validUri: Bytes -> bool)
    requires Storable(list, validUri) && |list| > 0
    requires |Join(EncodeAll(list))| <= MaxLength
    ensures Decode(Some(Encode(list)), validUri) == Ok(list)
  {
    RoundTrip(list, validUri);
    assert Dropped(list) == 0;
    assert list[0..] == list;
  }
}
