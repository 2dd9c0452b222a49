/**
 * Standard base64 with padding (section 4 of RFC 4648), as PHP's
 * `base64_encode` produces it, and a strict decoder that accepts exactly the
 * canonical encodings.
 */
module Base64 {
  import opened Wrappers
  import opened Text

  const Pad: Byte := '='

  /** The character for the 6-bit value `v` in the base64 alphabet. */
  function CharOf(v: nat): (c: Byte)
    requires v < 64
    ensures c != Pad && c != Space
  {
    if v < 26 then ('A' as int + v) as char
    else if v < 52 then ('a' as int + (v - 26)) as char
    else if v < 62 then ('0' as int + (v - 52)) as char
    else if v == 62 then '+'
    else '/'
  }

  /** The 6-bit value of a base64 alphabet character; None for every other byte. */
  function ValueOf(c: Byte): (r: Option<nat>)
    ensures r.Some? ==> r.value < 64
  {
    if 'A' <= c <= 'Z' then Some(c as int - 'A' as int)
    else if 'a' <= c <= 'z' then Some(c as int - 'a' as int + 26)
    else if '0' <= c <= '9' then Some(c as int - '0' as int + 52)
    else if c == '+' then Some(62)
    else if c == '/' then Some(63)
    else None
  }

  /** An alphabet character is the character of its value. */
  lemma CharOfValueOf(c: Byte)
    requires ValueOf(c).Some?
    ensures CharOf(ValueOf(c).value) == c
  {
  }

  lemma ValueOfCharOf(v: nat)
    requires v < 64
    ensures ValueOf(CharOf(v)) == Some(v)
  {
  }

  /** Four output characters for a group of one to three bytes, padded with `=`. */
  function EncodeGroup(g: Bytes): (q: Bytes)
    requires 1 <= |g| <= 3
    ensures |q| == 4
  {
    var b0 := g[0] as int;
    var b1 := if |g| > 1 then g[1] as int else 0;
    var b2 := if |g| > 2 then g[2] as int else 0;
    var c0 := CharOf(b0 / 4);
    var c1 := CharOf(b0 % 4 * 16 + b1 / 16);
    var c2 := if |g| > 1 then CharOf(b1 % 16 * 4 + b2 / 64) else Pad;
    var c3 := if |g| > 2 then CharOf(b2 % 64) else Pad;
    [c0, c1, c2, c3]
  }

  /** `base64_encode`. */
  function Encode(b: Bytes): (t: Bytes)
    ensures |b| > 0 <==> |t| > 0
    decreases |b|
  {
    if |b| == 0 then []
    else if |b| <= 3 then EncodeGroup(b)
    else EncodeGroup(b[..3]) + Encode(b[3..])
  }

  /** Every group of up to three bytes becomes four characters. */
  lemma {:induction false} EncodeLength(b: Bytes)
    ensures |Encode(b)| == (|b| + 2) / 3 * 4
    ensures |Encode(b)| % 4 == 0
    decreases |b|
  {
    if 0 < |b| <= 3 {
      assert (|b| + 2) / 3 == 1;
    } else if |b| > 3 {
      EncodeLength(b[3..]);
      var groups := (|b| - 1) / 3;
      assert |Encode(b[3..])| == groups * 4;
      assert (|b| + 2) / 3 == groups + 1;
      assert |Encode(b)| == 4 + groups * 4;
    }
  }

  function ByteOf(v: nat): Byte
    requires v < 256
  {
    v as char
  }

  /**
   * The bytes of one group of four characters; a padded group is accepted
   * only as the last group and only when its unused bits are zero.
   */
  function DecodeGroup(q: Bytes, last: bool): Option<Bytes>
    requires |q| == 4
  {
    var a, b, c, d := ValueOf(q[0]), ValueOf(q[1]), ValueOf(q[2]), ValueOf(q[3]);
    if a.None? || b.None? then None
    else if q[2] == Pad && q[3] == Pad then
      if last && b.value % 16 == 0 then Some([ByteOf(a.value * 4 + b.value / 16)]) else None
    else if c.None? then None
    else if q[3] == Pad then
      if last && c.value % 4 == 0
      then Some([ByteOf(a.value * 4 + b.value / 16), ByteOf(b.value % 16 * 16 + c.value / 4)])
      else None
    else if d.None? then None
    else Some([ByteOf(a.value * 4 + b.value / 16), ByteOf(b.value % 16 * 16 + c.value / 4),
               ByteOf(c.value % 4 * 64 + d.value)])
  }

  /** Strict base64 decoding: None for anything that is not a canonical encoding. */
  function Decode(t: Bytes): (r: Option<Bytes>)
    decreases |t|
  {
    if |t| == 0 then Some([])
    else if |t| < 4 then None
    else
      match DecodeGroup(t[..4], |t| == 4)
      case None => None
      case Some(g) =>
        match Decode(t[4..])
        case None => None
        case Some(rest) => Some(g + rest)
  }

  /**
   * What the server's base64 validity assertion accepts: the canonical
   * encoding of a non-empty byte string.
   */
  predicate IsValid(t: Bytes)
  {
    var d := Decode(t);
    d.Some? && |d.value| > 0
  }

  /** A valid text is non-empty, made of whole groups of four, and holds no space. */
  lemma ValidShape(t: Bytes)
    requires IsValid(t)
    ensures |t| > 0 && |t| % 4 == 0 && Space !in t
  {
    var b := Decode(t).value;
    EncodeDecode(t);
    EncodeLength(b);
    EncodeHasNoSpace(b);
  }

  lemma GroupRoundTrip(g: Bytes, last: bool)
    requires 1 <= |g| <= 3
    requires |g| < 3 ==> last
    ensures DecodeGroup(EncodeGroup(g), last) == Some(g)
  {
    var q := EncodeGroup(g);
    var b0 := g[0] as int;
    var b1 := if |g| > 1 then g[1] as int else 0;
    var b2 := if |g| > 2 then g[2] as int else 0;
    var v0, v1 := b0 / 4, b0 % 4 * 16 + b1 / 16;
    ValueOfCharOf(v0);
    ValueOfCharOf(v1);
    assert v1 / 16 == b0 % 4 && v1 % 16 == b1 / 16;
    assert v0 * 4 + v1 / 16 == b0;
    assert ByteOf(v0 * 4 + v1 / 16) == g[0];
    if |g| == 1 {
      assert v1 % 16 == 0;
      assert g == [g[0]];
    } else {
      var v2 := b1 % 16 * 4 + b2 / 64;
      ValueOfCharOf(v2);
      assert v2 / 4 == b1 % 16 && v2 % 4 == b2 / 64;
      assert v1 % 16 * 16 + v2 / 4 == b1;
      assert ByteOf(v1 % 16 * 16 + v2 / 4) == g[1];
      if |g| == 2 {
        assert v2 % 4 == 0;
        assert q[2] != Pad && q[3] == Pad;
        assert g == [g[0], g[1]];
      } else {
        var v3 := b2 % 64;
        ValueOfCharOf(v3);
        assert v2 % 4 * 64 + v3 == b2;
        assert ByteOf(v2 % 4 * 64 + v3) == g[2];
        assert q[3] != Pad;
        assert g == [g[0], g[1], g[2]];
      }
    }
  }

  lemma Pack(hi: nat, lo: nat, m: nat)
    requires m == 4 || m == 16 || m == 64
    requires lo < m
    ensures (hi * m + lo) / m == hi && (hi * m + lo) % m == lo
  {
  }

  lemma GroupCanonical(q: Bytes, last: bool)
    requires |q| == 4 && DecodeGroup(q, last).Some?
    ensures var g := DecodeGroup(q, last).value;
      1 <= |g| <= 3 && (|g| < 3 ==> last) && EncodeGroup(g) == q
  {
    var a, b := ValueOf(q[0]).value, ValueOf(q[1]).value;
    CharOfValueOf(q[0]);
    CharOfValueOf(q[1]);
    var g := DecodeGroup(q, last).value;
    var b0 := a * 4 + b / 16;
    assert g[0] as int == b0;
    Pack(a, b / 16, 4);
    assert b == b / 16 * 16 + b % 16;
    if q[2] == Pad && q[3] == Pad {
      assert |g| == 1;
      assert b0 % 4 * 16 + 0 / 16 == b;
      assert EncodeGroup(g) == [CharOf(a), CharOf(b), Pad, Pad];
    } else {
      var c := ValueOf(q[2]).value;
      CharOfValueOf(q[2]);
      var b1 := b % 16 * 16 + c / 4;
      assert g[1] as int == b1;
      Pack(b % 16, c / 4, 16);
      assert b0 % 4 * 16 + b1 / 16 == b;
      assert c == c / 4 * 4 + c % 4;
      if q[3] == Pad {
        assert |g| == 2;
        assert b1 % 16 * 4 + 0 / 64 == c;
        assert EncodeGroup(g) == [CharOf(a), CharOf(b), CharOf(c), Pad];
      } else {
        var d := ValueOf(q[3]).value;
        CharOfValueOf(q[3]);
        var b2 := c % 4 * 64 + d;
        assert |g| == 3 && g[2] as int == b2;
        Pack(c % 4, d, 64);
        assert b1 % 16 * 4 + b2 / 64 == c;
        assert EncodeGroup(g) == [CharOf(a), CharOf(b), CharOf(c), CharOf(d)];
      }
    }
  }

  /** Decoding recovers every encoded byte string. */
  lemma {:induction false} DecodeEncode(b: Bytes)
    ensures Decode(Encode(b)) == Some(b)
    decreases |b|
  {
    if |b| == 0 {
    } else if |b| <= 3 {
      var t := Encode(b);
      GroupRoundTrip(b, true);
      assert t[..4] == t && t[4..] == [];
      assert Decode(t[4..]) == Some([]);
      assert b + [] == b;
    } else {
      var t := Encode(b);
      assert t[..4] == EncodeGroup(b[..3]);
      assert t[4..] == Encode(b[3..]);
      GroupRoundTrip(b[..3], |t| == 4);
      DecodeEncode(b[3..]);
      assert b == b[..3] + b[3..];
    }
  }

  /** The validity check accepts exactly the encodings of non-empty byte strings. */
  lemma IsValidIff(t: Bytes)
    ensures IsValid(t) <==> exists b: Bytes :: |b| > 0 && Encode(b) == t
  {
    if IsValid(t) {
      EncodeDecode(t);
      var b := Decode(t).value;
      assert |b| > 0 && Encode(b) == t;
    }
    forall b: Bytes | |b| > 0 && Encode(b) == t ensures IsValid(t) {
      DecodeEncode(b);
    }
  }

  /** Decoding accepts only canonical encodings: whatever it accepts re-encodes to the same text. */
  lemma {:induction false} EncodeDecode(t: Bytes)
    requires Decode(t).Some?
    ensures Encode(Decode(t).value) == t
    decreases |t|
  {
    if |t| > 0 {
      var g := DecodeGroup(t[..4], |t| == 4).value;
      var rest := Decode(t[4..]).value;
      GroupCanonical(t[..4], |t| == 4);
      EncodeDecode(t[4..]);
      var b := g + rest;
      if |g| < 3 {
        assert t[4..] == [];
        assert b == g;
        assert t == t[..4];
      } else if |rest| == 0 {
        assert t[4..] == [];
        assert b == g;
        assert t == t[..4];
      } else {
        assert b[..3] == g && b[3..] == rest;
        assert t == t[..4] + t[4..];
      }
    }
  }

  /** A byte string is accepted exactly when it is the encoding of what it decodes to. */
  lemma DecodeIff(t: Bytes, b: Bytes)
    ensures Decode(t) == Some(b) <==> Encode(b) == t
  {
    if Decode(t) == Some(b) {
      EncodeDecode(t);
    }
    if Encode(b) == t {
      DecodeEncode(b);
    }
  }

  /** Base64 text never contains a space (so it can be space-joined safely). */
  lemma {:induction false} EncodeHasNoSpace(b: Bytes)
    ensures Space !in Encode(b)
    decreases |b|
  {
    if |b| > 3 {
      EncodeHasNoSpace(b[3..]);
    }
  }

  /** The encoding of a non-empty byte string passes the validity check. */
  lemma EncodeIsValid(b: Bytes)
    requires |b| > 0
    ensures IsValid(Encode(b))
  {
    DecodeEncode(b);
  }
}
