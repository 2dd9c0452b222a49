/**
 * Decoded JSON values as PHP holds them after `json_decode($text, true)`,
 * a message as a map from field names to values, and the casts the server
 * applies to fields: `isset`, `(string)` and `(int)`.
 */
module Values {
  import opened Text

  datatype Value =
    | Null
    | Bool(b: bool)
    | Int(i: int)
    | Str(s: Bytes)
    | List(items: seq<Value>)

  /** A CDC message: a JSON object decoded to an associative array. */
  type Message = map<Bytes, Value>

  /** `isset($m[$k])`: the key is present and its value is not null. */
  predicate IsSet(m: Message, k: Bytes)
  {
    k in m && !m[k].Null?
  }

  function Digit(d: nat): Byte
    requires d < 10
  {
    ('0' as int + d) as char
  }

  /** Decimal digits of a natural number. */
  function NatToDecimal(n: nat): Bytes
    decreases n
  {
    if n < 10 then [Digit(n)] else NatToDecimal(n / 10) + [Digit(n % 10)]
  }

  /** `(string)` applied to a decoded value. */
  function ToStr(v: Value): (r: Bytes)
    ensures v.Str? ==> r == v.s
    ensures v.Int? ==> StrToInt(r) == v.i
  {
    match v
    case Null => []
    case Bool(b) => if b then "1" else []
    case Int(i) =>
      var n: nat := if i < 0 then -i else i;
      DecimalDigits(n);
      LeadingDigitsAll(NatToDecimal(n));
      assert IsDigit(NatToDecimal(n)[0]);
      if i < 0 then
        assert ("-" + NatToDecimal(n))[1..] == NatToDecimal(n);
        "-" + NatToDecimal(n)
      else NatToDecimal(n)
    case Str(s) => s
    case List(_) => "Array"
  }

  predicate IsDigit(c: Byte)
  {
    '0' <= c <= '9'
  }

  /** The longest prefix of `s` made of decimal digits. */
  function LeadingDigits(s: Bytes): Bytes
    decreases |s|
  {
    if |s| > 0 && IsDigit(s[0]) then [s[0]] + LeadingDigits(s[1..]) else []
  }

  /** The value of a string of decimal digits. */
  function DigitsValue(d: Bytes): nat
    decreases |d|
  {
    if |d| == 0 then 0
    else DigitsValue(d[..|d| - 1]) * 10 + (if IsDigit(d[|d| - 1]) then d[|d| - 1] as int - '0' as int else 0)
  }

  /** `(int)` applied to a string: an optional sign and the leading decimal digits. */
  function StrToInt(s: Bytes): int
  {
    if |s| > 0 && s[0] == '-' then 0 - DigitsValue(LeadingDigits(s[1..])) as int
    else if |s| > 0 && s[0] == '+' then DigitsValue(LeadingDigits(s[1..]))
    else DigitsValue(LeadingDigits(s))
  }

  /** `(int)` applied to a decoded value. */
  function ToInt(v: Value): int
  {
    match v
    case Null => 0
    case Bool(b) => if b then 1 else 0
    case Int(i) => i
    case Str(s) => StrToInt(s)
    case List(items) => if |items| == 0 then 0 else 1
  }

  /** The decimal text of a natural number is non-empty, all digits, and worth that number. */
  lemma {:induction false} DecimalDigits(n: nat)
    ensures |NatToDecimal(n)| > 0
    ensures forall i :: 0 <= i < |NatToDecimal(n)| ==> IsDigit(NatToDecimal(n)[i])
    ensures DigitsValue(NatToDecimal(n)) == n
    decreases n
  {
    if n >= 10 {
      DecimalDigits(n / 10);
      var d := NatToDecimal(n);
      assert d[..|d| - 1] == NatToDecimal(n / 10);
    }
  }

  /** A string made only of digits is its own leading-digit prefix. */
  lemma {:induction false} LeadingDigitsAll(d: Bytes)
    requires forall i :: 0 <= i < |d| ==> IsDigit(d[i])
    ensures LeadingDigits(d) == d
    decreases |d|
  {
    if |d| > 0 {
      LeadingDigitsAll(d[1..]);
      assert [d[0]] + d[1..] == d;
    }
  }
}
