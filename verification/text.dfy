/**
 * Decimal text conversions (Python's `str(n)`, `int(s)`, `str.isdigit`), string
 * joining (`sep.join(parts)`) and blank-name detection (`s.strip() == ""`).
 * Only ASCII digits are recognised; whitespace is Python's full `str.isspace()` set.
 */
module Text {
  import opened Wrappers

  predicate IsDigitChar(c: char) { '0' <= c <= '9' }

  predicate AllDigits(s: string) { forall i :: 0 <= i < |s| ==> IsDigitChar(s[i]) }

  function DigitChar(d: nat): (c: char)
    requires d < 10
    ensures IsDigitChar(c)
  {
    ['0', '1', '2', '3', '4', '5', '6', '7', '8', '9'][d]
  }

  function DigitValue(c: char): (d: nat)
    requires IsDigitChar(c)
    ensures d < 10 && DigitChar(d) == c
  {
    (c as int) - ('0' as int)
  }

  /** `str(n)` for a non-negative integer: shortest decimal digits, no sign. */
  function NatToString(n: nat): (s: string)
    ensures 1 <= |s| && AllDigits(s)
    ensures n < 10 <==> |s| == 1
  {
    if n < 10 then [DigitChar(n)] else NatToString(n / 10) + [DigitChar(n % 10)]
  }

  /** Value of a string of decimal digits, most significant first. */
  function DigitsValue(s: string): nat
    requires AllDigits(s)
  {
    if s == [] then 0 else 10 * DigitsValue(s[..|s| - 1]) + DigitValue(s[|s| - 1])
  }

  /** `int(s)` on a string accepted by `s.isdigit()`; `None` where `isdigit()` is false. */
  function ParseNat(s: string): (r: Option<nat>)
    ensures r.Some? <==> s != [] && AllDigits(s)
  {
    if s != [] && AllDigits(s) then Some(DigitsValue(s)) else None
  }

  /** `int(s)`: an optional sign followed by at least one decimal digit; `None` where Python raises ValueError. */
  function ParseInt(s: string): (r: Option<int>)
    ensures s != [] && AllDigits(s) ==> r == ParseNat(s)
    ensures r.Some? ==> s != []
  {
    if s != [] && (s[0] == '-' || s[0] == '+') then
      match ParseNat(s[1..])
      case Some(v) => var i: int := v; Some(if s[0] == '-' then -i else i)
      case None => None
    else
      match ParseNat(s)
      case Some(v) => Some(v)
      case None => None
  }

  lemma {:induction false} NatToStringRoundTrip(n: nat)
    ensures ParseNat(NatToString(n)) == Some(n)
    ensures ParseInt(NatToString(n)) == Some(n)
  {
    var s := NatToString(n);
    if n >= 10 {
      NatToStringRoundTrip(n / 10);
      assert s[..|s| - 1] == NatToString(n / 10);
      assert DigitsValue(s) == 10 * (n / 10) + n % 10;
    } else {
      assert s[..|s| - 1] == [];
      assert DigitsValue(s) == n;
    }
  }

  lemma NatToStringInjective(m: nat, n: nat)
    requires NatToString(m) == NatToString(n)
    ensures m == n
  {
    NatToStringRoundTrip(m);
    NatToStringRoundTrip(n);
  }

  /** `sep.join(parts)`. */
  function Join(parts: seq<string>, sep: string): (s: string)
  {
    if |parts| == 0 then ""
    else if |parts| == 1 then parts[0]
    else Join(parts[..|parts| - 1], sep) + sep + parts[|parts| - 1]
  }

  /** A join draws its characters from the parts and the separator only. */
  lemma {:induction false} JoinAlphabet(parts: seq<string>, sep: string, alphabet: set<char>)
    requires forall i, j :: 0 <= i < |parts| && 0 <= j < |parts[i]| ==> parts[i][j] in alphabet
    requires forall j :: 0 <= j < |sep| ==> sep[j] in alphabet
    ensures forall k :: 0 <= k < |Join(parts, sep)| ==> Join(parts, sep)[k] in alphabet
  {
    if |parts| > 1 {
      var init := parts[..|parts| - 1];
      JoinAlphabet(init, sep, alphabet);
      var s := Join(parts, sep);
      assert s == Join(init, sep) + sep + parts[|parts| - 1];
      forall k | 0 <= k < |s| ensures s[k] in alphabet {
        var a, b := |Join(init, sep)|, |sep|;
        if k < a {
          assert s[k] == Join(init, sep)[k];
        } else if k < a + b {
          assert s[k] == sep[k - a];
        } else {
          assert s[k] == parts[|parts| - 1][k - a - b];
        }
      }
    } else if |parts| == 1 {
      assert Join(parts, sep) == parts[0];
    }
  }

  /** Length of a join: the parts plus one separator between each neighbouring pair. */
  lemma {:induction false} JoinLength(parts: seq<string>, sep: string, w: nat)
    requires forall i :: 0 <= i < |parts| ==> |parts[i]| == w
    ensures |parts| > 0 ==> |Join(parts, sep)| == |parts| * w + (|parts| - 1) * |sep|
    ensures |parts| == 0 ==> Join(parts, sep) == ""
  {
    if |parts| > 1 {
      var k := |parts|;
      JoinLength(parts[..k - 1], sep, w);
      assert |Join(parts, sep)| == (k - 1) * w + (k - 2) * |sep| + |sep| + w;
      assert (k - 1) * w + w == k * w;
      assert (k - 2) * |sep| + |sep| == (k - 1) * |sep|;
    }
  }

  /**
   * The characters `str.strip()` removes: those `str.isspace()` holds for, namely tab through
   * carriage return, the four separators 0x1C-0x1F, the space, and the Unicode spaces and
   * line or paragraph separators.
   */
  predicate IsSpaceChar(c: char)
  {
    || '\U{9}' <= c <= '\U{D}'
    || '\U{1C}' <= c <= '\U{20}'
    || c == '\U{85}' || c == '\U{A0}' || c == '\U{1680}'
    || '\U{2000}' <= c <= '\U{200A}'
    || c == '\U{2028}' || c == '\U{2029}' || c == '\U{202F}' || c == '\U{205F}' || c == '\U{3000}'
  }

  /** The name is empty once stripped: every character is whitespace (vacuously true of ""). */
  predicate IsBlank(s: string) { forall i :: 0 <= i < |s| ==> IsSpaceChar(s[i]) }
}
