/** Option for PHP's nullable values (`?string`, a model key that may be null). */
module Wrappers {
  datatype Option<T> = None | Some(value: T) {
    function GetOr(default: T): T {
      match this
      case Some(v) => v
      case None => default
    }
  }
}

/**
 * Names of the history slots of a translation bundle. A superseded value of
 * `key` is kept under `"{key}_old{N}"`, with N written in decimal as PHP's
 * string interpolation of an integer renders it.
 */
module SlotKeys {

  /** The character of a decimal digit. */
  function DigitChar(d: nat): (c: char)
    requires d < 10
    ensures '0' <= c <= '9'
  {
    (48 + d) as char
  }

  /** The value of a decimal digit character. */
  function DigitValue(c: char): nat
  {
    if '0' <= c <= '9' then (c as int - 48) as nat else 0
  }

  /** The decimal rendering of a natural number, without leading zeros. */
  function DecimalString(n: nat): (s: string)
    ensures |s| >= 1
    ensures forall i :: 0 <= i < |s| ==> '0' <= s[i] <= '9'
    ensures n > 0 ==> s[0] != '0'
    decreases n
  {
    if n < 10 then [DigitChar(n)]
    else DecimalString(n / 10) + [DigitChar(n % 10)]
  }

  /** Reads a string of decimal digits back as a number. */
  function ParseDecimal(s: string): nat
    decreases |s|
  {
    if s == [] then 0
    else ParseDecimal(s[..|s| - 1]) * 10 + DigitValue(s[|s| - 1])
  }

  /** Parsing undoes rendering, so no two numbers share a rendering. */
  lemma {:induction false} ParseDecimalRoundTrip(n: nat)
    ensures ParseDecimal(DecimalString(n)) == n
    decreases n
  {
    if n >= 10 {
      var p := DecimalString(n / 10);
      var s := p + [DigitChar(n % 10)];
      assert s[..|s| - 1] == p;
      ParseDecimalRoundTrip(n / 10);
    }
  }

  lemma DecimalStringInjective(i: nat, j: nat)
    requires DecimalString(i) == DecimalString(j)
    ensures i == j
  {
    ParseDecimalRoundTrip(i);
    ParseDecimalRoundTrip(j);
  }

  /** The slot key `"{key}_old{n}"` that holds the n-th superseded value of `key`. */
  function OldKey(key: string, n: nat): (k: string)
    ensures |k| > |key| + 4
    ensures k[..|key|] == key
  {
    key + "_old" + DecimalString(n)
  }

  /** A slot key is never the key it archives. */
  lemma OldKeyNotKey(key: string, n: nat)
    ensures OldKey(key, n) != key
  {
  }

  /** Distinct slot numbers of one key give distinct slot keys. */
  lemma OldKeyInjective(key: string, i: nat, j: nat)
    requires OldKey(key, i) == OldKey(key, j)
    ensures i == j
  {
    var p := key + "_old";
    assert OldKey(key, i)[|p|..] == DecimalString(i);
    assert OldKey(key, j)[|p|..] == DecimalString(j);
    DecimalStringInjective(i, j);
  }
}
