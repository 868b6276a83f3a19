/** Values shared by every part of the model: optional and fallible results,
    the value of a spreadsheet cell, and the text a number is cast to when it
    is stored in a string field. */
module Common {

  datatype Option<+T> = None | Some(value: T)

  datatype Result<+T, +E> = Ok(value: T) | Err(error: E)

  /** The value of a non-empty spreadsheet cell. Amounts are integers in
      minor currency units; an empty cell is `None` wherever a cell may be
      missing. */
  datatype Value = Text(text: string) | Number(n: int)

  /** A parsed spreadsheet row: field key to cell value. Assigning the same key
      twice keeps the later value, as a JavaScript object property does. */
  type Record = map<string, Value>

  /** No element occurs twice. */
  ghost predicate Distinct<T>(xs: seq<T>)
  {
    forall i, j :: 0 <= i < j < |xs| ==> xs[i] != xs[j]
  }

  /** `xs.map(f)`: one result per element, in order. */
  function MapSeq<A, B>(xs: seq<A>, f: A -> B): (ys: seq<B>)
    ensures |ys| == |xs|
    ensures forall i :: 0 <= i < |xs| ==> ys[i] == f(xs[i])
  {
    if |xs| == 0 then [] else MapSeq(xs[..|xs| - 1], f) + [f(xs[|xs| - 1])]
  }

  function DigitChar(d: nat): (c: char)
    requires d < 10
    ensures '0' <= c <= '9'
    ensures DigitValue(c) == d
  {
    ('0' as int + d) as char
  }

  /** The value of a decimal digit character (0 for any other character). */
  function DigitValue(c: char): nat
  {
    if '0' <= c <= '9' then c as int - '0' as int else 0
  }

  /** The number a string of decimal digits denotes, read left to right. */
  function DigitsValue(s: string): nat
  {
    if |s| == 0 then 0 else DigitsValue(s[..|s| - 1]) * 10 + DigitValue(s[|s| - 1])
  }

  /** The integer a decimal text denotes: an optional '-' and then digits. */
  function DecimalValue(s: string): int
  {
    if |s| > 0 && s[0] == '-' then -(DigitsValue(s[1..]) as int) else DigitsValue(s)
  }

  /** Decimal text of a natural number, most significant digit first. */
  function NatText(n: nat): (s: string)
    ensures |s| > 0
    ensures forall i :: 0 <= i < |s| ==> '0' <= s[i] <= '9'
    ensures n > 0 ==> s[0] != '0'
    ensures DigitsValue(s) == n
  {
    if n < 10 then [DigitChar(n)]
    else
      var s := NatText(n / 10) + [DigitChar(n % 10)];
      assert s[..|s| - 1] == NatText(n / 10);
      s
  }

  /** Decimal text of an integer, as `String(n)` writes it for integers below
      2^53 in magnitude. */
  function IntText(n: int): (s: string)
    ensures |s| > 0
    ensures n < 0 <==> s[0] == '-'
    ensures DecimalValue(s) == n
  {
    if n < 0 then
      var s := "-" + NatText(-n);
      assert s[1..] == NatText(-n);
      s
    else NatText(n)
  }

  /** Different numbers are stored as different texts. */
  lemma IntTextInjective(m: int, n: int)
    ensures IntText(m) == IntText(n) <==> m == n
  {
    if IntText(m) == IntText(n) {
      assert DecimalValue(IntText(m)) == DecimalValue(IntText(n));
    }
  }

  /** Dropping the last element of a concatenation drops the last element of
      its second part. */
  lemma LastOfAppend<T>(xs: seq<T>, ys: seq<T>)
    requires |ys| > 0
    ensures (xs + ys)[..|xs + ys| - 1] == xs + ys[..|ys| - 1]
    ensures (xs + ys)[|xs + ys| - 1] == ys[|ys| - 1]
  {
  }

  /** A non-empty sequence is all but its last element followed by that element. */
  lemma ButLastAndLast<T>(s: seq<T>)
    requires |s| > 0
    ensures s[..|s| - 1] + [s[|s| - 1]] == s
  {
  }

  /** Regrouping the pieces of a filter step: a filtered prefix, a filtered
      middle and the kept last element. */
  lemma Regroup<T>(whole: seq<T>, part: seq<T>, front: seq<T>, middle: seq<T>, kept: seq<T>, rest: seq<T>)
    requires whole == part + kept && part == front + middle && rest == middle + kept
    ensures whole == front + rest
  {
  }

  /** The string a cell value becomes in a `String` field of a stored
      document: text is kept, a number is written in decimal. */
  function AsStoredString(v: Value): (s: string)
    ensures v.Text? ==> s == v.text
  {
    match v
    case Text(t) => t
    case Number(n) => IntText(n)
  }
}
