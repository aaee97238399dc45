/** JavaScript values the validation engine relies on: an optional value, the
    numbers that the CPF arithmetic can produce (including NaN), and the
    digit-only strings produced by `value.replace(/\D/g, '')`. */
module JsValues {

  datatype Option<T> = None | Some(value: T)

  /** A JavaScript number as it occurs in the check-digit arithmetic: an
      integer, or NaN once `undefined` has entered a sum. */
  datatype JsNumber = Num(n: int) | NaN

  /** JavaScript's `%`, which truncates toward zero (Dafny's `%` is Euclidean). */
  function JsRemainder(a: int, b: int): (r: int)
    requires b > 0
    ensures a >= 0 ==> 0 <= r < b && r == a % b
    ensures a < 0 ==> -b < r <= 0
  {
    if a >= 0 then a % b else -((-a) % b)
  }

  predicate IsDigitChar(c: char) {
    '0' <= c <= '9'
  }

  predicate IsDigits(s: string) {
    forall i :: 0 <= i < |s| ==> IsDigitChar(s[i])
  }

  function DigitValue(c: char): (d: int)
    requires IsDigitChar(c)
    ensures 0 <= d <= 9
  {
    c as int - '0' as int
  }

  /** `value.replace(/\D/g, '')`: every character outside '0'..'9' is dropped,
      the digits are kept in their order. */
  function StripNonDigits(s: string): (r: string)
    ensures IsDigits(r)
    ensures |r| <= |s|
    ensures IsDigits(s) ==> r == s
  {
    if s == [] then []
    else (if IsDigitChar(s[0]) then [s[0]] else []) + StripNonDigits(s[1..])
  }

  /** Stripping distributes over concatenation: it is a filter that keeps the
      input's digits in order and drops everything else. */
  lemma {:induction false} StripConcat(a: string, b: string)
    ensures StripNonDigits(a + b) == StripNonDigits(a) + StripNonDigits(b)
  {
    if a == [] {
      assert a + b == b;
    } else {
      assert (a + b)[0] == a[0];
      assert (a + b)[1..] == a[1..] + b;
      StripConcat(a[1..], b);
    }
  }

  /** Every digit of the input survives stripping as often as it occurs, and
      nothing else survives. */
  lemma {:induction false} StripKeepsDigits(s: string, c: char)
    ensures multiset(StripNonDigits(s))[c] == if IsDigitChar(c) then multiset(s)[c] else 0
  {
    if s != [] {
      StripKeepsDigits(s[1..], c);
      assert s == [s[0]] + s[1..];
      assert multiset(s) == multiset([s[0]]) + multiset(s[1..]);
    }
  }

  /** Stripping twice is stripping once. */
  lemma StripIdempotent(s: string)
    ensures StripNonDigits(StripNonDigits(s)) == StripNonDigits(s)
  {
  }

  /** `s.charAt(i)`: a one-character string, or '' past the end. */
  function CharAt(s: string, i: int): (r: string)
    ensures |r| <= 1
    ensures 0 <= i < |s| ==> r == [s[i]]
    ensures !(0 <= i < |s|) ==> r == ""
  {
    if 0 <= i < |s| then [s[i]] else ""
  }

  /** The loose comparison `t == x` of a string of at most one digit with a
      number: `t` converts to a number ('' becomes 0) and NaN equals nothing. */
  predicate LooseEquals(t: string, x: JsNumber)
    requires IsDigits(t) && |t| <= 1
  {
    x.Num? && x.n == (if t == "" then 0 else DigitValue(t[0]))
  }
}
