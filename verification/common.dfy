/** Vocabulary shared by the storage service and the upload panel: optional
    values, values thrown by a callee, settled promises, and the few string
    operations the pipeline's expressions use (decimal printing of integers,
    `split(".").pop()` and ASCII lower-casing). */
module Common {

  datatype Option<T> = None | Some(value: T)

  /** A value thrown by a callee. JavaScript may throw any value; the pipeline
      only tells `Error` objects, which carry a message, from everything else. */
  datatype Thrown = ErrorObject(message: string) | NonError

  /** How an awaited call ends: its promise resolves with a value, or it
      rejects with a thrown value. */
  datatype Settled<T> = Returned(value: T) | Raised(thrown: Thrown)

  /** `error instanceof Error ? error.message : fallback` */
  function MessageOr(t: Thrown, fallback: string): string
  {
    match t
    case ErrorObject(message) => message
    case NonError => fallback
  }

  predicate IsDigit(c: char) { '0' <= c <= '9' }

  predicate AllDigits(s: string) { forall k :: 0 <= k < |s| ==> IsDigit(s[k]) }

  function DigitChar(d: nat): char
    requires d < 10
  {
    ('0' as int + d) as char
  }

  /** The text a template literal prints for a non-negative integer, such as
      `${Date.now()}` or `${i}`: decimal digits without leading zeros. */
  function Decimal(n: nat): string
  {
    if n < 10 then [DigitChar(n)] else Decimal(n / 10) + [DigitChar(n % 10)]
  }

  /** A printed number is a non-empty run of digits without a leading zero. */
  lemma {:induction false} DecimalDigits(n: nat)
    ensures var s := Decimal(n);
      1 <= |s| && AllDigits(s) && (1 < |s| ==> s[0] != '0')
  {
    if n >= 10 {
      DecimalDigits(n / 10);
    }
  }

  /** The number a string of decimal digits denotes. */
  function DecimalValue(s: string): int
  {
    if s == [] then 0
    else DecimalValue(s[..|s| - 1]) * 10 + (s[|s| - 1] as int - '0' as int)
  }

  /** Reading back the printed decimal gives the number printed. */
  lemma {:induction false} DecimalRoundTrip(n: nat)
    ensures DecimalValue(Decimal(n)) == n
  {
    if n >= 10 {
      var s := Decimal(n);
      assert s[..|s| - 1] == Decimal(n / 10);
      DecimalRoundTrip(n / 10);
    }
  }

  /** Distinct numbers print differently. */
  lemma DecimalInjective(m: nat, n: nat)
    requires Decimal(m) == Decimal(n)
    ensures m == n
  {
    DecimalRoundTrip(m);
    DecimalRoundTrip(n);
  }

  /** `s.split(".").pop()`: the text after the last `.` of `s`, or all of `s`
      when it holds no `.`. `split` never yields an empty array, so `pop`
      always has a segment to return. */
  function AfterLastDot(s: string): string
  {
    if s == [] then []
    else if s[|s| - 1] == '.' then []
    else AfterLastDot(s[..|s| - 1]) + [s[|s| - 1]]
  }

  /** The segment is a dot-free suffix of `s`, preceded by a `.` unless it is
      all of `s`; with no `.` in `s` it is `s` itself. */
  lemma {:induction false} LastSegment(s: string)
    ensures var r := AfterLastDot(s);
      |r| <= |s| && r == s[|s| - |r|..] && '.' !in r &&
      (|r| < |s| ==> s[|s| - |r| - 1] == '.') &&
      ('.' !in s ==> r == s)
  {
    if s != [] && s[|s| - 1] != '.' {
      var init := s[..|s| - 1];
      LastSegment(init);
      assert s == init + [s[|s| - 1]];
    }
  }

  /** Appending `.` and a dot-free segment makes that segment the last one. */
  lemma {:induction false} AfterLastDotOfJoin(prefix: string, segment: string)
    requires '.' !in segment
    ensures AfterLastDot(prefix + "." + segment) == segment
  {
    var s := prefix + "." + segment;
    var r := AfterLastDot(s);
    LastSegment(s);
    assert s[|s| - |segment|..] == segment;
    assert s[|s| - |segment| - 1] == '.';
  }

  function LowerChar(c: char): char
  {
    if 'A' <= c <= 'Z' then (c as int + 32) as char else c
  }

  /** `String.prototype.toLowerCase` on the ASCII letters. */
  function ToLower(s: string): (r: string)
    ensures |r| == |s|
    ensures forall k :: 0 <= k < |r| ==> !('A' <= r[k] <= 'Z')
    ensures forall k :: 0 <= k < |s| && 'A' <= s[k] <= 'Z' ==> r[k] == (s[k] as int - 'A' as int + 'a' as int) as char
    ensures forall k :: 0 <= k < |s| && !('A' <= s[k] <= 'Z') ==> r[k] == s[k]
  {
    seq(|s|, k requires 0 <= k < |s| => LowerChar(s[k]))
  }
}
