/**
 * Shared vocabulary of the login backend model: optional values, results that
 * carry an error instead of throwing, the error kinds the service and the
 * controller raise, the decimal rendering JavaScript uses when a number is
 * interpolated into a message, and the substring test behind a `LIKE '%k%'`
 * filter.
 */
module Common {

  datatype Option<+T> = None | Some(value: T) {
    function GetOr(default: T): (v: T) {
      match this
      case Some(v) => v
      case None => default
    }
  }

  /** The classes of exception raised in the modelled code. `Plain` is a bare
      JavaScript `Error`, which is what the user service re-throws. */
  datatype ErrorKind = Plain | NotFound | Conflict | Unauthorized

  datatype Error = Error(kind: ErrorKind, message: string)

  /** A promise that either resolves with a value or rejects with an error. */
  datatype Result<+T> = Success(value: T) | Failure(error: Error)

  /** `catch (error) { throw new Error(prefix + error.message) }`: a failure
      keeps its message behind the prefix and loses its kind; a success passes. */
  function Rewrap<T>(prefix: string, r: Result<T>): (w: Result<T>)
    ensures w.Success? <==> r.Success?
    ensures r.Success? ==> w == r
    ensures r.Failure? ==> w.error.kind == Plain && w.error.message == prefix + r.error.message
  {
    match r
    case Success(_) => r
    case Failure(e) => Failure(Error(Plain, prefix + e.message))
  }

  // ---------------------------------------------------------------------
  // Decimal rendering of integers (template-literal interpolation)
  // ---------------------------------------------------------------------

  predicate IsDigit(c: char) {
    '0' <= c <= '9'
  }

  predicate AllDigits(s: string) {
    forall i :: 0 <= i < |s| ==> IsDigit(s[i])
  }

  function DigitChar(d: nat): (c: char)
    requires d < 10
    ensures IsDigit(c) && (c - '0') as int == d
  {
    "0123456789"[d]
  }

  /** Decimal digits of `n`, most significant first, with no leading zero. */
  function NatToString(n: nat): (s: string)
    ensures |s| >= 1 && AllDigits(s)
    ensures |s| > 1 ==> s[0] != '0'
    decreases n
  {
    if n < 10 then [DigitChar(n)] else NatToString(n / 10) + [DigitChar(n % 10)]
  }

  /** Reference reading of a digit string: the number it denotes. */
  function DigitsValue(s: string): (n: nat)
    requires AllDigits(s)
  {
    if s == [] then 0 else DigitsValue(s[..|s| - 1]) * 10 + (s[|s| - 1] - '0') as int
  }

  lemma {:induction false} NatToStringRoundTrip(n: nat)
    ensures DigitsValue(NatToString(n)) == n
    decreases n
  {
    if n >= 10 {
      var s := NatToString(n);
      var prefix := NatToString(n / 10);
      assert s[..|s| - 1] == prefix;
      NatToStringRoundTrip(n / 10);
    }
  }

  /** `${n}` for an integral number: an optional minus sign, then the digits. */
  function IntToString(n: int): (s: string)
    ensures |s| >= 1
    ensures n >= 0 <==> s[0] != '-'
  {
    if n < 0 then "-" + NatToString(-n) else NatToString(n)
  }

  /** Different ids render differently, so a not-found message names its id. */
  lemma IntToStringInjective(a: int, b: int)
    requires IntToString(a) == IntToString(b)
    ensures a == b
  {
    var s := IntToString(a);
    if a < 0 {
      assert b < 0;
      assert NatToString(-a) == s[1..] == NatToString(-b);
    } else {
      assert b >= 0;
    }
    NatToStringRoundTrip(if a < 0 then -a else a);
    NatToStringRoundTrip(if b < 0 then -b else b);
  }

  // ---------------------------------------------------------------------
  // Substring search (the keyword filter of a `LIKE '%keyword%'` query)
  // ---------------------------------------------------------------------

  /** `k` occurs in `s` starting at index `i`. */
  predicate OccursAt(s: string, k: string, i: nat) {
    i + |k| <= |s| && s[i..i + |k|] == k
  }

  /** `k` occurs somewhere in `s`, found by scanning from the left. */
  predicate Contains(s: string, k: string) {
    k <= s || (|s| > 0 && Contains(s[1..], k))
  }

  lemma {:induction false} ContainsIffOccurs(s: string, k: string)
    ensures Contains(s, k) <==> exists i: nat :: OccursAt(s, k, i)
  {
    if Contains(s, k) {
      var i := ContainsWitness(s, k);
    }
    forall i: nat | OccursAt(s, k, i)
      ensures Contains(s, k)
    {
      OccursImpliesContains(s, k, i);
    }
  }

  /** An index at which a contained `k` occurs in `s`. */
  lemma {:induction false} ContainsWitness(s: string, k: string) returns (i: nat)
    requires Contains(s, k)
    ensures OccursAt(s, k, i)
    decreases |s|
  {
    if k <= s {
      i := 0;
    } else {
      var j := ContainsWitness(s[1..], k);
      assert s[j + 1..j + 1 + |k|] == s[1..][j..j + |k|];
      i := j + 1;
    }
  }

  lemma {:induction false} OccursImpliesContains(s: string, k: string, i: nat)
    requires OccursAt(s, k, i)
    ensures Contains(s, k)
    decreases i
  {
    if i == 0 {
      assert k <= s;
    } else {
      assert s[1..][i - 1..i - 1 + |k|] == s[i..i + |k|];
      OccursImpliesContains(s[1..], k, i - 1);
    }
  }

  /** The empty keyword (the handler's default) occurs in every string. */
  lemma EmptyKeywordMatchesAll(s: string)
    ensures Contains(s, "")
  {
  }
}
