/** The pieces of Go's `strings` and `strconv` packages that the core
    relies on, over strings as sequences of characters: lower-casing,
    searching, cutting, splitting, removing a character, decimal
    rendering (`%d`) and `strconv.ParseInt(s, 10, 64)`. */
module Text {
  import opened Common

  // ---------------------------------------------------------------
  // Case mapping (ASCII letters only)

  predicate IsUpper(ch: char) { 'A' <= ch <= 'Z' }

  function LowerChar(ch: char): (r: char)
    ensures !IsUpper(r)
    ensures !IsUpper(ch) ==> r == ch
  {
    if IsUpper(ch) then (ch as int - 'A' as int + 'a' as int) as char else ch
  }

  /** `strings.ToLower` restricted to ASCII letters. */
  function ToLower(s: string): (r: string)
    ensures |r| == |s|
    ensures forall i :: 0 <= i < |s| ==> !IsUpper(r[i]) && (!IsUpper(s[i]) ==> r[i] == s[i])
  {
    seq(|s|, i requires 0 <= i < |s| => LowerChar(s[i]))
  }

  lemma ToLowerIdempotent(s: string)
    ensures ToLower(ToLower(s)) == ToLower(s)
  {
  }

  lemma ToLowerAppend(a: string, b: string)
    ensures ToLower(a + b) == ToLower(a) + ToLower(b)
  {
    assert forall i :: 0 <= i < |a| + |b| ==> ToLower(a + b)[i] == (ToLower(a) + ToLower(b))[i];
  }

  // ---------------------------------------------------------------
  // Searching

  /** `sep` occurs in `s` starting at index `k`. */
  predicate OccursAt(s: string, sep: string, k: int)
  {
    0 <= k && k + |sep| <= |s| && s[k..k + |sep|] == sep
  }

  /** The first index at which `sep` occurs in `s` (`strings.Index`). */
  function IndexOf(s: string, sep: string): (r: Option<nat>)
    ensures r.Some? ==> OccursAt(s, sep, r.value)
    ensures r.Some? ==> forall k :: 0 <= k < r.value ==> !OccursAt(s, sep, k)
    ensures r.None? ==> forall k :: !OccursAt(s, sep, k)
    decreases |s|
  {
    if |s| < |sep| then None
    else if s[..|sep|] == sep then Some(0)
    else
      var r := IndexOf(s[1..], sep);
      assert forall k :: 1 <= k ==> (OccursAt(s, sep, k) <==> OccursAt(s[1..], sep, k - 1));
      if r.None? then None else Some(r.value + 1)
  }

  /** `strings.Contains`. */
  predicate Contains(s: string, sub: string)
  {
    IndexOf(s, sub).Some?
  }

  /** `strings.Cut`: the text before and after the first occurrence of
      `sep`, and whether it occurs; when it does not, `(s, "", false)`. */
  function Cut(s: string, sep: string): (r: (string, string, bool))
    ensures r.2 ==> r.0 + sep + r.1 == s
    ensures r.2 ==> forall k :: 0 <= k < |r.0| ==> !OccursAt(s, sep, k)
    ensures !r.2 ==> r.0 == s && r.1 == "" && !Contains(s, sep)
  {
    match IndexOf(s, sep)
    case None => (s, "", false)
    case Some(i) =>
      assert s[..i] + sep + s[i + |sep|..] == s;
      (s[..i], s[i + |sep|..], true)
  }

  /** When `s` starts with `sep`, cutting yields everything after it. */
  lemma CutPrefix(sep: string, rest: string)
    ensures Cut(sep + rest, sep) == ([], rest, true)
  {
    assert (sep + rest)[..|sep|] == sep;
  }

  /** The first index of character `c` in `s`. */
  function IndexOfChar(s: string, c: char): (r: Option<nat>)
    ensures r.Some? ==> r.value < |s| && s[r.value] == c && c !in s[..r.value]
    ensures r.None? ==> c !in s
  {
    if s == [] then None
    else if s[0] == c then Some(0)
    else
      match IndexOfChar(s[1..], c)
      case None => None
      case Some(i) =>
        assert s[..i + 1] == [s[0]] + s[1..][..i];
        Some(i + 1)
  }

  // ---------------------------------------------------------------
  // Splitting

  /** The fields joined back with `c` between consecutive ones. */
  function Join(fields: seq<string>, c: char): string
    requires |fields| >= 1
  {
    if |fields| == 1 then fields[0] else fields[0] + [c] + Join(fields[1..], c)
  }

  /** `strings.Split(s, string(c))`: the maximal runs between the
      occurrences of `c`, empty ones included; never empty. */
  function Split(s: string, c: char): (r: seq<string>)
    ensures |r| >= 1
    ensures Join(r, c) == s
    ensures forall f :: f in r ==> c !in f
    decreases |s|
  {
    match IndexOfChar(s, c)
    case None => [s]
    case Some(i) =>
      var rest := Split(s[i + 1..], c);
      assert s == s[..i] + [c] + s[i + 1..];
      assert ([s[..i]] + rest)[1..] == rest;
      [s[..i]] + rest
  }

  /** `Split` is the only way to cut `s` into fields free of `c` that
      join back to `s`. */
  lemma {:induction false} SplitUnique(fields: seq<string>, c: char)
    requires |fields| >= 1
    requires forall f :: f in fields ==> c !in f
    ensures Split(Join(fields, c), c) == fields
  {
    var s := Join(fields, c);
    if |fields| == 1 {
      assert c !in s;
    } else {
      var f0 := fields[0];
      var rest := Join(fields[1..], c);
      assert s == f0 + [c] + rest;
      assert f0 in fields;
      assert s[..|f0|] == f0;
      assert s[|f0|] == c;
      assert IndexOfChar(s, c) == Some(|f0|);
      assert s[|f0| + 1..] == rest;
      forall f | f in fields[1..] ensures c !in f {
        assert f in fields;
      }
      SplitUnique(fields[1..], c);
      assert fields == [f0] + fields[1..];
    }
  }

  // ---------------------------------------------------------------
  // Removing a character (`strings.Replace(s, string(c), "", -1)`)

  function RemoveChar(s: string, c: char): string
  {
    if s == [] then []
    else if s[0] == c then RemoveChar(s[1..], c)
    else [s[0]] + RemoveChar(s[1..], c)
  }

  /** Removing a character that does not occur changes nothing. */
  lemma {:induction false} RemoveCharAbsent(s: string, c: char)
    requires forall i :: 0 <= i < |s| ==> s[i] != c
    ensures RemoveChar(s, c) == s
  {
    if s != [] {
      RemoveCharAbsent(s[1..], c);
    }
  }

  lemma {:induction false} RemoveCharAppend(a: string, b: string, c: char)
    ensures RemoveChar(a + b, c) == RemoveChar(a, c) + RemoveChar(b, c)
  {
    if a != [] {
      assert (a + b)[1..] == a[1..] + b;
      RemoveCharAppend(a[1..], b, c);
    } else {
      assert a + b == b;
    }
  }

  // ---------------------------------------------------------------
  // Decimal numbers

  predicate IsDigit(ch: char) { '0' <= ch <= '9' }

  function DigitChar(d: int): char
    requires 0 <= d < 10
  {
    ('0' as int + d) as char
  }

  /** `%d` of a natural number. */
  function NatToString(n: nat): (r: string)
    ensures |r| >= 1
    ensures forall i :: 0 <= i < |r| ==> IsDigit(r[i])
  {
    if n < 10 then [DigitChar(n)] else NatToString(n / 10) + [DigitChar(n % 10)]
  }

  /** `%d` of an integer. */
  function IntToString(n: int): (r: string)
    ensures |r| >= 1
  {
    if n < 0 then "-" + NatToString(-n) else NatToString(n)
  }

  const MaxUint64: int := 0xFFFF_FFFF_FFFF_FFFF
  const MinInt64: int := -0x8000_0000_0000_0000
  const MaxInt64: int := 0x7FFF_FFFF_FFFF_FFFF

  /** The outcome of `strconv.ParseUint(s, 10, 64)`. */
  datatype UintScan = Digits(n: nat) | SyntaxError | RangeError

  /** The digit loop of `strconv.ParseUint` for base 10: it stops with a
      syntax error at the first non-digit, and with a range error at the
      first digit that takes the value past 2^64 - 1. */
  function ScanDigits(s: string): (r: UintScan)
    ensures r.Digits? ==> r.n <= MaxUint64
  {
    if s == [] then Digits(0)
    else
      match ScanDigits(s[..|s| - 1])
      case SyntaxError => SyntaxError
      case RangeError => RangeError
      case Digits(n) =>
        var ch := s[|s| - 1];
        if !IsDigit(ch) then SyntaxError
        else if n >= MaxUint64 / 10 + 1 then RangeError
        else
          var n1 := n * 10 + (ch as int - '0' as int);
          if n1 > MaxUint64 then RangeError else Digits(n1)
  }

  /** `strconv.ParseUint(s, 10, 64)`: the value and whether it is exact. */
  function ParseUint(s: string): (r: (int, UintScan))
  {
    if s == [] then (0, SyntaxError)
    else match ScanDigits(s)
      case Digits(n) => (n, Digits(n))
      case SyntaxError => (0, SyntaxError)
      case RangeError => (MaxUint64, RangeError)
  }

  /** `strconv.ParseInt(s, 10, 64)` with its error dropped, as the
      source does: 0 on a syntax error, the nearest int64 bound on a
      range error, the value otherwise. */
  function ParseInt(s: string): (r: int)
    ensures MinInt64 <= r <= MaxInt64
  {
    if s == [] then 0
    else
      var neg := s[0] == '-';
      var digits := if s[0] == '+' || s[0] == '-' then s[1..] else s;
      var (un, scan) := ParseUint(digits);
      if scan.SyntaxError? then 0
      else if !neg && un >= MaxInt64 + 1 then MaxInt64
      else if neg && un > MaxInt64 + 1 then MinInt64
      else if neg then -un
      else un
  }

  lemma {:induction false} ScanNatToString(n: nat)
    requires n <= MaxUint64
    ensures ScanDigits(NatToString(n)) == Digits(n)
  {
    var s := NatToString(n);
    if n >= 10 {
      ScanNatToString(n / 10);
      assert s[..|s| - 1] == NatToString(n / 10);
    }
  }

  /** Parsing the decimal rendering of any int64 gives it back. */
  lemma ParseIntToString(n: int)
    requires MinInt64 <= n <= MaxInt64
    ensures ParseInt(IntToString(n)) == n
  {
    var s := IntToString(n);
    if n < 0 {
      ScanNatToString(-n);
      assert s[0] == '-' && s[1..] == NatToString(-n);
      assert ParseUint(s[1..]) == (-n, Digits(-n));
    } else {
      ScanNatToString(n);
      assert IsDigit(s[0]);
      assert ParseUint(s) == (n, Digits(n));
    }
  }
}
