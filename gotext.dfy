/**
 * The two Go string routines the rule parser relies on: `strings.Split` with a
 * one-character separator and `strconv.Atoi` on a 64-bit platform, with the
 * decimal printing they are checked against.
 */
module GoText {
  import opened Wrappers

  predicate IsDigit(c: char) {
    '0' <= c <= '9'
  }

  predicate AllDigits(s: string) {
    forall i :: 0 <= i < |s| ==> IsDigit(s[i])
  }

  function DigitValue(c: char): int
    requires IsDigit(c)
  {
    c as int - '0' as int
  }

  function DigitChar(v: int): (c: char)
    requires 0 <= v < 10
    ensures IsDigit(c) && DigitValue(c) == v
  {
    ('0' as int + v) as char
  }

  /** The number a non-empty run of decimal digits spells, most significant digit first. */
  function DigitsValue(s: string): nat
    requires AllDigits(s)
    decreases |s|
  {
    if s == [] then 0 else DigitsValue(s[..|s| - 1]) * 10 + DigitValue(s[|s| - 1])
  }

  /** The shortest decimal spelling of `u`, as `strconv.Itoa` and the time
      formatter print it. */
  function DecimalDigits(u: nat): (s: string)
    ensures 1 <= |s| && AllDigits(s)
    ensures DigitsValue(s) == u
    ensures |s| > 1 ==> s[0] != '0'
    ensures u >= 10 ==> |s| >= 2
    ensures u >= 100 ==> |s| >= 3
    ensures u >= 1000 ==> |s| >= 4
    ensures u >= 10000 ==> |s| >= 5
    decreases u
  {
    if u < 10 then [DigitChar(u)]
    else
      var s := DecimalDigits(u / 10) + [DigitChar(u % 10)];
      assert s[..|s| - 1] == DecimalDigits(u / 10);
      s
  }

  const MinInt: int := -0x8000_0000_0000_0000
  const MaxInt: int := 0x7fff_ffff_ffff_ffff

  /** Go's `strconv.Itoa`. */
  function Itoa(n: int): string {
    (if n < 0 then "-" else "") + DecimalDigits(if n < 0 then -n else n)
  }

  /** Go's `strconv.Atoi` for a 64-bit `int`: an optional sign, then one or more
      decimal digits (leading zeros allowed), and a value that fits.  Any other
      input is an error; the syntax and range errors Go distinguishes are one
      error here. */
  function Atoi(s: string): (r: Option<int>)
    ensures r.Some? ==> MinInt <= r.value <= MaxInt
  {
    var signed := |s| > 0 && (s[0] == '-' || s[0] == '+');
    var body := if signed then s[1..] else s;
    if |body| == 0 || !AllDigits(body) then None
    else
      var v: int := if s[0] == '-' then -(DigitsValue(body) as int) else DigitsValue(body);
      if MinInt <= v <= MaxInt then Some(v) else None
  }

  /** Atoi reads back every integer Itoa prints. */
  lemma AtoiItoa(n: int)
    requires MinInt <= n <= MaxInt
    ensures Atoi(Itoa(n)) == Some(n)
  {
    if n < 0 {
      var t := DecimalDigits(-n);
      assert Itoa(n) == "-" + t;
      AtoiNegative(t);
      assert -(DigitsValue(t) as int) == n;
    } else {
      var t := DecimalDigits(n);
      assert Itoa(n) == "" + t == t;
      AtoiUnsigned(t);
    }
  }

  lemma AtoiUnsigned(t: string)
    requires 1 <= |t| && AllDigits(t) && DigitsValue(t) <= MaxInt
    ensures Atoi(t) == Some(DigitsValue(t))
  {
    assert IsDigit(t[0]);
  }

  lemma AtoiNegative(t: string)
    requires 1 <= |t| && AllDigits(t) && DigitsValue(t) <= -MinInt
    ensures Atoi("-" + t) == Some(-(DigitsValue(t) as int))
  {
    var s := "-" + t;
    assert s[0] == '-' && s[1..] == t;
  }

  /** `s` is a sign of length k (none, or one '+' or '-') followed by one or
      more decimal digits. */
  predicate SignedDigits(s: string, k: int) {
    0 <= k <= 1 && k < |s| && AllDigits(s[k..]) && (k == 1 ==> s[0] == '-' || s[0] == '+')
  }

  /** The number such a text spells: its digits, negated after a '-'. */
  function SignedValue(s: string, k: int): int
    requires SignedDigits(s, k)
  {
    if s[0] == '-' then -(DigitsValue(s[k..]) as int) else DigitsValue(s[k..])
  }

  /** What Atoi accepts: exactly an optional sign followed by digits (leading
      zeros and '+' included) whose value fits in 64 bits, and it returns that
      value. */
  lemma AtoiAccepts(s: string)
    ensures Atoi(s).Some? <==> exists k :: SignedDigits(s, k) && MinInt <= SignedValue(s, k) <= MaxInt
    ensures forall k :: SignedDigits(s, k) && Atoi(s).Some? ==> Atoi(s).value == SignedValue(s, k)
  {
    var k := if |s| > 0 && (s[0] == '-' || s[0] == '+') then 1 else 0;
    assert s[k..] == if k == 1 then s[1..] else s;
    if SignedDigits(s, k) {
      var v := SignedValue(s, k);
      assert Atoi(s) == if MinInt <= v <= MaxInt then Some(v) else None;
    } else {
      assert Atoi(s).None?;
    }
    forall j | SignedDigits(s, j) ensures j == k {
      assert j == 0 ==> IsDigit(s[0]);
    }
  }

  /** Go's `strings.Split(s, sep)` for a one-character separator: the pieces
      between separators, always at least one (the empty string gives [""]). */
  function Split(s: string, sep: char): (parts: seq<string>)
    ensures |parts| >= 1
    ensures forall i :: 0 <= i < |parts| ==> sep !in parts[i]
    ensures Join(parts, sep) == s
    decreases |s|
  {
    if s == [] then [""]
    else
      var rest := Split(s[1..], sep);
      if s[0] == sep then
        JoinCons("", rest, sep);
        [""] + rest
      else
        var parts := [[s[0]] + rest[0]] + rest[1..];
        assert parts[1..] == rest[1..];
        assert s == [s[0]] + s[1..];
        parts
  }

  /** Go's `strings.Join(parts, string(sep))`. */
  function Join(parts: seq<string>, sep: char): string
    requires |parts| >= 1
    decreases |parts|
  {
    if |parts| == 1 then parts[0] else parts[0] + [sep] + Join(parts[1..], sep)
  }

  lemma JoinCons(p: string, rest: seq<string>, sep: char)
    requires |rest| >= 1
    ensures Join([p] + rest, sep) == p + [sep] + Join(rest, sep)
  {
    assert ([p] + rest)[1..] == rest;
  }

  lemma {:induction false} SplitNoSeparator(a: string, sep: char)
    requires sep !in a
    ensures Split(a, sep) == [a]
    decreases |a|
  {
    if a != [] {
      SplitNoSeparator(a[1..], sep);
      assert a == [a[0]] + a[1..];
    }
  }

  lemma {:induction false} SplitAfterPiece(a: string, t: string, sep: char)
    requires sep !in a
    ensures Split(a + [sep] + t, sep) == [a] + Split(t, sep)
    decreases |a|
  {
    var s := a + [sep] + t;
    if a == [] {
      assert s[1..] == t;
    } else {
      assert s[1..] == a[1..] + [sep] + t;
      SplitAfterPiece(a[1..], t, sep);
      assert a == [a[0]] + a[1..];
    }
  }

  /** Splitting undoes joining pieces that do not contain the separator. */
  lemma {:induction false} SplitJoin(parts: seq<string>, sep: char)
    requires |parts| >= 1
    requires forall i :: 0 <= i < |parts| ==> sep !in parts[i]
    ensures Split(Join(parts, sep), sep) == parts
    decreases |parts|
  {
    if |parts| == 1 {
      SplitNoSeparator(parts[0], sep);
    } else {
      SplitJoin(parts[1..], sep);
      SplitAfterPiece(parts[0], Join(parts[1..], sep), sep);
      assert parts == [parts[0]] + parts[1..];
    }
  }

  /** Every character of a piece occurs in the joined text. */
  lemma {:induction false} PieceInJoin(parts: seq<string>, sep: char, i: int, c: char)
    requires 0 <= i < |parts| && c in parts[i]
    ensures c in Join(parts, sep)
    decreases |parts|
  {
    if i > 0 {
      PieceInJoin(parts[1..], sep, i - 1, c);
    }
  }

  /** A character other than the separator that no piece holds is not in the joined text. */
  lemma {:induction false} NotInJoin(parts: seq<string>, sep: char, c: char)
    requires |parts| >= 1 && c != sep
    requires forall i :: 0 <= i < |parts| ==> c !in parts[i]
    ensures c !in Join(parts, sep)
    decreases |parts|
  {
    if |parts| > 1 {
      NotInJoin(parts[1..], sep, c);
    }
  }

  /** The pieces of a text hold no character the text does not hold. */
  lemma SplitPiecesWithout(s: string, sep: char, c: char)
    requires c !in s
    ensures forall i :: 0 <= i < |Split(s, sep)| ==> c !in Split(s, sep)[i]
  {
    var parts := Split(s, sep);
    forall i | 0 <= i < |parts| ensures c !in parts[i] {
      if c in parts[i] {
        PieceInJoin(parts, sep, i, c);
      }
    }
  }

  /** A printed integer holds only digits and perhaps a leading '-'. */
  lemma ItoaChars(n: int, c: char)
    requires !IsDigit(c) && c != '-'
    ensures c !in Itoa(n)
  {
    var t := DecimalDigits(if n < 0 then -n else n);
    assert Itoa(n) == (if n < 0 then "-" else "") + t;
  }
}
