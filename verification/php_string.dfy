/** The few PHP string primitives the service relies on. */
module PhpString {
  import opened Wrappers

  /** `empty($s)` for a string: true of "" and of "0". */
  predicate IsEmpty(s: string) {
    s == "" || s == "0"
  }

  /** `empty($a[$k])` for a key that may be missing. */
  predicate IsEmptyOpt(o: Option<string>) {
    o.None? || IsEmpty(o.value)
  }

  /** `implode($sep, $xs)` */
  function Implode(sep: string, xs: seq<string>): string {
    if |xs| == 0 then ""
    else if |xs| == 1 then xs[0]
    else xs[0] + sep + Implode(sep, xs[1..])
  }

  predicate IsDigit(c: char) {
    '0' <= c <= '9'
  }

  /** A non-empty run of decimal digits. */
  predicate IsDigits(s: string) {
    |s| > 0 && forall i :: 0 <= i < |s| ==> IsDigit(s[i])
  }

  function DigitValue(c: char): nat
    requires IsDigit(c)
  {
    (c as int) - ('0' as int)
  }

  function DigitChar(d: nat): (c: char)
    requires d < 10
    ensures IsDigit(c) && DigitValue(c) == d
  {
    (('0' as int) + d) as char
  }

  /** Decimal value of a digit string, most significant digit first. */
  function DecimalValue(s: string): nat
    requires forall i :: 0 <= i < |s| ==> IsDigit(s[i])
  {
    if s == [] then 0
    else 10 * DecimalValue(s[..|s| - 1]) + DigitValue(s[|s| - 1])
  }

  /** A decimal id as the database compares it with an integer key. */
  function ParseNat(s: string): Option<nat> {
    if IsDigits(s) then Some(DecimalValue(s)) else None
  }

  /** The decimal spelling of `n`, without leading zeros. */
  function ShowNat(n: nat): (s: string)
    ensures IsDigits(s)
    ensures n > 0 ==> s[0] != '0'
  {
    if n < 10 then [DigitChar(n)]
    else ShowNat(n / 10) + [DigitChar(n % 10)]
  }

  lemma {:induction false} ParseShow(n: nat)
    ensures ParseNat(ShowNat(n)) == Some(n)
  {
    var s := ShowNat(n);
    if n >= 10 {
      ParseShow(n / 10);
      assert s[..|s| - 1] == ShowNat(n / 10);
      assert DecimalValue(s) == 10 * (n / 10) + n % 10;
    } else {
      assert DecimalValue(s) == 10 * DecimalValue([]) + DigitValue(s[0]);
    }
  }

  /**
   * The characters Symfony's form trimming strips from both ends: Unicode
   * separators (Z), control characters (Cc) and format characters (Cf).
   */
  predicate IsTrimmable(c: char) {
    || c <= '\U{0020}' || ('\U{007F}' <= c <= '\U{00A0}') || c == '\U{00AD}'
    || ('\U{0600}' <= c <= '\U{0605}') || c == '\U{061C}' || c == '\U{06DD}' || c == '\U{070F}' || c == '\U{08E2}'
    || c == '\U{1680}' || c == '\U{180E}' || ('\U{2000}' <= c <= '\U{200F}') || ('\U{2028}' <= c <= '\U{202F}')
    || ('\U{205F}' <= c <= '\U{2064}') || ('\U{2066}' <= c <= '\U{206F}') || c == '\U{3000}' || c == '\U{FEFF}'
    || ('\U{FFF9}' <= c <= '\U{FFFB}') || c == '\U{110BD}' || c == '\U{110CD}' || ('\U{13430}' <= c <= '\U{13438}')
    || ('\U{1BCA0}' <= c <= '\U{1BCA3}') || ('\U{1D173}' <= c <= '\U{1D17A}') || c == '\U{E0001}'
    || ('\U{E0020}' <= c <= '\U{E007F}')
  }

  /** Every character of `s` is stripped by trimming. */
  predicate AllTrimmable(s: string) {
    forall i :: 0 <= i < |s| ==> IsTrimmable(s[i])
  }

  /** `s` neither starts nor ends with a trimmable character. */
  predicate IsTrimmed(s: string) {
    s == [] || (!IsTrimmable(s[0]) && !IsTrimmable(s[|s| - 1]))
  }

  /**
   * `StringUtil::trim`: strips trimmable characters from both ends, first
   * from the start and then from the end.
   */
  function Trim(s: string): (r: string)
    decreases |s|
    ensures |r| <= |s|
  {
    if s != [] && IsTrimmable(s[0]) then Trim(s[1..])
    else if s != [] && IsTrimmable(s[|s| - 1]) then Trim(s[..|s| - 1])
    else s
  }

  /**
   * `Trim` is determined by what it does: it keeps a middle part that starts
   * and ends with a kept character and strips only trimmable characters
   * around it. Any split of `s` of that shape has `Trim(s)` as its middle.
   */
  lemma TrimSplits(s: string)
    ensures exists i, j :: (0 <= i <= j <= |s| && Trim(s) == s[i..j]
      && AllTrimmable(s[..i]) && AllTrimmable(s[j..]) && IsTrimmed(s[i..j]))
  {
    var i, j := TrimBounds(s);
  }

  /** Where `Trim(s)` starts and ends within `s`. */
  lemma {:induction false} TrimBounds(s: string) returns (i: nat, j: nat)
    ensures i <= j <= |s| && Trim(s) == s[i..j]
    ensures AllTrimmable(s[..i]) && AllTrimmable(s[j..]) && IsTrimmed(s[i..j])
    decreases |s|
  {
    if s != [] && IsTrimmable(s[0]) {
      var i', j' := TrimBounds(s[1..]);
      i, j := i' + 1, j' + 1;
      BoundsAfterFirst(s, i', j');
    } else if s != [] && IsTrimmable(s[|s| - 1]) {
      i, j := TrimBounds(s[..|s| - 1]);
      BoundsBeforeLast(s, i, j);
    } else {
      i, j := 0, |s|;
      assert s[..0] == [] && s[|s|..] == [] && s[0..|s|] == s;
    }
  }

  /** Bounds within `s[1..]` shift by one when the first character is trimmable. */
  lemma BoundsAfterFirst(s: string, i: nat, j: nat)
    requires s != [] && IsTrimmable(s[0]) && i <= j <= |s| - 1
    requires AllTrimmable(s[1..][..i]) && AllTrimmable(s[1..][j..])
    ensures s[1..][i..j] == s[i + 1..j + 1]
    ensures AllTrimmable(s[..i + 1]) && AllTrimmable(s[j + 1..])
  {
    assert s[..i + 1] == [s[0]] + s[1..][..i];
    assert s[j + 1..] == s[1..][j..];
  }

  /** Bounds within all but the last character stay put when that character is trimmable. */
  lemma BoundsBeforeLast(s: string, i: nat, j: nat)
    requires s != [] && IsTrimmable(s[|s| - 1]) && i <= j <= |s| - 1
    requires AllTrimmable(s[..|s| - 1][..i]) && AllTrimmable(s[..|s| - 1][j..])
    ensures s[..|s| - 1][i..j] == s[i..j]
    ensures AllTrimmable(s[..i]) && AllTrimmable(s[j..])
  {
    assert s[..i] == s[..|s| - 1][..i];
    assert s[j..] == s[..|s| - 1][j..] + [s[|s| - 1]];
  }

  /** Trimming a string whose trimmable ends are exactly `a` and `b` leaves the middle `m`. */
  lemma TrimUnique(a: string, m: string, b: string)
    requires AllTrimmable(a) && AllTrimmable(b) && IsTrimmed(m)
    ensures Trim(a + m + b) == m
  {
    assert a + m + b == a + (m + b);
    TrimDropsFront(a, m + b);
    if m == [] {
      assert m + b == b + [];
      TrimDropsFront(b, []);
    } else {
      TrimDropsBack(m, b);
    }
  }

  /** A trimmable prefix makes no difference to the trim. */
  lemma {:induction false} TrimDropsFront(a: string, x: string)
    requires AllTrimmable(a)
    ensures Trim(a + x) == Trim(x)
    decreases |a|
  {
    if a != [] {
      assert (a + x)[0] == a[0];
      assert (a + x)[1..] == a[1..] + x;
      TrimDropsFront(a[1..], x);
    } else {
      assert a + x == x;
    }
  }

  /** After a kept first character, a trimmable suffix is stripped and nothing more. */
  lemma {:induction false} TrimDropsBack(m: string, b: string)
    requires m != [] && !IsTrimmable(m[0]) && !IsTrimmable(m[|m| - 1]) && AllTrimmable(b)
    ensures Trim(m + b) == m
    decreases |b|
  {
    var s := m + b;
    assert s[0] == m[0];
    if b != [] {
      assert s[|s| - 1] == b[|b| - 1];
      assert s[..|s| - 1] == m + b[..|b| - 1];
      TrimDropsBack(m, b[..|b| - 1]);
    } else {
      assert s == m;
    }
  }

  /** A string without trimmable ends is its own trim. */
  lemma TrimKeeps(s: string)
    requires IsTrimmed(s)
    ensures Trim(s) == s
  {
    assert [] + s + [] == s;
    TrimUnique([], s, []);
  }

  /** Trimming twice is trimming once. */
  lemma TrimIdempotent(s: string)
    ensures Trim(Trim(s)) == Trim(s)
  {
    TrimSplits(s);
    TrimKeeps(Trim(s));
  }
}
