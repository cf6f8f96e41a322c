/**
 * The list ordering of the client: controls are sorted by the integer
 * `parseInt` reads from their `mainID`; an id with no integer prefix sorts
 * after every id that has one, and such ids compare equal to each other.
 */
module ControlOrder {
  import opened Wrappers

  /** One control as the list endpoint returns it. */
  datatype Control = Control(mainID: string, mainDescription: string, domain: string, scope: string)

  // ---------------------------------------------------------------------------
  // parseInt

  /** The white space `parseInt` skips: ASCII white space, NBSP, BOM and the line/paragraph separators. */
  predicate IsWhiteSpace(c: char) {
    c as int in {9, 10, 11, 12, 13, 32, 0xA0, 0x2028, 0x2029, 0xFEFF}
  }

  function TrimStart(s: string): string {
    if s != [] && IsWhiteSpace(s[0]) then TrimStart(s[1..]) else s
  }

  /** The value of a digit in bases up to 36, or 36 for a non-digit. */
  function DigitValue(c: char): (d: nat)
    ensures d <= 36
  {
    if '0' <= c <= '9' then c as int - '0' as int
    else if 'a' <= c <= 'z' then c as int - 'a' as int + 10
    else if 'A' <= c <= 'Z' then c as int - 'A' as int + 10
    else 36
  }

  predicate IsDigit(c: char, radix: nat) {
    DigitValue(c) < radix
  }

  /** The length of the longest prefix made of digits of `radix`. */
  function DigitPrefix(s: string, radix: nat): (n: nat)
    ensures n <= |s|
  {
    if s != [] && IsDigit(s[0], radix) then 1 + DigitPrefix(s[1..], radix) else 0
  }

  /** The value of a string of digits in `radix`, most significant first. */
  function Value(digits: string, radix: nat): nat {
    if digits == [] then 0
    else Value(digits[..|digits| - 1], radix) * radix + DigitValue(digits[|digits| - 1]) % 36
  }

  /**
   * The unsigned part of `parseInt`: base 16 after a `0x`/`0X` prefix and
   * base 10 otherwise, reading the longest digit prefix; `None` when there is
   * no digit.
   */
  function ParseMagnitude(u: string): Option<nat> {
    var hex := |u| >= 2 && u[0] == '0' && (u[1] == 'x' || u[1] == 'X');
    var radix := if hex then 16 else 10;
    var digits := if hex then u[2..] else u;
    var n := DigitPrefix(digits, radix);
    if n == 0 then None else Some(Value(digits[..n], radix))
  }

  /** An optional sign, then the magnitude. */
  function ParseSigned(t: string): Option<int> {
    if t != [] && (t[0] == '-' || t[0] == '+') then
      match ParseMagnitude(t[1..])
      case None => None
      case Some(v) => Some(if t[0] == '-' then -(v as int) else v)
    else
      match ParseMagnitude(t)
      case None => None
      case Some(v) => Some(v)
  }

  /** `parseInt(s)` with no radix argument: white space is skipped first; `None` is `NaN`. */
  function ParseInt(s: string): Option<int> {
    ParseSigned(TrimStart(s))
  }

  /** Decimal rendering of a natural number, without leading zeros. */
  function Decimal(n: nat): (s: string)
    ensures |s| >= 1
  {
    if n < 10 then [('0' as int + n) as char]
    else Decimal(n / 10) + [('0' as int + n % 10) as char]
  }

  lemma {:induction false} DecimalDigits(n: nat)
    ensures forall i :: 0 <= i < |Decimal(n)| ==> '0' <= Decimal(n)[i] <= '9'
  {
    if n >= 10 {
      DecimalDigits(n / 10);
    }
  }

  lemma {:induction false} ValueOfDecimal(n: nat)
    ensures Value(Decimal(n), 10) == n
  {
    if n >= 10 {
      ValueOfDecimal(n / 10);
      var s := Decimal(n);
      assert s[..|s| - 1] == Decimal(n / 10);
    }
  }

  lemma {:induction false} DigitPrefixOfDigits(s: string, rest: string)
    requires forall i :: 0 <= i < |s| ==> '0' <= s[i] <= '9'
    requires rest == [] || !IsDigit(rest[0], 10)
    ensures DigitPrefix(s + rest, 10) == |s|
  {
    if s != [] {
      assert (s + rest)[1..] == s[1..] + rest;
      DigitPrefixOfDigits(s[1..], rest);
    }
  }

  lemma MagnitudeOfDecimal(n: nat, rest: string)
    requires rest == [] || (!IsDigit(rest[0], 10) && rest[0] != 'x' && rest[0] != 'X')
    ensures ParseMagnitude(Decimal(n) + rest) == Some(n)
  {
    var d := Decimal(n);
    var u := d + rest;
    DecimalDigits(n);
    assert !(|u| >= 2 && u[0] == '0' && (u[1] == 'x' || u[1] == 'X')) by {
      if n >= 10 {
        DecimalLeadingDigit(n);
      } else {
        assert |d| == 1;
        assert rest != [] ==> u[1] == rest[0];
      }
    }
    DigitPrefixOfDigits(d, rest);
    assert u[..|d|] == d;
    ValueOfDecimal(n);
  }

  /**
   * `parseInt` reads back a decimal rendering, whatever text follows it that
   * is neither a digit nor an `x`.
   */
  lemma ParseIntOfDecimal(n: nat, rest: string)
    requires rest == [] || (!IsDigit(rest[0], 10) && rest[0] != 'x' && rest[0] != 'X')
    ensures ParseInt(Decimal(n) + rest) == Some(n)
  {
    var u := Decimal(n) + rest;
    MagnitudeOfDecimal(n, rest);
    DecimalDigits(n);
    assert '0' <= u[0] <= '9';
    assert TrimStart(u) == u;
  }

  /** The same with a minus sign in front. */
  lemma ParseIntOfNegativeDecimal(n: nat, rest: string)
    requires rest == [] || (!IsDigit(rest[0], 10) && rest[0] != 'x' && rest[0] != 'X')
    ensures ParseInt("-" + Decimal(n) + rest) == Some(-(n as int))
  {
    var s := "-" + Decimal(n) + rest;
    assert s[1..] == Decimal(n) + rest;
    MagnitudeOfDecimal(n, rest);
    assert TrimStart(s) == s;
    assert ParseSigned(s) == Some(-(n as int));
  }

  /** Only `0` itself renders with a leading zero. */
  lemma {:induction false} DecimalLeadingDigit(n: nat)
    requires n >= 10
    ensures Decimal(n)[0] != '0'
  {
    if n / 10 >= 10 {
      DecimalLeadingDigit(n / 10);
    }
  }

  /** A `mainID` with no leading integer, such as "abc", parses to `NaN`. */
  lemma ParseIntWithoutDigits(s: string)
    requires s != [] && !IsWhiteSpace(s[0]) && !IsDigit(s[0], 10) && s[0] != '-' && s[0] != '+'
    ensures ParseInt(s) == None
  {
  }

  // ---------------------------------------------------------------------------
  // The comparator

  /** The sort key: the parsed integer, or `None` standing for `Infinity`. */
  function Key(c: Control): Option<int> {
    ParseInt(c.mainID)
  }

  /**
   * `mainID_A - mainID_B` with `Infinity` for a missing key: a number of the
   * same sign as the comparator's. `Infinity - Infinity` is `NaN`, which
   * `Array.prototype.sort` reads as `+0`.
   */
  function Compare(a: Option<int>, b: Option<int>): (r: int)
    ensures r == 0 <==> a == b
    ensures r < 0 <==> (a.Some? && (b.None? || a.value < b.value))
  {
    match (a, b)
    case (Some(x), Some(y)) => x - y
    case (Some(_), None) => -1
    case (None, Some(_)) => 1
    case (None, None) => 0
  }

  predicate KeyLe(a: Option<int>, b: Option<int>) {
    Compare(a, b) <= 0
  }

  /** The comparator is consistent: antisymmetric in sign, total and transitive. */
  lemma ComparatorConsistent(a: Option<int>, b: Option<int>, c: Option<int>)
    ensures Compare(a, b) < 0 <==> Compare(b, a) > 0
    ensures KeyLe(a, b) || KeyLe(b, a)
    ensures KeyLe(a, b) && KeyLe(b, c) ==> KeyLe(a, c)
  {
  }

  // ---------------------------------------------------------------------------
  // Sorting

  /** Ordered by the comparator applied to the keys. */
  predicate SortedBy<T>(s: seq<T>, key: T -> Option<int>) {
    forall i, j :: 0 <= i < j < |s| ==> KeyLe(key(s[i]), key(s[j]))
  }

  /** Places `x` before the first element whose key is not below its own. */
  function Insert<T>(x: T, s: seq<T>, key: T -> Option<int>): (r: seq<T>)
    ensures multiset(r) == multiset(s) + multiset{x}
  {
    if s == [] then [x]
    else if KeyLe(key(x), key(s[0])) then [x] + s
    else
      assert s == [s[0]] + s[1..];
      [s[0]] + Insert(x, s[1..], key)
  }

  lemma {:induction false} InsertSorted<T>(x: T, s: seq<T>, key: T -> Option<int>)
    requires SortedBy(s, key)
    ensures SortedBy(Insert(x, s, key), key)
  {
    if s != [] && !KeyLe(key(x), key(s[0])) {
      InsertSorted(x, s[1..], key);
      var r := Insert(x, s, key);
      var t := Insert(x, s[1..], key);
      assert r == [s[0]] + t;
      forall j | 1 <= j < |r| ensures KeyLe(key(s[0]), key(r[j])) {
        assert r[j] in multiset(t);
        if r[j] != x {
          assert r[j] in multiset(s[1..]);
          assert r[j] in s[1..];
        }
      }
    }
  }

  /** Insertion sort by the comparator on the keys. */
  function SortBy<T>(s: seq<T>, key: T -> Option<int>): seq<T> {
    if s == [] then [] else Insert(s[0], SortBy(s[1..], key), key)
  }

  /** Sorting yields a permutation of its input, ordered by the comparator. */
  lemma {:induction false} SortByCorrect<T>(s: seq<T>, key: T -> Option<int>)
    ensures multiset(SortBy(s, key)) == multiset(s)
    ensures SortedBy(SortBy(s, key), key)
  {
    if s != [] {
      SortByCorrect(s[1..], key);
      InsertSorted(s[0], SortBy(s[1..], key), key);
      assert s == [s[0]] + s[1..];
    }
  }

  predicate Sorted(s: seq<Control>) {
    SortedBy(s, Key)
  }

  /** The model of `data.sort(comparator)` on the list of controls. */
  function SortControls(s: seq<Control>): seq<Control> {
    SortBy(s, Key)
  }

  /** The sorted list is a permutation of the fetched one, ordered by the comparator. */
  lemma SortControlsCorrect(s: seq<Control>)
    ensures multiset(SortControls(s)) == multiset(s)
    ensures Sorted(SortControls(s))
  {
    SortByCorrect(s, Key);
  }

  /**
   * In a sorted list the parsed ids never decrease, and every id without an
   * integer comes after every id with one.
   */
  lemma SortedMeaning(s: seq<Control>)
    requires Sorted(s)
    ensures forall i, j :: 0 <= i < j < |s| && Key(s[i]).None? ==> Key(s[j]).None?
    ensures forall i, j :: 0 <= i < j < |s| && Key(s[i]).Some? && Key(s[j]).Some? ==> Key(s[i]).value <= Key(s[j]).value
  {
    forall i, j | 0 <= i < j < |s| ensures KeyLe(Key(s[i]), Key(s[j])) {
      assert KeyLe((Key)(s[i]), (Key)(s[j]));
    }
  }
}
