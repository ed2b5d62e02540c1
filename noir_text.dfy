/**
 * The Noir source text of a table: every key and value printed as
 * `0x` followed by at least eight lowercase hexadecimal digits, the lists
 * joined with `", "`, inside a `let` binding of a `SparseArray` literal.
 */
module NoirText {
  import opened Wrappers
  import opened Field
  import opened SparseArrays

  /** A value whose decimal text does not parse as an unsigned 32-bit integer. */
  datatype SerialiseError = ValueNotU32

  /** Values must lie below 2^32 to parse as `u32`. */
  const U32Limit: nat := 0x1_0000_0000

  /** Minimum number of digits after the `0x` of every printed number. */
  const HexWidth: nat := 8

  function Pow(base: nat, k: nat): (p: nat)
    ensures base >= 1 ==> p >= 1
  {
    if k == 0 then 1 else base * Pow(base, k - 1)
  }

  // ---------------------------------------------------------------------------
  // Digits
  // ---------------------------------------------------------------------------

  /** The lowercase digit for `d`. */
  function DigitChar(d: nat): (c: char)
    requires d < 16
    ensures IsDigit(c, d + 1) && DigitValue(c) == d
  {
    if d < 10 then ('0' as int + d) as char else ('a' as int + d - 10) as char
  }

  /** Whether `c` is a lowercase digit of a number written in `base`. */
  predicate IsDigit(c: char, base: nat) {
    ('0' <= c <= '9' && (c as int - '0' as int) < base) ||
    ('a' <= c <= 'f' && (c as int - 'a' as int) + 10 < base)
  }

  /** The value of a lowercase digit; other characters count as zero. */
  function DigitValue(c: char): nat {
    if '0' <= c <= '9' then c as int - '0' as int
    else if 'a' <= c <= 'f' then c as int - 'a' as int + 10
    else 0
  }

  /** The shortest digit string of `n` in `base`: no leading zero unless `n` is zero. */
  function Digits(n: nat, base: nat): (s: string)
    requires 2 <= base <= 16
    ensures |s| >= 1 && (s[0] == '0' ==> n == 0)
    ensures forall k :: 0 <= k < |s| ==> IsDigit(s[k], base)
    decreases n
  {
    if n < base then [DigitChar(n)]
    else DivDecreases(n, base); Digits(n / base, base) + [DigitChar(n % base)]
  }

  /** The number a digit string denotes in `base`, most significant digit first. */
  function ValueOf(s: string, base: nat): nat {
    if |s| == 0 then 0 else ValueOf(s[..|s| - 1], base) * base + DigitValue(s[|s| - 1])
  }

  /** Reading back the digits of `n` gives `n`. */
  lemma {:induction false} DigitsRoundTrip(n: nat, base: nat)
    requires 2 <= base <= 16
    ensures ValueOf(Digits(n, base), base) == n
    decreases n
  {
    if n >= base {
      var s := Digits(n, base);
      var q, r := n / base, n % base;
      assert s[..|s| - 1] == Digits(q, base) && DigitValue(s[|s| - 1]) == r;
      DivDecreases(n, base);
      DigitsRoundTrip(q, base);
      assert ValueOf(s, base) == q * base + r;
      assert q * base + r == n;
    }
  }

  /** A number below `base^k` takes at most `k` digits, and one at or above takes more. */
  lemma {:induction false} DigitsLength(n: nat, base: nat, k: nat)
    requires 2 <= base <= 16 && k >= 1
    ensures n < Pow(base, k) <==> |Digits(n, base)| <= k
    decreases k
  {
    if n >= base {
      var p := Pow(base, k - 1);
      assert n < base * p <==> n / base < p by {
        DivBelow(n, base, p);
      }
      if k == 1 {
        assert Pow(base, 1) == base;
      } else {
        DigitsLength(n / base, base, k - 1);
      }
    } else {
      assert Pow(base, k) >= base by {
        PowAtLeastBase(base, k);
      }
    }
  }

  lemma DivDecreases(n: nat, base: nat)
    requires base >= 2 && n >= 1
    ensures n / base < n
  {
    var q := n / base;
    assert n == base * q + n % base;
    assert base * q >= 2 * q;
  }

  lemma DivBelow(n: nat, base: nat, p: nat)
    requires base >= 1
    ensures n < base * p <==> n / base < p
  {
    var q, r := n / base, n % base;
    assert n == base * q + r;
    if q < p {
      assert base * q + r < base * q + base == base * (q + 1) <= base * p;
    } else {
      assert base * q >= base * p;
    }
  }

  lemma {:induction false} PowAtLeastBase(base: nat, k: nat)
    requires base >= 1 && k >= 1
    ensures Pow(base, k) >= base
  {
    if k > 1 {
      PowAtLeastBase(base, k - 1);
      assert base * Pow(base, k - 1) >= base * 1;
    }
  }

  /** Leading zero digits do not change the value. */
  lemma {:induction false} LeadingZeros(z: string, s: string, base: nat)
    requires forall k :: 0 <= k < |z| ==> z[k] == '0'
    ensures ValueOf(z + s, base) == ValueOf(s, base)
    decreases |s|
  {
    if |s| == 0 {
      assert z + s == z;
      AllZeros(z, base);
    } else {
      assert (z + s)[..|z + s| - 1] == z + s[..|s| - 1];
      LeadingZeros(z, s[..|s| - 1], base);
    }
  }

  lemma {:induction false} AllZeros(z: string, base: nat)
    requires forall k :: 0 <= k < |z| ==> z[k] == '0'
    ensures ValueOf(z, base) == 0
  {
    if |z| > 0 {
      AllZeros(z[..|z| - 1], base);
    }
  }

  // ---------------------------------------------------------------------------
  // Hexadecimal numbers, zero-padded to eight digits
  // ---------------------------------------------------------------------------

  /** `s` left-padded with `c` to at least `width` characters. */
  function PadLeft(s: string, width: nat, c: char): (r: string)
    ensures |r| == if |s| >= width then |s| else width
    ensures r[|r| - |s|..] == s
    ensures forall k :: 0 <= k < |r| - |s| ==> r[k] == c
  {
    if |s| >= width then s else seq(width - |s|, _ => c) + s
  }

  /** `n` as `0x` followed by its lowercase hexadecimal digits, zero-padded to eight. */
  function Hex(n: nat): string
  {
    "0x" + PadLeft(Digits(n, 16), HexWidth, '0')
  }

  /** `Hex(n)` is `0x` followed by at least eight hexadecimal digits. */
  lemma HexForm(n: nat)
    ensures |Hex(n)| >= 2 + HexWidth && Hex(n)[..2] == "0x"
    ensures forall k :: 2 <= k < |Hex(n)| ==> IsDigit(Hex(n)[k], 16)
  {
    var d := Digits(n, 16);
    var h := Hex(n);
    assert forall k :: 2 <= k < |h| - |d| ==> h[k] == '0';
    assert forall k :: |h| - |d| <= k < |h| ==> h[k] == d[k - (|h| - |d|)];
  }

  /** The digits of `Hex(n)` read back as `n`. */
  lemma HexRoundTrip(n: nat)
    ensures ValueOf(Hex(n)[2..], 16) == n
  {
    var d := Digits(n, 16);
    var p := PadLeft(d, HexWidth, '0');
    assert Hex(n)[2..] == p;
    assert p == p[..|p| - |d|] + d;
    LeadingZeros(p[..|p| - |d|], d, 16);
    DigitsRoundTrip(n, 16);
  }

  /**
   * `Hex(n)` has exactly eight digits when `n` fits in 32 bits; otherwise it
   * has no padding and its first digit is not zero.
   */
  lemma HexLength(n: nat)
    ensures n < U32Limit <==> |Hex(n)| == 2 + HexWidth
    ensures |Hex(n)| > 2 + HexWidth ==> Hex(n)[2] != '0'
  {
    assert Pow(16, 8) == U32Limit;
    DigitsLength(n, 16, 8);
  }

  // ---------------------------------------------------------------------------
  // Lists
  // ---------------------------------------------------------------------------

  /** The items with `sep` between each neighbouring pair. */
  function Join(items: seq<string>, sep: string): (r: string)
    ensures |items| >= 1 ==> |r| >= |items[0]| && r[..|items[0]|] == items[0]
  {
    if |items| == 0 then ""
    else if |items| == 1 then items[0]
    else items[0] + sep + Join(items[1..], sep)
  }

  /** Ten-character items joined with `", "`: item `k` starts at offset `12 * k`. */
  lemma {:induction false} JoinEntries(items: seq<string>, k: nat)
    requires forall j :: 0 <= j < |items| ==> |items[j]| == 10
    requires k < |items|
    ensures |Join(items, ", ")| == 12 * |items| - 2
    ensures Join(items, ", ")[12 * k..12 * k + 10] == items[k]
  {
    if |items| > 1 {
      var rest := Join(items[1..], ", ");
      var j := if k == 0 then 0 else k - 1;
      JoinEntries(items[1..], j);
      var joined := items[0] + ", " + rest;
      if k == 0 {
        assert joined[..10] == items[0];
      } else {
        assert items[1..][j] == items[k];
        assert joined[12 + 12 * j..12 + 12 * j + 10] == rest[12 * j..12 * j + 10];
      }
    }
  }

  /** Each number of a list as `Hex`. */
  function HexAll(xs: seq<nat>): (hs: seq<string>)
    ensures |hs| == |xs|
  {
    if |xs| == 0 then [] else [Hex(xs[0])] + HexAll(xs[1..])
  }

  lemma {:induction false} HexAllAt(xs: seq<nat>, k: nat)
    requires k < |xs|
    ensures HexAll(xs)[k] == Hex(xs[k])
  {
    if k > 0 {
      HexAllAt(xs[1..], k - 1);
    }
  }

  /** The numbers of a list, each as `Hex`, joined with `", "`. */
  function ListText(xs: seq<nat>): string {
    Join(HexAll(xs), ", ")
  }

  /** The listing of numbers is the joined listing of their texts. */
  lemma ListTextOf(xs: seq<nat>, hs: seq<string>)
    requires |xs| == |hs| && forall k :: 0 <= k < |xs| ==> Hex(xs[k]) == hs[k]
    ensures ListText(xs) == Join(hs, ", ")
  {
    HexAllOf(xs, hs);
  }

  /** Mapping `Hex` over a list gives the texts of its numbers. */
  lemma {:induction false} HexAllOf(xs: seq<nat>, hs: seq<string>)
    requires |xs| == |hs| && forall k :: 0 <= k < |xs| ==> Hex(xs[k]) == hs[k]
    ensures HexAll(xs) == hs
  {
    if |xs| > 0 {
      HexAllOf(xs[1..], hs[1..]);
      assert HexAll(xs) == [hs[0]] + hs[1..];
    }
  }

  /** Whether every number fits in 32 bits. */
  predicate AllU32(xs: seq<nat>) {
    forall k :: 0 <= k < |xs| ==> xs[k] < U32Limit
  }

  /** A list of 32-bit numbers takes twelve characters per entry but the last; entry `k` starts at `12 * k`. */
  lemma ListTextLayout(xs: seq<nat>, k: nat)
    requires AllU32(xs) && k < |xs|
    ensures |ListText(xs)| == 12 * |xs| - 2
    ensures ListText(xs)[12 * k..12 * k + 10] == Hex(xs[k])
  {
    var items := HexAll(xs);
    forall j | 0 <= j < |xs|
      ensures |items[j]| == 10
    {
      HexAllAt(xs, j);
      HexLength(xs[j]);
    }
    JoinEntries(items, k);
    HexAllAt(xs, k);
  }

  /** In a list of 32-bit numbers, the eight digits of entry `k` read back as `xs[k]`. */
  lemma ListTextEntry(xs: seq<nat>, k: nat)
    requires AllU32(xs) && k < |xs|
    ensures |ListText(xs)| == 12 * |xs| - 2
    ensures ValueOf(ListText(xs)[12 * k + 2..12 * k + 10], 16) == xs[k]
  {
    ListTextLayout(xs, k);
    var text := ListText(xs);
    assert text[12 * k + 2..12 * k + 10] == Hex(xs[k])[2..];
    HexRoundTrip(xs[k]);
  }

  // ---------------------------------------------------------------------------
  // The table as Noir source
  // ---------------------------------------------------------------------------

  /** The text before the first key: the binding's name, the key count and the value type. */
  function Header(name: string, n: nat, generic: string): string {
    "let " + name + ": SparseArray<" + Digits(n, 10) + ", " + generic + "> = SparseArray {\n    keys: ["
  }

  /** The text between the keys and the values. */
  const Between: string := "],\n    values: ["

  /** The text after the values: the maximum and the end of the binding. */
  function Footer(maximum: FieldElement): string {
    "],\n    maximum: " + Hex(maximum) + "\n};"
  }

  /**
   * The Noir source binding `t` to `tableName` (default `table`) with value
   * type `genericName` (default `Field`). It fails exactly when some value,
   * the default ones included, does not fit in 32 bits; keys and the maximum
   * are printed whatever their size.
   */
  function ToNoirString(t: SparseArray<nat>, tableName: Option<string>, genericName: Option<string>)
    : (r: Result<string, SerialiseError>)
    requires |t.keys| >= 2
    ensures r.Success? <==> AllU32(t.values)
  {
    var name := if tableName.Some? then tableName.value else "table";
    var generic := if genericName.Some? then genericName.value else "Field";
    if !AllU32(t.values) then Failure(ValueNotU32)
    else
      Success(Header(name, |t.keys| - 2, generic) + ListText(t.keys) + Between + ListText(t.values) +
              Footer(t.maximum))
  }

  /** Leaving out the names is the same as naming the table `table` and the value type `Field`. */
  lemma NoirStringDefaults(t: SparseArray<nat>)
    requires |t.keys| >= 2
    ensures ToNoirString(t, None, None) == ToNoirString(t, Some("table"), Some("Field"))
  {
  }
}
