/**
 * Rotation file names `<name>.<index>` and the digit parser that recovery
 * uses to read the index back from a directory entry.
 */
module Names {
  import opened Faults

  predicate IsDigit(c: char) {
    '0' <= c <= '9'
  }

  predicate AllDigits(s: string) {
    forall i :: 0 <= i < |s| ==> IsDigit(s[i])
  }

  function DigitChar(d: nat): (c: char)
    requires d < 10
    ensures IsDigit(c) && c as int - '0' as int == d
  {
    ('0' as int + d) as char
  }

  /** `%d` of a non-negative integer: decimal digits, no sign, no leading zero. */
  function FormatNat(n: nat): (s: string)
    ensures |s| >= 1 && AllDigits(s)
    ensures (s[0] == '0') == (n == 0)
  {
    if n < 10 then [DigitChar(n)] else FormatNat(n / 10) + [DigitChar(n % 10)]
  }

  /** `%d` of any integer: a minus sign before the digits of a negative one. */
  function FormatInt(i: int): (s: string)
    ensures |s| >= 1
    ensures AllDigits(s) <==> i >= 0
  {
    if i < 0 then
      var s := "-" + FormatNat(-i);
      assert !IsDigit(s[0]);
      s
    else FormatNat(i)
  }

  /** Value of a run of decimal digits, most significant first. */
  function DigitsValue(s: string): nat
    requires AllDigits(s)
  {
    if |s| == 0 then 0 else DigitsValue(s[..|s| - 1]) * 10 + (s[|s| - 1] as int - '0' as int)
  }

  /** The index parser of recovery: a non-empty run of decimal digits, nothing else. */
  function ParseDecimal(s: string): Option<nat> {
    if |s| > 0 && AllDigits(s) then Some(DigitsValue(s)) else None
  }

  lemma {:induction false} ParseFormatNat(n: nat)
    ensures ParseDecimal(FormatNat(n)) == Some(n)
  {
    if n < 10 {
      var s := FormatNat(n);
      assert s == [DigitChar(n)] && s[..0] == [];
      assert DigitsValue(s) == DigitsValue([]) * 10 + (s[0] as int - '0' as int);
    } else {
      ParseFormatNat(n / 10);
      var s := FormatNat(n);
      assert s[..|s| - 1] == FormatNat(n / 10);
    }
  }

  /** The name of rotation slot `index`: `<name>.<index>`. */
  function LogFileName(name: string, index: int): (s: string)
    ensures |s| >= |name| + 2 && s[..|name| + 1] == name + "."
    ensures index >= 0 ==> ParseDecimal(s[|name| + 1..]) == Some(index)
  {
    var s := name + "." + FormatInt(index);
    assert s[|name| + 1..] == FormatInt(index);
    if index >= 0 then ParseFormatNat(index); s else s
  }

  /**
   * The slot a directory entry names, when it names one: the entry starts
   * with `<name>.` and the rest is a decimal index below `backups`.
   */
  function ParseSlot(entry: string, name: string, backups: int): (r: Option<nat>)
    ensures r.Some? ==> r.value < backups && |name| + 1 < |entry| && entry[..|name| + 1] == name + "."
    ensures r.Some? ==> ParseDecimal(entry[|name| + 1..]) == Some(r.value)
    ensures |name| + 1 <= |entry| && entry[..|name| + 1] == name + "." &&
            ParseDecimal(entry[|name| + 1..]).Some? && ParseDecimal(entry[|name| + 1..]).value < backups ==>
              r == ParseDecimal(entry[|name| + 1..])
  {
    var prefix := name + ".";
    if |prefix| <= |entry| && entry[..|prefix|] == prefix then
      match ParseDecimal(entry[|prefix|..])
      case Some(n) => if n < backups then Some(n) else None
      case None => None
    else None
  }

  /** Every file the logger creates is recognised by recovery as its own slot. */
  lemma SlotNameRoundTrip(name: string, backups: int, i: int)
    requires 0 <= i < backups
    ensures ParseSlot(LogFileName(name, i), name, backups) == Some(i)
  {
  }

  /** Distinct slots live in distinct files. */
  lemma SlotNamesDistinct(name: string, i: nat, j: nat)
    requires i != j
    ensures LogFileName(name, i) != LogFileName(name, j)
  {
  }
}
