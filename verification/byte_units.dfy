/** `byte_units`: a byte count held in a `size_t`, read from a size string
    with an optional binary unit suffix and shown with the largest unit
    that does not hide significant bytes. */
module ByteUnits {
  import opened Common

  datatype ByteUnits = ByteUnits(v: nat)

  // ---------------------------------------------------------------------
  // Reading the string

  /** The C-string view of a `std::string`: `c_str()` is read by `strtoull`
      and by the suffix switch only up to the first NUL. */
  function CStr(s: string): string {
    if s == [] || s[0] == '\0' then [] else [s[0]] + CStr(s[1..])
  }

  /** The view is the longest NUL-free prefix: a prefix without NUL that
      ends at the end of the string or at a NUL. */
  lemma {:induction false} CStrIsNulFreePrefix(s: string)
    ensures CStr(s) <= s
    ensures '\0' !in CStr(s)
    ensures |CStr(s)| < |s| ==> s[|CStr(s)|] == '\0'
    decreases |s|
  {
    if s != [] && s[0] != '\0' {
      CStrIsNulFreePrefix(s[1..]);
      assert s == [s[0]] + s[1..];
    }
  }

  predicate IsDigit(c: char) {
    '0' <= c <= '9'
  }

  predicate AllDigits(s: string) {
    forall i :: 0 <= i < |s| ==> IsDigit(s[i])
  }

  /** How many characters `strtoull(…, 10)` consumes: the longest run of
      decimal digits at the front (its `endptr` offset). */
  function DigitRun(s: string): (n: nat)
    ensures n <= |s|
    ensures AllDigits(s[..n])
    ensures n < |s| ==> !IsDigit(s[n])
  {
    if s == [] || !IsDigit(s[0]) then 0
    else
      var n := 1 + DigitRun(s[1..]);
      assert s[..n] == [s[0]] + s[1..][..n - 1];
      n
  }

  function DigitValue(c: char): (d: nat)
    requires IsDigit(c)
    ensures d < 10
  {
    (c - '0') as nat
  }

  function DigitChar(d: nat): (c: char)
    requires d < 10
    ensures IsDigit(c) && DigitValue(c) == d
  {
    ('0' as int + d) as char
  }

  /** The unbounded value of a run of decimal digits, most significant first. */
  function DecimalValue(ds: string): nat
    requires AllDigits(ds)
  {
    if ds == [] then 0
    else 10 * DecimalValue(ds[..|ds| - 1]) + DigitValue(ds[|ds| - 1])
  }

  /** The shortest decimal spelling of `n`: what `ostream << n` writes. */
  function DecimalString(n: nat): (r: string)
    ensures |r| > 0 && AllDigits(r)
    ensures DecimalValue(r) == n
    ensures r[0] != '0' || r == "0"
  {
    if n < 10 then [DigitChar(n)]
    else
      var p := DecimalString(n / 10);
      var r := p + [DigitChar(n % 10)];
      assert r[..|r| - 1] == p;
      r
  }

  // ---------------------------------------------------------------------
  // The unit suffix

  /** The case label of the suffix switch that `c` enters, counted by how
      many `lshift += 10` statements lie between it and `case 0`:
      't'/'T' enters four, 'g'/'G' three, 'm'/'M' two, 'k'/'K' one.
      None is the `default` label. */
  function SuffixTier(c: char): Option<nat> {
    if c == 't' || c == 'T' then Some(4)
    else if c == 'g' || c == 'G' then Some(3)
    else if c == 'm' || c == 'M' then Some(2)
    else if c == 'k' || c == 'K' then Some(1)
    else None
  }

  /** The shift accumulated by falling through `tier` case bodies, each
      adding 10, down to `case 0`. */
  function Fallthrough(tier: nat): nat {
    if tier == 0 then 0 else 10 + Fallthrough(tier - 1)
  }

  lemma {:induction false} FallthroughAccumulates(tier: nat)
    ensures Fallthrough(tier) == 10 * tier
  {
    if tier > 0 {
      FallthroughAccumulates(tier - 1);
    }
  }

  /** The shift the switch settles on for the text after the digits, or
      None when it returns false: an unknown suffix character, or any
      character after a known one. */
  function UnitShift(rest: string): (r: Option<nat>)
    ensures r.Some? ==> r.value <= 40 && r.value % 10 == 0
  {
    if rest == [] then Some(0)
    else match SuffixTier(rest[0])
      case None => None
      case Some(tier) =>
        FallthroughAccumulates(tier);
        if |rest| > 1 then None else Some(Fallthrough(tier))
  }

  /** The shift each suffix selects: k/K 10, m/M 20, g/G 30, t/T 40, and 0
      for no suffix; every other character is refused. */
  lemma SuffixShifts(c: char)
    ensures UnitShift([]) == Some(0)
    ensures UnitShift([c]) == Some(10) <==> c == 'k' || c == 'K'
    ensures UnitShift([c]) == Some(20) <==> c == 'm' || c == 'M'
    ensures UnitShift([c]) == Some(30) <==> c == 'g' || c == 'G'
    ensures UnitShift([c]) == Some(40) <==> c == 't' || c == 'T'
    ensures UnitShift([c]).None? <==> SuffixTier(c).None?
  {
    FallthroughAccumulates(1);
    FallthroughAccumulates(2);
    FallthroughAccumulates(3);
    FallthroughAccumulates(4);
  }

  // ---------------------------------------------------------------------
  // byte_units::parse

  /** The intended overflow test before `ret << lshift`: the top `lshift`
      bits of the 64-bit `ret` are all zero. */
  predicate FitsAfterShift(ret: nat, lshift: nat)
    requires lshift <= 64
  {
    ret < Pow2(64 - lshift)
  }

  /** What `parse` does once `strtoull` has read the value `ret` and left
      `rest` after it: refuse a range error, read the suffix, test for
      overflow and shift. */
  function Interpret(ret: nat, rest: string): (r: Option<nat>)
    ensures ret >= U64_LIMIT ==> r.None?
    ensures r.Some? ==> r.value < U64_LIMIT
  {
    if ret >= U64_LIMIT then None
    else match UnitShift(rest)
      case None => None
      case Some(lshift) =>
        if FitsAfterShift(ret, lshift) then
          ShiftFits(ret, lshift);
          Some(ret * Pow2(lshift))
        else None
  }

  /** The value `parse` stores, or None where it returns false. */
  function Parse(val: string): (r: Option<nat>)
    ensures r.Some? ==> r.value < U64_LIMIT
  {
    var s := CStr(val);
    var n := DigitRun(s);
    if n == 0 then None else Interpret(DecimalValue(s[..n]), s[n..])
  }

  /** `parse` as a member: on success `v` becomes the parsed value, on
      every false return `v` keeps its previous value. */
  function ParseInto(b: ByteUnits, val: string): (r: (bool, ByteUnits))
    ensures r.0 <==> Parse(val).Some?
    ensures r.0 ==> r.1.v == Parse(val).value
    ensures !r.0 ==> r.1 == b
  {
    match Parse(val)
    case None => (false, b)
    case Some(v) => (true, ByteUnits(v))
  }

  lemma {:induction false} DigitRunSplit(ds: string, rest: string)
    requires AllDigits(ds)
    requires rest == [] || !IsDigit(rest[0])
    ensures DigitRun(ds + rest) == |ds|
    decreases |ds|
  {
    if ds != [] {
      assert (ds + rest)[1..] == ds[1..] + rest;
      DigitRunSplit(ds[1..], rest);
    }
  }

  lemma {:induction false} CStrWithoutNul(s: string)
    requires '\0' !in s
    ensures CStr(s) == s
    decreases |s|
  {
    if s != [] {
      CStrWithoutNul(s[1..]);
    }
  }

  /** The shared first step of the characterisations below: a string made
      of digits and a non-digit tail parses its digits and then the tail. */
  lemma ParseSplit(ds: string, rest: string)
    requires |ds| > 0 && AllDigits(ds)
    requires '\0' !in rest && (rest == [] || !IsDigit(rest[0]))
    ensures Parse(ds + rest) == Interpret(DecimalValue(ds), rest)
  {
    assert '\0' !in ds by {
      forall i | 0 <= i < |ds| ensures ds[i] != '\0' {
        assert IsDigit(ds[i]);
      }
    }
    CStrWithoutNul(ds + rest);
    DigitRunSplit(ds, rest);
    assert (ds + rest)[..|ds|] == ds;
    assert (ds + rest)[|ds|..] == rest;
  }

  /** Digits without a suffix: the value itself, refused only when it
      does not fit in 64 bits. */
  lemma ParseUnsuffixed(ds: string)
    requires |ds| > 0 && AllDigits(ds)
    ensures Parse(ds) == if DecimalValue(ds) < U64_LIMIT then Some(DecimalValue(ds)) else None
  {
    assert ds + [] == ds;
    ParseSplit(ds, []);
    InterpretUnsuffixed(DecimalValue(ds));
  }

  /** With nothing after the digits the shift is 0: the value is kept
      whole when it fits in 64 bits. */
  lemma InterpretUnsuffixed(ret: nat)
    ensures Interpret(ret, []) == if ret < U64_LIMIT then Some(ret) else None
  {
    assert UnitShift([]) == Some(0);
    assert 64 - 0 == 64;
    Pow2Of64();
    assert Pow2(0) == 1;
  }

  /** Digits and one unit suffix: the digits scaled by 1024 per tier,
      refused exactly when the exact product would not fit in 64 bits
      (never truncated). */
  lemma ParseSuffixed(ds: string, c: char)
    requires |ds| > 0 && AllDigits(ds)
    requires SuffixTier(c).Some?
    ensures var scaled := DecimalValue(ds) * Pow1024(SuffixTier(c).value);
      Parse(ds + [c]) == if scaled < U64_LIMIT then Some(scaled) else None
  {
    var tier := SuffixTier(c).value;
    ParseSplit(ds, [c]);
    SuffixTierShift(c);
    InterpretShift(DecimalValue(ds), [c], 10 * tier);
    Pow1024IsPow2(tier);
  }

  lemma SuffixTierShift(c: char)
    requires SuffixTier(c).Some?
    ensures UnitShift([c]) == Some(10 * SuffixTier(c).value)
  {
    FallthroughAccumulates(SuffixTier(c).value);
  }

  /** Once the suffix is known, `Interpret` stores the exact shifted value
      or refuses it; it never keeps a truncated one. */
  lemma InterpretShift(ret: nat, rest: string, lshift: nat)
    requires UnitShift(rest) == Some(lshift)
    ensures Interpret(ret, rest) ==
      if ret * Pow2(lshift) < U64_LIMIT then Some(ret * Pow2(lshift)) else None
  {
    if ret >= U64_LIMIT {
      if Pow2(lshift) > 1 {
        MulLess(1, Pow2(lshift), ret);
      }
    } else {
      ShiftFits(ret, lshift);
    }
  }

  /** For a suffix, `parse` fails exactly when `ret` has a bit set among
      its top `lshift` bits, that is when `ret >= 2^(64 - lshift)`. */
  lemma ParseOverflowIff(ds: string, c: char)
    requires |ds| > 0 && AllDigits(ds)
    requires SuffixTier(c).Some?
    ensures Parse(ds + [c]).None? <==> DecimalValue(ds) >= Pow2(64 - 10 * SuffixTier(c).value)
  {
    var lshift := 10 * SuffixTier(c).value;
    ParseSplit(ds, [c]);
    SuffixTierShift(c);
    InterpretShift(DecimalValue(ds), [c], lshift);
    ShiftFits(DecimalValue(ds), lshift);
  }

  /** A string that does not start with a digit consumes nothing and is
      refused. */
  lemma ParseRejectsNoDigits(val: string)
    requires val == [] || !IsDigit(val[0])
    ensures Parse(val) == None
  {
    var s := CStr(val);
    if s != [] {
      CStrIsNulFreePrefix(val);
      assert s[0] == val[0];
    }
  }

  /** A character after a run of digits that names no unit is refused. */
  lemma {:induction false} ParseRejectsUnknownSuffix(ds: string, c: char, tail: string)
    requires |ds| > 0 && AllDigits(ds)
    requires !IsDigit(c) && c != '\0' && SuffixTier(c).None?
    ensures Parse(ds + [c] + tail) == None
  {
    ParseAfterDigits(ds, [c], tail);
    assert UnitShift([c] + CStr(tail)) == None;
  }

  /** Anything after a unit suffix (before a NUL) is refused. */
  lemma {:induction false} ParseRejectsTrailing(ds: string, c: char, d: char, tail: string)
    requires AllDigits(ds)
    requires SuffixTier(c).Some? && d != '\0'
    ensures Parse(ds + [c, d] + tail) == None
  {
    if ds == [] {
      assert (ds + [c, d] + tail)[0] == c;
      ParseRejectsNoDigits(ds + [c, d] + tail);
    } else {
      ParseAfterDigits(ds, [c, d], tail);
      assert UnitShift([c, d] + CStr(tail)) == None;
    }
  }

  lemma DigitsHaveNoNul(ds: string)
    requires AllDigits(ds)
    ensures '\0' !in ds
  {
    forall i | 0 <= i < |ds| ensures ds[i] != '\0' {
      assert IsDigit(ds[i]);
    }
  }

  /** Digits, then NUL-free text that does not start with a digit, then
      anything: the digits are the value and the switch sees the text
      followed by the C-string view of the rest. */
  lemma ParseAfterDigits(ds: string, cs: string, tail: string)
    requires |ds| > 0 && AllDigits(ds)
    requires |cs| > 0 && !IsDigit(cs[0]) && '\0' !in cs
    ensures Parse(ds + cs + tail) == Interpret(DecimalValue(ds), cs + CStr(tail))
  {
    var rest := cs + CStr(tail);
    assert CStr(ds + cs + tail) == ds + rest by {
      DigitsHaveNoNul(ds);
      CStrKeepsPrefix(ds + cs, tail);
    }
    ParseView(ds + cs + tail, ds, rest);
  }

  /** `parse` reads the digits at the front of the C-string view, then
      hands what follows them to the suffix switch. */
  lemma ParseView(val: string, ds: string, rest: string)
    requires |ds| > 0 && AllDigits(ds)
    requires CStr(val) == ds + rest && (rest == [] || !IsDigit(rest[0]))
    ensures Parse(val) == Interpret(DecimalValue(ds), rest)
  {
    DigitRunSplit(ds, rest);
    assert (ds + rest)[..|ds|] == ds;
    assert (ds + rest)[|ds|..] == rest;
  }

  /** Whatever follows a NUL is invisible to `parse`. */
  lemma ParseStopsAtNul(head: string, tail: string)
    requires '\0' !in head
    ensures Parse(head + ['\0'] + tail) == Parse(head)
  {
    CStrKeepsPrefix(head, ['\0'] + tail);
    assert head + ['\0'] + tail == head + (['\0'] + tail);
    CStrWithoutNul(head);
    assert CStr(head + ['\0'] + tail) == head;
  }

  lemma {:induction false} CStrKeepsPrefix(head: string, tail: string)
    requires '\0' !in head
    ensures CStr(head + tail) == head + CStr(tail)
    decreases |head|
  {
    if head != [] {
      var c, h := head[0], head[1..];
      assert head == [c] + h;
      CStrKeepsPrefix(h, tail);
      assert head + tail == [c] + (h + tail);
      CStrCons(c, h + tail);
      assert [c] + (h + CStr(tail)) == head + CStr(tail);
    } else {
      assert head + tail == tail;
    }
  }

  lemma CStrCons(c: char, s: string)
    requires c != '\0'
    ensures CStr([c] + s) == [c] + CStr(s)
  {
    assert ([c] + s)[1..] == s;
  }

  /** The suffix text for a tier, as a user would type it. */
  function SuffixText(tier: nat): string
    requires tier <= 4
  {
    ["", "K", "M", "G", "T"][tier]
  }

  /** Writing a count in decimal with a unit suffix and parsing it back
      yields the count scaled by the unit, or a refusal when that exceeds
      64 bits. */
  lemma ParseRendered(m: nat, tier: nat)
    requires tier <= 4
    ensures var scaled := m * Pow1024(tier);
      Parse(DecimalString(m) + SuffixText(tier)) == if scaled < U64_LIMIT then Some(scaled) else None
  {
    var ds := DecimalString(m);
    if tier == 0 {
      assert ds + SuffixText(0) == ds;
      ParseUnsuffixed(ds);
    } else {
      var c := SuffixText(tier)[0];
      assert SuffixText(tier) == [c];
      assert SuffixTier(c) == Some(tier);
      ParseSuffixed(ds, c);
    }
  }

  /** "0" is accepted, so a block size of zero can reach the write loop. */
  lemma ParseAcceptsZero()
    ensures Parse("0") == Some(0)
  {
    ParseRendered(0, 0);
  }

  // ---------------------------------------------------------------------
  // The overflow test as compiled for a shift count masked to six bits

  /** The test `ret & ~((1ull << (64 - lshift)) - 1)` when the shift count
      is taken modulo 64, as the x86-64 shift instruction does: for
      `lshift == 0` the mask collapses to all ones. */
  predicate OverflowTestOnX86(ret: nat, lshift: nat)
    requires lshift <= 64
  {
    ret / Pow2((64 - lshift) % 64) != 0
  }

  /** With a suffix the masked test is the intended one. */
  lemma OverflowTestOnX86WithSuffix(ret: nat, lshift: nat)
    requires 0 < lshift <= 64
    ensures OverflowTestOnX86(ret, lshift) <==> !FitsAfterShift(ret, lshift)
  {
    var p := Pow2(64 - lshift);
    assert (64 - lshift) % 64 == 64 - lshift;
    if ret < p {
      DivUnique(ret, p, 0, ret);
    } else {
      DivUnique(ret, p, ret / p, ret % p);
      assert ret / p >= 1;
    }
  }

  lemma DecimalValue4096()
    ensures AllDigits("4096") && DecimalValue("4096") == 4096
  {
    assert "4096"[..3] == "409";
    assert "409"[..2] == "40";
    assert "40"[..1] == "4";
  }

  /** Without a suffix the masked test refuses every non-zero value,
      "4096" among them, which the intended test accepts. */
  lemma UnsuffixedRejectedOnX86()
    ensures OverflowTestOnX86(4096, 0)
    ensures FitsAfterShift(4096, 0)
    ensures Parse("4096") == Some(4096)
  {
    Pow2Of64();
    DecimalValue4096();
    ParseUnsuffixed("4096");
  }

  // ---------------------------------------------------------------------
  // operator<<(ostream&, const byte_units&)

  const UNITS: seq<string> := ["B", "KB", "MB", "GB", "TB"]

  /** A count split for display: `number` printed before `UNITS[unit]`. */
  datatype Shown = Shown(number: nat, unit: nat)

  /** Whether the loop body moves a value up one unit: at least 1024, and
      either at least 1 MiB or a whole number of KiB ("preserve
      significant bytes" keeps the rest). */
  predicate MayStep(w: nat) {
    w >= 1024 && (w >= 1048576 || w % 1024 == 0)
  }

  /** `v` after `k` steps of `v >>= 10`. */
  function Scaled(v: nat, k: nat): nat {
    if k == 0 then v else Scaled(v / 1024, k - 1)
  }

  /** `k` shifts by 10 divide by 1024^k. */
  lemma {:induction false} ScaledIsQuotient(v: nat, k: nat)
    ensures Scaled(v, k) == v / Pow1024(k)
    decreases k
  {
    if k > 0 {
      ScaledIsQuotient(v / 1024, k - 1);
      DivDiv(v, 1024, Pow1024(k - 1));
    }
  }

  /** The formatter's loop from `unit`, with `cap` in place of its guard
      `unit < max_units`: divide by 1024 while the value is at least 1024,
      unless it is below 1 MiB and not a multiple of 1024. */
  function FormatLoop(v: nat, unit: nat, cap: nat): (r: Shown)
    requires unit <= cap
    ensures unit <= r.unit <= cap
    ensures r.number == v / Pow1024(r.unit - unit)
    ensures forall k :: 0 <= k < r.unit - unit ==> MayStep(Scaled(v, k))
    ensures r.unit < cap ==> !MayStep(r.number)
    ensures v < 1048576 ==> r.number * Pow1024(r.unit - unit) == v
    decreases v
  {
    if v >= 1024 && unit < cap then
      if v < 1048576 && v % 1024 != 0 then Shown(v, unit)
      else
        var r := FormatLoop(v / 1024, unit + 1, cap);
        QuotientStep(v, r.unit - unit - 1);
        StepsShift(v, r.unit - unit);
        if v < 1048576 then
          StepKeepsBytes(v, r.number, r.unit - unit - 1);
          r
        else r
    else Shown(v, unit)
  }

  /** Dividing by 1024 and then by 1024^k divides by 1024^(k+1). */
  lemma QuotientStep(v: nat, k: nat)
    ensures (v / 1024) / Pow1024(k) == v / Pow1024(k + 1)
  {
    DivDiv(v, 1024, Pow1024(k));
    assert Pow1024(k + 1) == 1024 * Pow1024(k);
  }

  /** A step taken from a whole number of KiB loses no bytes. */
  lemma StepKeepsBytes(v: nat, number: nat, k: nat)
    requires v % 1024 == 0 && number * Pow1024(k) == v / 1024
    ensures number * Pow1024(k + 1) == v
  {
    calc {
      number * Pow1024(k + 1);
      number * (1024 * Pow1024(k));
      1024 * (number * Pow1024(k));
    }
  }

  /** The steps after the first, read from `v / 1024`, are steps of `v`. */
  lemma StepsShift(v: nat, n: nat)
    requires MayStep(v) && n > 0
    requires forall k :: 0 <= k < n - 1 ==> MayStep(Scaled(v / 1024, k))
    ensures forall k :: 0 <= k < n ==> MayStep(Scaled(v, k))
  {
    forall k | 0 < k < n
      ensures MayStep(Scaled(v, k))
    {
      assert Scaled(v, k) == Scaled(v / 1024, k - 1);
    }
  }

  /** The loop's result is the only split that takes allowed steps and
      stops where the loop must: nothing else meets its contract. */
  lemma FormatLoopUnique(v: nat, unit: nat, cap: nat, s: Shown)
    requires unit <= s.unit <= cap
    requires s.number == v / Pow1024(s.unit - unit)
    requires forall k :: 0 <= k < s.unit - unit ==> MayStep(Scaled(v, k))
    requires s.unit < cap ==> !MayStep(s.number)
    ensures s == FormatLoop(v, unit, cap)
  {
    var r := FormatLoop(v, unit, cap);
    if s.unit < r.unit {
      ScaledIsQuotient(v, s.unit - unit);
      assert false;
    } else if r.unit < s.unit {
      ScaledIsQuotient(v, r.unit - unit);
      assert false;
    }
  }

  /** The loop exactly as written: the guard lets `unit` reach
      `max_units`, one past the last entry of `UNITS`. */
  function FormatAsWritten(v: nat): Shown {
    FormatLoop(v, 0, |UNITS|)
  }

  /** The formatter with its guard at the last unit, "TB". */
  function Format(v: nat): (r: Shown)
    ensures r.unit < |UNITS|
  {
    FormatLoop(v, 0, |UNITS| - 1)
  }

  /** Every step of the loop divides by 1024 a value of at least 1024, so
      a value below 1024^(m+1) takes at most m steps. */
  lemma {:induction false} FormatSteps(v: nat, unit: nat, cap: nat, m: nat)
    requires unit <= cap
    requires v < Pow1024(m + 1)
    ensures FormatLoop(v, unit, cap).unit <= unit + m
    decreases v
  {
    if v >= 1024 && unit < cap && !(v < 1048576 && v % 1024 != 0) {
      assert m > 0;
      DivDiv(v, 1024, Pow1024(m));
      assert Pow1024(m + 1) == 1024 * Pow1024(m);
      assert v / 1024 < Pow1024(m);
      FormatSteps(v / 1024, unit + 1, cap, m - 1);
    }
  }

  /** The loop only tells the two guards apart at the fifth step, so
      below 2^50 bytes the source's formatter and the capped one agree and
      the unit index stays inside `UNITS`. */
  lemma FormatAgreesBelow2To50(v: nat)
    requires v < Pow1024(5)
    ensures FormatAsWritten(v) == Format(v)
    ensures FormatAsWritten(v).unit <= 4
  {
    FormatSteps(v, 0, |UNITS|, 4);
    FormatLoopCapIrrelevant(v, 0, 4);
  }

  lemma {:induction false} FormatLoopCapIrrelevant(v: nat, unit: nat, m: nat)
    requires unit <= 4
    requires v < Pow1024(m + 1) && unit + m <= 4
    ensures FormatLoop(v, unit, 5) == FormatLoop(v, unit, 4)
    decreases v
  {
    if v >= 1024 && !(v < 1048576 && v % 1024 != 0) {
      assert m > 0;
      assert unit < 4;
      assert Pow1024(m + 1) == 1024 * Pow1024(m);
      assert v / 1024 < Pow1024(m);
      FormatLoopCapIrrelevant(v / 1024, unit + 1, m - 1);
    }
  }

  /** 2^50 bytes (for instance a `--size` of "1024T") drives the source's
      loop to `unit == 5`, past the end of `UNITS`. */
  lemma FormatAsWrittenOverruns()
    ensures FormatAsWritten(Pow1024(5)) == Shown(1, 5)
    ensures FormatAsWritten(Pow1024(5)).unit >= |UNITS|
    ensures Format(Pow1024(5)) == Shown(1024, 4)
  {
    assert Pow1024(5) == 1125899906842624;
  }

  /** Small values are shown in bytes; multiples of 1024 below 1 MiB move
      up exactly one unit. */
  lemma FormatSmall(v: nat)
    ensures v < 1024 ==> Format(v) == Shown(v, 0)
    ensures 1024 <= v < 1048576 && v % 1024 == 0 ==> Format(v) == Shown(v / 1024, 1)
    ensures 1024 <= v < 1048576 && v % 1024 != 0 ==> Format(v) == Shown(v, 0)
  {
    if 1024 <= v < 1048576 && v % 1024 == 0 {
      assert v / 1024 < 1024;
      assert FormatLoop(v / 1024, 1, 4) == Shown(v / 1024, 1);
    }
  }

  /** The text `operator<<` writes: the shown number in decimal, a
      space, the unit's name. */
  function Display(v: nat): (r: string)
    ensures exists k :: && 0 < k < |r| && AllDigits(r[..k])
                        && DecimalValue(r[..k]) == Format(v).number
                        && (r[0] != '0' || k == 1)
                        && r[k] == ' ' && r[k + 1..] == UNITS[Format(v).unit]
  {
    var f := Format(v);
    var ds := DecimalString(f.number);
    var r := ds + " " + UNITS[f.unit];
    assert r[..|ds|] == ds;
    assert r[|ds| + 1..] == UNITS[f.unit];
    r
  }

  lemma DisplayExamples()
    ensures Display(512) == "512 B"
    ensures Display(4096) == "4 KB"
  {
    assert DecimalString(4) == "4";
    assert DecimalString(512) == "512" by {
      assert DecimalString(51) == "51";
    }
    assert Format(512) == Shown(512, 0);
    assert Format(4096) == Shown(4, 1);
  }
}
