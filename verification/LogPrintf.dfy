/** Integer conversion in the boot-time printf: the text it emits is undone by
    parsing, for every 32-bit word. */

module Numerals {
  import opened Division

  function Pow(base: nat, k: nat): nat {
    if k == 0 then 1 else base * Pow(base, k - 1)
  }

  function DigitCount(v: nat, base: nat): (n: nat)
    requires base >= 2
    ensures n >= 1
    decreases v
  {
    if v < base then 1 else 1 + DigitCount(Quo(v, base), base)
  }

  /** The `k` low digits of `v`, most significant first. */
  function Fixed(v: nat, k: nat, base: nat): (s: seq<nat>)
    requires base >= 2
    ensures |s| == k
    decreases k
  {
    if k == 0 then [] else Fixed(Quo(v, base), k - 1, base) + [Rem(v, base)]
  }

  function Numeral(v: nat, base: nat): seq<nat>
    requires base >= 2
  {
    Fixed(v, DigitCount(v, base), base)
  }

  function Scale(base: nat, x: nat): nat {
    base * x
  }

  function Evaluate(s: seq<nat>, base: nat): nat {
    if s == [] then 0 else Scale(base, Evaluate(s[..|s| - 1], base)) + s[|s| - 1]
  }

  lemma {:induction false} PowPositive(base: nat, k: nat)
    requires base >= 2
    ensures Pow(base, k) >= 1
  {
    if k > 0 {
      PowPositive(base, k - 1);
    }
  }

  lemma EvaluateAppend(t: seq<nat>, d: nat, base: nat)
    ensures Evaluate(t + [d], base) == Scale(base, Evaluate(t, base)) + d
  {
    hide Scale;
    assert (t + [d])[..|t|] == t;
  }

  lemma SingleDigit(v: nat, base: nat)
    requires base >= 2 && v < base
    ensures Numeral(v, base) == [v] && Evaluate([v], base) == v
  {
    hide Quo, Rem;
    assert Fixed(Quo(v, base), 0, base) == [];
    EvaluateAppend([], v, base);
    assert [] + [v] == [v];
  }

  /** A numeral has the right value, no leading zero and digits below the base. */
  lemma {:induction false} NumeralIsExact(v: nat, base: nat)
    requires base >= 2
    ensures var s := Numeral(v, base);
            && Evaluate(s, base) == v
            && (forall i :: 0 <= i < |s| ==> s[i] < base)
            && (s[0] == 0 ==> v == 0 && |s| == 1)
    decreases v
  {
    hide Quo, Rem, Evaluate;
    if v < base {
      SingleDigit(v, base);
    } else {
      var t := Numeral(Quo(v, base), base);
      NumeralIsExact(Quo(v, base), base);
      assert Numeral(v, base) == t + [Rem(v, base)];
      EvaluateAppend(t, Rem(v, base), base);
      Divided(v, base);
    }
  }

  lemma ZeroIsOneDigit(v: nat, base: nat)
    requires base >= 2
    ensures Numeral(v, base)[0] == 0 <==> v == 0
    ensures v == 0 ==> Numeral(v, base) == [0]
  {
    hide Quo, Rem, Evaluate;
    NumeralIsExact(v, base);
    SingleDigit(0, base);
  }

  /** The digit at the highest place, and what is left below it. */
  lemma {:induction false} FixedFromTop(v: nat, k: nat, base: nat)
    requires base >= 2 && v < Pow(base, k + 1)
    ensures Pow(base, k) >= 1 && Quo(v, Pow(base, k)) < base
    ensures Fixed(v, k + 1, base) == [Quo(v, Pow(base, k))] + Fixed(Rem(v, Pow(base, k)), k, base)
    decreases k
  {
    PowPositive(base, k);
    hide Quo, Rem;
    if k == 0 {
      assert Pow(base, 1) == base * Pow(base, 0) == base;
      Quotient(v, 1, v, 0);
      assert Fixed(Quo(v, base), 0, base) == [];
    } else {
      var p := Pow(base, k - 1);
      PowPositive(base, k - 1);
      SplitDivision(v, base, p);
      DivideBound(v, base, Pow(base, k));
      FixedFromTop(Quo(v, base), k - 1, base);
      assert Fixed(v, k + 1, base) == Fixed(Quo(v, base), k, base) + [Rem(v, base)];
    }
  }

  lemma {:induction false} CountBound(v: nat, base: nat)
    requires base >= 2
    ensures v < Pow(base, DigitCount(v, base))
    decreases v
  {
    hide Quo, Rem;
    if v < base {
      assert Pow(base, 1) == base * Pow(base, 0) == base;
    } else {
      var q := Quo(v, base);
      CountBound(q, base);
      Divided(v, base);
      MulMonotone(base, q + 1, Pow(base, DigitCount(q, base)));
      Distribute(base, q + 1, 1);
    }
  }
}

module LogPrintf {
  import opened Division
  import opened Numerals
  import opened Words

  const SIGN_BIT := 0x8000_0000

  /** What the conversion letter and its prefix select; `before` is -1 when no width was given. */
  datatype Format = Format(base: nat, signed: bool, upper: bool, zeros: bool, before: int)

  predicate Printable(f: Format) {
    2 <= f.base <= 16 && f.before >= -1
  }

  function DigitChar(d: nat, upper: bool): char
    requires d < 16
  {
    (if d < 10 then 48 + d else if upper then 55 + d else 87 + d) as char
  }

  predicate Printables(ds: seq<nat>) {
    forall i :: 0 <= i < |ds| ==> ds[i] < 16
  }

  function Chars(ds: seq<nat>, upper: bool): (s: string)
    requires Printables(ds)
    ensures |s| == |ds|
  {
    seq(|ds|, i requires 0 <= i < |ds| => DigitChar(ds[i], upper))
  }

  function Repeat(c: char, r: int): string {
    if r > 0 then seq(r, _ => c) else []
  }

  predicate Negative(w: u32, f: Format) {
    f.signed && w >= SIGN_BIT
  }

  /** The number the argument word stands for. */
  function Value(w: u32, f: Format): int {
    if Negative(w, f) then w - WRAP else w
  }

  function Magnitude(w: u32, f: Format): u32 {
    if Negative(w, f) then WRAP - w else w
  }

  lemma DigitsFit(v: nat, base: nat)
    requires 2 <= base <= 16
    ensures Printables(Numeral(v, base))
  {
    hide Quo, Rem;
    NumeralIsExact(v, base);
  }

  function DigitText(w: u32, f: Format): (s: string)
    requires Printable(f)
    ensures |s| == DigitCount(Magnitude(w, f), f.base)
  {
    DigitsFit(Magnitude(w, f), f.base);
    Chars(Numeral(Magnitude(w, f), f.base), f.upper)
  }

  function SignText(w: u32, f: Format): string {
    if Negative(w, f) then "-" else ""
  }

  /** The emitted text: sign, then zeros, then digits; or spaces, sign, digits. */
  function Text(w: u32, f: Format): string
    requires Printable(f)
  {
    var sign, digits := SignText(w, f), DigitText(w, f);
    var pad := f.before - |sign| - |digits|;
    if f.zeros then sign + Repeat('0', pad) + digits else Repeat(' ', pad) + sign + digits
  }

  // ------------------------------------------------------------ the conversion

  method RepChar(c: char, r: int) returns (out: string)
    ensures out == Repeat(c, r)
  {
    out := [];
    var left := r;
    while left > 0
      invariant r <= 0 ==> left == r && out == []
      invariant r > 0 ==> 0 <= left && out == Repeat(c, r - left)
    {
      out := out + [c];
      left := left - 1;
    }
  }

  lemma CountStart(v: nat, base: nat)
    requires base >= 2
    ensures Pow(base, 0) == 1
    ensures DigitCount(v, base) == 1 + if Quo(v, base) == 0 then 0 else DigitCount(Quo(v, base), base)
  {
    hide Quo;
  }

  lemma CountStep(v: nat, base: nat, p: nat, k: nat)
    requires base >= 2 && p >= 1 && p == Pow(base, k) && Quo(v, p * base) > 0
    ensures p * base <= v && p * base == Pow(base, k + 1)
    ensures Quo(Quo(v, p * base), base) == Quo(v, p * base * base)
    ensures var w := Quo(v, p * base);
            DigitCount(w, base) == 1 + if Quo(w, base) == 0 then 0 else DigitCount(Quo(w, base), base)
  {
    hide Quo, Rem, DigitCount;
    MulMonotone(base, 1, p);
    assert Pow(base, k + 1) == p * base;
    SplitDivision(v, p * base, base);
    CountStart(Quo(v, p * base), base);
  }

  /** A product of 32-bit words. */
  function Times(p: u32, base: nat): (r: u32)
    ensures p * base < WRAP ==> r == p * base
  {
    (p * base) % WRAP
  }

  /** Counts digits and finds the largest place value, which never wraps. */
  method CountDigits(v: u32, base: nat) returns (digitCount: nat, p: u32)
    requires 2 <= base <= 16
    ensures digitCount == DigitCount(v, base) && p == Pow(base, digitCount - 1)
  {
    CountStart(v, base);
    hide Quo, Rem, Pow, DigitCount, Times;
    var vShrink := Quo(v, base);
    p := 1;
    digitCount := 1;
    while vShrink > 0
      invariant digitCount >= 1 && 1 <= p < WRAP && p == Pow(base, digitCount - 1)
      invariant vShrink == Quo(v, p * base)
      invariant DigitCount(v, base) == digitCount + if vShrink == 0 then 0 else DigitCount(vShrink, base)
      decreases vShrink
    {
      CountStep(v, base, p, digitCount - 1);
      digitCount := digitCount + 1;
      p := Times(p, base);
      vShrink := Quo(vShrink, base);
    }
  }

  method PrintDigits(v: u32, p: u32, base: nat, upper: bool, ghost k: nat) returns (out: string)
    requires 2 <= base <= 16 && k >= 1 && p == Pow(base, k - 1) && v < Pow(base, k)
    requires Printables(Fixed(v, k, base))
    ensures out == Chars(Fixed(v, k, base), upper)
  {
    hide Quo, Rem, Fixed, Pow, Chars, Printables;
    out := [];
    var rest: nat, place: nat := v, p;
    ghost var left := k;
    while place != 0
      invariant 0 <= left <= k && rest < Pow(base, left)
      invariant place == if left == 0 then 0 else Pow(base, left - 1)
      invariant Printables(Fixed(rest, left, base))
      invariant out + Chars(Fixed(rest, left, base), upper) == Chars(Fixed(v, k, base), upper)
      decreases left
    {
      FixedFromTop(rest, left - 1, base);
      CharsHead(Quo(rest, place), Fixed(Rem(rest, place), left - 1, base), upper);
      PowStep(base, if left >= 2 then left - 2 else 0);
      var c := EmitDigit(Quo(rest, place), upper);
      out := out + [c];
      rest := Rem(rest, place);
      place := Quo(place, base);
      left := left - 1;
    }
    if left > 0 {
      PowPositive(base, left - 1);
    }
    assert Chars(Fixed(rest, left, base), upper) == [];
  }

  method EmitDigit(v: nat, upper: bool) returns (c: char)
    requires v < 16
    ensures c == DigitChar(v, upper)
  {
    var d := v + 48;
    if d > 57 {
      d := d + (if upper then 65 else 97) - 48 - 10;
    }
    c := d as char;
  }

  lemma CharsHead(d: nat, ds: seq<nat>, upper: bool)
    requires Printables([d] + ds)
    ensures d < 16 && Printables(ds)
    ensures Chars([d] + ds, upper) == [DigitChar(d, upper)] + Chars(ds, upper)
  {
    assert ([d] + ds)[0] == d;
    assert forall i :: 0 <= i < |ds| ==> ([d] + ds)[i + 1] == ds[i];
  }

  lemma PowStep(base: nat, k: nat)
    requires base >= 2
    ensures Quo(Pow(base, k + 1), base) == Pow(base, k)
    ensures Quo(Pow(base, 0), base) == 0
  {
    Quotient(Pow(base, k + 1), base, Pow(base, k), 0);
  }

  /** The characters before the digits, which `before` leaves room for. */
  method PrintLead(zeros: bool, sign: bool, room: int) returns (out: string)
    ensures var minus := if sign then "-" else "";
            var pad := room - |minus|;
            out == if zeros then minus + Repeat('0', pad) else Repeat(' ', pad) + minus
  {
    var before, lead := room, "";
    out := [];
    if zeros {
      if sign {
        out := out + "-";
        before := before - 1;
      }
      lead := RepChar('0', before);
      out := out + lead;
    } else {
      if sign {
        before := before - 1;
      }
      lead := RepChar(' ', before);
      out := out + lead;
      if sign {
        out := out + "-";
      }
    }
  }

  /** The integer case of alt_log_private_printf. */
  method PrintInteger(w: u32, f: Format) returns (out: string)
    requires Printable(f)
    ensures out == Text(w, f)
  {
    hide Quo, Rem, DigitCount, Fixed, Pow, Printables, Chars;
    var v, sign := w, false;
    if f.signed && w >= SIGN_BIT {
      v := (WRAP - 1 - v + 1) % WRAP;
      sign := true;
    }
    assert v == Magnitude(w, f);
    var digitCount, p := CountDigits(v, f.base);
    out := PrintLead(f.zeros, sign, f.before - digitCount);
    CountBound(v, f.base);
    DigitsFit(v, f.base);
    var digits := PrintDigits(v, p, f.base, f.upper, digitCount);
    out := out + digits;
  }

  // ------------------------------------------------------------ reading it back

  function DigitValue(c: char): Option<nat> {
    if '0' <= c <= '9' then Some(c as int - 48)
    else if 'A' <= c <= 'F' then Some(c as int - 55)
    else if 'a' <= c <= 'f' then Some(c as int - 87)
    else None
  }

  /** One or more digits below the base, most significant first. */
  function ParseNat(s: string, base: nat): Option<nat>
    decreases |s|
  {
    if s == [] then None
    else
      var d := DigitValue(s[|s| - 1]);
      if d.None? || d.value >= base then None
      else if |s| == 1 then d
      else
        var high := ParseNat(s[..|s| - 1], base);
        if high.None? then None else Some(Scale(base, high.value) + d.value)
  }

  /** Optional spaces, an optional minus sign, and a numeral. */
  function Parse(s: string, base: nat): Option<int>
    decreases |s|
  {
    if s != [] && s[0] == ' ' then Parse(s[1..], base)
    else if s != [] && s[0] == '-' then
      var n := ParseNat(s[1..], base);
      if n.None? then None else Some(0 - n.value as int)
    else
      var n := ParseNat(s, base);
      if n.None? then None else Some(n.value)
  }

  lemma DigitReadsBack(d: nat, upper: bool)
    requires d < 16
    ensures DigitValue(DigitChar(d, upper)) == Some(d)
    ensures DigitChar(d, upper) == '0' <==> d == 0
    ensures DigitChar(d, upper) != ' ' && DigitChar(d, upper) != '-'
  {
  }

  /** The last digit of a numeral, after what comes before it. */
  lemma ParseLast(s: string, base: nat, d: nat)
    requires s != [] && DigitValue(s[|s| - 1]) == Some(d) && d < base
    ensures |s| == 1 ==> ParseNat(s, base) == Some(d)
    ensures |s| > 1 && ParseNat(s[..|s| - 1], base).Some? ==>
              ParseNat(s, base) == Some(Scale(base, ParseNat(s[..|s| - 1], base).value) + d)
  {
    hide DigitValue, Scale;
  }

  lemma CharsFront(ds: seq<nat>, upper: bool)
    requires ds != [] && Printables(ds)
    ensures var n := |ds| - 1;
            && Printables(ds[..n]) && ds[n] < 16
            && Chars(ds, upper)[n] == DigitChar(ds[n], upper) && Chars(ds, upper)[..n] == Chars(ds[..n], upper)
  {
    hide DigitChar;
  }

  lemma {:induction false} ParseChars(ds: seq<nat>, base: nat, upper: bool)
    requires ds != [] && 2 <= base <= 16 && forall i :: 0 <= i < |ds| ==> ds[i] < base
    ensures Printables(ds) && ParseNat(Chars(ds, upper), base) == Some(Evaluate(ds, base))
    decreases |ds|
  {
    var n := |ds| - 1;
    assert Printables(ds);
    hide Evaluate, Scale, DigitValue, DigitChar, ParseNat, Chars, Printables;
    var s, t := Chars(ds, upper), ds[..n];
    DigitReadsBack(ds[n], upper);
    CharsFront(ds, upper);
    ParseLast(s, base, ds[n]);
    EvaluateAppend(t, ds[n], base);
    assert ds == t + [ds[n]];
    if n == 0 {
      assert t == [];
      EvaluateEmpty(base);
    } else {
      ParseChars(t, base, upper);
    }
  }

  lemma EvaluateEmpty(base: nat)
    ensures Evaluate([], base) == 0 && Scale(base, 0) == 0
  {
  }

  lemma {:induction false} LeadingZeros(n: nat, ds: seq<nat>, base: nat)
    ensures Evaluate(seq(n, _ => 0) + ds, base) == Evaluate(ds, base)
    decreases |ds|, n
  {
    hide Scale;
    var zs: seq<nat> := seq(n, _ => 0);
    if ds == [] {
      EvaluateEmpty(base);
      assert zs + ds == zs;
      if n > 0 {
        var ys: seq<nat> := seq(n - 1, _ => 0);
        assert zs == ys + [0] && ys + [] == ys;
        EvaluateAppend(ys, 0, base);
        LeadingZeros(n - 1, [], base);
      }
    } else {
      var t, d := ds[..|ds| - 1], ds[|ds| - 1];
      assert ds == t + [d] && zs + ds == (zs + t) + [d];
      EvaluateAppend(zs + t, d, base);
      EvaluateAppend(t, d, base);
      LeadingZeros(n, t, base);
    }
  }

  /** Zero padding does not change the number. */
  lemma PaddedDigits(w: u32, f: Format, n: nat)
    requires Printable(f)
    ensures ParseNat(seq(n, _ => '0') + DigitText(w, f), f.base) == Some(Magnitude(w, f))
  {
    hide Quo, Rem, Evaluate, ParseNat;
    var v := Magnitude(w, f);
    var ds := Numeral(v, f.base);
    var zs: seq<nat> := seq(n, _ => 0);
    NumeralIsExact(v, f.base);
    LeadingZeros(n, ds, f.base);
    ParseChars(zs + ds, f.base, f.upper);
    assert Chars(zs + ds, f.upper) == seq(n, _ => '0') + DigitText(w, f);
  }

  lemma {:induction false} SkipSpaces(n: nat, s: string, base: nat)
    ensures Parse(seq(n, _ => ' ') + s, base) == Parse(s, base)
  {
    var t: string := seq(n, _ => ' ') + s;
    if n == 0 {
      assert t == s;
    } else {
      assert t[1..] == seq(n - 1, _ => ' ') + s;
      SkipSpaces(n - 1, s, base);
    }
  }

  /** Parsing undoes printing: every word, base, sign, width and padding. */
  lemma PrintedTextParses(w: u32, f: Format)
    requires Printable(f)
    ensures Parse(Text(w, f), f.base) == Some(Value(w, f))
  {
    hide Quo, Rem, DigitText, SignText, Value, Parse;
    var sign, digits := SignText(w, f), DigitText(w, f);
    var pad := f.before - |sign| - |digits|;
    var n := if pad > 0 then pad else 0;
    if f.zeros {
      ParseSigned(w, f, n);
      assert Text(w, f) == sign + (seq(n, _ => '0') + digits);
    } else {
      ParseSigned(w, f, 0);
      assert seq(0, _ => '0') + digits == digits;
      assert Text(w, f) == seq(n, _ => ' ') + (sign + digits);
      SkipSpaces(n, sign + digits, f.base);
    }
  }

  lemma ParseSigned(w: u32, f: Format, n: nat)
    requires Printable(f)
    ensures Parse(SignText(w, f) + (seq(n, _ => '0') + DigitText(w, f)), f.base) == Some(Value(w, f))
  {
    var sign: string, body: string := SignText(w, f), seq(n, _ => '0') + DigitText(w, f);
    PaddedDigits(w, f, n);
    BodyStartsWithDigit(w, f, n);
    hide ParseNat, DigitText;
    assert sign == [] ==> sign + body == body;
    assert sign != [] ==> (sign + body)[1..] == body && (sign + body)[0] == '-';
  }

  lemma BodyStartsWithDigit(w: u32, f: Format, n: nat)
    requires Printable(f)
    ensures var body: string := seq(n, _ => '0') + DigitText(w, f);
            body != [] && body[0] != ' ' && body[0] != '-'
  {
    DigitsFit(Magnitude(w, f), f.base);
    var ds := Numeral(Magnitude(w, f), f.base);
    DigitReadsBack(ds[0], f.upper);
    hide Quo, Rem, Fixed, DigitCount, DigitChar;
    assert DigitText(w, f)[0] == DigitChar(ds[0], f.upper);
    assert (seq(n, _ => '0') + DigitText(w, f))[0] == if n > 0 then '0' else DigitText(w, f)[0];
  }

  /** The text is as long as its widest obligation. */
  lemma PrintedTextLength(w: u32, f: Format)
    requires Printable(f)
    ensures var least := |SignText(w, f)| + |DigitText(w, f)|;
            |Text(w, f)| == if f.before > least then f.before else least
  {
    hide Quo, Rem, DigitText, SignText, DigitCount;
  }

  /** The digits are those of the requested case. */
  lemma DigitsByName(d: nat, upper: bool)
    requires d < 16
    ensures DigitChar(d, upper) == (if upper then "0123456789ABCDEF" else "0123456789abcdef")[d]
  {
  }

  /** Before the digits there are zeros after the sign, or spaces before it, as
      the format asks, and nothing else. */
  lemma PrintedLead(w: u32, f: Format)
    requires Printable(f)
    ensures var t, lead := Text(w, f), |Text(w, f)| - |DigitText(w, f)|;
            && lead >= (if Value(w, f) < 0 then 1 else 0) && t[lead..] == DigitText(w, f)
            && forall i :: 0 <= i < lead ==>
                 t[i] == if f.zeros then (if i == 0 && Value(w, f) < 0 then '-' else '0')
                         else (if i == lead - 1 && Value(w, f) < 0 then '-' else ' ')
  {
    hide DigitText, DigitCount;
    var sign, digits := SignText(w, f), DigitText(w, f);
    var pad := f.before - |sign| - |digits|;
    assert Text(w, f) == (if f.zeros then sign + Repeat('0', pad) else Repeat(' ', pad) + sign) + digits;
  }

  /** There is a leading zero among the digits only for the number zero, which is one digit. */
  lemma PrintedDigitsAreTight(w: u32, f: Format)
    requires Printable(f)
    ensures DigitText(w, f)[0] == '0' <==> Value(w, f) == 0
    ensures Value(w, f) == 0 ==> DigitText(w, f) == "0"
  {
    hide Quo, Rem, Fixed, DigitCount, DigitChar, DigitValue;
    var ds := Numeral(Magnitude(w, f), f.base);
    DigitsFit(Magnitude(w, f), f.base);
    ZeroIsOneDigit(Magnitude(w, f), f.base);
    DigitReadsBack(ds[0], f.upper);
    assert DigitText(w, f) == Chars(ds, f.upper);
  }
}
